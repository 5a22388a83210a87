/** The slice of `java.time` the core uses: ISO (proleptic Gregorian) dates,
    an already parsed `OffsetDateTime`, its instant, `plusMonths`/`minusMonths`,
    `isBefore`/`plusSeconds`, the strict `yyyy-MM-dd` parse of a day, and the
    two formatters the core prints with. */
module Calendar {
  import opened Results
  import opened Text

  datatype Date = Date(year: int, month: int, day: int)

  /** An `OffsetDateTime`: local date and wall-clock time plus the offset from UTC. */
  datatype DateTime = DateTime(date: Date, hour: int, minute: int, second: int, nano: int, offsetSeconds: int)

  /** A point on the UTC time line, as `OffsetDateTime` compares them. */
  datatype Instant = Instant(epochSecond: int, nano: int)

  const SecondsPerDay := 86400
  const NanosPerSecond := 1000000000
  /** `ZoneOffset` allows at most eighteen hours either way. */
  const MaxOffsetSeconds := 18 * 3600

  predicate IsLeapYear(y: int) {
    y % 4 == 0 && (y % 100 != 0 || y % 400 == 0)
  }

  function DaysInMonth(y: int, m: int): int
    requires 1 <= m <= 12
  {
    if m == 2 then (if IsLeapYear(y) then 29 else 28)
    else if m == 4 || m == 6 || m == 9 || m == 11 then 30
    else 31
  }

  predicate ValidDate(d: Date) {
    1 <= d.month <= 12 && 1 <= d.day <= DaysInMonth(d.year, d.month)
  }

  predicate ValidDateTime(t: DateTime) {
    && ValidDate(t.date)
    && 0 <= t.hour < 24 && 0 <= t.minute < 60 && 0 <= t.second < 60
    && 0 <= t.nano < NanosPerSecond
    && -MaxOffsetSeconds <= t.offsetSeconds <= MaxOffsetSeconds
  }

  // ---------------------------------------------------------------------------
  // Day numbers and instants
  // ---------------------------------------------------------------------------

  /** Days from 0001-01-01 to January 1st of year `y`. */
  function DaysBeforeYear(y: int): int {
    365 * (y - 1) + (y - 1) / 4 - (y - 1) / 100 + (y - 1) / 400
  }

  /** Days from January 1st to the first of month `m`. */
  function DaysBeforeMonth(y: int, m: int): int
    requires 1 <= m <= 12
  {
    var common := [0, 31, 59, 90, 120, 151, 181, 212, 243, 273, 304, 334][m - 1];
    if m > 2 && IsLeapYear(y) then common + 1 else common
  }

  /** `DaysBeforeYear(1970)`: the day number of the Unix epoch. */
  const EpochOffsetDays := 719162

  /** `LocalDate.toEpochDay`. */
  function EpochDay(d: Date): int
    requires 1 <= d.month <= 12
  {
    DaysBeforeYear(d.year) + DaysBeforeMonth(d.year, d.month) + d.day - 1 - EpochOffsetDays
  }

  /** The calendar day after `d`. */
  function NextDay(d: Date): (n: Date)
    requires ValidDate(d)
    ensures ValidDate(n)
  {
    if d.day < DaysInMonth(d.year, d.month) then Date(d.year, d.month, d.day + 1)
    else if d.month < 12 then Date(d.year, d.month + 1, 1)
    else Date(d.year + 1, 1, 1)
  }

  lemma EpochStartsAt1970()
    ensures EpochDay(Date(1970, 1, 1)) == 0
  {
  }

  /** A year has 366 days exactly when it is a leap year. */
  lemma YearLength(y: int)
    ensures DaysBeforeYear(y + 1) - DaysBeforeYear(y) == if IsLeapYear(y) then 366 else 365
  {
    var x := y - 1;
    assert y / 4 - x / 4 == if y % 4 == 0 then 1 else 0;
    assert y / 100 - x / 100 == if y % 100 == 0 then 1 else 0;
    assert y / 400 - x / 400 == if y % 400 == 0 then 1 else 0;
  }

  lemma DaysBeforeNextMonth(y: int, m: int)
    requires 1 <= m < 12
    ensures DaysBeforeMonth(y, m + 1) == DaysBeforeMonth(y, m) + DaysInMonth(y, m)
  {
  }

  lemma DaysBeforeNextYear(y: int)
    ensures DaysBeforeYear(y) + DaysBeforeMonth(y, 12) + DaysInMonth(y, 12) == DaysBeforeYear(y + 1)
  {
    YearLength(y);
  }

  /** Consecutive days have consecutive day numbers, across month and year ends. */
  lemma EpochDayOfNextDay(d: Date)
    requires ValidDate(d)
    ensures EpochDay(NextDay(d)) == EpochDay(d) + 1
  {
    if d.day < DaysInMonth(d.year, d.month) {
    } else if d.month < 12 {
      DaysBeforeNextMonth(d.year, d.month);
    } else {
      DaysBeforeNextYear(d.year);
    }
  }

  /** `OffsetDateTime.toEpochSecond` together with the nanosecond of the second. */
  function InstantOf(t: DateTime): (i: Instant)
    requires ValidDateTime(t)
    ensures i.nano == t.nano
    ensures t.offsetSeconds == 0 ==>
              EpochDay(t.date) * SecondsPerDay <= i.epochSecond < (EpochDay(t.date) + 1) * SecondsPerDay
  {
    Instant(EpochDay(t.date) * SecondsPerDay + t.hour * 3600 + t.minute * 60 + t.second - t.offsetSeconds,
            t.nano)
  }

  /** The offset is subtracted: a wall-clock time at offset `+o` is the
      instant `o` seconds before the same wall-clock time in UTC. */
  lemma OffsetShiftsInstant(t: DateTime)
    requires ValidDateTime(t)
    ensures InstantOf(t).epochSecond == InstantOf(t.(offsetSeconds := 0)).epochSecond - t.offsetSeconds
  {
  }

  /** `OffsetDateTime.isBefore`: strictly earlier on the time line. */
  predicate IsBefore(a: Instant, b: Instant) {
    a.epochSecond < b.epochSecond || (a.epochSecond == b.epochSecond && a.nano < b.nano)
  }

  /** `plusSeconds`, seen on the time line. */
  function PlusSeconds(i: Instant, n: int): Instant {
    Instant(i.epochSecond + n, i.nano)
  }

  // ---------------------------------------------------------------------------
  // plusMonths / minusMonths
  // ---------------------------------------------------------------------------

  /** Months since year 0, January: the quantity `plusMonths` shifts. */
  function MonthIndex(d: Date): int {
    d.year * 12 + d.month - 1
  }

  /** `OffsetDateTime.plusMonths`: move the month, keep the day of month when the
      new month has it and otherwise use the new month's last day; wall-clock
      time and offset are unchanged. */
  function PlusMonths(t: DateTime, n: int): (r: DateTime)
    requires ValidDateTime(t)
    ensures ValidDateTime(r)
    ensures MonthIndex(r.date) == MonthIndex(t.date) + n
    ensures r.date.day <= t.date.day
    ensures r.date.day == t.date.day || r.date.day == DaysInMonth(r.date.year, r.date.month)
    ensures r.(date := t.date) == t
  {
    var total := MonthIndex(t.date) + n;
    var y := total / 12;
    var m := total % 12 + 1;
    var last := DaysInMonth(y, m);
    t.(date := Date(y, m, if t.date.day <= last then t.date.day else last))
  }

  /** `OffsetDateTime.minusMonths`. */
  function MinusMonths(t: DateTime, n: int): (r: DateTime)
    requires ValidDateTime(t)
    ensures ValidDateTime(r)
  {
    PlusMonths(t, -n)
  }

  /** Going forward and back by the same number of months is the identity
      whenever no day had to be clamped. */
  lemma PlusMonthsInverse(t: DateTime, n: int)
    requires ValidDateTime(t) && t.date.day <= 28
    ensures PlusMonths(PlusMonths(t, n), -n) == t
  {
    var u := PlusMonths(t, n);
    var v := PlusMonths(u, -n);
    assert MonthIndex(v.date) == MonthIndex(t.date);
    assert v.date.year == t.date.year && v.date.month == t.date.month;
  }

  // ---------------------------------------------------------------------------
  // Parsing a day: strict ISO_LOCAL_DATE over four-digit years
  // ---------------------------------------------------------------------------

  /** `yyyy-MM-dd` with a real calendar date, as the strict ISO parser demands. */
  function ParseDay(s: string): (r: Option<Date>)
    ensures r.Some? ==> ValidDate(r.value) && 0 <= r.value.year <= 9999
  {
    if |s| == 10 && s[4] == '-' && s[7] == '-'
       && AllDigits(s[..4]) && AllDigits(s[5..7]) && AllDigits(s[8..])
    then
      var d := Date(DigitsValue(s[..4]), DigitsValue(s[5..7]), DigitsValue(s[8..]));
      if ValidDate(d) then Some(d) else None
    else None
  }

  /** `ISO_LOCAL_DATE`'s year: at least four digits, a sign when negative or
      when more than four digits are needed. */
  function IsoYear(y: int): string {
    if y < 0 then "-" + Padded(-y, 4)
    else if y > 9999 then "+" + Decimal(y)
    else Fixed(y, 4)
  }

  /** `DateTimeFormatter.ISO_LOCAL_DATE`. */
  function FormatIsoDate(d: Date): string
    requires ValidDate(d)
  {
    IsoYear(d.year) + "-" + Fixed(d.month, 2) + "-" + Fixed(d.day, 2)
  }

  /** The pieces of `a-b-c` with a four-character `a` and two-character `b`, `c`. */
  lemma DayPieces(a: string, b: string, c: string)
    requires |a| == 4 && |b| == 2 && |c| == 2
    ensures var s := a + "-" + b + "-" + c;
            |s| == 10 && s[4] == '-' && s[7] == '-' && s[..4] == a && s[5..7] == b && s[8..] == c
  {
  }

  /** Printing a four-digit-year date and parsing it back gives the date. */
  lemma ParseFormattedDay(d: Date)
    requires ValidDate(d) && 0 <= d.year <= 9999
    ensures ParseDay(FormatIsoDate(d)) == Some(d)
  {
    var y4, m2, d2 := Fixed(d.year, 4), Fixed(d.month, 2), Fixed(d.day, 2);
    assert FormatIsoDate(d) == y4 + "-" + m2 + "-" + d2;
    DayPieces(y4, m2, d2);
    FixedValue(d.year, 4);
    FixedValue(d.month, 2);
    FixedValue(d.day, 2);
  }

  /** Every day string the parser accepts is the canonical print of its date. */
  lemma FormatParsedDay(s: string)
    requires ParseDay(s).Some?
    ensures FormatIsoDate(ParseDay(s).value) == s
  {
    var y4, m2, d2 := s[..4], s[5..7], s[8..];
    var d := ParseDay(s).value;
    DayJoin(s);
    FixedOfValue(y4);
    FixedOfValue(m2);
    FixedOfValue(d2);
    assert IsoYear(d.year) == y4;
  }

  /** An accepted day is its three digit groups joined by dashes. */
  lemma DayJoin(s: string)
    requires ParseDay(s).Some?
    ensures AllDigits(s[..4]) && AllDigits(s[5..7]) && AllDigits(s[8..])
    ensures ParseDay(s).value == Date(DigitsValue(s[..4]), DigitsValue(s[5..7]), DigitsValue(s[8..]))
    ensures s == s[..4] + "-" + s[5..7] + "-" + s[8..]
  {
  }

  // ---------------------------------------------------------------------------
  // The two formatters
  // ---------------------------------------------------------------------------

  /** Pattern `yyyy` prints the year of era, at least four digits, with a plus
      sign once more than four are needed; there is no era marker. */
  function YearOfEra(y: int): string {
    var yoe := if y >= 1 then y else 1 - y;
    if yoe > 9999 then "+" + Decimal(yoe) else Fixed(yoe, 4)
  }

  /** A separator followed by a two-digit field and the rest of the text. */
  function Field(sep: char, v: nat, rest: string): string {
    [sep] + Fixed(v, 2) + rest
  }

  function LocalFields(t: DateTime): seq<int> {
    [t.date.year, t.date.month, t.date.day, t.hour, t.minute, t.second]
  }

  /** The separator printed before field `k` of `LocalFields`. */
  function Separator(k: nat): char {
    if k <= 2 then '-' else if k == 3 then 'T' else ':'
  }

  /** The local print from field `k` (month = 1, ..., second = 5) onwards. */
  function LocalText(t: DateTime, k: nat): string
    requires ValidDateTime(t) && 1 <= k <= 6
    decreases 6 - k
  {
    if k == 6 then [] else Field(Separator(k), LocalFields(t)[k], LocalText(t, k + 1))
  }

  /** Pattern `yyyy-MM-dd'T'HH:mm:ss`: the local date and wall-clock time;
      the fraction of a second and the offset are not printed. */
  function FormatLocal(t: DateTime): string
    requires ValidDateTime(t)
  {
    YearOfEra(t.date.year) + LocalText(t, 1)
  }

  lemma {:induction false} LocalTextOfFields(a: DateTime, b: DateTime, k: nat)
    requires ValidDateTime(a) && ValidDateTime(b) && 1 <= k <= 6
    requires LocalFields(a) == LocalFields(b)
    ensures LocalText(a, k) == LocalText(b, k)
    decreases 6 - k
  {
    if k < 6 { LocalTextOfFields(a, b, k + 1); }
  }

  /** The local print depends on the local date and time only: the fraction of
      a second and the offset change nothing, and no conversion to UTC is made. */
  lemma FormatLocalIgnoresOffset(t: DateTime, nano: int, offsetSeconds: int)
    requires ValidDateTime(t) && ValidDateTime(t.(nano := nano, offsetSeconds := offsetSeconds))
    ensures FormatLocal(t.(nano := nano, offsetSeconds := offsetSeconds)) == FormatLocal(t)
  {
    LocalTextOfFields(t, t.(nano := nano, offsetSeconds := offsetSeconds), 1);
  }

  /** The nanosecond of second as `ISO_LOCAL_TIME` prints it: nothing when zero,
      otherwise a point and nine digits with the trailing zeros removed. */
  function Fraction(nano: nat): string
    requires nano < NanosPerSecond
  {
    if nano == 0 then "" else "." + DropTrailingZeros(Fixed(nano, 9))
  }

  function DropTrailingZeros(s: string): (r: string)
    ensures |r| <= |s| && s == r + s[|r|..]
    ensures forall k :: |r| <= k < |s| ==> s[k] == '0'
    ensures r == [] || r[|r| - 1] != '0'
  {
    if s == [] || s[|s| - 1] != '0' then s else DropTrailingZeros(s[..|s| - 1])
  }

  /** `appendOffsetId`: `Z` for UTC, otherwise `+HH:MM`, with `:ss` when the
      offset has seconds. */
  function OffsetId(o: int): string {
    if o == 0 then "Z"
    else
      var a := if o < 0 then -o else o;
      (if o < 0 then "-" else "+") + Padded(a / 3600, 2) + ":" + Fixed(a / 60 % 60, 2)
        + (if a % 60 != 0 then ":" + Fixed(a % 60, 2) else "")
  }

  /** `DateTimeFormatter.ISO_OFFSET_DATE_TIME`. */
  function FormatIsoOffset(t: DateTime): string
    requires ValidDateTime(t)
  {
    FormatIsoDate(t.date) + "T" + Fixed(t.hour, 2) + ":" + Fixed(t.minute, 2) + ":" + Fixed(t.second, 2)
      + Fraction(t.nano) + OffsetId(t.offsetSeconds)
  }

  /** Midnight UTC of a day prints as the day followed by `T00:00:00Z`. */
  lemma MidnightText(day: Date)
    requires ValidDate(day)
    ensures FormatIsoOffset(DateTime(day, 0, 0, 0, 0, 0)) == FormatIsoDate(day) + "T00:00:00Z"
  {
    assert Fixed(0, 2) == "00";
  }

  // ---------------------------------------------------------------------------
  // The local print sorts chronologically
  // ---------------------------------------------------------------------------

  /** Lexicographic order on sequences of integers of equal length. */
  predicate IntsNotAfter(a: seq<int>, b: seq<int>)
    requires |a| == |b|
  {
    a == [] || a[0] < b[0] || (a[0] == b[0] && IntsNotAfter(a[1..], b[1..]))
  }

  /** `a`'s local wall-clock time is not later than `b`'s, to the second. */
  predicate LocalNotAfter(a: DateTime, b: DateTime) {
    IntsNotAfter(LocalFields(a), LocalFields(b))
  }

  lemma FieldOrder(sep: char, a: nat, b: nat, r1: string, r2: string)
    requires a < 100 && b < 100
    ensures Le(Field(sep, a, r1), Field(sep, b, r2)) <==> a < b || (a == b && Le(r1, r2))
  {
    assert Field(sep, a, r1) == [sep] + (Fixed(a, 2) + r1);
    assert Field(sep, b, r2) == [sep] + (Fixed(b, 2) + r2);
    LeAfterCommonPrefix([sep], Fixed(a, 2) + r1, Fixed(b, 2) + r2);
    LeEqualLengthPrefix(Fixed(a, 2), r1, Fixed(b, 2), r2);
    FixedOrder(a, b, 2);
    FixedInjective(a, b, 2);
  }

  lemma {:induction false} LocalTextOrder(a: DateTime, b: DateTime, k: nat)
    requires ValidDateTime(a) && ValidDateTime(b) && 1 <= k <= 6
    ensures Le(LocalText(a, k), LocalText(b, k)) <==> IntsNotAfter(LocalFields(a)[k..], LocalFields(b)[k..])
    decreases 6 - k
  {
    var x, y := LocalFields(a), LocalFields(b);
    if k < 6 {
      LocalTextOrder(a, b, k + 1);
      FieldOrder(Separator(k), x[k], y[k], LocalText(a, k + 1), LocalText(b, k + 1));
      assert x[k..][1..] == x[k + 1..] && y[k..][1..] == y[k + 1..];
    }
  }

  /** For four-digit years, comparing two local prints as strings is comparing
      the local wall-clock times they show. */
  lemma FormatLocalOrder(a: DateTime, b: DateTime)
    requires ValidDateTime(a) && ValidDateTime(b)
    requires 1 <= a.date.year <= 9999 && 1 <= b.date.year <= 9999
    ensures Le(FormatLocal(a), FormatLocal(b)) <==> LocalNotAfter(a, b)
  {
    var x, y := LocalFields(a), LocalFields(b);
    LocalTextOrder(a, b, 1);
    LeEqualLengthPrefix(Fixed(a.date.year, 4), LocalText(a, 1), Fixed(b.date.year, 4), LocalText(b, 1));
    FixedOrder(a.date.year, b.date.year, 4);
    FixedInjective(a.date.year, b.date.year, 4);
  }
}
