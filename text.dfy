/** Java string behaviour the core relies on: `String.compareTo` order,
    fixed-width decimal digits as printed by `DateTimeFormatter`, and
    `String.trim`. Characters compare by code point. */
module Text {

  // ---------------------------------------------------------------------------
  // Lexicographic order (String.compareTo(a, b) <= 0)
  // ---------------------------------------------------------------------------

  /** `a` sorts no later than `b`: a prefix sorts first, otherwise the first
      differing character decides. */
  predicate Le(a: string, b: string)
    decreases |a|
  {
    a == [] || (b != [] && (a[0] < b[0] || (a[0] == b[0] && Le(a[1..], b[1..]))))
  }

  predicate Lt(a: string, b: string) {
    Le(a, b) && a != b
  }

  lemma {:induction false} LeReflexive(a: string)
    ensures Le(a, a)
    decreases |a|
  {
    if a != [] { LeReflexive(a[1..]); }
  }

  lemma {:induction false} LeTotal(a: string, b: string)
    ensures Le(a, b) || Le(b, a)
    decreases |a|
  {
    if a != [] && b != [] && a[0] == b[0] { LeTotal(a[1..], b[1..]); }
  }

  lemma {:induction false} LeAntisymmetric(a: string, b: string)
    requires Le(a, b) && Le(b, a)
    ensures a == b
    decreases |a|
  {
    if a != [] && b != [] {
      LeAntisymmetric(a[1..], b[1..]);
      assert a == [a[0]] + a[1..] && b == [b[0]] + b[1..];
    }
  }

  lemma {:induction false} LeTransitive(a: string, b: string, c: string)
    requires Le(a, b) && Le(b, c)
    ensures Le(a, c)
    decreases |a|
  {
    if a != [] && b != [] && c != [] && a[0] == b[0] == c[0] {
      LeTransitive(a[1..], b[1..], c[1..]);
    }
  }

  /** Comparing two strings that share a prefix is comparing what follows it. */
  lemma {:induction false} LeAfterCommonPrefix(p: string, a: string, b: string)
    ensures Le(p + a, p + b) <==> Le(a, b)
    decreases |p|
  {
    if p == [] {
      assert p + a == a && p + b == b;
    } else {
      assert (p + a)[1..] == p[1..] + a && (p + b)[1..] == p[1..] + b;
      LeAfterCommonPrefix(p[1..], a, b);
    }
  }

  /** A string sorts no later than any string it is a prefix of. */
  lemma {:induction false} LePrefix(p: string, s: string)
    ensures Le(p, p + s)
    decreases |p|
  {
    if p != [] {
      assert (p + s)[1..] == p[1..] + s;
      LePrefix(p[1..], s);
    }
  }

  /** At the first difference, the smaller character decides. */
  lemma {:induction false} LeFirstDifference(a: string, b: string, k: nat)
    requires k < |a| && k < |b| && a[..k] == b[..k] && a[k] < b[k]
    ensures Le(a, b) && !Le(b, a)
    decreases k
  {
    if k > 0 {
      assert a[1..][..k - 1] == a[..k][1..];
      assert b[1..][..k - 1] == b[..k][1..];
      LeFirstDifference(a[1..], b[1..], k - 1);
    }
  }

  /** Two strings of equal length, each followed by more text: the first
      decides, and only when they are equal does what follows decide. */
  lemma {:induction false} LeEqualLengthPrefix(x: string, r1: string, y: string, r2: string)
    requires |x| == |y|
    ensures Le(x + r1, y + r2) <==> Lt(x, y) || (x == y && Le(r1, r2))
    decreases |x|
  {
    if x == [] {
      assert x + r1 == r1 && y + r2 == r2;
    } else {
      assert (x + r1)[1..] == x[1..] + r1;
      assert (y + r2)[1..] == y[1..] + r2;
      LeEqualLengthPrefix(x[1..], r1, y[1..], r2);
      if x[0] == y[0] {
        assert x == [x[0]] + x[1..] && y == [y[0]] + y[1..];
        assert x == y <==> x[1..] == y[1..];
      }
    }
  }

  /** Two strings of equal length, each followed by one character. */
  lemma LeSnoc(x: string, y: string, c: char, d: char)
    requires |x| == |y|
    ensures Le(x + [c], y + [d]) <==> Lt(x, y) || (x == y && c <= d)
  {
    LeEqualLengthPrefix(x, [c], y, [d]);
    assert Le([c], [d]) <==> c <= d;
  }

  // ---------------------------------------------------------------------------
  // Decimal digits
  // ---------------------------------------------------------------------------

  predicate IsDigit(c: char) {
    '0' <= c <= '9'
  }

  predicate AllDigits(s: string) {
    forall i :: 0 <= i < |s| ==> IsDigit(s[i])
  }

  function DigitChar(d: int): (c: char)
    requires 0 <= d < 10
    ensures IsDigit(c) && c as int - '0' as int == d
  {
    ('0' as int + d) as char
  }

  function Pow10(k: nat): (p: nat)
    ensures p >= 1
  {
    if k == 0 then 1 else 10 * Pow10(k - 1)
  }

  lemma {:induction false} Pow10Monotonic(j: nat, k: nat)
    requires j <= k
    ensures Pow10(j) <= Pow10(k)
    decreases k
  {
    if j < k { Pow10Monotonic(j, k - 1); }
  }

  /** The last `w` decimal digits of `n`, most significant first. */
  function Fixed(n: nat, w: nat): (s: string)
    ensures |s| == w && AllDigits(s)
  {
    if w == 0 then [] else Fixed(n / 10, w - 1) + [DigitChar(n % 10)]
  }

  /** The number a string of decimal digits denotes. */
  function DigitsValue(s: string): (v: nat)
    requires AllDigits(s)
    ensures v < Pow10(|s|)
  {
    if s == [] then 0
    else DigitsValue(s[..|s| - 1]) * 10 + (s[|s| - 1] as int - '0' as int)
  }

  /** How many digits `n` is written with. */
  function NumDigits(n: nat): (k: nat)
    ensures k >= 1 && n < Pow10(k)
    ensures k == 1 || Pow10(k - 1) <= n
  {
    if n < 10 then 1 else 1 + NumDigits(n / 10)
  }

  /** `n` in decimal without leading zeros (`Long.toString` of a non-negative value). */
  function Decimal(n: nat): string {
    Fixed(n, NumDigits(n))
  }

  /** `n` zero-padded to at least `w` digits, as `DateTimeFormatter` prints a
      field of minimum width `w`. */
  function Padded(n: nat, w: nat): string {
    Fixed(n, if NumDigits(n) < w then w else NumDigits(n))
  }

  /** Reading back `w` fixed digits gives the number when it fits. */
  lemma {:induction false} FixedValue(n: nat, w: nat)
    requires n < Pow10(w)
    ensures DigitsValue(Fixed(n, w)) == n
    decreases w
  {
    if w > 0 {
      var s := Fixed(n, w);
      assert s[..w - 1] == Fixed(n / 10, w - 1);
      FixedValue(n / 10, w - 1);
    }
  }

  /** Writing back the value of a digit string gives the string. */
  lemma {:induction false} FixedOfValue(s: string)
    requires AllDigits(s)
    ensures Fixed(DigitsValue(s), |s|) == s
    decreases |s|
  {
    if s != [] {
      var init := s[..|s| - 1];
      var v := DigitsValue(s);
      assert v / 10 == DigitsValue(init) && v % 10 == s[|s| - 1] as int - '0' as int;
      FixedOfValue(init);
      assert s == init + [s[|s| - 1]];
    }
  }

  lemma FixedInjective(a: nat, b: nat, w: nat)
    requires a < Pow10(w) && b < Pow10(w)
    ensures Fixed(a, w) == Fixed(b, w) <==> a == b
  {
    FixedValue(a, w);
    FixedValue(b, w);
  }

  /** Fixed-width digit strings sort as the numbers they denote. */
  lemma {:induction false} FixedOrder(a: nat, b: nat, w: nat)
    requires a < Pow10(w) && b < Pow10(w)
    ensures Le(Fixed(a, w), Fixed(b, w)) <==> a <= b
    decreases w
  {
    if w > 0 {
      FixedOrder(a / 10, b / 10, w - 1);
      FixedInjective(a / 10, b / 10, w - 1);
      LeSnoc(Fixed(a / 10, w - 1), Fixed(b / 10, w - 1), DigitChar(a % 10), DigitChar(b % 10));
    }
  }

  // ---------------------------------------------------------------------------
  // String.trim
  // ---------------------------------------------------------------------------

  /** `String.trim` removes every character at or below U+0020. */
  predicate IsTrimmed(c: char) {
    c <= ' '
  }

  predicate NoEdgeSpace(s: string) {
    s == [] || (!IsTrimmed(s[0]) && !IsTrimmed(s[|s| - 1]))
  }

  /** Length of the longest prefix made only of trimmed characters. */
  function LeadingSpace(s: string): (i: nat)
    ensures i <= |s|
    ensures forall k :: 0 <= k < i ==> IsTrimmed(s[k])
    ensures i < |s| ==> !IsTrimmed(s[i])
  {
    if s == [] || !IsTrimmed(s[0]) then 0 else 1 + LeadingSpace(s[1..])
  }

  /** Where the longest suffix made only of trimmed characters starts. */
  function TrailingSpace(s: string): (j: nat)
    ensures j <= |s|
    ensures forall k :: j <= k < |s| ==> IsTrimmed(s[k])
    ensures j > 0 ==> !IsTrimmed(s[j - 1])
  {
    if s == [] || !IsTrimmed(s[|s| - 1]) then |s| else TrailingSpace(s[..|s| - 1])
  }

  /** `s[i..j]` is what is left of `s` once a blank prefix and a blank suffix are cut. */
  predicate BlankFramed(s: string, i: int, j: int) {
    && 0 <= i <= j <= |s|
    && (forall k :: 0 <= k < i ==> IsTrimmed(s[k]))
    && (forall k :: j <= k < |s| ==> IsTrimmed(s[k]))
  }

  /** `String.trim`: both ends lose every character at or below U+0020. */
  function Trim(s: string): (r: string)
    ensures NoEdgeSpace(r)
    ensures exists i, j :: BlankFramed(s, i, j) && r == s[i..j]
  {
    var i := LeadingSpace(s);
    var j := TrailingSpace(s);
    if j <= i then
      assert forall k :: 0 <= k < |s| ==> IsTrimmed(s[k]) by {
        forall k | 0 <= k < |s| ensures IsTrimmed(s[k]) {
          if k >= i { assert k >= j; }
        }
      }
      assert BlankFramed(s, 0, 0) && s[0..0] == [];
      []
    else
      assert BlankFramed(s, i, j);
      s[i..j]
  }

  /** A string without leading or trailing blanks is left as it is. */
  lemma TrimUnchanged(s: string)
    requires NoEdgeSpace(s)
    ensures Trim(s) == s
  {
    if s != [] {
      assert LeadingSpace(s) == 0;
      assert TrailingSpace(s) == |s|;
    }
  }

  /** Trimming twice is trimming once. */
  lemma TrimIdempotent(s: string)
    ensures Trim(Trim(s)) == Trim(s)
  {
    TrimUnchanged(Trim(s));
  }
}
