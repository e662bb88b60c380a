/**
 * Character-level helpers: ASCII digits, the ASCII whitespace class of Python's
 * regular expressions, fixed-width decimal rendering and parsing, and the
 * byte-wise text order SQLite uses to compare TEXT values.
 */
module Text {

  predicate IsDigit(c: char) {
    '0' <= c <= '9'
  }

  predicate AllDigits(s: string) {
    forall i :: 0 <= i < |s| ==> IsDigit(s[i])
  }

  /** The whitespace the model accepts: space, and `\t` to `\r` (tab, line feed, vertical tab, form feed, carriage return). */
  predicate IsSpace(c: char) {
    c == ' ' || 9 <= c as int <= 13
  }

  function DigitValue(c: char): (v: int)
    requires IsDigit(c)
    ensures 0 <= v < 10
  {
    c as int - '0' as int
  }

  function DigitChar(k: int): (c: char)
    requires 0 <= k < 10
    ensures IsDigit(c) && DigitValue(c) == k
  {
    (k + '0' as int) as char
  }

  function Pow10(n: nat): (p: nat)
    ensures p >= 1
  {
    if n == 0 then 1 else 10 * Pow10(n - 1)
  }

  /** The last `w` decimal digits of `v`, zero-padded on the left (`'%0*d' % (w, v)` when v fits). */
  function Digits(v: nat, w: nat): (s: string)
    ensures |s| == w && AllDigits(s)
  {
    if w == 0 then [] else Digits(v / 10, w - 1) + [DigitChar(v % 10)]
  }

  /** The number a string of decimal digits denotes (Python's `int(s)`). */
  function Value(s: string): nat
    requires AllDigits(s)
  {
    if s == [] then 0 else Value(s[..|s| - 1]) * 10 + DigitValue(s[|s| - 1])
  }

  /** Rendering a number that fits and reading it back gives the number. */
  lemma {:induction false} ValueOfDigits(v: nat, w: nat)
    requires v < Pow10(w)
    ensures Value(Digits(v, w)) == v
  {
    if w > 0 {
      var s := Digits(v, w);
      var c := DigitChar(v % 10);
      DropLastDigit(v, w);
      ValueOfDigits(v / 10, w - 1);
      assert s == Digits(v / 10, w - 1) + [c];
      assert s[..|s| - 1] == Digits(v / 10, w - 1) && s[|s| - 1] == c;
      DecimalOrder(v, v);
    }
  }

  /** Reading a digit string and rendering it at the same width gives the string back. */
  lemma {:induction false} DigitsOfValue(s: string)
    requires AllDigits(s)
    ensures Value(s) < Pow10(|s|) && Digits(Value(s), |s|) == s
  {
    if s != [] {
      var p := s[..|s| - 1];
      DigitsOfValue(p);
      var v := Value(s);
      assert v / 10 == Value(p) && v % 10 == DigitValue(s[|s| - 1]);
      assert s == p + [s[|s| - 1]];
    }
  }

  /**
   * SQLite's BINARY collation on TEXT: compare code by code, and a proper
   * prefix sorts first. This is the order behind `date > limit` in a query.
   */
  predicate LexLess(a: string, b: string)
    decreases |a|
  {
    if a == [] then b != []
    else if b == [] then false
    else a[0] < b[0] || (a[0] == b[0] && LexLess(a[1..], b[1..]))
  }

  /** Two strings with equal-length heads compare by their heads first, then by their tails. */
  lemma {:induction false} LexLessAppend(a: string, b: string, c: string, d: string)
    requires |a| == |c|
    ensures LexLess(a + b, c + d) == if a == c then LexLess(b, d) else LexLess(a, c)
    decreases |a|
  {
    if a != [] {
      assert (a + b)[1..] == a[1..] + b;
      assert (c + d)[1..] == c[1..] + d;
      LexLessAppend(a[1..], b, c[1..], d);
      if a[0] == c[0] && a[1..] == c[1..] {
        assert a == c;
      }
    } else {
      assert a + b == b && c + d == d;
    }
  }

  /** Zero-padded numbers of one width sort as text exactly as they sort as numbers. */
  lemma {:induction false} LexLessDigits(v1: nat, v2: nat, w: nat)
    requires v1 < Pow10(w) && v2 < Pow10(w)
    ensures LexLess(Digits(v1, w), Digits(v2, w)) <==> v1 < v2
  {
    if w > 0 {
      var h1, h2 := Digits(v1 / 10, w - 1), Digits(v2 / 10, w - 1);
      var c1, c2 := DigitChar(v1 % 10), DigitChar(v2 % 10);
      DropLastDigit(v1, w);
      DropLastDigit(v2, w);
      LexLessDigits(v1 / 10, v2 / 10, w - 1);
      LexLessAppend(h1, [c1], h2, [c2]);
      assert LexLess([c1], [c2]) <==> v1 % 10 < v2 % 10;
      if h1 == h2 {
        ValueOfDigits(v1 / 10, w - 1);
        ValueOfDigits(v2 / 10, w - 1);
      }
      DecimalOrder(v1, v2);
    }
  }

  /** Removing the last digit of a number that fits in `w` digits leaves one that fits in `w - 1`. */
  lemma DropLastDigit(v: nat, w: nat)
    requires 0 < w && v < Pow10(w)
    ensures v / 10 < Pow10(w - 1)
  {
    assert Pow10(w) == 10 * Pow10(w - 1);
  }

  /** Numbers compare by all but their last digit first, then by the last digit. */
  lemma DecimalOrder(v1: nat, v2: nat)
    ensures v1 == v1 / 10 * 10 + v1 % 10
    ensures v1 / 10 < v2 / 10 ==> v1 < v2
    ensures v1 / 10 == v2 / 10 ==> (v1 < v2 <==> v1 % 10 < v2 % 10)
  {
    assert v1 == 10 * (v1 / 10) + v1 % 10;
    assert v2 == 10 * (v2 / 10) + v2 % 10;
  }

  lemma {:induction false} LexLessTransitive(a: string, b: string, c: string)
    requires LexLess(a, b) && LexLess(b, c)
    ensures LexLess(a, c)
    decreases |a|
  {
    if a != [] && b != [] && c != [] && a[0] == b[0] && b[0] == c[0] {
      LexLessTransitive(a[1..], b[1..], c[1..]);
    }
  }

  lemma {:induction false} LexLessIrreflexive(a: string)
    ensures !LexLess(a, a)
    decreases |a|
  {
    if a != [] {
      LexLessIrreflexive(a[1..]);
    }
  }
}
