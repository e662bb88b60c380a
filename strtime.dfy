/**
 * `datetime.strptime` and `datetime.strftime` for the directives the timestamp
 * helpers use (%Y %m %d %H %M %S, literal characters, and a space).
 *
 * Python compiles a format into a regular expression: %Y is exactly four digits,
 * %m %d %H %M %S are one or two digits within the directive's range (%d also
 * accepts a space followed by one non-zero digit), and a space in the format
 * matches a run of one or more whitespace characters. The match must consume
 * the whole input, and the fields must then name a valid datetime. Fields the
 * format does not mention default to 1900-01-01 00:00:00.
 *
 * The scanner below reads two digits whenever two are present. This agrees with
 * the regular expression's backtracking for the two formats used, because each
 * numeric field there is followed by a non-digit separator or ends the format.
 */
module Strtime {
  import opened Wrappers
  import opened Text
  import opened Calendar

  datatype Field = Year | Month | Day | Hour | Minute | Second

  datatype Directive = Num(field: Field) | Lit(c: char) | Blank

  /** `'%d/%m/%Y %H:%M'`, the feed's timestamp format. */
  const FeedFormat: seq<Directive> :=
    [Num(Day), Lit('/'), Num(Month), Lit('/'), Num(Year), Blank, Num(Hour), Lit(':'), Num(Minute)]

  /** `'%Y-%m-%d %H:%M:%S'`, the stored timestamp format. */
  const IsoFormat: seq<Directive> :=
    [Num(Year), Lit('-'), Num(Month), Lit('-'), Num(Day), Blank,
     Num(Hour), Lit(':'), Num(Minute), Lit(':'), Num(Second)]

  /** What strptime starts from before the fields of the input are filled in. */
  const Unset := DateTime(1900, 1, 1, 0, 0, 0)

  function Get(d: DateTime, f: Field): int {
    match f
    case Year => d.year
    case Month => d.month
    case Day => d.day
    case Hour => d.hour
    case Minute => d.minute
    case Second => d.second
  }

  function Set(d: DateTime, f: Field, v: int): (r: DateTime)
    ensures Get(r, f) == v
    ensures forall g :: g != f ==> Get(r, g) == Get(d, g)
  {
    match f
    case Year => d.(year := v)
    case Month => d.(month := v)
    case Day => d.(day := v)
    case Hour => d.(hour := v)
    case Minute => d.(minute := v)
    case Second => d.(second := v)
  }

  /** Digits strftime writes for a field. */
  function Width(f: Field): nat {
    if f == Year then 4 else 2
  }

  /** The values the directive's regular expression admits (before datetime validation). */
  predicate InPattern(f: Field, v: int) {
    match f
    case Year => 0 <= v <= 9999
    case Month => 1 <= v <= 12
    case Day => 1 <= v <= 31
    case Hour => 0 <= v <= 23
    case Minute => 0 <= v <= 59
    case Second => 0 <= v <= 61
  }

  datatype Scan = Scan(value: int, width: nat)

  /** Reads one numeric field at the start of `s`. */
  function ScanField(f: Field, s: string): (r: Option<Scan>)
    ensures r.Some? ==> 1 <= r.value.width <= |s| && InPattern(f, r.value.value)
  {
    if f == Year then
      if |s| >= 4 && AllDigits(s[..4]) then
        DigitsOfValue(s[..4]);
        Some(Scan(Value(s[..4]), 4))
      else None
    else if f == Day && |s| >= 2 && s[0] == ' ' && IsDigit(s[1]) && s[1] != '0' then
      Some(Scan(DigitValue(s[1]), 2))
    else if |s| >= 1 && IsDigit(s[0]) then
      var n := if |s| >= 2 && IsDigit(s[1]) then 2 else 1;
      var v := Value(s[..n]);
      if InPattern(f, v) then Some(Scan(v, n)) else None
    else None
  }

  /** Length of the run of whitespace that starts `s`. */
  function WhitespaceRun(s: string): (n: nat)
    ensures n <= |s|
    ensures forall i :: 0 <= i < n ==> IsSpace(s[i])
    ensures n < |s| ==> !IsSpace(s[n])
  {
    if s != [] && IsSpace(s[0]) then 1 + WhitespaceRun(s[1..]) else 0
  }

  /**
   * Matches `s` against `fmt`, filling the fields it reads into `acc`: every
   * field the format names ends up within its directive's range, and every
   * other field keeps the value it had in `acc`.
   */
  function Parse(fmt: seq<Directive>, s: string, acc: DateTime): (r: Option<DateTime>)
    ensures r.Some? ==> forall f :: Num(f) in fmt ==> InPattern(f, Get(r.value, f))
    ensures r.Some? ==> forall f :: Num(f) !in fmt ==> Get(r.value, f) == Get(acc, f)
    decreases |fmt|
  {
    if fmt == [] then
      if s == [] then Some(acc) else None  // "unconverted data remains"
    else
      match fmt[0]
      case Lit(c) =>
        if |s| > 0 && s[0] == c then Parse(fmt[1..], s[1..], acc) else None
      case Blank =>
        var n := WhitespaceRun(s);
        if n == 0 then None else Parse(fmt[1..], s[n..], acc)
      case Num(f) =>
        match ScanField(f, s)
        case None => None
        case Some(sc) => Parse(fmt[1..], s[sc.width..], Set(acc, f, sc.value))
  }

  /** `datetime.strptime(s, fmt)`: None where Python raises ValueError. */
  function Strptime(fmt: seq<Directive>, s: string): (r: Option<DateTime>)
    ensures r.Some? ==> Valid(r.value)
  {
    match Parse(fmt, s, Unset)
    case None => None
    case Some(d) => if Valid(d) then Some(d) else None
  }

  predicate Printable(d: DateTime) {
    d.year >= 0 && d.month >= 0 && d.day >= 0 && d.hour >= 0 && d.minute >= 0 && d.second >= 0
  }

  function Render(x: Directive, d: DateTime): (s: string)
    requires Printable(d)
    ensures |s| >= 1
  {
    match x
    case Num(f) => Digits(Get(d, f), Width(f))
    case Lit(c) => [c]
    case Blank => " "
  }

  /** `d.strftime(fmt)`, every numeric field zero-padded to its width. */
  function Strftime(fmt: seq<Directive>, d: DateTime): string
    requires Printable(d)
    decreases |fmt|
  {
    if fmt == [] then [] else Render(fmt[0], d) + Strftime(fmt[1..], d)
  }

  // ---------------------------------------------------------------------------
  // Shape of formats and strings

  /** Every space in the format is followed by a numeric field. */
  predicate BlanksBeforeFields(fmt: seq<Directive>) {
    forall i :: 0 <= i < |fmt| && fmt[i] == Blank ==> i + 1 < |fmt| && fmt[i + 1].Num?
  }

  /** No field occurs twice in the format. */
  predicate FieldsOnce(fmt: seq<Directive>) {
    forall i, j :: 0 <= i < j < |fmt| && fmt[i].Num? && fmt[j].Num? ==> fmt[i].field != fmt[j].field
  }

  /** Every field of `d` named by the format is within its directive's range. */
  predicate FitsPattern(fmt: seq<Directive>, d: DateTime) {
    forall i :: 0 <= i < |fmt| && fmt[i].Num? ==> InPattern(fmt[i].field, Get(d, fmt[i].field))
  }

  /** `s` has the fixed-width layout strftime produces for `fmt`: digits, literals, single spaces. */
  predicate Shaped(fmt: seq<Directive>, s: string)
    decreases |fmt|
  {
    if fmt == [] then s == []
    else
      match fmt[0]
      case Num(f) => |s| >= Width(f) && AllDigits(s[..Width(f)]) && Shaped(fmt[1..], s[Width(f)..])
      case Lit(c) => |s| >= 1 && s[0] == c && Shaped(fmt[1..], s[1..])
      case Blank => |s| >= 1 && s[0] == ' ' && Shaped(fmt[1..], s[1..])
  }

  /** `d` with every field the format names taken from `src`. */
  function Fill(fmt: seq<Directive>, src: DateTime, acc: DateTime): DateTime
    decreases |fmt|
  {
    if fmt == [] then acc
    else if fmt[0].Num? then Fill(fmt[1..], src, Set(acc, fmt[0].field, Get(src, fmt[0].field)))
    else Fill(fmt[1..], src, acc)
  }

  /** Lexicographic order of the fields in the order the format writes them. */
  predicate FieldsLess(fmt: seq<Directive>, a: DateTime, b: DateTime)
    decreases |fmt|
  {
    if fmt == [] then false
    else if fmt[0].Num? then
      var f := fmt[0].field;
      Get(a, f) < Get(b, f) || (Get(a, f) == Get(b, f) && FieldsLess(fmt[1..], a, b))
    else FieldsLess(fmt[1..], a, b)
  }

  // ---------------------------------------------------------------------------
  // Lemmas

  lemma ValidFits(fmt: seq<Directive>, d: DateTime)
    requires Valid(d)
    ensures Printable(d) && FitsPattern(fmt, d)
  {
  }

  lemma {:induction false} FillGet(fmt: seq<Directive>, src: DateTime, acc: DateTime, f: Field)
    ensures Get(Fill(fmt, src, acc), f) == if Num(f) in fmt then Get(src, f) else Get(acc, f)
    decreases |fmt|
  {
    if fmt != [] {
      var next := if fmt[0].Num? then Set(acc, fmt[0].field, Get(src, fmt[0].field)) else acc;
      FillGet(fmt[1..], src, next, f);
      assert fmt == [fmt[0]] + fmt[1..];
    }
  }

  /** Parsing only stores non-negative values. */
  lemma {:induction false} ParsePrintable(fmt: seq<Directive>, s: string, acc: DateTime, d: DateTime)
    requires Printable(acc) && Parse(fmt, s, acc) == Some(d)
    ensures Printable(d)
    decreases |fmt|
  {
    if fmt != [] {
      match fmt[0]
      case Lit(c) => ParsePrintable(fmt[1..], s[1..], acc, d);
      case Blank => ParsePrintable(fmt[1..], s[WhitespaceRun(s)..], acc, d);
      case Num(g) =>
        var sc := ScanField(g, s).value;
        ParsePrintable(fmt[1..], s[sc.width..], Set(acc, g, sc.value), d);
    }
  }

  /** A rendered field is read back whole, whatever follows it. */
  lemma ScanRendered(f: Field, v: int, rest: string)
    requires InPattern(f, v)
    ensures v < Pow10(Width(f))
    ensures ScanField(f, Digits(v, Width(f)) + rest) == Some(Scan(v, Width(f)))
  {
    var w := Width(f);
    assert Pow10(2) == 100 && Pow10(4) == 10000;
    var s := Digits(v, w) + rest;
    assert s[..w] == Digits(v, w);
    ValueOfDigits(v, w);
    if f != Year {
      assert IsDigit(s[0]) && IsDigit(s[1]);
    }
  }

  lemma {:induction false} StrftimeShaped(fmt: seq<Directive>, d: DateTime)
    requires Printable(d)
    ensures Shaped(fmt, Strftime(fmt, d))
    decreases |fmt|
  {
    if fmt != [] {
      StrftimeShaped(fmt[1..], d);
      var head, tail := Render(fmt[0], d), Strftime(fmt[1..], d);
      assert (head + tail)[|head|..] == tail;
      assert (head + tail)[..|head|] == head;
    }
  }

  /** Rendering from directive k on is directive k's rendering followed by the rest. */
  lemma StrftimeStep(fmt: seq<Directive>, k: nat, d: DateTime)
    requires Printable(d) && k < |fmt|
    ensures Strftime(fmt[k..], d) == Render(fmt[k], d) + Strftime(fmt[k + 1..], d)
  {
    assert fmt[k..][1..] == fmt[k + 1..];
  }

  /** Rendered text starts with what the first directive renders. */
  lemma StrftimeFirst(fmt: seq<Directive>, d: DateTime)
    requires Printable(d) && fmt != [] && fmt[0].Num?
    ensures |Strftime(fmt, d)| >= 1 && IsDigit(Strftime(fmt, d)[0])
  {
    var r := Render(fmt[0], d);
    assert IsDigit(r[0]);
  }

  /** strptime reads back what strftime wrote: every named field, the rest as given. */
  lemma {:induction false} ParseRendered(fmt: seq<Directive>, d: DateTime, acc: DateTime)
    requires BlanksBeforeFields(fmt) && Printable(d) && FitsPattern(fmt, d)
    ensures Parse(fmt, Strftime(fmt, d), acc) == Some(Fill(fmt, d, acc))
    decreases |fmt|
  {
    if fmt != [] {
      var s := Strftime(fmt, d);
      var tail := Strftime(fmt[1..], d);
      assert s == Render(fmt[0], d) + tail;
      assert BlanksBeforeFields(fmt[1..]) by {
        forall i | 0 <= i < |fmt[1..]| && fmt[1..][i] == Blank
          ensures i + 1 < |fmt[1..]| && fmt[1..][i + 1].Num?
        {
          assert fmt[i + 1] == Blank;
        }
      }
      assert FitsPattern(fmt[1..], d) by {
        forall i | 0 <= i < |fmt[1..]| && fmt[1..][i].Num?
          ensures InPattern(fmt[1..][i].field, Get(d, fmt[1..][i].field))
        {
          assert fmt[1..][i] == fmt[i + 1];
        }
      }
      match fmt[0]
      case Lit(c) =>
        assert s[1..] == tail;
        ParseRendered(fmt[1..], d, acc);
      case Blank =>
        assert 1 < |fmt| && fmt[1].Num?;
        StrftimeFirst(fmt[1..], d);
        assert s[1..] == tail;
        assert WhitespaceRun(s) == 1;
        ParseRendered(fmt[1..], d, acc);
      case Num(f) =>
        assert InPattern(f, Get(d, f));
        ScanRendered(f, Get(d, f), tail);
        assert s[Width(f)..] == tail;
        ParseRendered(fmt[1..], d, Set(acc, f, Get(d, f)));
    }
  }

  lemma TailWellFormed(fmt: seq<Directive>)
    requires fmt != [] && BlanksBeforeFields(fmt) && FieldsOnce(fmt)
    ensures BlanksBeforeFields(fmt[1..]) && FieldsOnce(fmt[1..])
    ensures fmt[0].Num? ==> Num(fmt[0].field) !in fmt[1..]
  {
    assert forall i :: 0 <= i < |fmt[1..]| ==> fmt[1..][i] == fmt[i + 1];
    if fmt[0].Num? {
      forall j | 0 <= j < |fmt[1..]| ensures fmt[1..][j] != Num(fmt[0].field) {
        assert fmt[1..][j] == fmt[j + 1];
      }
    }
  }

  /** A field laid out at full width is read at full width, and its digits are its rendering. */
  lemma ScanShaped(f: Field, s: string)
    requires |s| >= Width(f) && AllDigits(s[..Width(f)])
    ensures ScanField(f, s).Some? ==>
              ScanField(f, s) == Some(Scan(Value(s[..Width(f)]), Width(f))) &&
              Digits(Value(s[..Width(f)]), Width(f)) == s[..Width(f)]
  {
    var w := Width(f);
    DigitsOfValue(s[..w]);
    if f != Year {
      assert IsDigit(s[..w][0]) && IsDigit(s[..w][1]);
    }
  }

  /** strftime rewrites a fixed-width string exactly from what strptime read out of it. */
  lemma {:induction false} RenderParsed(fmt: seq<Directive>, s: string, acc: DateTime, d: DateTime)
    requires BlanksBeforeFields(fmt) && FieldsOnce(fmt)
    requires Printable(acc) && Shaped(fmt, s) && Parse(fmt, s, acc) == Some(d)
    ensures Printable(d) && Strftime(fmt, d) == s
    decreases |fmt|, 1
  {
    ParsePrintable(fmt, s, acc, d);
    if fmt != [] {
      TailWellFormed(fmt);
      match fmt[0]
      case Lit(c) =>
        RenderParsed(fmt[1..], s[1..], acc, d);
        assert s == [c] + s[1..];
      case Blank =>
        RenderParsedBlank(fmt, s, acc, d);
      case Num(f) =>
        RenderParsedNum(fmt, s, acc, d);
    }
  }

  lemma {:induction false} RenderParsedBlank(fmt: seq<Directive>, s: string, acc: DateTime, d: DateTime)
    requires BlanksBeforeFields(fmt) && FieldsOnce(fmt) && fmt != [] && fmt[0] == Blank
    requires Printable(acc) && Shaped(fmt, s) && Parse(fmt, s, acc) == Some(d)
    ensures Printable(d) && Strftime(fmt, d) == s
    decreases |fmt|, 0
  {
    TailWellFormed(fmt);
    assert 1 < |fmt| && fmt[1].Num?;
    var t := s[1..];
    assert Shaped(fmt[1..], t);
    assert IsDigit(t[0]) by {
      assert AllDigits(t[..Width(fmt[1].field)]);
    }
    assert WhitespaceRun(s) == 1;
    assert Parse(fmt, s, acc) == Parse(fmt[1..], t, acc);
    RenderParsed(fmt[1..], t, acc, d);
    assert s == " " + t;
  }

  lemma {:induction false} RenderParsedNum(fmt: seq<Directive>, s: string, acc: DateTime, d: DateTime)
    requires BlanksBeforeFields(fmt) && FieldsOnce(fmt) && fmt != [] && fmt[0].Num?
    requires Printable(acc) && Shaped(fmt, s) && Parse(fmt, s, acc) == Some(d)
    ensures Printable(d) && Strftime(fmt, d) == s
    decreases |fmt|, 0
  {
    TailWellFormed(fmt);
    var f := fmt[0].field;
    var w := Width(f);
    ParseNumStep(fmt, s, acc);
    var v := Value(s[..w]);
    var next := Set(acc, f, v);
    RenderParsed(fmt[1..], s[w..], next, d);
    NumRendered(fmt, d, s, v);
  }

  /** A numeric field of a fixed-width string is read at full width and then parsing moves on. */
  lemma ParseNumStep(fmt: seq<Directive>, s: string, acc: DateTime)
    requires fmt != [] && fmt[0].Num? && Printable(acc) && Shaped(fmt, s) && Parse(fmt, s, acc).Some?
    ensures var w := Width(fmt[0].field);
      && |s| >= w && AllDigits(s[..w]) && Shaped(fmt[1..], s[w..])
      && Digits(Value(s[..w]), w) == s[..w]
      && Printable(Set(acc, fmt[0].field, Value(s[..w])))
      && Parse(fmt, s, acc) == Parse(fmt[1..], s[w..], Set(acc, fmt[0].field, Value(s[..w])))
  {
    ScanShaped(fmt[0].field, s);
  }

  /** The first directive renders the field's digits, and the rest renders the rest of the string. */
  lemma NumRendered(fmt: seq<Directive>, d: DateTime, s: string, v: int)
    requires fmt != [] && fmt[0].Num? && Printable(d) && |s| >= Width(fmt[0].field)
    requires Get(d, fmt[0].field) == v && v >= 0 && Digits(v, Width(fmt[0].field)) == s[..Width(fmt[0].field)]
    requires Strftime(fmt[1..], d) == s[Width(fmt[0].field)..]
    ensures Strftime(fmt, d) == s
  {
    var w := Width(fmt[0].field);
    assert Render(fmt[0], d) == s[..w];
    assert s == s[..w] + s[w..];
  }

  /** Fixed-width rendering turns field order into text order. */
  lemma {:induction false} StrftimeOrder(fmt: seq<Directive>, a: DateTime, b: DateTime)
    requires Printable(a) && Printable(b) && FitsPattern(fmt, a) && FitsPattern(fmt, b)
    ensures LexLess(Strftime(fmt, a), Strftime(fmt, b)) == FieldsLess(fmt, a, b)
    decreases |fmt|
  {
    if fmt != [] {
      assert FitsPattern(fmt[1..], a) && FitsPattern(fmt[1..], b) by {
        forall i | 0 <= i < |fmt[1..]| ensures fmt[1..][i] == fmt[i + 1] { }
      }
      StrftimeOrder(fmt[1..], a, b);
      var ha, hb := Render(fmt[0], a), Render(fmt[0], b);
      LexLessAppend(ha, Strftime(fmt[1..], a), hb, Strftime(fmt[1..], b));
      if fmt[0].Num? {
        var f := fmt[0].field;
        ScanRendered(f, Get(a, f), []);
        ScanRendered(f, Get(b, f), []);
        LexLessDigits(Get(a, f), Get(b, f), Width(f));
        if ha == hb {
          ValueOfDigits(Get(a, f), Width(f));
          ValueOfDigits(Get(b, f), Width(f));
        }
      } else {
        LexLessIrreflexive(ha);
      }
    }
  }
}
