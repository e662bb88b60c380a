/**
 * The timestamp helpers of utils.py: reading the feed's `DD/MM/YYYY HH:MM`,
 * writing and reading the stored `YYYY-MM-DD HH:MM:SS`, converting the one into
 * the other, and the look-back limit "now minus four hours".
 *
 * Every helper returns None where Python raises ValueError (a string that does
 * not match the format, or a date that does not exist) or OverflowError (a
 * limit before year 1). The clock is a parameter.
 */
module Utils {
  import opened Wrappers
  import opened Text
  import opened Calendar
  import opened Strtime

  /** How long a sighting stays open to updates before the same number counts as a new train. */
  const LookBackHours := 4

  /** `get_datetime`: `datetime.strptime(s, '%d/%m/%Y %H:%M')`. */
  function GetDatetime(s: string): (r: Option<DateTime>)
    ensures r.Some? ==> Valid(r.value) && r.value.second == 0
  {
    FeedLeavesSecondsUnset(s);
    Strptime(FeedFormat, s)
  }

  /** `get_datetime_from_iso`: `datetime.strptime(s, '%Y-%m-%d %H:%M:%S')`. */
  function GetDatetimeFromIso(s: string): (r: Option<DateTime>)
    ensures r.Some? ==> Valid(r.value)
  {
    Strptime(IsoFormat, s)
  }

  /** `get_datestring`: `d.strftime('%Y-%m-%d %H:%M:%S')`, always 19 characters. */
  function GetDatestring(d: DateTime): (r: string)
    requires Valid(d)
    ensures |r| == 19 && Shaped(IsoFormat, r)
  {
    IsoLayout(d);
    StrftimeShaped(IsoFormat, d);
    Strftime(IsoFormat, d)
  }

  /**
   * `convert_to_iso`: a feed timestamp rewritten in the stored form. It fails
   * exactly where `get_datetime` does, and the stored form reads back as the
   * same instant, with seconds 0.
   */
  function ConvertToIso(s: string): (r: Option<string>)
    ensures r.Some? <==> GetDatetime(s).Some?
    ensures r.Some? ==> GetDatetimeFromIso(r.value) == GetDatetime(s) && GetDatetime(s).value.second == 0
  {
    match GetDatetime(s)
    case None => None
    case Some(d) =>
      IsoRoundTrip(d);
      Some(GetDatestring(d))
  }

  /**
   * `get_limit_date`: `now - timedelta(hours=4)`. It exists exactly when `now` is
   * at least four hours after `datetime.min` (Python raises OverflowError
   * otherwise), and is then exactly 14400 seconds earlier.
   */
  function GetLimitDate(now: DateTime): (r: Option<DateTime>)
    requires Valid(now)
    ensures r.Some? <==> ToSeconds(now) >= MinSeconds + 14400
    ensures r.Some? ==> Valid(r.value) && ToSeconds(r.value) == ToSeconds(now) - 14400
  {
    SubtractHoursExact(now, LookBackHours);
    SubtractHours(now, LookBackHours)
  }

  /** `d.strftime('%d/%m/%Y %H:%M')`: how the feed writes a timestamp (the unit tests' helper). */
  function FeedString(d: DateTime): (r: string)
    requires Valid(d)
    ensures |r| == 16 && Shaped(FeedFormat, r)
  {
    FeedLayout(d);
    StrftimeShaped(FeedFormat, d);
    Strftime(FeedFormat, d)
  }

  // ---------------------------------------------------------------------------
  // Lemmas

  /** Both formats put a field after every space and name each field once. */
  lemma FormatsWellFormed()
    ensures BlanksBeforeFields(IsoFormat) && FieldsOnce(IsoFormat)
    ensures BlanksBeforeFields(FeedFormat) && FieldsOnce(FeedFormat)
  {
    IsoWellFormed();
    FeedWellFormed();
  }

  lemma IsoWellFormed()
    ensures BlanksBeforeFields(IsoFormat) && FieldsOnce(IsoFormat)
  {
  }

  lemma FeedWellFormed()
    ensures BlanksBeforeFields(FeedFormat) && FieldsOnce(FeedFormat)
  {
  }

  /** The ISO form is the zero-padded fields between fixed separators. */
  lemma IsoLayout(d: DateTime)
    requires Printable(d)
    ensures Strftime(IsoFormat, d) ==
      Digits(d.year, 4) + "-" + Digits(d.month, 2) + "-" + Digits(d.day, 2) + " " +
      Digits(d.hour, 2) + ":" + Digits(d.minute, 2) + ":" + Digits(d.second, 2)
  {
    var f := IsoFormat;
    var y, mo, da := Digits(d.year, 4), Digits(d.month, 2), Digits(d.day, 2);
    var h, mi, se := Digits(d.hour, 2), Digits(d.minute, 2), Digits(d.second, 2);
    IsoLayoutTail(d);
    var t5 := " " + (h + (":" + (mi + (":" + se))));
    assert Strftime(f[5..], d) == t5;
    StrftimeStep(f, 4, d);
    var t4 := da + t5;
    assert Strftime(f[4..], d) == t4;
    StrftimeStep(f, 3, d);
    var t3 := "-" + t4;
    assert Strftime(f[3..], d) == t3;
    StrftimeStep(f, 2, d);
    var t2 := mo + t3;
    assert Strftime(f[2..], d) == t2;
    StrftimeStep(f, 1, d);
    var t1 := "-" + t2;
    assert Strftime(f[1..], d) == t1;
    StrftimeStep(f, 0, d);
    assert f[0..] == f;
    Regroup11(y, "-", mo, "-", da, " ", h, ":", mi, ":", se);
  }

  /** The ISO form from the space before the hour on. */
  lemma IsoLayoutTail(d: DateTime)
    requires Printable(d)
    ensures Strftime(IsoFormat[5..], d) ==
      " " + (Digits(d.hour, 2) + (":" + (Digits(d.minute, 2) + (":" + Digits(d.second, 2)))))
  {
    var f := IsoFormat;
    var h, mi, se := Digits(d.hour, 2), Digits(d.minute, 2), Digits(d.second, 2);
    StrftimeStep(f, 10, d);
    assert f[11..] == [];
    var t10 := se;
    assert Strftime(f[10..], d) == t10;
    StrftimeStep(f, 9, d);
    var t9 := ":" + t10;
    assert Strftime(f[9..], d) == t9;
    StrftimeStep(f, 8, d);
    var t8 := mi + t9;
    assert Strftime(f[8..], d) == t8;
    StrftimeStep(f, 7, d);
    var t7 := ":" + t8;
    assert Strftime(f[7..], d) == t7;
    StrftimeStep(f, 6, d);
    var t6 := h + t7;
    assert Strftime(f[6..], d) == t6;
    StrftimeStep(f, 5, d);
  }

  /** The feed form is the zero-padded fields between fixed separators, without seconds. */
  lemma FeedLayout(d: DateTime)
    requires Printable(d)
    ensures Strftime(FeedFormat, d) ==
      Digits(d.day, 2) + "/" + Digits(d.month, 2) + "/" + Digits(d.year, 4) + " " +
      Digits(d.hour, 2) + ":" + Digits(d.minute, 2)
  {
    var f := FeedFormat;
    var da, mo, y := Digits(d.day, 2), Digits(d.month, 2), Digits(d.year, 4);
    var h, mi := Digits(d.hour, 2), Digits(d.minute, 2);
    FeedLayoutTail(d);
    var t4 := y + (" " + (h + (":" + mi)));
    assert Strftime(f[4..], d) == t4;
    StrftimeStep(f, 3, d);
    var t3 := "/" + t4;
    assert Strftime(f[3..], d) == t3;
    StrftimeStep(f, 2, d);
    var t2 := mo + t3;
    assert Strftime(f[2..], d) == t2;
    StrftimeStep(f, 1, d);
    var t1 := "/" + t2;
    assert Strftime(f[1..], d) == t1;
    StrftimeStep(f, 0, d);
    assert f[0..] == f;
    Regroup9(da, "/", mo, "/", y, " ", h, ":", mi);
  }

  /** The feed form from the year on. */
  lemma FeedLayoutTail(d: DateTime)
    requires Printable(d)
    ensures Strftime(FeedFormat[4..], d) ==
      Digits(d.year, 4) + (" " + (Digits(d.hour, 2) + (":" + Digits(d.minute, 2))))
  {
    var f := FeedFormat;
    var y, h, mi := Digits(d.year, 4), Digits(d.hour, 2), Digits(d.minute, 2);
    StrftimeStep(f, 8, d);
    assert f[9..] == [];
    var t8 := mi;
    assert Strftime(f[8..], d) == t8;
    StrftimeStep(f, 7, d);
    var t7 := ":" + t8;
    assert Strftime(f[7..], d) == t7;
    StrftimeStep(f, 6, d);
    var t6 := h + t7;
    assert Strftime(f[6..], d) == t6;
    StrftimeStep(f, 5, d);
    var t5 := " " + t6;
    assert Strftime(f[5..], d) == t5;
    StrftimeStep(f, 4, d);
  }

  lemma Regroup3(a: string, b: string, c: string)
    ensures a + b + c == a + (b + c)
  {
  }

  lemma Regroup9(a: string, b: string, c: string, d: string, e: string, f: string, g: string, h: string, i: string)
    ensures a + b + c + d + e + f + g + h + i == a + (b + (c + (d + (e + (f + (g + (h + i)))))))
  {
  }

  lemma Regroup11(a: string, b: string, c: string, d: string, e: string, f: string, g: string, h: string, i: string,
                  j: string, k: string)
    ensures a + b + c + d + e + f + g + h + i + j + k == a + (b + (c + (d + (e + (f + (g + (h + (i + (j + k)))))))))
  {
  }

  /** The feed format has no seconds, so strptime leaves them at their default of zero. */
  lemma FeedLeavesSecondsUnset(s: string)
    ensures Strptime(FeedFormat, s).Some? ==> Strptime(FeedFormat, s).value.second == 0
  {
    var p := Parse(FeedFormat, s, Unset);
    if p.Some? {
      SecondNotInFeed();
      assert Get(p.value, Second) == Get(Unset, Second);
    }
  }

  lemma SecondNotInFeed()
    ensures Num(Second) !in FeedFormat
  {
  }

  lemma SameFields(a: DateTime, b: DateTime)
    requires forall f :: Get(a, f) == Get(b, f)
    ensures a == b
  {
    assert Get(a, Year) == Get(b, Year) && Get(a, Month) == Get(b, Month) && Get(a, Day) == Get(b, Day);
    assert Get(a, Hour) == Get(b, Hour) && Get(a, Minute) == Get(b, Minute) && Get(a, Second) == Get(b, Second);
  }

  /** Reading back the ISO form of a valid instant gives the instant. */
  lemma IsoRoundTrip(d: DateTime)
    requires Valid(d)
    ensures GetDatetimeFromIso(GetDatestring(d)) == Some(d)
  {
    FormatsWellFormed();
    ValidFits(IsoFormat, d);
    ParseRendered(IsoFormat, d, Unset);
    var e := Fill(IsoFormat, d, Unset);
    forall f ensures Get(e, f) == Get(d, f) {
      FillGet(IsoFormat, d, Unset, f);
      assert Num(f) in IsoFormat by {
        match f
        case Year => assert IsoFormat[0] == Num(f);
        case Month => assert IsoFormat[2] == Num(f);
        case Day => assert IsoFormat[4] == Num(f);
        case Hour => assert IsoFormat[6] == Num(f);
        case Minute => assert IsoFormat[8] == Num(f);
        case Second => assert IsoFormat[10] == Num(f);
      }
    }
    SameFields(e, d);
  }

  /** A stored-form string that parses is exactly the ISO form of what it parses to. */
  lemma IsoRoundTripConverse(s: string)
    requires Shaped(IsoFormat, s) && GetDatetimeFromIso(s).Some?
    ensures GetDatestring(GetDatetimeFromIso(s).value) == s
  {
    FormatsWellFormed();
    RenderParsed(IsoFormat, s, Unset, Parse(IsoFormat, s, Unset).value);
  }

  /** Distinct instants have distinct ISO forms. */
  lemma DatestringInjective(a: DateTime, b: DateTime)
    requires Valid(a) && Valid(b) && GetDatestring(a) == GetDatestring(b)
    ensures a == b
  {
    IsoRoundTrip(a);
    IsoRoundTrip(b);
  }

  /** Text order on ISO forms, the order the database compares them in, is chronological order. */
  lemma DatestringOrder(a: DateTime, b: DateTime)
    requires Valid(a) && Valid(b)
    ensures LexLess(GetDatestring(a), GetDatestring(b)) <==> ToSeconds(a) < ToSeconds(b)
  {
    ValidFits(IsoFormat, a);
    ValidFits(IsoFormat, b);
    StrftimeOrder(IsoFormat, a, b);
    assert FieldsLess(IsoFormat, a, b) == Before(a, b);
    ChronologicalOrder(a, b);
  }

  /** A feed timestamp of a valid instant with zero seconds reads back as that instant. */
  lemma FeedRoundTrip(d: DateTime)
    requires Valid(d) && d.second == 0
    ensures GetDatetime(FeedString(d)) == Some(d)
  {
    FormatsWellFormed();
    ValidFits(FeedFormat, d);
    ParseRendered(FeedFormat, d, Unset);
    var e := Fill(FeedFormat, d, Unset);
    forall f ensures Get(e, f) == Get(d, f) {
      FillGet(FeedFormat, d, Unset, f);
      match f
      case Year => assert FeedFormat[4] == Num(f);
      case Month => assert FeedFormat[2] == Num(f);
      case Day => assert FeedFormat[0] == Num(f);
      case Hour => assert FeedFormat[6] == Num(f);
      case Minute => assert FeedFormat[8] == Num(f);
      case Second => assert Num(f) !in FeedFormat;
    }
    SameFields(e, d);
  }

  /** A fixed-width feed timestamp that parses is exactly the feed form of what it parses to. */
  lemma FeedRoundTripConverse(s: string)
    requires Shaped(FeedFormat, s) && GetDatetime(s).Some?
    ensures FeedString(GetDatetime(s).value) == s
  {
    FormatsWellFormed();
    RenderParsed(FeedFormat, s, Unset, Parse(FeedFormat, s, Unset).value);
  }

  /** On a fixed-width feed timestamp, conversion only moves the digits around: DD/MM/YYYY HH:MM becomes YYYY-MM-DD HH:MM:00. */
  lemma ConvertToIsoLayout(s: string)
    requires Shaped(FeedFormat, s) && GetDatetime(s).Some?
    ensures ConvertToIso(s) ==
      Some(s[6..10] + "-" + s[3..5] + "-" + s[..2] + " " + s[11..13] + ":" + s[14..16] + ":00")
  {
    var d := GetDatetime(s).value;
    FeedSlices(s);
    IsoLayoutWholeMinute(d);
  }

  /** Where a fixed-width feed timestamp keeps each field's digits. */
  lemma FeedSlices(s: string)
    requires Shaped(FeedFormat, s) && GetDatetime(s).Some?
    ensures var d := GetDatetime(s).value;
      && s[..2] == Digits(d.day, 2) && s[3..5] == Digits(d.month, 2) && s[6..10] == Digits(d.year, 4)
      && s[11..13] == Digits(d.hour, 2) && s[14..16] == Digits(d.minute, 2)
  {
    var d := GetDatetime(s).value;
    FeedRoundTripConverse(s);
    FeedLayout(d);
    FeedPieces(s, Digits(d.day, 2), Digits(d.month, 2), Digits(d.year, 4), Digits(d.hour, 2), Digits(d.minute, 2));
  }

  lemma FeedPieces(s: string, da: string, mo: string, y: string, h: string, mi: string)
    requires |da| == 2 && |mo| == 2 && |y| == 4 && |h| == 2 && |mi| == 2
    requires s == da + "/" + mo + "/" + y + " " + h + ":" + mi
    ensures s[..2] == da && s[3..5] == mo && s[6..10] == y && s[11..13] == h && s[14..16] == mi
  {
    Regroup9(da, "/", mo, "/", y, " ", h, ":", mi);
  }

  /** The ISO form of an instant with zero seconds ends in `:00`. */
  lemma IsoLayoutWholeMinute(d: DateTime)
    requires Valid(d) && d.second == 0
    ensures GetDatestring(d) ==
      Digits(d.year, 4) + "-" + Digits(d.month, 2) + "-" + Digits(d.day, 2) + " " +
      Digits(d.hour, 2) + ":" + Digits(d.minute, 2) + ":00"
  {
    IsoLayout(d);
    ZeroSeconds(d.second);
    EndsInZeroSeconds(Digits(d.year, 4) + "-" + Digits(d.month, 2) + "-" + Digits(d.day, 2) + " " +
      Digits(d.hour, 2) + ":" + Digits(d.minute, 2), Digits(d.second, 2));
  }

  lemma ZeroSeconds(v: nat)
    requires v == 0
    ensures Digits(v, 2) == "00"
  {
  }

  lemma EndsInZeroSeconds(p: string, se: string)
    requires se == "00"
    ensures p + ":" + se == p + ":00"
  {
    Regroup3(p, ":", se);
  }
}
