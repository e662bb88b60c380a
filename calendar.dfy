/**
 * The proleptic Gregorian arithmetic of Python's `datetime` that the
 * timestamp helpers rely on: calendar validity, day ordinals (0001-01-01 is
 * day 1), ISO weekdays, absolute seconds and subtracting a whole number of hours.
 */
module Calendar {
  import opened Wrappers

  /** A naive `datetime.datetime` at whole-second precision. */
  datatype DateTime = DateTime(year: int, month: int, day: int, hour: int, minute: int, second: int)

  const MinYear := 1
  const MaxYear := 9999

  const SecondsPerDay := 86400

  /** `ToSeconds` of `datetime.min`, 0001-01-01 00:00:00: day 1 begins one day into the scale. */
  const MinSeconds := 86400

  predicate IsLeapYear(y: int) {
    y % 4 == 0 && (y % 100 != 0 || y % 400 == 0)
  }

  function DaysInYear(y: int): int {
    if IsLeapYear(y) then 366 else 365
  }

  function DaysInMonth(y: int, m: int): (n: int)
    requires 1 <= m <= 12
    ensures 28 <= n <= 31
    ensures n == 29 <==> m == 2 && IsLeapYear(y)
  {
    if m == 2 then (if IsLeapYear(y) then 29 else 28)
    else if m == 4 || m == 6 || m == 9 || m == 11 then 30
    else 31
  }

  /** The fields name a real instant that `datetime` can represent. */
  predicate Valid(d: DateTime) {
    && MinYear <= d.year <= MaxYear
    && 1 <= d.month <= 12
    && 1 <= d.day <= DaysInMonth(d.year, d.month)
    && 0 <= d.hour < 24
    && 0 <= d.minute < 60
    && 0 <= d.second < 60
  }

  /** Days from 0001-01-01 to January 1st of year `y`: the lengths of the years before it. */
  function DaysBeforeYear(y: int): (n: int)
    ensures n >= 0
    decreases y
  {
    if y <= 1 then 0 else DaysBeforeYear(y - 1) + DaysInYear(y - 1)
  }

  /** The closed form Python's `_days_before_year` computes. */
  function DaysBeforeYearFormula(y: int): int {
    var p := y - 1;
    p * 365 + p / 4 - p / 100 + p / 400
  }

  /** Days in year `y` before the first of month `m` (`_days_before_month`). */
  function DaysBeforeMonth(y: int, m: int): int
    requires 1 <= m <= 12
  {
    var before :=
      if m <= 6 then
        (if m == 1 then 0 else if m == 2 then 31 else if m == 3 then 59
         else if m == 4 then 90 else if m == 5 then 120 else 151)
      else
        (if m == 7 then 181 else if m == 8 then 212 else if m == 9 then 243
         else if m == 10 then 273 else if m == 11 then 304 else 334);
    before + (if m > 2 && IsLeapYear(y) then 1 else 0)
  }

  /** `date.toordinal()`: 0001-01-01 is day 1, and a real date falls among the days of its own year. */
  function Ordinal(d: DateTime): (n: int)
    requires 1 <= d.month <= 12
    ensures 1 <= d.day <= DaysInMonth(d.year, d.month) ==>
              DaysBeforeYear(d.year) < n <= DaysBeforeYear(d.year) + DaysInYear(d.year)
  {
    DaysBeforeMonthInYear(d.year, d.month);
    DaysBeforeYear(d.year) + DaysBeforeMonth(d.year, d.month) + d.day
  }

  /** `date.isoweekday()`: Monday is 1, Sunday is 7. */
  function Weekday(d: DateTime): (w: int)
    requires Valid(d)
    ensures 1 <= w <= 7
  {
    var r := Ordinal(d) % 7;
    if r == 0 then 7 else r
  }

  function TimeOfDay(d: DateTime): int {
    d.hour * 3600 + d.minute * 60 + d.second
  }

  /**
   * Seconds since 0000-12-31 00:00:00, the scale on which `datetime` subtraction
   * works. No valid instant precedes `datetime.min`.
   */
  function ToSeconds(d: DateTime): (s: int)
    requires Valid(d)
    ensures s >= MinSeconds
  {
    Ordinal(d) * 86400 + TimeOfDay(d)
  }

  /** Strict order on (year, month, day). */
  predicate DateBefore(a: DateTime, b: DateTime) {
    a.year < b.year || (a.year == b.year && (a.month < b.month || (a.month == b.month && a.day < b.day)))
  }

  /** Strict order on (year, month, day, hour, minute, second): the calendar reading of "earlier". */
  predicate Before(a: DateTime, b: DateTime) {
    DateBefore(a, b) ||
    (a.year == b.year && a.month == b.month && a.day == b.day &&
     (a.hour < b.hour || (a.hour == b.hour && (a.minute < b.minute || (a.minute == b.minute && a.second < b.second)))))
  }

  /** The previous calendar day at the same time of day. */
  function PrevDay(d: DateTime): DateTime
    requires 1 <= d.month <= 12
  {
    if d.day > 1 then d.(day := d.day - 1)
    else if d.month > 1 then d.(month := d.month - 1, day := DaysInMonth(d.year, d.month - 1))
    else d.(year := d.year - 1, month := 12, day := 31)
  }

  /** The first representable day, 0001-01-01, which has no previous day. */
  predicate IsFirstDay(d: DateTime) {
    d.year == 1 && d.month == 1 && d.day == 1
  }

  /**
   * `d - timedelta(hours=h)`, or None where Python raises OverflowError
   * because the result would fall before `datetime.min`.
   */
  function SubtractHours(d: DateTime, h: int): (r: Option<DateTime>)
    requires Valid(d) && 0 <= h < 24
    ensures r.None? ==> IsFirstDay(d) && d.hour < h
    ensures r.Some? ==> 0 <= r.value.hour < 24 && r.value.minute == d.minute && r.value.second == d.second
  {
    if d.hour >= h then Some(d.(hour := d.hour - h))
    else if IsFirstDay(d) then None
    else Some(PrevDay(d).(hour := d.hour + 24 - h))
  }

  /** `(later - earlier).seconds`: the seconds component of a normalised timedelta. */
  function DeltaSeconds(later: DateTime, earlier: DateTime): (r: int)
    requires Valid(later) && Valid(earlier)
    ensures 0 <= r < SecondsPerDay
    ensures (ToSeconds(later) - ToSeconds(earlier) - r) % SecondsPerDay == 0
  {
    var x := ToSeconds(later) - ToSeconds(earlier);
    DayRemainder(x);
    x % 86400
  }

  // ---------------------------------------------------------------------------
  // Lemmas

  /** The remainder modulo one day is a time of day, and removing it leaves whole days. */
  lemma DayRemainder(x: int)
    ensures 0 <= x % 86400 < 86400
    ensures (x - x % 86400) % 86400 == 0
  {
    assert x - x % 86400 == 86400 * (x / 86400);
  }

  /** Adding whole days does not change the remainder modulo one day. */
  lemma DayShift(x: int, k: int)
    ensures (x + 86400 * k) % 86400 == x % 86400
  {
    var q := (x + 86400 * k) / 86400;
    var r := (x + 86400 * k) % 86400;
    assert x == 86400 * (q - k) + r;
    assert 0 <= r < 86400;
  }

  /** A remainder of something already within a day of zero. */
  lemma DayWrap(x: int)
    ensures 0 <= x < 86400 ==> x % 86400 == x
    ensures -86400 < x < 0 ==> x % 86400 == x + 86400
  {
    if -86400 < x < 0 {
      assert x + 86400 == x - 86400 * (-1);
    }
  }

  /** Weekday arithmetic: one ordinal earlier is one weekday earlier. */
  lemma WeekRemainder(o: int)
    requires o >= 2
    ensures (o - 1) % 7 == if o % 7 == 0 then 6 else o % 7 - 1
  {
    var q := o / 7;
    assert o == 7 * q + o % 7;
    if o % 7 == 0 {
      assert o - 1 == 7 * (q - 1) + 6;
    } else {
      assert o - 1 == 7 * q + (o % 7 - 1);
    }
  }

  /**
   * Subtracting hours fails exactly when the instant would precede `datetime.min`,
   * and otherwise lands exactly `3600 * h` seconds earlier.
   */
  lemma SubtractHoursExact(d: DateTime, h: int)
    requires Valid(d) && 0 <= h < 24
    ensures SubtractHours(d, h).Some? <==> ToSeconds(d) - 3600 * h >= MinSeconds
    ensures SubtractHours(d, h).Some? ==>
              Valid(SubtractHours(d, h).value) && ToSeconds(SubtractHours(d, h).value) == ToSeconds(d) - 3600 * h
  {
    if d.hour >= h {
      SubtractHoursSameDay(d, h);
    } else if IsFirstDay(d) {
      SubtractHoursFirstDay(d, h);
    } else {
      SubtractHoursPrevDay(d, h);
    }
  }

  lemma SubtractHoursSameDay(d: DateTime, h: int)
    requires Valid(d) && 0 <= h <= d.hour
    ensures Valid(d.(hour := d.hour - h)) && ToSeconds(d.(hour := d.hour - h)) == ToSeconds(d) - 3600 * h
    ensures ToSeconds(d) - 3600 * h >= MinSeconds
  {
    var e := d.(hour := d.hour - h);
    assert Ordinal(e) == Ordinal(d) >= 1;
    assert TimeOfDay(e) == TimeOfDay(d) - 3600 * h >= 0;
  }

  lemma SubtractHoursFirstDay(d: DateTime, h: int)
    requires Valid(d) && d.hour < h < 24 && IsFirstDay(d)
    ensures ToSeconds(d) - 3600 * h < MinSeconds
  {
    FirstDayOrdinal(d);
  }

  lemma SubtractHoursPrevDay(d: DateTime, h: int)
    requires Valid(d) && d.hour < h < 24 && !IsFirstDay(d)
    ensures Valid(PrevDay(d).(hour := d.hour + 24 - h))
    ensures ToSeconds(PrevDay(d).(hour := d.hour + 24 - h)) == ToSeconds(d) - 3600 * h
    ensures ToSeconds(d) - 3600 * h >= MinSeconds
  {
    var e := PrevDay(d).(hour := d.hour + 24 - h);
    OrdinalPrevDay(d);
    assert Ordinal(e) == Ordinal(PrevDay(d)) == Ordinal(d) - 1;
    assert TimeOfDay(e) == TimeOfDay(d) + 86400 - 3600 * h;
    assert Ordinal(e) >= 1 && TimeOfDay(e) >= 0;
  }

  /** Incrementing a non-negative numerator raises its quotient by one exactly at multiples of k. */
  lemma DivStep(p: int, k: int)
    requires p >= 0 && (k == 4 || k == 100 || k == 400)
    ensures (p + 1) / k == p / k + (if (p + 1) % k == 0 then 1 else 0)
  {
    if k == 4 {
      assert (p + 1) / 4 == p / 4 + (if (p + 1) % 4 == 0 then 1 else 0);
    } else if k == 100 {
      assert (p + 1) / 100 == p / 100 + (if (p + 1) % 100 == 0 then 1 else 0);
    } else {
      assert (p + 1) / 400 == p / 400 + (if (p + 1) % 400 == 0 then 1 else 0);
    }
  }

  /** Divisibility by 400 implies by 100, and by 100 implies by 4. */
  lemma DivisibleChain(y: int)
    ensures y % 400 == 0 ==> y % 100 == 0
    ensures y % 100 == 0 ==> y % 4 == 0
  {
    if y % 400 == 0 {
      MultipleMod(y / 400 * 4, 100);
      assert y == 100 * (y / 400 * 4);
    }
    if y % 100 == 0 {
      MultipleMod(y / 100 * 25, 4);
      assert y == 4 * (y / 100 * 25);
    }
  }

  /** A multiple of m leaves no remainder. */
  lemma MultipleMod(k: int, m: int)
    requires m == 4 || m == 100
    ensures (m * k) % m == 0
  {
    if m == 4 {
      assert (4 * k) / 4 == k;
    } else {
      assert (100 * k) / 100 == k;
    }
  }

  lemma FormulaStep(y: int)
    requires y >= 1
    ensures DaysBeforeYearFormula(y + 1) == DaysBeforeYearFormula(y) + DaysInYear(y)
  {
    var p := y - 1;
    DivStep(p, 4);
    DivStep(p, 100);
    DivStep(p, 400);
    DivisibleChain(y);
    var a := if y % 4 == 0 then 1 else 0;
    var b := if y % 100 == 0 then 1 else 0;
    var c := if y % 400 == 0 then 1 else 0;
    assert y / 4 == p / 4 + a && y / 100 == p / 100 + b && y / 400 == p / 400 + c;
    assert DaysBeforeYearFormula(y + 1) == y * 365 + y / 4 - y / 100 + y / 400;
    assert DaysBeforeYearFormula(y) == p * 365 + p / 4 - p / 100 + p / 400;
    assert DaysInYear(y) == 365 + a - b + c;
  }

  /** Counting year lengths agrees with the closed form for every representable year. */
  lemma {:induction false} DaysBeforeYearClosedForm(y: int)
    requires y >= 1
    ensures DaysBeforeYear(y) == DaysBeforeYearFormula(y)
    decreases y
  {
    if y > 1 {
      DaysBeforeYearClosedForm(y - 1);
      FormulaStep(y - 1);
    }
  }

  lemma {:induction false} DaysBeforeYearGrows(y1: int, y2: int)
    requires 1 <= y1 < y2
    ensures DaysBeforeYear(y1) + DaysInYear(y1) <= DaysBeforeYear(y2)
    decreases y2 - y1
  {
    if y1 + 1 < y2 {
      DaysBeforeYearGrows(y1 + 1, y2);
    }
  }

  lemma DaysBeforeMonthGrows(y: int, m1: int, m2: int)
    requires 1 <= m1 < m2 <= 12
    ensures DaysBeforeMonth(y, m1) + DaysInMonth(y, m1) <= DaysBeforeMonth(y, m2)
  {
  }

  lemma DaysBeforeMonthInYear(y: int, m: int)
    requires 1 <= m <= 12
    ensures DaysBeforeMonth(y, m) + DaysInMonth(y, m) <= DaysInYear(y)
  {
  }

  /** Earlier calendar dates have smaller ordinals. */
  lemma OrdinalOrder(a: DateTime, b: DateTime)
    requires Valid(a) && Valid(b) && DateBefore(a, b)
    ensures Ordinal(a) < Ordinal(b)
  {
    if a.year < b.year {
      DaysBeforeMonthInYear(a.year, a.month);
      DaysBeforeYearGrows(a.year, b.year);
    } else if a.month < b.month {
      DaysBeforeMonthGrows(a.year, a.month, b.month);
    }
  }

  /** Seconds order valid instants exactly as the calendar fields do. */
  lemma ChronologicalOrder(a: DateTime, b: DateTime)
    requires Valid(a) && Valid(b)
    ensures ToSeconds(a) < ToSeconds(b) <==> Before(a, b)
    ensures ToSeconds(a) == ToSeconds(b) <==> a == b
  {
    if DateBefore(a, b) {
      OrdinalOrder(a, b);
    } else if DateBefore(b, a) {
      OrdinalOrder(b, a);
    }
  }

  /** The previous day of any valid instant but the first day is valid and one ordinal earlier. */
  lemma OrdinalPrevDay(d: DateTime)
    requires Valid(d) && !IsFirstDay(d)
    ensures Valid(PrevDay(d)) && Ordinal(PrevDay(d)) == Ordinal(d) - 1
  {
  }

  /** Weekdays cycle: the day before a Monday is a Sunday. */
  lemma WeekdayPrevDay(d: DateTime)
    requires Valid(d) && !IsFirstDay(d)
    ensures Valid(PrevDay(d))
    ensures Weekday(PrevDay(d)) == if Weekday(d) == 1 then 7 else Weekday(d) - 1
  {
    OrdinalPrevDay(d);
    assert Ordinal(PrevDay(d)) >= 1;
    WeekRemainder(Ordinal(d));
  }

  /** `timedelta.seconds` of a difference depends only on the two times of day. */
  lemma DeltaSecondsTimeOfDay(later: DateTime, earlier: DateTime)
    requires Valid(later) && Valid(earlier)
    ensures DeltaSeconds(later, earlier) == (TimeOfDay(later) - TimeOfDay(earlier)) % SecondsPerDay
  {
    var x := TimeOfDay(later) - TimeOfDay(earlier);
    var k := Ordinal(later) - Ordinal(earlier);
    assert ToSeconds(later) - ToSeconds(earlier) == x + 86400 * k;
    DayShift(x, k);
  }

  /** A difference under one day is `timedelta.seconds` exactly; a negative one wraps to the previous day. */
  lemma DeltaSecondsWithinDay(later: DateTime, earlier: DateTime)
    requires Valid(later) && Valid(earlier)
    ensures 0 <= ToSeconds(later) - ToSeconds(earlier) < SecondsPerDay ==>
              DeltaSeconds(later, earlier) == ToSeconds(later) - ToSeconds(earlier)
    ensures -SecondsPerDay < ToSeconds(later) - ToSeconds(earlier) < 0 ==>
              DeltaSeconds(later, earlier) == SecondsPerDay + ToSeconds(later) - ToSeconds(earlier)
  {
    DayWrap(ToSeconds(later) - ToSeconds(earlier));
  }

  lemma FirstDayOrdinal(d: DateTime)
    requires Valid(d) && IsFirstDay(d)
    ensures Ordinal(d) == 1 && ToSeconds(d) == 86400 + TimeOfDay(d)
  {
    assert Ordinal(d) == 1;
  }

  /** `datetime.min` itself sits at `MinSeconds`, and 0001-01-01 was a Monday. */
  lemma FirstInstant(d: DateTime)
    requires Valid(d) && IsFirstDay(d) && TimeOfDay(d) == 0
    ensures ToSeconds(d) == MinSeconds && Weekday(d) == 1
  {
    FirstDayOrdinal(d);
  }

  /** 2012-05-23, the date in the feed sample, was a Wednesday. */
  lemma SampleDayWednesday(d: DateTime)
    requires d == DateTime(2012, 5, 23, 12, 14, 0)
    ensures Valid(d) && Weekday(d) == 3
  {
    DaysBeforeYearClosedForm(d.year);
    assert DaysBeforeYearFormula(d.year) == 734502;
    assert Ordinal(d) == 734646;
  }
}
