/** The part of JavaScript's `Date` that the appointment list relies on:
    `new Date(date + "T" + time).getTime()` for the strings the booking screen
    stores, a calendar date `YYYY-MM-DD` and a wall-clock time `HH:MM`.
    Anything else is an invalid date (`NaN`), here `None`. The result is in
    milliseconds on one fixed local time line (time zone offset and daylight
    saving are not modelled); `now` is measured on the same line. */
module Timestamp {
  import opened Wrappers
  import opened Decimal
  import opened Collation

  const MinutesPerDay: int := 1440
  const MsPerMinute: int := 60000

  /** `HH:MM` with 00 <= HH <= 23 and 00 <= MM <= 59, as minutes after midnight. */
  function TimeOfDay(t: string): (m: Option<nat>)
    ensures m.Some? ==> m.value < MinutesPerDay
    ensures m.Some? ==> |t| == 5 && t[2] == ':'
  {
    if |t| != 5 || t[2] != ':' then None
    else match (DigitsValue(t[..2]), DigitsValue(t[3..]))
      case (Some(h), Some(mi)) => if h < 24 && mi < 60 then Some(h * 60 + mi) else None
      case _ => None
  }

  predicate IsLeapYear(y: nat) {
    y % 4 == 0 && (y % 100 != 0 || y % 400 == 0)
  }

  function DaysInMonth(y: nat, m: nat): (n: nat)
    requires 1 <= m <= 12
    ensures 28 <= n <= 31
  {
    if m == 2 then (if IsLeapYear(y) then 29 else 28)
    else if m == 4 || m == 6 || m == 9 || m == 11 then 30
    else 31
  }

  /** Days from 0000-01-01 to the first day of year `y` (proleptic Gregorian). */
  function DaysBeforeYear(y: nat): int {
    365 * y + (y + 3) / 4 - (y + 99) / 100 + (y + 399) / 400
  }

  /** Days from the first of January to the first day of month `m` of year `y`. */
  function DaysBeforeMonth(y: nat, m: nat): (n: nat)
    requires 1 <= m <= 12
    ensures n <= 31 * (m - 1)
  {
    if m == 1 then 0 else DaysBeforeMonth(y, m - 1) + DaysInMonth(y, m - 1)
  }

  predicate ValidDay(y: nat, m: nat, day: nat) {
    1 <= m <= 12 && 1 <= day <= DaysInMonth(y, m)
  }

  /** Days from 0000-01-01 to day `day` of month `m` of year `y`. */
  function DayNumber(y: nat, m: nat, day: nat): int
    requires 1 <= m <= 12
  {
    DaysBeforeYear(y) + DaysBeforeMonth(y, m) + day - 1
  }

  /** `YYYY-MM-DD` with a month 01..12 and a day that exists in that month,
      as the number of days since 0000-01-01. */
  function CalendarDay(d: string): (n: Option<int>)
    ensures n.Some? ==> |d| == 10 && d[4] == '-' && d[7] == '-'
  {
    if |d| != 10 || d[4] != '-' || d[7] != '-' then None
    else match (DigitsValue(d[..4]), DigitsValue(d[5..7]), DigitsValue(d[8..]))
      case (Some(y), Some(m), Some(day)) =>
        if ValidDay(y, m, day) then Some(DayNumber(y, m, day))
        else None
      case _ => None
  }

  lemma DaysInYear(y: nat)
    ensures DaysBeforeMonth(y, 12) + DaysInMonth(y, 12) == if IsLeapYear(y) then 366 else 365
  {
    var leap := if IsLeapYear(y) then 1 else 0;
    assert DaysBeforeMonth(y, 2) == 31;
    assert DaysBeforeMonth(y, 3) == 59 + leap;
    assert DaysBeforeMonth(y, 4) == 90 + leap;
    assert DaysBeforeMonth(y, 5) == 120 + leap;
    assert DaysBeforeMonth(y, 6) == 151 + leap;
    assert DaysBeforeMonth(y, 7) == 181 + leap;
    assert DaysBeforeMonth(y, 8) == 212 + leap;
    assert DaysBeforeMonth(y, 9) == 243 + leap;
    assert DaysBeforeMonth(y, 10) == 273 + leap;
    assert DaysBeforeMonth(y, 11) == 304 + leap;
    assert DaysBeforeMonth(y, 12) == 334 + leap;
  }

  /** Going from `y` to `y + 1` adds one multiple of `k` to the count exactly
      when `y` is one (for the divisors of the leap-year rule). */
  lemma MultiplesStep(y: nat, k: nat)
    requires k == 4 || k == 100 || k == 400
    ensures (y + k) / k == (y + k - 1) / k + (if y % k == 0 then 1 else 0)
  {
    var q, r := y / k, y % k;
    assert y == k * q + r && 0 <= r < k;
    assert y + k == k * (q + 1) + r;
    if r == 0 {
      assert y + k - 1 == k * q + (k - 1);
    } else {
      assert y + k - 1 == k * (q + 1) + (r - 1);
    }
  }

  /** The last day of December is followed by the first day of the next year. */
  lemma YearEnd(y: nat)
    ensures DaysBeforeYear(y) + DaysBeforeMonth(y, 12) + DaysInMonth(y, 12) == DaysBeforeYear(y + 1)
  {
    DaysInYear(y);
    MultiplesStep(y, 4);
    MultiplesStep(y, 100);
    MultiplesStep(y, 400);
    LeapCount(y);
    assert DaysBeforeYear(y + 1) == DaysBeforeYear(y) + 365 + (if y % 4 == 0 then 1 else 0)
      - (if y % 100 == 0 then 1 else 0) + (if y % 400 == 0 then 1 else 0);
  }

  /** The leap-year rule as a count of the divisors 4, 100 and 400 of `y`. */
  lemma LeapCount(y: nat)
    ensures (if y % 4 == 0 then 1 else 0) - (if y % 100 == 0 then 1 else 0) + (if y % 400 == 0 then 1 else 0) ==
      if IsLeapYear(y) then 1 else 0
  {
    DivisorStep(y, 100, 4);
    DivisorStep(y, 4, 25);
  }

  /** A multiple of `k * j` is a multiple of `k`. */
  lemma DivisorStep(y: nat, k: nat, j: nat)
    requires (k == 100 && j == 4) || (k == 4 && j == 25)
    ensures y % (k * j) == 0 ==> y % k == 0
  {
    if y % (k * j) == 0 {
      var q, p, r := y / (k * j), y / k, y % k;
      assert y == (k * j) * q;
      assert y == k * p + r && 0 <= r < k;
      assert r == k * (j * q - p);
    }
  }

  lemma {:induction false} YearsOrdered(y1: nat, y2: nat)
    requires y1 < y2
    ensures DaysBeforeYear(y1 + 1) <= DaysBeforeYear(y2)
    decreases y2 - y1
  {
    if y1 + 1 < y2 {
      YearEnd(y1 + 1);
      YearsOrdered(y1 + 1, y2);
    }
  }

  lemma {:induction false} MonthsOrdered(y: nat, m1: nat, m2: nat)
    requires 1 <= m1 < m2 <= 12
    ensures DaysBeforeMonth(y, m1) + DaysInMonth(y, m1) <= DaysBeforeMonth(y, m2)
    decreases m2
  {
    if m1 + 1 < m2 {
      MonthsOrdered(y, m1, m2 - 1);
    }
  }

  lemma DayNumberStrict(y1: nat, m1: nat, d1: nat, y2: nat, m2: nat, d2: nat)
    requires ValidDay(y1, m1, d1) && ValidDay(y2, m2, d2)
    requires y1 < y2 || (y1 == y2 && (m1 < m2 || (m1 == m2 && d1 < d2)))
    ensures DayNumber(y1, m1, d1) < DayNumber(y2, m2, d2)
  {
    if y1 < y2 {
      if m1 < 12 {
        MonthsOrdered(y1, m1, 12);
      }
      YearEnd(y1);
      YearsOrdered(y1, y2);
    } else if m1 < m2 {
      MonthsOrdered(y1, m1, m2);
    }
  }

  /** Day numbers of valid days are ordered as (year, month, day) triples. */
  lemma DayNumberOrder(y1: nat, m1: nat, d1: nat, y2: nat, m2: nat, d2: nat)
    requires ValidDay(y1, m1, d1) && ValidDay(y2, m2, d2)
    ensures DayNumber(y1, m1, d1) <= DayNumber(y2, m2, d2) <==>
      y1 < y2 || (y1 == y2 && (m1 < m2 || (m1 == m2 && d1 <= d2)))
  {
    if y1 < y2 || (y1 == y2 && (m1 < m2 || (m1 == m2 && d1 < d2))) {
      DayNumberStrict(y1, m1, d1, y2, m2, d2);
    } else if y2 < y1 || (y1 == y2 && (m2 < m1 || (m1 == m2 && d2 < d1))) {
      DayNumberStrict(y2, m2, d2, y1, m1, d1);
    }
  }

  /** For valid `YYYY-MM-DD` strings, calendar order is string order: one date
      is on or before another exactly when its text sorts at or before it. */
  lemma CalendarDayOrder(d1: string, d2: string)
    requires CalendarDay(d1).Some? && CalendarDay(d2).Some?
    ensures CalendarDay(d1).value <= CalendarDay(d2).value <==> TextLe(d1, d2)
  {
    var y1, m1, a1 := d1[..4], d1[5..7], d1[8..];
    var y2, m2, a2 := d2[..4], d2[5..7], d2[8..];
    assert d1 == y1 + ("-" + (m1 + ("-" + a1)));
    assert d2 == y2 + ("-" + (m2 + ("-" + a2)));
    DigitsOrder(y1, y2);
    DigitsOrder(m1, m2);
    DigitsOrder(a1, a2);
    TextLeAppend(y1, "-" + (m1 + ("-" + a1)), y2, "-" + (m2 + ("-" + a2)));
    TextLeAppend("-", m1 + ("-" + a1), "-", m2 + ("-" + a2));
    TextLeAppend(m1, "-" + a1, m2, "-" + a2);
    TextLeAppend("-", a1, "-", a2);
    DayNumberOrder(DigitsValue(y1).value, DigitsValue(m1).value, DigitsValue(a1).value,
      DigitsValue(y2).value, DigitsValue(m2).value, DigitsValue(a2).value);
  }

  /** `new Date(`${date}T${time}`).getTime()`, or `None` for an invalid date. */
  function Parse(date: string, time: string): (t: Option<int>)
    ensures t.Some? <==> CalendarDay(date).Some? && TimeOfDay(time).Some?
  {
    match (CalendarDay(date), TimeOfDay(time))
      case (Some(day), Some(minute)) => Some((day * MinutesPerDay + minute) * MsPerMinute)
      case _ => None
  }

  /** Comparing parsed timestamps is comparing (date, time) pairs
      lexicographically: the day first, the time of day within a day. */
  lemma ParseChronological(d1: string, t1: string, d2: string, t2: string)
    requires CalendarDay(d1).Some? && TimeOfDay(t1).Some?
    requires CalendarDay(d2).Some? && TimeOfDay(t2).Some?
    ensures Parse(d1, t1).value <= Parse(d2, t2).value <==>
      CalendarDay(d1).value < CalendarDay(d2).value ||
      (CalendarDay(d1).value == CalendarDay(d2).value && TimeOfDay(t1).value <= TimeOfDay(t2).value)
  {
    var x1, x2 := CalendarDay(d1).value, CalendarDay(d2).value;
    var m1, m2 := TimeOfDay(t1).value, TimeOfDay(t2).value;
    if x1 < x2 {
      assert x1 * MinutesPerDay + m1 < x2 * MinutesPerDay + m2;
    } else if x1 > x2 {
      assert x1 * MinutesPerDay + m1 > x2 * MinutesPerDay + m2;
    }
  }

  /** For valid `HH:MM` strings, time order is string order. */
  lemma TimeOfDayOrder(t1: string, t2: string)
    requires TimeOfDay(t1).Some? && TimeOfDay(t2).Some?
    ensures TimeOfDay(t1).value <= TimeOfDay(t2).value <==> TextLe(t1, t2)
  {
    var h1, n1, h2, n2 := t1[..2], t1[3..], t2[..2], t2[3..];
    assert t1 == h1 + (":" + n1) && t2 == h2 + (":" + n2);
    DigitsOrder(h1, h2);
    DigitsOrder(n1, n2);
    TextLeAppend(h1, ":" + n1, h2, ":" + n2);
    TextLeAppend(":", n1, ":", n2);
  }

  /** Timestamp order is the text order of the strings handed to `new Date`,
      `date + "T" + time`, for valid dates and times. */
  lemma ParseTextOrder(d1: string, t1: string, d2: string, t2: string)
    requires Parse(d1, t1).Some? && Parse(d2, t2).Some?
    ensures Parse(d1, t1).value <= Parse(d2, t2).value <==> TextLe(d1 + "T" + t1, d2 + "T" + t2)
  {
    ParseChronological(d1, t1, d2, t2);
    CalendarDayOrder(d1, d2);
    CalendarDayOrder(d2, d1);
    if TextLe(d1, d2) && TextLe(d2, d1) {
      TextLeAntisymmetric(d1, d2);
    }
    TimeOfDayOrder(t1, t2);
    assert d1 + "T" + t1 == d1 + ("T" + t1) && d2 + "T" + t2 == d2 + ("T" + t2);
    TextLeAppend(d1, "T" + t1, d2, "T" + t2);
    TextLeAppend("T", t1, "T", t2);
  }
}
