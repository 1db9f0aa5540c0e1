/**
 The Gregorian calendar in UTC, as mktime and localtime_r see it: broken-down times, seconds, and
 their order. Seconds are counted from the start of year 0; the choice of epoch does not matter.
 */
module Calendar {

  /** struct tm with the full year; months count from 0. */
  datatype Tm = Tm(year: nat, mon: nat, mday: nat, hour: nat, min: nat, sec: nat)

  predicate Leap(y: nat) {
    y % 4 == 0 && (y % 100 != 0 || y % 400 == 0)
  }

  function DaysInMonth(y: nat, m: nat): (d: nat)
    requires m < 12
    ensures 28 <= d <= 31
  {
    if m == 1 then if Leap(y) then 29 else 28
    else if m in {3, 5, 8, 10} then 30 else 31
  }

  function DaysInYear(y: nat): nat {
    if Leap(y) then 366 else 365
  }

  /** Days from the start of year 0 to the start of year `y`. */
  function YearStart(y: nat): nat {
    if y == 0 then 0 else YearStart(y - 1) + DaysInYear(y - 1)
  }

  /** Days from the start of the year to the start of month `m`. */
  function MonthStart(y: nat, m: nat): nat
    requires m <= 12
  {
    if m == 0 then 0 else MonthStart(y, m - 1) + DaysInMonth(y, m - 1)
  }

  predicate ValidTm(t: Tm) {
    t.mon < 12 && 1 <= t.mday <= DaysInMonth(t.year, t.mon) && t.hour < 24 && t.min < 60 && t.sec < 60
  }

  function DayNumber(t: Tm): int
    requires t.mon < 12
  {
    YearStart(t.year) + MonthStart(t.year, t.mon) + t.mday - 1
  }

  function TimeOfDay(t: Tm): nat {
    t.hour * 3600 + t.min * 60 + t.sec
  }

  /** mktime */
  function Seconds(t: Tm): int
    requires t.mon < 12
  {
    DayNumber(t) * 86400 + TimeOfDay(t)
  }

  // ------------------------------------------------------------------------ order

  lemma YearLength(y: nat)
    ensures MonthStart(y, 12) == DaysInYear(y)
  {
    assert MonthStart(y, 1) == 31;
    assert MonthStart(y, 2) == 31 + DaysInMonth(y, 1);
    assert MonthStart(y, 4) == MonthStart(y, 2) + 61;
    assert MonthStart(y, 6) == MonthStart(y, 4) + 61;
    assert MonthStart(y, 8) == MonthStart(y, 6) + 62;
    assert MonthStart(y, 10) == MonthStart(y, 8) + 61;
    assert MonthStart(y, 12) == MonthStart(y, 10) + 61;
  }

  lemma {:induction false} YearStartMono(y: nat, z: nat)
    requires y < z
    ensures YearStart(y) + DaysInYear(y) <= YearStart(z)
  {
    if y + 1 < z {
      YearStartMono(y, z - 1);
    }
  }

  lemma {:induction false} MonthStartMono(y: nat, m: nat, n: nat)
    requires m < n <= 12
    ensures MonthStart(y, m) + DaysInMonth(y, m) <= MonthStart(y, n)
  {
    if m + 1 < n {
      MonthStartMono(y, m, n - 1);
    }
  }

  predicate DayBefore(a: Tm, b: Tm) {
    a.year < b.year || (a.year == b.year && (a.mon < b.mon || (a.mon == b.mon && a.mday < b.mday)))
  }

  predicate SameDay(a: Tm, b: Tm) {
    a.year == b.year && a.mon == b.mon && a.mday == b.mday
  }

  /** The day number follows the calendar order of the fields. */
  lemma DayOrder(a: Tm, b: Tm)
    requires ValidTm(a) && ValidTm(b)
    ensures DayBefore(a, b) ==> DayNumber(a) < DayNumber(b)
    ensures DayNumber(a) == DayNumber(b) ==> SameDay(a, b)
  {
    DayOrderHalf(a, b);
    DayOrderHalf(b, a);
  }

  lemma DayOrderHalf(a: Tm, b: Tm)
    requires ValidTm(a) && ValidTm(b)
    ensures DayBefore(a, b) ==> DayNumber(a) < DayNumber(b)
  {
    if a.year < b.year {
      YearStartMono(a.year, b.year);
      MonthStartMono(a.year, a.mon, 12);
      YearLength(a.year);
    } else if a.year == b.year && a.mon < b.mon {
      MonthStartMono(a.year, a.mon, b.mon);
    }
  }

  /** Chronological order on the fields. */
  predicate Before(a: Tm, b: Tm) {
    DayBefore(a, b) || (SameDay(a, b) && TimeOfDay(a) < TimeOfDay(b))
  }

  lemma TimeOfDayBound(t: Tm)
    requires ValidTm(t)
    ensures TimeOfDay(t) < 86400
  {
  }

  lemma TimeOfDayUnique(a: Tm, b: Tm)
    requires ValidTm(a) && ValidTm(b) && TimeOfDay(a) == TimeOfDay(b)
    ensures a.hour == b.hour && a.min == b.min && a.sec == b.sec
  {
    assert a.hour == TimeOfDay(a) / 3600 && b.hour == TimeOfDay(b) / 3600;
  }

  /** Seconds order valid times as their fields do, and tell them apart. */
  lemma SecondsOrder(a: Tm, b: Tm)
    requires ValidTm(a) && ValidTm(b)
    ensures Before(a, b) <==> Seconds(a) < Seconds(b)
    ensures Seconds(a) == Seconds(b) <==> a == b
  {
    TimeOfDayBound(a);
    TimeOfDayBound(b);
    DayOrder(a, b);
    DayOrder(b, a);
    if Seconds(a) == Seconds(b) {
      assert DayNumber(a) == DayNumber(b);
      TimeOfDayUnique(a, b);
    }
  }

  // ---------------------------------------------------- the calendar in closed form

  /** Leap days by division: one in four years, but not in hundred, and yet in four hundred. */
  lemma {:induction false} YearStartFormula(y: nat)
    ensures YearStart(y + 1) == 365 * (y + 1) + y / 4 - y / 100 + y / 400 + 1
  {
    if y > 0 {
      YearStartFormula(y - 1);
      LeapByDivision(y);
    } else {
      assert YearStart(1) == YearStart(0) + DaysInYear(0);
    }
  }

  lemma LeapByDivision(y: nat)
    requires y > 0
    ensures (y / 4 - y / 100 + y / 400) - ((y - 1) / 4 - (y - 1) / 100 + (y - 1) / 400) == if Leap(y) then 1 else 0
  {
    Quotients(y);
    Multiples(y);
  }

  /** A quotient grows exactly at the multiples. */
  lemma Quotients(y: nat)
    requires y > 0
    ensures y / 4 == (y - 1) / 4 + if y % 4 == 0 then 1 else 0
    ensures y / 100 == (y - 1) / 100 + if y % 100 == 0 then 1 else 0
    ensures y / 400 == (y - 1) / 400 + if y % 400 == 0 then 1 else 0
  {
  }

  lemma Multiples(y: nat)
    ensures y % 400 == 0 ==> y % 100 == 0
    ensures y % 100 == 0 ==> y % 4 == 0
  {
    assert y % 400 == 0 ==> y == 100 * (4 * (y / 400));
    assert y % 100 == 0 ==> y == 4 * (25 * (y / 100));
  }

  /** From March on, five months have 153 days, in the rhythm 31, 30, 31, 30, 31. */
  lemma MonthStartFormula(y: nat, m: nat)
    requires 2 <= m < 12
    ensures MonthStart(y, m) == DaysInYear(y) - 306 + (153 * (m - 2) + 2) / 5
    ensures MonthStart(y, 0) == 0 && MonthStart(y, 1) == 31
  {
    assert MonthStart(y, 1) == 31;
    assert MonthStart(y, 3) == MonthStart(y, 2) + 31;
    assert MonthStart(y, 4) == MonthStart(y, 2) + 61;
    assert MonthStart(y, 5) == MonthStart(y, 4) + 31;
    assert MonthStart(y, 6) == MonthStart(y, 4) + 61;
    assert MonthStart(y, 7) == MonthStart(y, 6) + 31;
    assert MonthStart(y, 8) == MonthStart(y, 6) + 62;
    assert MonthStart(y, 9) == MonthStart(y, 8) + 30;
    assert MonthStart(y, 10) == MonthStart(y, 8) + 61;
    assert MonthStart(y, 11) == MonthStart(y, 10) + 30;
  }

  /** Days up to day `d` of month `m` of year `y`, where years begin in March. */
  function MarchDays(y: int, m: nat, d: int): int {
    365 * y + y / 4 - y / 100 + y / 400 + (153 * m + 2) / 5 + 60 + d - 1
  }

  /**
   The number of a day by division alone. The right-hand side knows nothing of leap years and
   month lengths.
   */
  lemma DayNumberFormula(t: Tm)
    requires t.mon < 12
    ensures DayNumber(t) ==
            if t.mon < 2 then MarchDays(t.year - 1, t.mon + 10, t.mday) else MarchDays(t.year, t.mon - 2, t.mday)
  {
    if t.mon >= 2 {
      FirstOfMarch(t.year);
      MonthStartFormula(t.year, t.mon);
    } else {
      FirstOfJanuary(t.year);
      MonthStartFormula(t.year, 2);
    }
  }

  lemma FirstOfJanuary(y: nat)
    ensures YearStart(y) == MarchDays(y - 1, 10, 1) && YearStart(y) + 31 == MarchDays(y - 1, 11, 1)
  {
    if y > 0 {
      YearStartFormula(y - 1);
    }
  }

  lemma FirstOfMarch(y: nat)
    ensures YearStart(y) + DaysInYear(y) - 306 == MarchDays(y, 0, 1)
  {
    YearStartFormula(y);
    assert YearStart(y + 1) == YearStart(y) + DaysInYear(y);
  }

  // ------------------------------------------------------------ seconds to fields

  /** The year that day `d` falls into, searching from year `y` on. */
  function YearOf(d: nat, y: nat): (r: nat)
    requires YearStart(y) <= d
    ensures YearStart(r) <= d < YearStart(r + 1)
    decreases d - YearStart(y)
  {
    if d < YearStart(y + 1) then y else YearOf(d, y + 1)
  }

  function MonthOf(y: nat, d: nat, m: nat): (r: nat)
    requires m < 12 && MonthStart(y, m) <= d < MonthStart(y, 12)
    ensures r < 12 && MonthStart(y, r) <= d < MonthStart(y, r + 1)
    decreases 12 - m
  {
    if d < MonthStart(y, m + 1) then m else MonthOf(y, d, m + 1)
  }

  /** Midnight of day `d`. */
  function DateOf(d: nat): (t: Tm)
    ensures ValidTm(t) && DayNumber(t) == d && TimeOfDay(t) == 0
  {
    var y := YearOf(d, 0);
    YearLength(y);
    var inYear := d - YearStart(y);
    var m := MonthOf(y, inYear, 0);
    Tm(y, m, inYear - MonthStart(y, m) + 1, 0, 0, 0)
  }

  /** Sets the clock of `t` to `r` seconds after midnight. */
  function AtTime(t: Tm, r: nat): (t': Tm)
    requires ValidTm(t) && r < 86400
    ensures ValidTm(t') && SameDay(t, t') && TimeOfDay(t') == r
  {
    var hour, q := r / 3600, r % 3600;
    assert r == hour * 3600 + q;
    var min, sec := q / 60, q % 60;
    assert q == min * 60 + sec;
    t.(hour := hour, min := min, sec := sec)
  }

  /** localtime_r in UTC */
  function FromSeconds(s: nat): (t: Tm)
    ensures ValidTm(t) && Seconds(t) == s
  {
    var day, rest := s / 86400, s % 86400;
    assert s == day * 86400 + rest;
    AtTime(DateOf(day), rest)
  }

  /** Converting there and back is the identity in both directions. */
  lemma FromSecondsInverse(t: Tm)
    requires ValidTm(t)
    ensures Seconds(t) >= 0 && FromSeconds(Seconds(t)) == t
  {
    SecondsOrder(FromSeconds(Seconds(t)), t);
  }
}
