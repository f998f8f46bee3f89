// Calendar dates and working days (datetime.date, and minus_days in src/hrmosaic/agent/dates.py).
module Calendar {

  datatype Date = Date(year: int, month: int, day: int)

  predicate IsLeap(y: int) { y % 4 == 0 && (y % 100 != 0 || y % 400 == 0) }

  function DaysIn(y: int, m: int): (n: int)
    ensures 28 <= n <= 31
  {
    if m == 2 then (if IsLeap(y) then 29 else 28)
    else if m == 4 || m == 6 || m == 9 || m == 11 then 30
    else 31
  }

  predicate Valid(d: Date) { 1 <= d.month <= 12 && 1 <= d.day <= DaysIn(d.year, d.month) }

  // date.toordinal(): the number of days since the first day of year 1, which is day 1.
  function DaysBeforeYear(y: int): int
    decreases if y > 1 then y - 1 else 1 - y
  {
    if y == 1 then 0
    else if y > 1 then DaysBeforeYear(y - 1) + YearLength(y - 1)
    else DaysBeforeYear(y + 1) - YearLength(y)
  }

  function YearLength(y: int): int { if IsLeap(y) then 366 else 365 }

  function DaysBeforeMonth(y: int, m: int): (n: int)
    requires 1 <= m <= 13
    ensures n <= 366
    ensures m <= 12 ==> n + DaysIn(y, m) <= 366
    decreases m
  {
    var february := if IsLeap(y) then 60 else 59;
    if m == 1 then 0
    else if m == 2 then 31
    else february + match m
      case 3 => 0 case 4 => 31 case 5 => 61 case 6 => 92 case 7 => 122
      case 8 => 153 case 9 => 184 case 10 => 214 case 11 => 245 case 12 => 275 case _ => 306
  }

  function Ordinal(d: Date): int
    requires Valid(d)
  {
    DaysBeforeYear(d.year) + DaysBeforeMonth(d.year, d.month) + d.day
  }

  // d - timedelta(days=1)
  function PrevDay(d: Date): (r: Date)
    requires Valid(d)
    ensures Valid(r)
  {
    if d.day > 1 then d.(day := d.day - 1)
    else if d.month > 1 then Date(d.year, d.month - 1, DaysIn(d.year, d.month - 1))
    else Date(d.year - 1, 12, 31)
  }

  lemma PrevDayOrdinal(d: Date)
    requires Valid(d)
    ensures Ordinal(PrevDay(d)) == Ordinal(d) - 1
  {
    if d.day == 1 {
      if d.month > 1 {
        MonthsAdjoin(d.year, d.month - 1);
      } else {
        YearsAdjoin(d.year - 1);
      }
    }
  }

  lemma MonthsAdjoin(y: int, m: int)
    requires 1 <= m <= 12
    ensures DaysBeforeMonth(y, m + 1) == DaysBeforeMonth(y, m) + DaysIn(y, m)
  {
  }

  lemma YearsAdjoin(y: int)
    ensures DaysBeforeYear(y + 1) == DaysBeforeYear(y) + YearLength(y)
    ensures DaysBeforeMonth(y, 13) == YearLength(y)
  {
  }

  lemma {:induction false} YearsApart(y: int, z: int)
    requires y <= z
    ensures DaysBeforeYear(y) + 365 * (z - y) <= DaysBeforeYear(z)
    decreases z - y
  {
    if y < z {
      YearsApart(y, z - 1);
      YearsAdjoin(z - 1);
    }
  }

  lemma {:induction false} MonthsApart(y: int, m: int, n: int)
    requires 1 <= m < n <= 13
    ensures DaysBeforeMonth(y, m) + DaysIn(y, m) <= DaysBeforeMonth(y, n)
    decreases n - m
  {
    if n == m + 1 {
      MonthsAdjoin(y, m);
    } else {
      MonthsApart(y, m, n - 1);
      MonthsAdjoin(y, n - 1);
    }
  }

  predicate Before(d: Date, e: Date) {
    d.year < e.year || (d.year == e.year && (d.month < e.month || (d.month == e.month && d.day < e.day)))
  }

  // Later dates have greater ordinals, so an ordinal names one date.
  lemma OrdinalMonotone(d: Date, e: Date)
    requires Valid(d) && Valid(e) && Before(d, e)
    ensures Ordinal(d) < Ordinal(e)
  {
    if d.year < e.year {
      YearsAdjoin(d.year);
      YearsApart(d.year + 1, e.year);
      if d.month < 12 {
        MonthsApart(d.year, d.month, 13);
      } else {
        MonthsAdjoin(d.year, 12);
      }
      assert DaysBeforeMonth(e.year, e.month) >= 0;
    } else if d.month < e.month {
      MonthsApart(d.year, d.month, e.month);
    }
  }

  lemma OrdinalInjective(d: Date, e: Date)
    requires Valid(d) && Valid(e) && Ordinal(d) == Ordinal(e)
    ensures d == e
  {
    if Before(d, e) {
      OrdinalMonotone(d, e);
    } else if Before(e, d) {
      OrdinalMonotone(e, d);
    }
  }

  // The same day of the same month a year or more away is at least a year of days away.
  lemma SameDayApart(d: Date, e: Date)
    requires Valid(d) && Valid(e) && d.month == e.month && d.day == e.day && d.year < e.year
    ensures Ordinal(d) + 365 <= Ordinal(e) + 1
  {
    YearsApart(d.year, e.year);
  }

  // ----- working days -----

  // date.weekday(): Monday is 0.
  function WeekdayOf(ordinal: int): int { (ordinal + 6) % 7 }

  function Weekday(d: Date): int
    requires Valid(d)
  {
    WeekdayOf(Ordinal(d))
  }

  predicate WorkingDay(ordinal: int) { WeekdayOf(ordinal) < 5 }

  // How many days the walk back may pass before it meets a working one.
  function Gap(ordinal: int): nat {
    if WeekdayOf(ordinal) == 0 then 2 else if WeekdayOf(ordinal) == 6 then 1 else 0
  }

  // The day before: one day back, and over a weekend one day nearer to the Friday.
  lemma PrevDayGap(d: Date)
    requires Valid(d)
    ensures Valid(PrevDay(d)) && Ordinal(PrevDay(d)) == Ordinal(d) - 1
    ensures Weekday(PrevDay(d)) >= 5 ==> Gap(Ordinal(PrevDay(d))) < Gap(Ordinal(d))
  {
    PrevDayOrdinal(d);
    WeekdayShift(Ordinal(PrevDay(d)), 1);
  }

  function MinusCalendar(d: Date, count: nat): (r: Date)
    requires Valid(d)
    ensures Valid(r)
  {
    if count == 0 then d else PrevDay(MinusCalendar(d, count - 1))
  }

  function MinusBusiness(d: Date, count: nat): (r: Date)
    requires Valid(d)
    ensures Valid(r)
    decreases count, Gap(Ordinal(d))
  {
    if count == 0 then d
    else
      var moment := PrevDay(d);
      PrevDayGap(d);
      if Weekday(moment) < 5 then MinusBusiness(moment, count - 1) else MinusBusiness(moment, count)
  }

  function Minus(anchor: Date, count: nat, business: bool): (r: Date)
    requires Valid(anchor)
    ensures Valid(r)
  {
    if business then MinusBusiness(anchor, count) else MinusCalendar(anchor, count)
  }

  // The walk back one day at a time arrives where the recursive definition says.
  method MinusDays(anchor: Date, count: nat, business: bool) returns (moment: Date)
    requires Valid(anchor)
    ensures moment == Minus(anchor, count, business)
  {
    if !business {
      return MinusCalendar(anchor, count);
    }
    var remaining := count;
    moment := anchor;
    while remaining > 0
      invariant Valid(moment) && MinusBusiness(moment, remaining) == MinusBusiness(anchor, count)
      decreases remaining, Gap(Ordinal(moment))
    {
      PrevDayGap(moment);
      moment := PrevDay(moment);
      if Weekday(moment) < 5 {
        remaining := remaining - 1;
      }
    }
  }

  // The working days from `lo` up to but not including `hi`.
  function WorkingDays(lo: int, hi: int): nat
    decreases hi - lo
  {
    if lo >= hi then 0 else WorkingDays(lo + 1, hi) + if WorkingDay(lo) then 1 else 0
  }

  lemma {:induction false} WorkingDaysSplit(lo: int, mid: int, hi: int)
    requires lo <= mid <= hi
    ensures WorkingDays(lo, hi) == WorkingDays(lo, mid) + WorkingDays(mid, hi)
    decreases mid - lo
  {
    if lo < mid {
      WorkingDaysSplit(lo + 1, mid, hi);
    }
  }

  lemma WorkingDaysNext(lo: int, hi: int)
    requires lo <= hi
    ensures WorkingDays(lo, hi + 1) == WorkingDays(lo, hi) + if WorkingDay(hi) then 1 else 0
  {
    WorkingDaysSplit(lo, hi, hi + 1);
    assert WorkingDays(hi + 1, hi + 1) == 0;
  }

  lemma {:induction false} MinusCalendarOrdinal(d: Date, count: nat)
    requires Valid(d)
    ensures Ordinal(MinusCalendar(d, count)) == Ordinal(d) - count
  {
    if count > 0 {
      MinusCalendarOrdinal(d, count - 1);
      PrevDayOrdinal(MinusCalendar(d, count - 1));
    }
  }

  // The result has exactly `count` working days between it and the anchor, and is one itself.
  lemma {:induction false} BusinessDaysCounted(d: Date, count: nat)
    requires Valid(d)
    ensures var r := MinusBusiness(d, count);
            && Ordinal(r) <= Ordinal(d)
            && WorkingDays(Ordinal(r), Ordinal(d)) == count
            && (count > 0 ==> WorkingDay(Ordinal(r)))
    decreases count, Gap(Ordinal(d))
  {
    if count > 0 {
      var moment := PrevDay(d);
      PrevDayGap(d);
      var left := if Weekday(moment) < 5 then count - 1 else count;
      BusinessDaysCounted(moment, left);
      WorkingDaysNext(Ordinal(MinusBusiness(moment, left)), Ordinal(moment));
    }
  }

  // And it is the only working day with that many working days between it and the anchor.
  lemma BusinessDaysUnique(d: Date, count: nat, e: Date)
    requires Valid(d) && Valid(e) && count > 0
    requires Ordinal(e) <= Ordinal(d) && WorkingDay(Ordinal(e)) && WorkingDays(Ordinal(e), Ordinal(d)) == count
    ensures e == MinusBusiness(d, count)
  {
    var r := MinusBusiness(d, count);
    BusinessDaysCounted(d, count);
    var lo, hi := Ordinal(e), Ordinal(r);
    if lo < hi {
      WorkingDaysSplit(lo, hi, Ordinal(d));
    } else if hi < lo {
      WorkingDaysSplit(hi, lo, Ordinal(d));
    }
    OrdinalInjective(e, r);
  }

  lemma {:induction false} BusinessDaysCompose(d: Date, m: nat, n: nat)
    requires Valid(d)
    ensures MinusBusiness(MinusBusiness(d, m), n) == MinusBusiness(d, m + n)
    decreases m, Gap(Ordinal(d))
  {
    if m > 0 {
      PrevDayGap(d);
      var moment := PrevDay(d);
      if Weekday(moment) < 5 {
        BusinessDaysCompose(moment, m - 1, n);
      } else {
        BusinessDaysCompose(moment, m, n);
      }
    }
  }

  lemma {:induction false} WeeksOfWorkingDays(lo: int, weeks: nat)
    ensures WorkingDays(lo, lo + 7 * weeks) == 5 * weeks
    ensures WeekdayOf(lo + 7 * weeks) == WeekdayOf(lo)
    decreases weeks
  {
    if weeks > 0 {
      WeeksOfWorkingDays(lo + 7, weeks - 1);
      WorkingDaysSplit(lo, lo + 7, lo + 7 * weeks);
      OneWeek(lo);
    }
  }

  lemma OneWeek(lo: int)
    ensures WorkingDays(lo, lo + 7) == 5
  {
    var k := 7;
    while k > 0
      invariant 0 <= k <= 7
      invariant WorkingDays(lo + k, lo + 7) == WorkingFrom(WeekdayOf(lo), k)
    {
      k := k - 1;
      WeekdayShift(lo, k);
    }
    assert forall w :: 0 <= w < 7 ==> WorkingFrom(w, 0) == 5 by {
      forall w | 0 <= w < 7 ensures WorkingFrom(w, 0) == 5 {
        WorkingFromSum(w);
      }
    }
  }

  lemma WeekdayShift(o: int, k: nat)
    requires k < 7
    ensures WeekdayOf(o + k) == if WeekdayOf(o) + k < 7 then WeekdayOf(o) + k else WeekdayOf(o) + k - 7
  {
  }

  // The working days among the k-th and later days of a week that starts on weekday w.
  function WorkingFrom(w: int, k: nat): nat
    requires 0 <= w < 7
    decreases 7 - k
  {
    if k >= 7 then 0
    else WorkingFrom(w, k + 1) + if (if w + k < 7 then w + k else w + k - 7) < 5 then 1 else 0
  }

  lemma WorkingFromSum(w: int)
    requires 0 <= w < 7
    ensures WorkingFrom(w, 0) == 5
  {
    assert WorkingFrom(w, 6) == if (w + 6) % 7 < 5 then 1 else 0;
    assert WorkingFrom(w, 4)
        == WorkingFrom(w, 6) + (if (w + 4) % 7 < 5 then 1 else 0) + (if (w + 5) % 7 < 5 then 1 else 0);
    assert WorkingFrom(w, 2)
        == WorkingFrom(w, 4) + (if (w + 2) % 7 < 5 then 1 else 0) + (if (w + 3) % 7 < 5 then 1 else 0);
  }

  // From a working day, five business days back are exactly a week back.
  lemma BusinessWeeks(d: Date, weeks: nat)
    requires Valid(d) && Weekday(d) < 5
    ensures MinusBusiness(d, 5 * weeks) == MinusCalendar(d, 7 * weeks)
  {
    if weeks > 0 {
      MinusCalendarOrdinal(d, 7 * weeks);
      var e := MinusCalendar(d, 7 * weeks);
      WeeksOfWorkingDays(Ordinal(e), weeks);
      BusinessDaysUnique(d, 5 * weeks, e);
    }
  }

  // Anchors more than a weekend apart have different results.
  lemma MinusSeparates(d: Date, e: Date, count: nat, business: bool)
    requires Valid(d) && Valid(e) && Ordinal(d) + 3 <= Ordinal(e)
    ensures Minus(d, count, business) != Minus(e, count, business)
  {
    if business {
      BusinessDaysCounted(d, count);
      BusinessDaysCounted(e, count);
      var r := Ordinal(MinusBusiness(d, count));
      WorkingDaysMeet(Ordinal(d), Ordinal(e));
      if MinusBusiness(d, count) == MinusBusiness(e, count) {
        WorkingDaysSplit(r, Ordinal(d), Ordinal(e));
        assert false;
      }
    } else {
      MinusCalendarOrdinal(d, count);
      MinusCalendarOrdinal(e, count);
    }
  }

  // Three days in a row hold a working one.
  lemma WorkingDaysMeet(lo: int, hi: int)
    requires lo + 3 <= hi
    ensures WorkingDays(lo, hi) >= 1
  {
    WeekdayShift(lo, 1);
    WeekdayShift(lo, 2);
    WorkingDaysSplit(lo, lo + 2, hi);
    assert WorkingDays(lo, hi) == WorkingDays(lo + 1, hi) + if WorkingDay(lo) then 1 else 0;
    assert WorkingDays(lo + 1, hi) == WorkingDays(lo + 2, hi) + if WorkingDay(lo + 1) then 1 else 0;
  }
}
