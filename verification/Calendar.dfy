/** Broken-down dates to seconds since the epoch: the closed formula against counting days. */
module Calendar {
  import opened CDivision

  /** A date: years since 1900, months since January, days of the month from 1. */
  datatype Date = Date(year: int, mon: int, mday: int)

  /** A date and a time of day. */
  datatype Tm = Tm(date: Date, hour: int, min: int, sec: int)

  const EPOCH := Date(70, 0, 1)

  // ---- Counting days ----

  predicate Leap(year: int) {
    var y := 1900 + year;
    y % 4 == 0 && (y % 100 != 0 || y % 400 == 0)
  }

  function MonthLength(year: int, mon: int): (n: int)
    requires 0 <= mon < 12
    ensures 28 <= n <= 31
  {
    if mon == 1 then (if Leap(year) then 29 else 28)
    else if mon in {3, 5, 8, 10} then 30
    else 31
  }

  /** A date of the Gregorian calendar from the first of January 1901 on. */
  predicate Valid(d: Date) {
    1 <= d.year && 0 <= d.mon < 12 && 1 <= d.mday <= MonthLength(d.year, d.mon)
  }

  predicate Before(d: Date, e: Date) {
    d.year < e.year || (d.year == e.year && (d.mon < e.mon || (d.mon == e.mon && d.mday < e.mday)))
  }

  /** The day before. */
  function Yesterday(d: Date): (y: Date)
    requires Valid(d) && d != Date(1, 0, 1)
    ensures Valid(y) && Before(y, d)
  {
    if d.mday > 1 then d.(mday := d.mday - 1)
    else if d.mon > 0 then Date(d.year, d.mon - 1, MonthLength(d.year, d.mon - 1))
    else Date(d.year - 1, 11, 31)
  }

  /** Days since the first of January 1901, one at a time. */
  function DayCount(d: Date): (n: nat)
    requires Valid(d)
    decreases d.year, d.mon, d.mday
  {
    if d == Date(1, 0, 1) then 0 else DayCount(Yesterday(d)) + 1
  }

  /** Seconds since the epoch. */
  function Seconds(tm: Tm): int
    requires Valid(tm.date)
  {
    (((DayCount(tm.date) - DayCount(EPOCH)) * 24 + tm.hour) * 60 + tm.min) * 60 + tm.sec
  }

  /** Later dates have higher counts. */
  lemma {:induction false} CountIncreases(d: Date, e: Date)
    requires Valid(d) && Valid(e) && Before(d, e)
    ensures DayCount(d) < DayCount(e)
    decreases e.year, e.mon, e.mday
  {
    if d != Yesterday(e) {
      CountIncreases(d, Yesterday(e));
    }
  }

  // ---- The formula ----

  predicate IsLeap(year: int) {
    year % 400 == 0 || (year % 100 != 0 && year % 4 == 0)
  }

  function MonthTab(mon: int): int
    requires 0 <= mon < 12
  {
    [0, 31, 59, 90, 120, 151, 181, 212, 243, 273, 304, 334][mon]
  }

  /** By how many days the formula is ahead of the calendar. */
  function Deviation(year: int, mon: int): int {
    if year < 70 then (if year % 4 == 1 then 0 else 1)
    else if mon < 2 then 0
    else if year % 400 == 100 then -1
    else if year % 400 == 0 then 1
    else 0
  }

  function Centuries(year: int): int {
    if year > 200 then Quotient(year - 1 - 100, 100) else 0
  }

  function FourCenturies(year: int): int {
    if year > 500 then Quotient(year - 1 - 100, 400) else 0
  }

  /** The days of the formula before the months of `year` are added. */
  function YearDays(year: int): int {
    (year - 70) * 365 + Quotient(year - 1 - 68, 4) - Centuries(year) + FourCenturies(year)
  }

  /** The calendar's answer, off by `Deviation` days. */
  function TimeOf(tm: Tm): int
    requires Valid(tm.date)
  {
    Seconds(tm) + 86400 * Deviation(tm.date.year, tm.date.mon)
  }

  /**
   * tm_to_time. From 1970 on it is exact in January and February, and in years whose count since 1900
   * is not 0 or 100 modulo 400; before 1970 in every fourth year only.
   */
  method TmToTime(tm: Tm) returns (t: int)
    requires Valid(tm.date)
    ensures t == TimeOf(tm)
    ensures tm.date.year >= 70 ==> (t == Seconds(tm) <==> tm.date.mon < 2 || tm.date.year % 400 !in {0, 100})
    ensures tm.date.year < 70 ==> (t == Seconds(tm) <==> tm.date.year % 4 == 1)
  {
    hide DayCount, Deviation, IsLeap, Leap, Quotient;
    var year, mon := tm.date.year, tm.date.mon;
    t := (year - 70) * 365;
    t := t + Quotient(year - 1 - 68, 4);
    if year > 200 {
      t := t - Quotient(year - 1 - 100, 100);
    }
    if year > 500 {
      t := t + Quotient(year - 1 - 100, 400);
    }
    t := t + MonthTab(mon);
    if mon >= 2 && IsLeap(year) {
      t := t + 1;
    }
    t := t + tm.date.mday - 1;
    FormulaDays(tm.date);
    Exactness(tm);
    t := t * 24 + tm.hour;
    t := t * 60 + tm.min;
    t := t * 60 + tm.sec;
  }

  lemma Exactness(tm: Tm)
    requires Valid(tm.date)
    ensures TimeOf(tm) == Seconds(tm) <==> Deviation(tm.date.year, tm.date.mon) == 0
    ensures tm.date.year >= 70 ==>
              (Deviation(tm.date.year, tm.date.mon) == 0 <==> tm.date.mon < 2 || tm.date.year % 400 !in {0, 100})
    ensures tm.date.year < 70 ==> (Deviation(tm.date.year, tm.date.mon) == 0 <==> tm.date.year % 4 == 1)
  {
  }

  // ---- Days, months and years ----

  lemma CountStep(d: Date, y: Date)
    requires Valid(d) && d != Date(1, 0, 1) && y == Yesterday(d)
    ensures DayCount(d) == DayCount(y) + 1
  {
    hide Leap;
  }

  lemma {:induction false} CountInMonth(year: int, mon: int, mday: int)
    requires Valid(Date(year, mon, mday))
    ensures DayCount(Date(year, mon, mday)) == DayCount(Date(year, mon, 1)) + mday - 1
    decreases mday
  {
    hide DayCount, Leap;
    if mday > 1 {
      CountInMonth(year, mon, mday - 1);
      CountStep(Date(year, mon, mday), Date(year, mon, mday - 1));
    }
  }

  lemma MonthTabNext(year: int, mon: int)
    requires 0 < mon < 12
    ensures MonthTab(mon) + (if mon >= 2 && Leap(year) then 1 else 0)
         == MonthTab(mon - 1) + (if mon - 1 >= 2 && Leap(year) then 1 else 0) + MonthLength(year, mon - 1)
  {
    hide Leap;
  }

  lemma {:induction false} CountInYear(year: int, mon: int)
    requires 1 <= year && 0 <= mon < 12
    ensures DayCount(Date(year, mon, 1))
         == DayCount(Date(year, 0, 1)) + MonthTab(mon) + (if mon >= 2 && Leap(year) then 1 else 0)
    decreases mon
  {
    hide DayCount, Leap, MonthLength;
    if mon > 0 {
      CountInYear(year, mon - 1);
      var last := MonthLength(year, mon - 1);
      CountInMonth(year, mon - 1, last);
      CountStep(Date(year, mon, 1), Date(year, mon - 1, last));
      hide MonthTab;
      MonthTabNext(year, mon);
    }
  }

  lemma CountOfYear(year: int)
    requires 1 <= year
    ensures DayCount(Date(year + 1, 0, 1)) == DayCount(Date(year, 0, 1)) + (if Leap(year) then 366 else 365)
  {
    hide DayCount, Leap;
    CountInYear(year, 11);
    CountInMonth(year, 11, 31);
    CountStep(Date(year + 1, 0, 1), Date(year, 11, 31));
  }

  lemma FourthYears(year: int)
    requires 1 <= year
    ensures Quotient(year - 68, 4) - Deviation(year + 1, 0)
         == Quotient(year - 69, 4) - Deviation(year, 0) + (if year % 4 == 0 then 1 else 0)
  {
  }

  lemma CenturyYears(year: int)
    requires 1 <= year
    ensures Centuries(year + 1) == Centuries(year) + (if year % 100 == 0 && year >= 200 then 1 else 0)
    ensures FourCenturies(year + 1) == FourCenturies(year) + (if year % 400 == 100 && year >= 500 then 1 else 0)
  {
  }

  /** Leap years by the count since 1900. */
  lemma LeapCycle(year: int)
    requires 1 <= year
    ensures Leap(year) <==> year % 4 == 0 && (year % 100 != 0 || year % 400 == 100)
    ensures year % 400 == 0 || year % 400 == 100 ==> year % 100 == 0
    ensures year % 100 == 0 ==> year % 4 == 0
  {
    ByFour(year);
    ByHundred(year);
    ByFourHundred(year);
    FourHundredIsHundred(year);
    HundredIsFour(year);
  }

  lemma ByFour(year: int)
    requires 1 <= year
    ensures (1900 + year) % 4 == year % 4
  {
  }

  lemma ByHundred(year: int)
    requires 1 <= year
    ensures (1900 + year) % 100 == year % 100
  {
  }

  lemma ByFourHundred(year: int)
    requires 1 <= year
    ensures (1900 + year) % 400 == 0 <==> year % 400 == 100
  {
  }

  lemma FourHundredIsHundred(year: int)
    requires 1 <= year
    ensures year % 400 == 0 || year % 400 == 100 ==> year % 100 == 0
  {
    var q, r := year / 400, year % 400;
    assert year == 100 * (4 * q) + r;
    assert r == 100 ==> year == 100 * (4 * q + 1);
  }

  lemma HundredIsFour(year: int)
    requires 1 <= year
    ensures year % 100 == 0 ==> year % 4 == 0
  {
  }

  lemma LeapRule(year: int)
    requires 1 <= year
    ensures (if Leap(year) then 1 else 0)
         == (if year % 4 == 0 then 1 else 0)
            - (if year % 100 == 0 && year >= 200 then 1 else 0)
            + (if year % 400 == 100 && year >= 500 then 1 else 0)
  {
    hide Leap;
    LeapCycle(year);
    assert year % 100 == 0 && year < 200 ==> year == 100;
    assert year % 400 == 100 && year < 500 ==> year == 100;
  }

  lemma FormulaYear(year: int)
    requires 1 <= year
    ensures YearDays(year + 1) - Deviation(year + 1, 0)
         == YearDays(year) - Deviation(year, 0) + (if Leap(year) then 366 else 365)
  {
    hide Leap, Deviation, Quotient, Centuries, FourCenturies;
    FourthYears(year);
    CenturyYears(year);
    LeapRule(year);
  }

  lemma {:induction false} YearsAgree(year: int)
    requires 1 <= year
    ensures DayCount(Date(year, 0, 1)) - DayCount(Date(1, 0, 1))
         == (YearDays(year) - Deviation(year, 0)) - (YearDays(1) - Deviation(1, 0))
    decreases year
  {
    hide YearDays, Leap, Deviation;
    if year > 1 {
      YearsAgree(year - 1);
      CountOfYear(year - 1);
      FormulaYear(year - 1);
    }
  }

  lemma FormulaDays(d: Date)
    requires Valid(d)
    ensures YearDays(d.year) + MonthTab(d.mon) + (if d.mon >= 2 && IsLeap(d.year) then 1 else 0) + d.mday - 1
         == DayCount(d) - DayCount(EPOCH) + Deviation(d.year, d.mon)
  {
    YearsAgree(d.year);
    YearsAgree(70);
    CountInYear(d.year, d.mon);
    CountInMonth(d.year, d.mon, d.mday);
    hide DayCount;
    LeapYears(d.year, d.mon);
  }

  lemma LeapYears(year: int, mon: int)
    requires 1 <= year
    ensures (if mon >= 2 && IsLeap(year) then 1 else 0) - Deviation(year, mon)
         == (if mon >= 2 && Leap(year) then 1 else 0) - Deviation(year, 0)
  {
    hide Leap;
    LeapCycle(year);
  }

  // ---- Order ----

  /** The day that the formula counts. */
  function FormulaDay(d: Date): int
    requires Valid(d)
  {
    DayCount(d) + Deviation(d.year, d.mon)
  }

  /** A leap year the formula does not know, and the years after which it gives up a day it was ahead. */
  predicate Collide(d: Date, e: Date) {
    || (d.year >= 70 && d.year % 400 == 100 && d == Date(d.year, 1, 29) && e == Date(d.year, 2, 1))
    || (d == Date(d.year, 11, 31) && e == Date(d.year + 1, 0, 1)
        && if d.year >= 70 then d.year % 400 == 0 else d.year % 4 == 0)
  }

  /** From one day to the next the formula moves on, or stands still where two days collide. */
  lemma FormulaStep(e: Date)
    requires Valid(e) && e != Date(1, 0, 1)
    ensures var d := Yesterday(e);
            FormulaDay(d) <= FormulaDay(e) && (FormulaDay(d) == FormulaDay(e) <==> Collide(d, e))
  {
    var d := Yesterday(e);
    CountStep(e, d);
    hide DayCount;
    if e.mday > 1 {
    } else if e.mon > 0 {
      SameYearStep(e.year, e.mon);
    } else {
      NextYearStep(d.year);
    }
  }

  lemma SameYearStep(year: int, mon: int)
    requires 1 <= year && 0 < mon < 12
    ensures var d, e := Date(year, mon - 1, MonthLength(year, mon - 1)), Date(year, mon, 1);
            && Deviation(year, mon - 1) - Deviation(year, mon) <= 1
            && (Deviation(year, mon - 1) - Deviation(year, mon) == 1 <==> Collide(d, e))
  {
    LeapCycle(year);
    hide Leap;
  }

  lemma NextYearStep(year: int)
    requires 1 <= year
    ensures Deviation(year, 11) - Deviation(year + 1, 0) <= 1
    ensures Deviation(year, 11) - Deviation(year + 1, 0) == 1 <==> Collide(Date(year, 11, 31), Date(year + 1, 0, 1))
  {
  }

  /** A later date never counts as an earlier day, and as the same day only if the two collide. */
  lemma {:induction false} FormulaOrder(d: Date, e: Date)
    requires Valid(d) && Valid(e) && Before(d, e)
    ensures FormulaDay(d) <= FormulaDay(e)
    ensures FormulaDay(d) == FormulaDay(e) <==> Collide(d, e)
    decreases e.year, e.mon, e.mday
  {
    hide FormulaDay, Collide, Leap;
    var y := Yesterday(e);
    FormulaStep(e);
    if d != y {
      FormulaOrder(d, y);
      NoTwoCollisions(d, y, e);
      CollideNext(d, e);
    }
  }

  lemma NoTwoCollisions(d: Date, e: Date, f: Date)
    ensures !(Collide(d, e) && Collide(e, f))
  {
  }

  lemma CollideNext(d: Date, e: Date)
    requires Valid(d) && Valid(e) && e != Date(1, 0, 1)
    ensures Collide(d, e) ==> d == Yesterday(e)
  {
    LeapCycle(d.year);
    hide Leap;
  }

  function SecondOfDay(tm: Tm): int {
    (tm.hour * 60 + tm.min) * 60 + tm.sec
  }

  predicate TimeOfDay(tm: Tm) {
    0 <= tm.hour < 24 && 0 <= tm.min < 60 && 0 <= tm.sec < 60
  }

  /** Of two dates, the later has the later time, unless they collide and the time of day decides. */
  lemma Ordered(a: Tm, b: Tm)
    requires Valid(a.date) && Valid(b.date) && Before(a.date, b.date) && TimeOfDay(a) && TimeOfDay(b)
    ensures TimeOf(a) < TimeOf(b) <==> (Collide(a.date, b.date) ==> SecondOfDay(a) < SecondOfDay(b))
  {
    FormulaOrder(a.date, b.date);
    hide DayCount, Collide, Deviation;
  }

  /** In the year 2000 the last of February and the first of March are the same day. */
  lemma LeapDayCollides(hour: int, min: int, sec: int)
    ensures var february, march := Tm(Date(100, 1, 29), hour, min, sec), Tm(Date(100, 2, 1), hour, min, sec);
            && Valid(february.date) && Valid(march.date) && Before(february.date, march.date)
            && TimeOf(february) == TimeOf(march)
  {
    hide DayCount;
    FormulaOrder(Date(100, 1, 29), Date(100, 2, 1));
  }

  /** The last day of 2300 and the first of 2301 are the same day. */
  lemma YearEndCollides(hour: int, min: int, sec: int)
    ensures var december, january := Tm(Date(400, 11, 31), hour, min, sec), Tm(Date(401, 0, 1), hour, min, sec);
            && Valid(december.date) && Valid(january.date) && Before(december.date, january.date)
            && TimeOf(december) == TimeOf(january)
  {
    hide DayCount;
    FormulaOrder(Date(400, 11, 31), Date(401, 0, 1));
  }
}
