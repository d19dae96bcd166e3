/** DateTime of RTClib.cpp: seconds since 1970 to calendar fields and back. */
module Calendar {
  import opened Arithmetic

  const SecondsFrom1970To2000 := 946684800
  const TwoTo32 := 0x1_0000_0000

  // ---------------------------------------------------------------- a calendar by its rules

  /** Which years are leap years: every fourth, as the source has it, or by the Gregorian rule.
      Years are counted from 2000. */
  datatype Rule = EveryFourth | Gregorian

  predicate Leap(rule: Rule, y: nat) {
    match rule
    case EveryFourth => y % 4 == 0
    case Gregorian => y % 4 == 0 && (y % 100 != 0 || y % 400 == 0)
  }

  const DaysInMonth: seq<nat> := [31, 28, 31, 30, 31, 30, 31, 31, 30, 31, 30, 31]

  function MonthDays(rule: Rule, y: nat, m: nat): nat
    requires 1 <= m <= 12
  {
    DaysInMonth[m - 1] + if m == 2 && Leap(rule, y) then 1 else 0
  }

  function YearDays(rule: Rule, y: nat): nat { if Leap(rule, y) then 366 else 365 }

  function DaysBeforeYear(rule: Rule, y: nat): nat {
    if y == 0 then 0 else DaysBeforeYear(rule, y - 1) + YearDays(rule, y - 1)
  }

  function DaysBeforeMonth(rule: Rule, y: nat, m: nat): nat
    requires 1 <= m <= 13
  {
    if m == 1 then 0 else DaysBeforeMonth(rule, y, m - 1) + MonthDays(rule, y, m - 1)
  }

  datatype Date = Date(y: nat, m: nat, d: nat)

  predicate ValidDate(rule: Rule, c: Date) { 1 <= c.m <= 12 && 1 <= c.d <= MonthDays(rule, c.y, c.m) }

  /** Days from 2000-01-01, counted year by year and month by month. */
  function DayNumber(rule: Rule, c: Date): nat
    requires ValidDate(rule, c)
  {
    DaysBeforeYear(rule, c.y) + DaysBeforeMonth(rule, c.y, c.m) + c.d - 1
  }

  lemma {:induction false} YearsClosed(y: nat)
    ensures DaysBeforeYear(EveryFourth, y) == 365 * y + (y + 3) / 4
  {
    if y > 0 { YearsClosed(y - 1); }
  }

  lemma MonthSums(rule: Rule, y: nat)
    ensures var l := if Leap(rule, y) then 1 else 0;
            && DaysBeforeMonth(rule, y, 1) == 0 && DaysBeforeMonth(rule, y, 2) == 31
            && DaysBeforeMonth(rule, y, 3) == 59 + l && DaysBeforeMonth(rule, y, 4) == 90 + l
            && DaysBeforeMonth(rule, y, 5) == 120 + l && DaysBeforeMonth(rule, y, 6) == 151 + l
            && DaysBeforeMonth(rule, y, 7) == 181 + l && DaysBeforeMonth(rule, y, 8) == 212 + l
            && DaysBeforeMonth(rule, y, 9) == 243 + l && DaysBeforeMonth(rule, y, 10) == 273 + l
            && DaysBeforeMonth(rule, y, 11) == 304 + l && DaysBeforeMonth(rule, y, 12) == 334 + l
            && DaysBeforeMonth(rule, y, 13) == 365 + l
  {
  }

  /** A later year starts after the earlier one has ended. */
  lemma {:induction false} LaterYear(rule: Rule, y: nat, y': nat)
    requires y < y'
    ensures DaysBeforeYear(rule, y) + YearDays(rule, y) <= DaysBeforeYear(rule, y')
    decreases y'
  {
    if y < y' - 1 { LaterYear(rule, y, y' - 1); }
  }

  lemma {:induction false} LaterMonth(rule: Rule, y: nat, m: nat, m': nat)
    requires 1 <= m < m' <= 13
    ensures DaysBeforeMonth(rule, y, m) + MonthDays(rule, y, m) <= DaysBeforeMonth(rule, y, m')
    decreases m'
  {
    if m < m' - 1 { LaterMonth(rule, y, m, m' - 1); }
  }

  lemma WithinYear(rule: Rule, c: Date)
    requires ValidDate(rule, c)
    ensures DaysBeforeYear(rule, c.y) <= DayNumber(rule, c) < DaysBeforeYear(rule, c.y) + YearDays(rule, c.y)
  {
    MonthSums(rule, c.y);
    if c.m < 13 { LaterMonth(rule, c.y, c.m, 13); }
  }

  /** Every day has one date. */
  lemma DayNumberInjective(rule: Rule, a: Date, b: Date)
    requires ValidDate(rule, a) && ValidDate(rule, b) && DayNumber(rule, a) == DayNumber(rule, b)
    ensures a == b
  {
    WithinYear(rule, a);
    WithinYear(rule, b);
    if a.y < b.y { LaterYear(rule, a.y, b.y); }
    if b.y < a.y { LaterYear(rule, b.y, a.y); }
    if a.m < b.m { LaterMonth(rule, a.y, a.m, b.m); }
    if b.m < a.m { LaterMonth(rule, a.y, b.m, a.m); }
  }

  // ---------------------------------------------------------------- the Gregorian calendar

  /** The rules differ first in 2100, and not again before 2200. */
  lemma LeapRules(y: nat)
    requires y < 200
    ensures Leap(Gregorian, y) == (y != 100 && Leap(EveryFourth, y))
  {
    if y >= 100 { assert y % 100 == y - 100; } else { assert y % 100 == y; }
    assert y % 400 == y;
  }

  lemma {:induction false} SameYears(y: nat)
    requires y <= 100
    ensures DaysBeforeYear(Gregorian, y) == DaysBeforeYear(EveryFourth, y)
  {
    hide Leap;
    if y > 0 {
      LeapRules(y - 1);
      SameYears(y - 1);
    }
  }

  lemma {:induction false} OneDayBehind(y: nat)
    requires 100 < y <= 200
    ensures DaysBeforeYear(Gregorian, y) + 1 == DaysBeforeYear(EveryFourth, y)
  {
    hide Leap;
    LeapRules(y - 1);
    if y == 101 {
      SameYears(100);
      HundredIsLeap();
    } else {
      OneDayBehind(y - 1);
    }
  }

  lemma HundredIsLeap()
    ensures Leap(EveryFourth, 100)
  {
  }

  const FirstWrongDay := 36584   // 2100-02-29, which does not exist

  /** Until the end of February 2100, and no longer, the source's dates are Gregorian dates. */
  lemma GregorianUntil2100(c: Date)
    requires ValidDate(EveryFourth, c) && c.y < 200
    ensures ValidDate(Gregorian, c) && DayNumber(Gregorian, c) == DayNumber(EveryFourth, c)
        <==> DayNumber(EveryFourth, c) < FirstWrongDay
  {
    hide Leap, DaysBeforeYear, DaysBeforeMonth;
    YearsClosed(100);
    LeapRules(c.y);
    WithinYear(EveryFourth, c);
    if c.y < 100 {
      SameYears(c.y);
      SameMonths(c.y, c.m);
      LaterYear(EveryFourth, c.y, 100);
    } else if c.y == 100 {
      SameYears(100);
      HundredIsLeap();
      MonthSums(EveryFourth, 100);
      MonthSums(Gregorian, 100);
    } else {
      OneDayBehind(c.y);
      SameMonths(c.y, c.m);
      LaterYear(EveryFourth, 100, c.y);
    }
  }

  lemma {:induction false} SameMonths(y: nat, m: nat)
    requires 1 <= m <= 13 && Leap(Gregorian, y) == Leap(EveryFourth, y)
    ensures DaysBeforeMonth(Gregorian, y, m) == DaysBeforeMonth(EveryFourth, y, m)
    ensures m <= 12 ==> MonthDays(Gregorian, y, m) == MonthDays(EveryFourth, y, m)
  {
    hide Leap;
    if m > 1 { SameMonths(y, m - 1); }
  }

  // ---------------------------------------------------------------- date and time

  datatype Stamp = Stamp(date: Date, hh: nat, mm: nat, ss: nat)

  predicate ValidStamp(s: Stamp) { ValidDate(EveryFourth, s.date) && s.hh < 24 && s.mm < 60 && s.ss < 60 }

  /** Seconds from 2000-01-01. */
  function Seconds(s: Stamp): nat
    requires ValidStamp(s)
  {
    ((DayNumber(EveryFourth, s.date) * 24 + s.hh) * 60 + s.mm) * 60 + s.ss
  }

  /** Every second has one stamp. */
  lemma SecondsInjective(a: Stamp, b: Stamp)
    requires ValidStamp(a) && ValidStamp(b) && Seconds(a) == Seconds(b)
    ensures a == b
  {
    hide DayNumber;
    DayNumberInjectiveIf(a.date, b.date);
  }

  lemma DayNumberInjectiveIf(a: Date, b: Date)
    requires ValidDate(EveryFourth, a) && ValidDate(EveryFourth, b)
    ensures DayNumber(EveryFourth, a) == DayNumber(EveryFourth, b) ==> a == b
  {
    if DayNumber(EveryFourth, a) == DayNumber(EveryFourth, b) { DayNumberInjective(EveryFourth, a, b); }
  }

  /** date2days: 16-bit result; the loop adds up the months. */
  method Date2Days(year: nat, m: nat, d: nat) returns (result: nat)
    requires year < 65536 && 1 <= m <= 12 && d < 256
    ensures var y := if year >= 2000 then year - 2000 else year;
            result == (DaysBeforeYear(EveryFourth, y) + DaysBeforeMonth(EveryFourth, y, m) + d - 1) % 65536
  {
    var y := if year >= 2000 then year - 2000 else year;
    YearsClosed(y);
    hide DaysBeforeYear;
    var days := d;
    for i := 1 to m
      invariant days == d + DaysBeforeMonth(EveryFourth, y, i) - if i > 2 && y % 4 == 0 then 1 else 0
    {
      days := days + DaysInMonth[i - 1];
    }
    if m > 2 && y % 4 == 0 { days := days + 1; }
    result := (days + 365 * y + (y + 3) / 4 - 1) % 65536;
  }

  class DateTime {
    var yOff: nat
    var m: nat
    var d: nat
    var hh: nat
    var mm: nat
    var ss: nat

    ghost function View(): Stamp
      reads this
    {
      Stamp(Date(yOff, m, d), hh, mm, ss)
    }

    /** Fields that fit their bytes, of a day that fits sixteen bits. */
    ghost predicate Valid()
      reads this
    {
      ValidStamp(View()) && yOff < 256 && DayNumber(EveryFourth, Date(yOff, m, d)) < 65536
    }

    /** DateTime(t): 32-bit subtraction, then the day count is used up year by year and month by month. */
    constructor FromUnixtime(t0: nat)
      requires t0 < TwoTo32
      ensures Valid() && Seconds(View()) == (t0 - SecondsFrom1970To2000) % TwoTo32
    {
      hide DayNumber, Leap;
      var t := (t0 - SecondsFrom1970To2000) % TwoTo32;
      TimeParts(t);
      ss, mm, hh := t % 60, t / 60 % 60, t / 60 / 60 % 24;
      var days := t / 60 / 60 / 24;
      var y, rest, leap := TakeYears(days);
      var month, day := TakeMonths(y, rest, leap);
      yOff, m, d := y, month, day;
      DayOfParts(y, month, day, rest, days);
    }

    /** unixtime(): 32-bit arithmetic. */
    method Unixtime() returns (t: nat)
      requires Valid()
      ensures t == (Seconds(View()) + SecondsFrom1970To2000) % TwoTo32
    {
      hide Leap, DaysBeforeYear, DaysBeforeMonth;
      var days := Date2Days(yOff, m, d);
      var l := ((days * 24 + hh) * 60 + mm) * 60 + ss;
      t := (l % TwoTo32 + SecondsFrom1970To2000) % TwoTo32;
      DayFitsSixteenBits(Date(yOff, m, d), days);
      WrapOnce(l);
    }
  }

  lemma DayFitsSixteenBits(c: Date, days: nat)
    requires ValidDate(EveryFourth, c) && DayNumber(EveryFourth, c) < 65536
    requires days == (DaysBeforeYear(EveryFourth, c.y) + DaysBeforeMonth(EveryFourth, c.y, c.m) + c.d - 1) % 65536
    ensures days == DayNumber(EveryFourth, c)
  {
    hide Leap, DaysBeforeYear, DaysBeforeMonth, MonthDays;
  }

  lemma WrapOnce(l: nat)
    ensures (l % TwoTo32 + SecondsFrom1970To2000) % TwoTo32 == (l + SecondsFrom1970To2000) % TwoTo32
  {
    ModAdd(l, SecondsFrom1970To2000, TwoTo32);
  }

  /** Adding and subtracting the seconds of thirty years in 32 bits cancel out. */
  lemma WrapBack(x: nat)
    requires x < TwoTo32
    ensures ((x + SecondsFrom1970To2000) % TwoTo32 - SecondsFrom1970To2000) % TwoTo32 == x
    ensures ((x - SecondsFrom1970To2000) % TwoTo32 + SecondsFrom1970To2000) % TwoTo32 == x
  {
    ModAdd(x + SecondsFrom1970To2000, -SecondsFrom1970To2000, TwoTo32);
    ModAdd(x - SecondsFrom1970To2000, SecondsFrom1970To2000, TwoTo32);
  }

  lemma TimeParts(t: nat)
    requires t < TwoTo32
    ensures ((t / 60 / 60 / 24 * 24 + t / 60 / 60 % 24) * 60 + t / 60 % 60) * 60 + t % 60 == t
    ensures t / 60 / 60 / 24 < 65536
  {
    var a := t / 60;
    var b := a / 60;
    assert t == a * 60 + t % 60 && a == b * 60 + a % 60 && b == b / 24 * 24 + b % 24;
  }

  /** The loop over the years. */
  method TakeYears(days0: nat) returns (yOff: nat, days: nat, leap: bool)
    requires days0 < 65536
    ensures days + DaysBeforeYear(EveryFourth, yOff) == days0 && yOff < 256
    ensures leap == Leap(EveryFourth, yOff) && days < YearDays(EveryFourth, yOff)
  {
    days, yOff := days0, 0;
    while true
      invariant days + DaysBeforeYear(EveryFourth, yOff) == days0 && yOff < 256
      decreases days
    {
      leap := yOff % 4 == 0;
      if days < 365 + (if leap then 1 else 0) { break; }
      days := days - (365 + if leap then 1 else 0);
      yOff := yOff + 1;
      YearsClosed(yOff);
    }
  }

  /** The loop over the months. */
  method TakeMonths(y: nat, days0: nat, leap: bool) returns (m: nat, d: nat)
    requires leap == Leap(EveryFourth, y) && days0 < YearDays(EveryFourth, y)
    ensures ValidDate(EveryFourth, Date(y, m, d)) && DaysBeforeMonth(EveryFourth, y, m) + d == days0 + 1
  {
    MonthSums(EveryFourth, y);
    hide Leap;
    m := 1;
    var days: nat := days0;
    while true
      invariant 1 <= m <= 12 && days + DaysBeforeMonth(EveryFourth, y, m) == days0
      decreases 12 - m
    {
      var daysPerMonth := DaysInMonth[m - 1];
      if leap && m == 2 { daysPerMonth := daysPerMonth + 1; }
      if days < daysPerMonth { break; }
      days := days - daysPerMonth;
      m := m + 1;
    }
    d := days + 1;
  }

  lemma DayOfParts(y: nat, m: nat, d: nat, rest: nat, days: nat)
    requires ValidDate(EveryFourth, Date(y, m, d))
    requires rest + DaysBeforeYear(EveryFourth, y) == days && DaysBeforeMonth(EveryFourth, y, m) + d == rest + 1
    ensures DayNumber(EveryFourth, Date(y, m, d)) == days
  {
  }

  /** Every 32-bit time survives the trip through the calendar fields. */
  method ThereAndBack(t: nat) returns (back: nat)
    requires t < TwoTo32
    ensures back == t
  {
    hide DayNumber, ValidDate, Seconds;
    WrapBack(t);
    var c := new DateTime.FromUnixtime(t);
    back := c.Unixtime();
  }

  /** The fields of a stamp whose seconds fit 32 bits survive the trip through its time: from 2000 to 2135. */
  method BackAndThere(c: DateTime) returns (again: DateTime)
    requires c.Valid() && Seconds(c.View()) < TwoTo32
    ensures fresh(again) && again.View() == c.View()
  {
    hide DayNumber, ValidDate, Seconds;
    WrapBack(Seconds(c.View()));
    var t := c.Unixtime();
    again := new DateTime.FromUnixtime(t);
    SecondsInjective(again.View(), c.View());
  }

  // ---------------------------------------------------------------- day by day

  /** The next day by the calendar on the wall. */
  function DayAfter(rule: Rule, c: Date): Date
    requires 1 <= c.m <= 12
  {
    if c.d < MonthDays(rule, c.y, c.m) then Date(c.y, c.m, c.d + 1)
    else if c.m < 12 then Date(c.y, c.m + 1, 1)
    else Date(c.y + 1, 1, 1)
  }

  /** Days are counted one by one from 2000-01-01. */
  lemma CountedByDays(rule: Rule, c: Date)
    requires ValidDate(rule, c)
    ensures ValidDate(rule, DayAfter(rule, c)) && DayNumber(rule, DayAfter(rule, c)) == DayNumber(rule, c) + 1
    ensures ValidDate(rule, Date(0, 1, 1)) && DayNumber(rule, Date(0, 1, 1)) == 0
  {
    hide Leap;
    MonthSums(rule, c.y);
    MonthSums(rule, c.y + 1);
  }

  /** The knuckles, and the three rules for February. */
  lemma MonthLengths(rule: Rule, y: nat, m: nat)
    requires 1 <= m <= 12
    ensures m in {1, 3, 5, 7, 8, 10, 12} ==> MonthDays(rule, y, m) == 31
    ensures m in {4, 6, 9, 11} ==> MonthDays(rule, y, m) == 30
    ensures m == 2 && y % 4 != 0 ==> MonthDays(rule, y, m) == 28
    ensures m == 2 && y % 4 == 0 && rule.EveryFourth? ==> MonthDays(rule, y, m) == 29
    ensures m == 2 && rule.Gregorian? && y in {0, 4, 400} ==> MonthDays(rule, y, m) == 29
    ensures m == 2 && rule.Gregorian? && y in {100, 200, 300} ==> MonthDays(rule, y, m) == 28
  {
  }

  /** 2018-06-15 12:34:56 is 1529066096 seconds from 1970. */
  lemma TimeExample()
    ensures var s := Stamp(Date(18, 6, 15), 12, 34, 56); ValidStamp(s) && Seconds(s) + 946684800 == 1529066096
    ensures SecondsFrom1970To2000 == 946684800 && TwoTo32 == 4294967296
  {
    YearsClosed(18);
    MonthSums(EveryFourth, 18);
  }
}
