// CH57x_clk.c: setting and reading the real-time clock as a calendar date and time.
module Rtc {
  type u16 = x: int | 0 <= x < 0x10000

  // ---------------------------------------------------------------- calendar macros (CH57x_clk.h)

  const BEGYEAR: nat := 2020

  predicate IsLeapYear(y: nat) {
    y % 400 == 0 || (y % 100 != 0 && y % 4 == 0)
  }

  function YearLength(y: nat): nat {
    if IsLeapYear(y) then 366 else 365
  }

  // Month 0 is January.
  function MonthLength(leap: bool, mon: nat): nat {
    if mon == 1 then (if leap then 29 else 28)
    else if mon > 6 then (if mon % 2 == 1 then 31 else 30)
    else if mon % 2 == 1 then 30 else 31
  }

  // ---------------------------------------------------------------- calendars

  // What setting and reading the clock needs of a calendar: the lengths of years and of their months.
  datatype Calendar = Calendar(yearLength: nat -> nat, monthLength: (nat, nat) -> nat) {
    // No year and no month is empty, and twelve months are a year.
    ghost predicate Proper() {
      forall y :: 0 < yearLength(y) == MonthDays(this, y, 12) && MonthsLast(y)
    }

    predicate MonthsLast(y: nat) {
      forall m :: 0 <= m < 12 ==> 0 < monthLength(y, m)
    }
  }

  // Days from the start of BEGYEAR to the start of year y.
  function YearDays(c: Calendar, y: nat): nat {
    if y <= BEGYEAR then 0 else YearDays(c, y - 1) + c.yearLength(y - 1)
  }

  // Days in the first n months of year y.
  function MonthDays(c: Calendar, y: nat, n: nat): nat {
    if n == 0 then 0 else MonthDays(c, y, n - 1) + c.monthLength(y, n - 1)
  }

  datatype Date = Date(year: nat, month: nat, day: nat) {
    predicate Valid(c: Calendar) {
      BEGYEAR <= year && 1 <= month <= 12 && 1 <= day <= c.monthLength(year, month - 1)
    }
  }

  datatype Time = Time(hour: nat, minute: nat, second: nat) {
    predicate Valid() {
      hour < 24 && minute < 60 && second < 60
    }
  }

  function DayNumber(c: Calendar, d: Date): int
    requires 1 <= d.month
  {
    YearDays(c, d.year) + MonthDays(c, d.year, d.month - 1) + d.day - 1
  }

  lemma {:induction false} MonthDaysGrow(c: Calendar, y: nat, m: nat, n: nat)
    requires m < n
    ensures MonthDays(c, y, m) + c.monthLength(y, m) <= MonthDays(c, y, n)
    decreases n
  {
    if m + 1 < n {
      MonthDaysGrow(c, y, m, n - 1);
    }
  }

  lemma {:induction false} YearDaysGrow(c: Calendar, x: nat, y: nat)
    requires BEGYEAR <= x < y
    ensures YearDays(c, x) + c.yearLength(x) <= YearDays(c, y)
    decreases y
  {
    if x + 1 < y {
      YearDaysGrow(c, x, y - 1);
    }
  }

  lemma DayInYear(c: Calendar, d: Date)
    requires c.Proper() && d.Valid(c)
    ensures YearDays(c, d.year) <= DayNumber(c, d) < YearDays(c, d.year) + c.yearLength(d.year)
  {
    MonthDaysGrow(c, d.year, d.month - 1, 12);
  }

  // No two dates have the same day number.
  lemma DayNumberInjective(c: Calendar, a: Date, b: Date)
    requires c.Proper() && a.Valid(c) && b.Valid(c) && DayNumber(c, a) == DayNumber(c, b)
    ensures a == b
  {
    DayInYear(c, a);
    DayInYear(c, b);
    hide Calendar.Proper, YearDays, MonthDays;
    if a.year < b.year {
      YearDaysGrow(c, a.year, b.year);
    } else if b.year < a.year {
      YearDaysGrow(c, b.year, a.year);
    } else if a.month < b.month {
      MonthDaysGrow(c, a.year, a.month - 1, b.month - 1);
    } else if b.month < a.month {
      MonthDaysGrow(c, a.year, b.month - 1, a.month - 1);
    }
  }

  // Day 0 is the first day of BEGYEAR, and each day has the number behind that of the day before.
  lemma DayAfter(c: Calendar, d: Date)
    requires c.Proper() && d.Valid(c)
    ensures DayNumber(c, Date(BEGYEAR, 1, 1)) == 0
    ensures var next := if d.day < c.monthLength(d.year, d.month - 1) then Date(d.year, d.month, d.day + 1)
                        else if d.month < 12 then Date(d.year, d.month + 1, 1) else Date(d.year + 1, 1, 1);
      next.Valid(c) && DayNumber(c, next) == DayNumber(c, d) + 1
  {
    assert 0 < c.yearLength(d.year) == MonthDays(c, d.year, 12) && c.MonthsLast(d.year);
    assert 0 < c.yearLength(d.year + 1) && c.MonthsLast(d.year + 1);
    hide Calendar.Proper;
    assert MonthDays(c, d.year, d.month) == MonthDays(c, d.year, d.month - 1) + c.monthLength(d.year, d.month - 1);
  }

  // ---------------------------------------------------------------- the calendar of CH57x_clk.h

  function Gregorian(): Calendar {
    Calendar(YearLength, (y: nat, m: nat) => MonthLength(IsLeapYear(y), m))
  }

  // The months as everybody knows them, and leap years as far as the clock counts.
  lemma MonthsAre(y: nat)
    ensures BEGYEAR <= y < 2100 ==> (IsLeapYear(y) <==> y % 4 == 0)
    ensures forall m :: 0 <= m < 12 ==>
      Gregorian().monthLength(y, m)
      == [31, if IsLeapYear(y) then 29 else 28, 31, 30, 31, 30, 31, 31, 30, 31, 30, 31][m]
  {
  }

  lemma TwelveMonths(y: nat)
    ensures MonthDays(Gregorian(), y, 12) == YearLength(y) && Gregorian().MonthsLast(y)
  {
    var c := Gregorian();
    assert MonthDays(c, y, 1) == 31;
    assert MonthDays(c, y, 3) == MonthDays(c, y, 2) + 31;
    assert MonthDays(c, y, 5) == MonthDays(c, y, 3) + 61;
    assert MonthDays(c, y, 7) == MonthDays(c, y, 5) + 61;
    assert MonthDays(c, y, 9) == MonthDays(c, y, 7) + 61;
    assert MonthDays(c, y, 11) == MonthDays(c, y, 9) + 61;
  }

  lemma GregorianProper()
    ensures Gregorian().Proper()
  {
    forall y
      ensures 0 < Gregorian().yearLength(y) == MonthDays(Gregorian(), y, 12) && Gregorian().MonthsLast(y)
    {
      TwelveMonths(y);
    }
  }

  // ---------------------------------------------------------------- the clock

  // Assignment to a UINT16.
  function Truncate(x: int): u16 {
    x % 0x10000
  }

  lemma TruncateAdd(x: int, y: int)
    ensures Truncate(Truncate(x) + y) == Truncate(x + y)
  {
  }

  class Clock {
    const cal: Calendar
    // The day counter and the two counters of the time of day, as loaded and as read.
    var cntDay: u16
    var cnt2s: u16
    var cnt32k: u16

    constructor (cal: Calendar)
      ensures this.cal == cal
    {
      this.cal := cal;
      cntDay, cnt2s, cnt32k := 0, 0, 0;
    }

    // RTC_InitTime; day and sec2 are UINT16 variables.
    method InitTime(d: Date, t: Time)
      requires 1 <= d.month
      modifies this
      ensures cntDay == Truncate(DayNumber(cal, d))
      ensures t.Valid() ==> cnt2s == (t.hour * 3600 + t.minute * 60 + t.second) / 2
      ensures cnt32k == if t.second % 2 == 1 then 0x8000 else 0
    {
      cnt2s, cnt32k := SecondPairs(t), if t.second % 2 == 1 then 0x8000 else 0;
      cntDay := Days(d);
    }

    // The days of the years and months before d, and its own.
    method Days(d: Date) returns (day: u16)
      requires 1 <= d.month
      ensures day == Truncate(DayNumber(cal, d))
    {
      hide Truncate;
      var year: nat, month: nat := d.year, d.month;
      day := Truncate(0);
      ghost var exact: int := 0;
      while year > BEGYEAR
        invariant exact + YearDays(cal, year) == YearDays(cal, d.year) && day == Truncate(exact)
      {
        TruncateAdd(exact, cal.yearLength(year - 1));
        exact := exact + cal.yearLength(year - 1);
        day, year := Truncate(day + cal.yearLength(year - 1)), year - 1;
      }
      while month > 1
        invariant 1 <= month <= d.month && day == Truncate(exact)
        invariant exact + MonthDays(cal, d.year, month - 1)
               == YearDays(cal, d.year) + MonthDays(cal, d.year, d.month - 1)
      {
        TruncateAdd(exact, cal.monthLength(d.year, month - 2));
        exact := exact + cal.monthLength(d.year, month - 2);
        day, month := Truncate(day + cal.monthLength(d.year, month - 2)), month - 1;
      }
      TruncateAdd(exact, d.day - 1);
      day := Truncate(day + d.day - 1);
    }

    // RTC_GetTime: both searches end, and at the date whose day number is the 14-bit day counter.
    method GetTime() returns (d: Date, t: Time)
      requires cal.Proper()
      ensures d.Valid(cal) && DayNumber(cal, d) == cntDay % 0x4000
      ensures cnt2s < 43200 ==> t.Valid()
      ensures t.hour * 3600 + t.minute * 60 + t.second == cnt2s * 2 + if cnt32k < 0x8000 then 0 else 1
    {
      var day: nat := cntDay % 0x4000;
      t := Divided(cnt2s * 2 + if cnt32k < 0x8000 then 0 else 1);
      ghost var number := day;
      var year := BEGYEAR;
      while day >= cal.yearLength(year)
        invariant BEGYEAR <= year && YearDays(cal, year) + day == number
        decreases day
      {
        assert 0 < cal.yearLength(year);
        day, year := day - cal.yearLength(year), year + 1;
      }
      var month := 0;
      assert cal.yearLength(year) == MonthDays(cal, year, 12) && cal.MonthsLast(year);
      hide Calendar.Proper;
      while day >= cal.monthLength(year, month)
        invariant month <= 11 && MonthDays(cal, year, month) + day < MonthDays(cal, year, 12)
        invariant YearDays(cal, year) + MonthDays(cal, year, month) + day == number
        decreases 12 - month
      {
        day, month := day - cal.monthLength(year, month), month + 1;
      }
      d := Date(year, month + 1, day + 1);
    }
  }

  // sec2 of RTC_InitTime
  function SecondPairs(t: Time): (r: u16)
    ensures t.Valid() ==> r == (t.hour * 3600 + t.minute * 60 + t.second) / 2
  {
    HalfOf(t.hour * 1800 + t.minute * 30, t.second);
    Truncate(t.hour % 24 * 1800 + t.minute * 30 + t.second / 2)
  }

  lemma HalfOf(a: nat, s: nat)
    ensures (2 * a + s) / 2 == a + s / 2
    ensures s == s / 2 * 2 + s % 2
  {
  }

  // The two counters hold the time.
  lemma CountersHold(t: Time, cnt2s: u16, cnt32k: u16)
    requires cnt2s == (t.hour * 3600 + t.minute * 60 + t.second) / 2
    requires cnt32k == if t.second % 2 == 1 then 0x8000 else 0
    ensures cnt2s * 2 + (if cnt32k < 0x8000 then 0 else 1) == t.hour * 3600 + t.minute * 60 + t.second
  {
    HalfOf(t.hour * 1800 + t.minute * 30, t.second);
  }

  // The time of RTC_GetTime
  function Divided(s: nat): (t: Time)
    ensures s < 86400 ==> t.Valid()
    ensures t.hour * 3600 + t.minute * 60 + t.second == s
  {
    Time(s / 3600, s % 3600 / 60, s % 60)
  }

  // A valid date and time read back as they were set exactly if the day number fits in 14 bits.
  method SetThenGet(clock: Clock, d: Date, t: Time) returns (d': Date, t': Time)
    requires clock.cal.Proper() && d.Valid(clock.cal) && t.Valid()
    modifies clock
    ensures t' == t
    ensures d' == d <==> DayNumber(clock.cal, d) < 0x4000
  {
    DayInYear(clock.cal, d);
    hide Calendar.Proper, YearDays, MonthDays, DayNumber;
    clock.InitTime(d, t);
    d', t' := clock.GetTime();
    CountersHold(t, clock.cnt2s, clock.cnt32k);
    SameTime(t, t');
    if DayNumber(clock.cal, d) < 0x4000 {
      DayNumberInjective(clock.cal, d, d');
    }
  }

  lemma SameTime(a: Time, b: Time)
    requires a.Valid() && b.Valid()
    requires a.hour * 3600 + a.minute * 60 + a.second == b.hour * 3600 + b.minute * 60 + b.second
    ensures a == b
  {
    var x, y := a.minute * 60 + a.second, b.minute * 60 + b.second;
    assert x < 3600 && y < 3600;
    assert a.hour < b.hour ==> a.hour * 3600 + 3600 <= b.hour * 3600;
    assert b.hour < a.hour ==> b.hour * 3600 + 3600 <= a.hour * 3600;
    assert a.hour == b.hour;
    assert a.minute < b.minute ==> a.minute * 60 + 60 <= b.minute * 60;
    assert b.minute < a.minute ==> b.minute * 60 + 60 <= a.minute * 60;
  }

  // The comment above RTC_InitTime allows years up to BEGYEAR + 44, but the end of that year is beyond
  // 14 bits: its last day reads back as a day of BEGYEAR.
  lemma EndOf2064DoesNotFit()
    ensures Date(2064, 12, 31).Valid(Gregorian()) && DayNumber(Gregorian(), Date(2064, 12, 31)) >= 0x4000
    ensures DayNumber(Gregorian(), Date(2064, 12, 31)) % 0x4000 == DayNumber(Gregorian(), Date(2020, 2, 22))
  {
    DayNumbers();
    hide DayNumber;
  }

  lemma DayNumbers()
    ensures DayNumber(Gregorian(), Date(2064, 12, 31)) == 1461 * 11 + 335 + 30
    ensures DayNumber(Gregorian(), Date(2020, 2, 22)) == 31 + 21
    ensures Gregorian().monthLength(2064, 11) == 31
  {
    FourYears(11);
    FourYears(0);
    FourYearLengths(2064);
    TwelveMonths(2064);
    LastMonth(2064);
    FirstMonth(2020);
    hide YearDays, MonthDays, MonthLength, YearLength, IsLeapYear;
    assert MonthDays(Gregorian(), 2064, 11) == 335;
  }

  // December has 31 days.
  lemma LastMonth(y: nat)
    ensures MonthDays(Gregorian(), y, 12) == MonthDays(Gregorian(), y, 11) + 31
    ensures Gregorian().monthLength(y, 11) == 31
  {
  }

  // January has 31 days.
  lemma FirstMonth(y: nat)
    ensures MonthDays(Gregorian(), y, 1) == 31
  {
    assert MonthDays(Gregorian(), y, 0) == 0;
  }

  lemma {:induction false} FourYears(n: nat)
    requires n <= 11
    ensures YearDays(Gregorian(), BEGYEAR + 4 * n) == 1461 * n
  {
    if n > 0 {
      FourYears(n - 1);
      var c, y := Gregorian(), BEGYEAR + 4 * (n - 1);
      FourYearLengths(y);
      hide IsLeapYear, YearLength;
      assert YearDays(c, y + 1) == YearDays(c, y) + 366;
      assert YearDays(c, y + 2) == YearDays(c, y + 1) + 365;
      assert YearDays(c, y + 3) == YearDays(c, y + 2) + 365;
      assert YearDays(c, y + 4) == YearDays(c, y + 3) + 365;
    }
  }

  lemma FourYearLengths(y: nat)
    requires BEGYEAR <= y < 2100 && y % 4 == 0
    ensures YearLength(y) == 366 && YearLength(y + 1) == 365
    ensures YearLength(y + 2) == 365 && YearLength(y + 3) == 365
  {
  }
}
