/** Weekdays in date.h: the weekday of a day number, the nth weekday of a month
    and the last weekday of a month. Weekdays count from Sunday = 0. */
module Weekdays {
  import opened Calendar
  import opened Common

  /** weekday_from_days with its 32-bit unsigned wrap written out. */
  function WeekdayFromDays(z: int): int {
    var u := z % 0x1_0000_0000;
    if z >= -4 then (u + 4) % 0x1_0000_0000 % 7 else u % 7
  }

  /** Days from weekday y forward to weekday x (operator- on weekdays). */
  function WeekdayDiff(x: int, y: int): int {
    var wdu := x - y;
    var wk := TruncDiv(if wdu >= 0 then wdu else wdu - 6, 7);
    wdu - wk * 7
  }

  /** 1970-01-01 was a Thursday, and the unsigned wrap never shows. */
  lemma WeekdayIsDayModSeven(z: int)
    requires INT_MIN <= z <= INT_MAX
    ensures WeekdayFromDays(z) == (z + 4) % 7
  {
    if z < -4 {
      assert z % 0x1_0000_0000 == z + 0x1_0000_0000;
      assert 0x1_0000_0000 == 7 * 613566756 + 4;
    }
  }

  lemma WeekdayDiffIsModular(x: int, y: int)
    ensures WeekdayDiff(x, y) == (x - y) % 7
  {
    TruncDivFloors(x - y, 7);
  }

  // ---------------------------------------------------------------------
  // The nth weekday of a month
  // ---------------------------------------------------------------------

  datatype MonthWeekday = MonthWeekday(year: int, month: int, weekday: int, index: int)

  const LEAST_YEAR := -32768

  /** Years a 16-bit field can hold; the least of them is never valid. */
  predicate ShortYear(y: int) {
    LEAST_YEAR <= y <= MAX_YEAR
  }

  /** The values the fields of the source can hold. */
  predicate Storable(x: MonthWeekday) {
    && ShortYear(x.year)
    && 0 <= x.month <= 255
    && 0 <= x.weekday <= 15
    && 0 <= x.index <= 15
  }

  /** A stored weekday as it is read: 7 is Sunday, too. */
  function ReadWeekday(stored: int): int {
    if stored == 7 then 0 else stored
  }

  /** Equality as the source has it, of what is read. */
  predicate Same(x: MonthWeekday, y: MonthWeekday) {
    x.(weekday := ReadWeekday(x.weekday)) == y.(weekday := ReadWeekday(y.weekday))
  }

  predicate NthOk(x: MonthWeekday) {
    if !YearOk(x.year) || !(1 <= x.month <= 12) || ReadWeekday(x.weekday) > 6 || x.index < 1 then false
    else if x.index <= 4 then true
    else
      var first := ToDays(Date(x.year, x.month, 1));
      var d2 := WeekdayDiff(ReadWeekday(x.weekday), WeekdayFromDays(first)) + (x.index - 1) * 7 + 1;
      d2 <= LastDay(x.year, x.month)
  }

  function NthToDays(x: MonthWeekday): int {
    var first := ToDays(Date(x.year, x.month, 1));
    first + WeekdayDiff(ReadWeekday(x.weekday), WeekdayFromDays(first)) + (x.index - 1) * 7
  }

  function NthFromDays(z: int): MonthWeekday {
    var x := FromDays(z);
    MonthWeekday(x.year, x.month, WeekdayFromDays(z), (x.day - 1) / 7 + 1)
  }

  // ---------------------------------------------------------------------
  // Ranges
  // ---------------------------------------------------------------------

  /** Day numbers stay within the era of the year, give or take stray months. */
  lemma EraBound(x: Date)
    requires 0 <= x.month <= 255 && 0 <= x.day <= 255
    ensures var y := x.year - (if x.month <= 2 then 1 else 0);
            y / 400 * 146097 - 719469 <= ToDays(x) < y / 400 * 146097 - 719468 + 154100
  {
    var y := x.year - (if x.month <= 2 then 1 else 0);
    TruncDivFloors(y, 400);
  }

  /** Any date with a 16-bit year has a 32-bit day number with room to spare. */
  lemma ShortYearsFitInt(x: Date)
    requires ShortYear(x.year) && 0 <= x.month <= 255 && 0 <= x.day <= 255
    ensures INT_MIN + 1000 < ToDays(x) < INT_MAX - 1000
  {
    EraBound(x);
  }

  lemma DayOffset(y: int, m: int, d: int)
    ensures ToDays(Date(y, m, d)) == ToDays(Date(y, m, 1)) + d - 1
  {
  }

  /** A day number near a valid date converts to that date's month only if it
      belongs to it: 16-bit narrowing of the year cannot bring it back. */
  lemma NearbyMonth(z: int, y: int, m: int)
    requires ShortYear(y) && 1 <= m <= 12
    requires -1000 <= z - ToDays(Date(y, m, 1)) <= 1000
    ensures FromDays(z).year == y && FromDays(z).month == m
            <==> 0 <= z - ToDays(Date(y, m, 1)) < LastDay(y, m)
  {
    hide ToDays, FromDaysWide;
    var first, w := Date(y, m, 1), FromDaysWide(z);
    var offset := z - ToDays(first);
    WideRoundTrip(z);
    if 0 <= offset < LastDay(y, m) {
      DayOffset(y, m, offset + 1);
      WideRoundTripBack(Date(y, m, offset + 1));
    }
    if FromDays(z).year == y && w.month == m {
      EraBound(first);
      EraBound(w);
      NarrowingIsFar(w.year, y, m);
      DayOffset(y, m, w.day);
    }
  }

  lemma NarrowingIsFar(wide: int, y: int, m: int)
    requires ToShort(wide) == y
    requires var b := if m <= 2 then 1 else 0;
             -160000 < ((wide - b) / 400 - (y - b) / 400) * 146097 < 160000
    ensures wide == y
  {
  }

  // ---------------------------------------------------------------------
  // Main results
  // ---------------------------------------------------------------------

  /** Where NthToDays lands relative to the first of the month. */
  lemma NthOffset(x: MonthWeekday)
    requires ShortYear(x.year) && 0 <= x.month <= 255
    ensures var first := ToDays(Date(x.year, x.month, 1));
            && NthToDays(x) == first + (ReadWeekday(x.weekday) - first - 4) % 7 + (x.index - 1) * 7
            && INT_MIN + 1000 < first < INT_MAX - 1000
  {
    hide ToDays;
    var first := ToDays(Date(x.year, x.month, 1));
    ShortYearsFitInt(Date(x.year, x.month, 1));
    WeekdayIsDayModSeven(first);
    var weekday := ReadWeekday(x.weekday);
    WeekdayDiffIsModular(weekday, WeekdayFromDays(first));
    assert (weekday - (first + 4) % 7) % 7 == (weekday - first - 4) % 7;
  }

  /** A real month and weekday, and an offset that stays inside the month. */
  predicate InsideMonth(x: MonthWeekday) {
    && 1 <= x.month <= 12 && ReadWeekday(x.weekday) <= 6 && x.index >= 1
    && 0 <= NthToDays(x) - ToDays(Date(x.year, x.month, 1)) < LastDay(x.year, x.month)
  }

  lemma NthOkIsInsideMonth(x: MonthWeekday)
    requires Storable(x)
    ensures NthOk(x) <==> YearOk(x.year) && InsideMonth(x)
  {
    hide ToDays;
    NthOffset(x);
  }

  /** Over every value the fields can store, exactly those inside their month are
      returned by converting to days and back. */
  lemma RoundTripIsInsideMonth(x: MonthWeekday)
    requires Storable(x)
    ensures Same(NthFromDays(NthToDays(x)), x) <==> InsideMonth(x)
  {
    hide ToDays, FromDays, FromDaysWide, NthToDays, LastDay, WeekdayFromDays;
    var first, z := ToDays(Date(x.year, x.month, 1)), NthToDays(x);
    NthOffset(x);
    WeekdayIsDayModSeven(z);
    MonthIsReal(z);
    if 1 <= x.month <= 12 {
      NearbyMonth(z, x.year, x.month);
      if FromDays(z).year == x.year && FromDays(z).month == x.month {
        DayInMonth(z, x.year, x.month);
        IndexOfOffset(first, ReadWeekday(x.weekday), x.index);
      }
    }
  }

  /** So a year_month_weekday is valid exactly when it is returned and its year is not
      the least one. */
  lemma NthOkIffRoundTrip(x: MonthWeekday)
    requires Storable(x)
    ensures NthOk(x) <==> x.year != LEAST_YEAR && Same(NthFromDays(NthToDays(x)), x)
  {
    hide NthToDays, NthFromDays, InsideMonth, NthOk, Same;
    NthOkIsInsideMonth(x);
    RoundTripIsInsideMonth(x);
  }

  /** In the least year the first four of each weekday are returned and yet not valid. */
  lemma LeastYearRoundTrips(m: int, weekday: int, index: int)
    requires 1 <= m <= 12 && 0 <= weekday <= 7 && 1 <= index <= 4
    ensures var x := MonthWeekday(LEAST_YEAR, m, weekday, index);
            !NthOk(x) && Same(NthFromDays(NthToDays(x)), x)
  {
    hide ToDays, FromDays, FromDaysWide, NthToDays, NthFromDays, Same;
    var x := MonthWeekday(LEAST_YEAR, m, weekday, index);
    NthOffset(x);
    RoundTripIsInsideMonth(x);
  }

  lemma MonthIsReal(z: int)
    ensures 1 <= FromDays(z).month <= 12
  {
    hide ToDays, FromDaysWide;
    WideRoundTrip(z);
  }

  lemma DayInMonth(z: int, y: int, m: int)
    requires ShortYear(y) && 1 <= m <= 12
    requires 0 <= z - ToDays(Date(y, m, 1)) < LastDay(y, m)
    ensures FromDays(z) == Date(y, m, z - ToDays(Date(y, m, 1)) + 1)
  {
    hide ToDays, FromDaysWide;
    var d := z - ToDays(Date(y, m, 1)) + 1;
    DayOffset(y, m, d);
    WideRoundTripBack(Date(y, m, d));
  }

  lemma IndexOfOffset(first: int, weekday: int, index: int)
    ensures var offset := (weekday - first - 4) % 7 + (index - 1) * 7;
            offset / 7 + 1 == index && (first + offset + 4) % 7 == weekday % 7
  {
    var r := (weekday - first - 4) % 7;
    assert (r + (index - 1) * 7) / 7 == index - 1;
    assert (first + r + (index - 1) * 7 + 4) % 7 == (first + r + 4) % 7;
  }

  /** Every representable day has a valid nth-weekday name that gives it back. */
  lemma DayHasNthWeekday(z: int)
    requires FIRST_DAY <= z <= LAST_DAY
    ensures NthOk(NthFromDays(z)) && NthToDays(NthFromDays(z)) == z
  {
    hide ToDays, FromDays, FromDaysWide, NthToDays;
    var d, x := FromDays(z), NthFromDays(z);
    DayRoundTrip(z);
    DayOffset(d.year, d.month, d.day);
    NthOffset(x);
    WeekdayIsDayModSeven(z);
    OffsetOfIndex(ToDays(Date(d.year, d.month, 1)), d.day - 1);
    NthOkIsInsideMonth(x);
  }

  lemma OffsetOfIndex(first: int, offset: int)
    requires offset >= 0
    ensures ((first + offset + 4) % 7 - first - 4) % 7 + (offset / 7 + 1 - 1) * 7 == offset
  {
    assert ((first + offset + 4) % 7 - first - 4) % 7 == offset % 7;
  }

  // ---------------------------------------------------------------------
  // The last weekday of a month
  // ---------------------------------------------------------------------

  function LastWeekdayToDays(y: int, m: int, weekday: int): int {
    var d := ToDays(Date(y, m, LastDay(y, m)));
    d - WeekdayDiff(WeekdayFromDays(d), weekday)
  }

  predicate InMonth(z: int, y: int, m: int) {
    FIRST_DAY <= z <= LAST_DAY && FromDays(z).year == y && FromDays(z).month == m
  }

  lemma MonthEnds(z: int, y: int, m: int)
    requires InMonth(z, y, m)
    ensures ToDays(Date(y, m, 1)) <= z <= ToDays(Date(y, m, LastDay(y, m)))
    ensures INT_MIN <= z <= INT_MAX
  {
    hide ToDays, FromDays, FromDaysWide;
    var x := FromDays(z);
    DayRoundTrip(z);
    DayOffset(y, m, x.day);
    DayOffset(y, m, LastDay(y, m));
    ShortYearsFitInt(x);
  }

  /** The last-weekday conversion gives a day of the month with that weekday,
      and no later day of the month has it. */
  lemma LastWeekdayIsGreatest(y: int, m: int, weekday: int)
    requires YearOk(y) && 1 <= m <= 12 && 0 <= weekday <= 6
    ensures var r := LastWeekdayToDays(y, m, weekday);
            && InMonth(r, y, m) && WeekdayFromDays(r) == weekday
            && forall z :: r < z && InMonth(z, y, m) ==> WeekdayFromDays(z) != weekday
  {
    hide ToDays, FromDays, FromDaysWide, LastDay, LastWeekdayToDays, WeekdayFromDays;
    var last := ToDays(Date(y, m, LastDay(y, m)));
    var r := LastWeekdayToDays(y, m, weekday);
    LastWeekdayOffset(y, m, weekday);
    LastWeekdayInMonth(y, m, weekday);
    forall z | r < z && InMonth(z, y, m)
      ensures WeekdayFromDays(z) != weekday
    {
      MonthEnds(z, y, m);
      WeekdayIsDayModSeven(z);
      NoneSkipped(last, z, weekday);
    }
  }

  lemma NoneSkipped(last: int, z: int, weekday: int)
    requires last - (last + 4 - weekday) % 7 < z <= last
    ensures (z + 4) % 7 != weekday
  {
  }

  lemma LastWeekdayInMonth(y: int, m: int, weekday: int)
    requires YearOk(y) && 1 <= m <= 12 && 0 <= weekday <= 6
    ensures var r := LastWeekdayToDays(y, m, weekday);
            InMonth(r, y, m) && WeekdayFromDays(r) == weekday
  {
    hide ToDays, FromDays, FromDaysWide, LastWeekdayToDays, WeekdayFromDays;
    var r := LastWeekdayToDays(y, m, weekday);
    LastWeekdayOffset(y, m, weekday);
    DayOffset(y, m, LastDay(y, m));
    DayInMonth(r, y, m);
    DayOffset(y, m, FromDays(r).day);
    DateRoundTrip(FromDays(r));
    WeekdayIsDayModSeven(r);
  }

  lemma LastWeekdayOffset(y: int, m: int, weekday: int)
    requires YearOk(y) && 1 <= m <= 12
    ensures var last := ToDays(Date(y, m, LastDay(y, m)));
            && LastWeekdayToDays(y, m, weekday) == last - (last + 4 - weekday) % 7
            && INT_MIN + 900 < last < INT_MAX - 900
  {
    hide ToDays;
    var last := ToDays(Date(y, m, LastDay(y, m)));
    ShortYearsFitInt(Date(y, m, LastDay(y, m)));
    WeekdayIsDayModSeven(last);
    WeekdayDiffIsModular(WeekdayFromDays(last), weekday);
    hide LastDay, WeekdayFromDays, WeekdayDiff;
    DifferenceModSeven(last + 4, weekday);
  }

  lemma DifferenceModSeven(x: int, y: int)
    ensures (x % 7 - y) % 7 == (x - y) % 7
  {
    assert x - y == 7 * (x / 7) + (x % 7 - y);
  }
}
