/** Week numbers in date.h: the ISO week-based year %G and week %V (section 4.1.4
    of ISO 8601:2004) and the Sunday- and Monday-based weeks %U and %W, as printed
    by to_stream and rebuilt into a date by from_stream. */
module WeekNumbers {
  import opened Calendar
  import opened Common
  import opened Weekdays

  const SUNDAY := 0
  const MONDAY := 1
  const THURSDAY := 4

  // ---------------------------------------------------------------------
  // What the standard says
  // ---------------------------------------------------------------------

  /** The Thursday of the Monday-to-Sunday week of day z. */
  function ThursdayOf(z: int): int {
    z - (z + 3) % 7 + 3
  }

  /** A week belongs to the year that holds its Thursday. */
  function IsoYear(z: int): int {
    FromDays(ThursdayOf(z)).year
  }

  /** Weeks are numbered from 1, the week of the year's first Thursday. */
  function IsoWeek(z: int): int {
    (ThursdayOf(z) - JanuaryFirst(IsoYear(z))) / 7 + 1
  }

  function JanuaryFirst(y: int): int {
    ToDays(Date(y, 1, 1))
  }

  /** Days of lo..hi inclusive that fall on the given weekday. */
  function CountWeekday(lo: int, hi: int, weekday: int): nat
    decreases hi - lo
  {
    if lo > hi then 0
    else CountWeekday(lo, hi - 1, weekday) + (if (hi + 4) % 7 == weekday then 1 else 0)
  }

  // ---------------------------------------------------------------------
  // The source's formulas
  // ---------------------------------------------------------------------

  /** Monday of ISO week 1 of year y, reached from the last Thursday of the
      December before it. */
  function IsoStart(y: int): int {
    LastWeekdayToDays(y - 1, 12, THURSDAY) + WeekdayDiff(MONDAY, THURSDAY)
  }

  /** The first given weekday of January. */
  function FirstWeekday(y: int, weekday: int): int {
    NthToDays(MonthWeekday(y, 1, weekday, 1))
  }

  /** from_stream's day for %G, %V and a weekday. */
  function FromIsoWeek(g: int, v: int, weekday: int): int {
    IsoStart(g) + 7 * (v - 1) + WeekdayDiff(weekday, MONDAY)
  }

  /** from_stream's day for %Y, %U or %W, and a weekday; weeks start on the given day. */
  function FromYearWeek(y: int, w: int, weekday: int, startOfWeek: int): int {
    FirstWeekday(y, startOfWeek) + 7 * (w - 1) + WeekdayDiff(weekday, startOfWeek)
  }

  // ---------------------------------------------------------------------
  // Year boundaries
  // ---------------------------------------------------------------------

  /** The days for which every year to_stream computes, G-1 included, is a valid year. */
  predicate IsoRange(z: int) {
    IsoStart(MIN_YEAR + 1) <= z <= LAST_DAY - 3
  }

  /** The first Thursday of a year is its January 1 moved forward by at most six
      days, and week 1 starts three days before it. */
  lemma IsoStartIsMondayOfFirstThursday(y: int)
    requires YearOk(y - 1) && YearOk(y)
    ensures (IsoStart(y) + 4) % 7 == MONDAY
    ensures JanuaryFirst(y) <= IsoStart(y) + 3 <= JanuaryFirst(y) + 6
  {
    hide ToDays, LastWeekdayToDays;
    var lastDec := ToDays(Date(y - 1, 12, 31));
    LastWeekdayOffset(y - 1, 12, THURSDAY);
    WeekdayDiffIsModular(MONDAY, THURSDAY);
    SuccessorAddsOne(Date(y - 1, 12, 31));
    assert LastDay(y - 1, 12) == 31;
    assert Successor(Date(y - 1, 12, 31)) == Date(y, 1, 1);
    ThursdayFour(lastDec);
  }

  lemma ThursdayFour(last: int)
    ensures var start := last - (last + 4 - THURSDAY) % 7 + 4;
            (start + 4) % 7 == MONDAY && last + 1 <= start + 3 <= last + 7
  {
  }

  /** The civil year of a day number is fixed by the two January firsts around it. */
  lemma YearOfDay(z: int, y: int)
    requires FIRST_DAY <= z <= LAST_DAY && YearOk(y)
    ensures FromDays(z).year >= y <==> JanuaryFirst(y) <= z
  {
    hide ToDays, FromDays, FromDaysWide;
    var x, jan := FromDays(z), Date(y, 1, 1);
    DayRoundTrip(z);
    ToDaysIsOrderPreserving(x, jan);
  }

  /** The ISO year of a day is fixed by the two week-1 Mondays around it. */
  lemma IsoYearByStart(z: int, y: int)
    requires YearOk(y - 1) && YearOk(y)
    requires FIRST_DAY <= ThursdayOf(z) <= LAST_DAY
    ensures IsoYear(z) >= y <==> IsoStart(y) <= z
  {
    hide ToDays, FromDays, FromDaysWide, LastWeekdayToDays, IsoStart;
    IsoStartIsMondayOfFirstThursday(y);
    YearOfDay(ThursdayOf(z), y);
  }

  lemma YearLength(y: int)
    ensures JanuaryFirst(y + 1) == JanuaryFirst(y) + (if IsLeap(y) then 366 else 365)
  {
    hide ToDays;
    var era, k := (y - 1) / 400, (y - 1) % 400;
    ToDaysOfParts(era, k, 10, 1);
    assert FromParts(era, k, 10, 1) == Date(y, 1, 1);
    LeapRepeats(era, k + 1);
    if k < 399 {
      DaysBeforeStep(k);
      ToDaysOfParts(era, k + 1, 10, 1);
      assert FromParts(era, k + 1, 10, 1) == Date(y + 1, 1, 1);
    } else {
      ToDaysOfParts(era + 1, 0, 10, 1);
      assert FromParts(era + 1, 0, 10, 1) == Date(y + 1, 1, 1);
    }
  }

  /** to_stream's first guess, the year of three days later, is the ISO year or
      one above it; comparing with the start of week 1 settles which. */
  lemma IsoYearByGuess(z: int)
    requires IsoRange(z)
    ensures var y := FromDays(z + 3).year;
            && MIN_YEAR + 1 <= y <= MAX_YEAR
            && IsoYear(z) == (if z < IsoStart(y) then y - 1 else y)
            && MIN_YEAR + 1 <= IsoYear(z)
  {
    hide ToDays, FromDays, FromDaysWide, IsoStart, IsoYear;
    var y, t := FromDays(z + 3).year, ThursdayOf(z);
    IsoStartIsMondayOfFirstThursday(MIN_YEAR + 1);
    YearLength(MIN_YEAR);
    DayRoundTrip(z + 3);
    YearOfDay(z + 3, MIN_YEAR + 1);
    YearOfDay(z + 3, y);
    IsoYearByStart(z, MIN_YEAR + 1);
    IsoYearByStart(z, y);
    YearLength(y - 1);
    ThursdayYear(z, y);
  }

  lemma ThursdayYear(z: int, y: int)
    requires IsoRange(z) && MIN_YEAR + 1 <= y <= MAX_YEAR && FromDays(z + 3).year == y
    requires FIRST_DAY <= ThursdayOf(z) <= LAST_DAY
    ensures y - 1 <= IsoYear(z) <= y
  {
    hide ToDays, FromDays, FromDaysWide, IsoStart;
    var t := ThursdayOf(z);
    DayRoundTrip(t);
    YearOfDay(z + 3, y);
    YearOfDay(t, y - 1);
    YearLength(y - 1);
    if y < MAX_YEAR {
      YearOfDay(z + 3, y + 1);
      YearOfDay(t, y + 1);
    }
  }

  // ---------------------------------------------------------------------
  // ISO weeks: main results
  // ---------------------------------------------------------------------

  /** Weeks counted from the start of week 1 are weeks counted by Thursdays. */
  lemma IsoWeekByStart(z: int)
    requires IsoRange(z)
    ensures var start := IsoStart(IsoYear(z));
            && start <= z
            && IsoWeek(z) == (z - start) / 7 + 1
            && 1 <= IsoWeek(z) <= 53
            && (start + 4) % 7 == MONDAY
  {
    hide ToDays, FromDays, FromDaysWide, IsoStart, IsoYear;
    var g, t := IsoYear(z), ThursdayOf(z);
    IsoYearByGuess(z);
    ThursdayInRange(z);
    IsoYearByStart(z, g);
    IsoStartIsMondayOfFirstThursday(g);
    ThursdayBeforeNextYear(z);
    YearLength(g);
    WeeksAgree(z, IsoStart(g), JanuaryFirst(g));
  }

  lemma ThursdayInRange(z: int)
    requires IsoRange(z)
    ensures FIRST_DAY <= ThursdayOf(z) <= LAST_DAY
  {
    hide ToDays, IsoStart;
    IsoStartIsMondayOfFirstThursday(MIN_YEAR + 1);
    YearLength(MIN_YEAR);
  }

  lemma ThursdayBeforeNextYear(z: int)
    requires IsoRange(z)
    ensures YearOk(IsoYear(z)) && ThursdayOf(z) < JanuaryFirst(IsoYear(z) + 1)
  {
    hide ToDays, FromDays, FromDaysWide, IsoStart;
    ThursdayInRange(z);
    DayRoundTrip(ThursdayOf(z));
    var g := IsoYear(z);
    if g < MAX_YEAR {
      YearOfDay(ThursdayOf(z), g + 1);
    } else {
      SuccessorAddsOne(Date(MAX_YEAR, 12, 31));
      assert Successor(Date(MAX_YEAR, 12, 31)) == Date(MAX_YEAR + 1, 1, 1);
    }
  }

  lemma WeeksAgree(z: int, start: int, jan: int)
    requires (start + 4) % 7 == MONDAY && jan <= start + 3 <= jan + 6 && start <= z
    ensures (z - start) / 7 == (ThursdayOf(z) - jan) / 7
  {
    var q, r := (z - start) / 7, (z - start) % 7;
    assert (z + 3) % 7 == r;
    assert ThursdayOf(z) - jan == 7 * q + (start + 3 - jan);
  }

  /** %G prints the ISO year. */
  method PrintIsoYear(x: Date) returns (failed: bool, g: int)
    requires IsoRange(ToDays(x))
    ensures failed <==> !DateOk(x)
    ensures g == IsoYear(ToDays(x))
  {
    hide ToDays, FromDays, FromDaysWide, IsoStart, IsoYear;
    failed := !DateOk(x);
    var ld := ToDays(x);
    IsoYearByGuess(ld);
    g := FromDays(ld + 3).year;
    var start := IsoStart(g);
    if ld < start {
      g := g - 1;
    }
  }

  /** %V prints the ISO week. */
  method PrintIsoWeek(x: Date) returns (failed: bool, wn: int)
    requires IsoRange(ToDays(x))
    ensures failed <==> !DateOk(x)
    ensures wn == IsoWeek(ToDays(x)) && 1 <= wn <= 53
  {
    hide ToDays, FromDays, FromDaysWide, IsoStart, IsoYear, IsoWeek;
    failed := !DateOk(x);
    var ld := ToDays(x);
    IsoYearByGuess(ld);
    IsoWeekByStart(ld);
    var y := FromDays(ld + 3).year;
    var st := IsoStart(y);
    if ld < st {
      y := y - 1;
      st := IsoStart(y);
    }
    wn := TruncDiv(ld - st, 7) + 1;
  }

  /** Rebuilding a day from its printed ISO year, week and weekday gives it back. */
  lemma IsoWeekRoundTrip(z: int)
    requires IsoRange(z)
    ensures FromIsoWeek(IsoYear(z), IsoWeek(z), (z + 4) % 7) == z
  {
    hide ToDays, FromDays, FromDaysWide, IsoStart, IsoYear, IsoWeek;
    IsoWeekByStart(z);
    WeekdayDiffIsModular((z + 4) % 7, MONDAY);
    var start := IsoStart(IsoYear(z));
    assert ((z + 4) % 7 - MONDAY) % 7 == (z - start) % 7;
  }

  /** A year has 53 ISO weeks when it starts on a Thursday, or on a Wednesday
      and is leap. */
  predicate LongYear(g: int) {
    var jan := (JanuaryFirst(g) + 4) % 7;
    jan == THURSDAY || (jan == THURSDAY - 1 && IsLeap(g))
  }

  /** An ISO week date names a day whose printed year, week and weekday are
      those given, exactly when the year has such a week. */
  lemma IsoWeekDateRoundTrip(g: int, v: int, weekday: int)
    requires YearOk(g - 1) && YearOk(g) && 1 <= v <= 53 && 0 <= weekday <= 6
    requires IsoRange(FromIsoWeek(g, v, weekday))
    ensures var z := FromIsoWeek(g, v, weekday);
            && (z + 4) % 7 == weekday
            && (IsoYear(z) == g && IsoWeek(z) == v <==> v <= 52 || LongYear(g))
  {
    hide ToDays, FromDays, FromDaysWide, IsoStart, IsoWeek, IsLeap;
    var z, start, jan := FromIsoWeek(g, v, weekday), IsoStart(g), JanuaryFirst(g);
    IsoStartIsMondayOfFirstThursday(g);
    WeekdayDiffIsModular(weekday, MONDAY);
    ThursdayInRange(z);
    IsoYearByStart(z, g);
    IsoWeekByStart(z);
    YearLength(g);
    ThursdayBeforeNextYear(z);
    DayOfWeekDate(start, v, weekday);
    if g < MAX_YEAR {
      YearOfDay(ThursdayOf(z), g + 1);
    } else {
      DayRoundTrip(ThursdayOf(z));
    }
    FirstThursday(jan, start, v, if IsLeap(g) then 366 else 365);
  }

  lemma DayOfWeekDate(start: int, v: int, weekday: int)
    requires (start + 4) % 7 == MONDAY && 0 <= weekday <= 6
    ensures var z := start + 7 * (v - 1) + (weekday - MONDAY) % 7;
            && (z + 4) % 7 == weekday
            && (z - start) / 7 == v - 1
            && ThursdayOf(z) == start + 7 * (v - 1) + 3
  {
    var z := start + 7 * (v - 1) + (weekday - MONDAY) % 7;
    assert (z - start) % 7 == (weekday - MONDAY) % 7;
    assert (z + 3) % 7 == (z - start) % 7;
  }

  lemma FirstThursday(jan: int, start: int, v: int, length: int)
    requires (start + 4) % 7 == MONDAY && jan <= start + 3 <= jan + 6
    requires 1 <= v <= 53 && 365 <= length <= 366
    ensures start + 7 * (v - 1) + 3 < jan + length
            <==> v <= 52 || (jan + 4) % 7 == THURSDAY || ((jan + 4) % 7 == THURSDAY - 1 && length == 366)
  {
    var f := start + 3 - jan;
    assert (jan + f + 4) % 7 == THURSDAY;
  }

  // ---------------------------------------------------------------------
  // Sunday- and Monday-based weeks
  // ---------------------------------------------------------------------

  /** The first given weekday of January falls on January 1 to 7. */
  lemma FirstWeekdayInJanuary(y: int, weekday: int)
    requires ShortYear(y) && 0 <= weekday <= 6
    ensures var st := FirstWeekday(y, weekday);
            JanuaryFirst(y) <= st <= JanuaryFirst(y) + 6 && (st + 4) % 7 == weekday
  {
    hide ToDays, NthToDays;
    NthOffset(MonthWeekday(y, 1, weekday, 1));
    FirstOnOrAfter(JanuaryFirst(y), weekday);
  }

  lemma FirstOnOrAfter(day: int, weekday: int)
    requires 0 <= weekday <= 6
    ensures var r := (weekday - day - 4) % 7; 0 <= r <= 6 && (day + r + 4) % 7 == weekday
  {
    var q := (weekday - day - 4) / 7;
    assert day + (weekday - day - 4) % 7 + 4 == weekday - 7 * q;
  }

  /** Counting a weekday over a range that holds its first occurrence. */
  lemma {:induction false} CountByWeeks(lo: int, st: int, hi: int, weekday: int)
    requires lo <= st <= lo + 6 && (st + 4) % 7 == weekday
    ensures CountWeekday(lo, hi, weekday) == if hi < st then 0 else (hi - st) / 7 + 1
    decreases hi - lo
  {
    if lo <= hi {
      CountByWeeks(lo, st, hi - 1, weekday);
    }
  }

  /** %U and %W number a day by the Sundays (Mondays) of its year up to it, and
      from_stream's formula rebuilds the day, week 0 included. */
  lemma YearWeekRoundTrip(y: int, z: int, startOfWeek: int)
    requires ShortYear(y) && 0 <= startOfWeek <= 6
    requires JanuaryFirst(y) <= z < JanuaryFirst(y + 1)
    ensures var w := CountWeekday(JanuaryFirst(y), z, startOfWeek);
            0 <= w <= 53 && FromYearWeek(y, w, (z + 4) % 7, startOfWeek) == z
  {
    hide ToDays, FirstWeekday, CountWeekday, WeekdayDiff, JanuaryFirst;
    var st := FirstWeekday(y, startOfWeek);
    FirstWeekdayInJanuary(y, startOfWeek);
    CountByWeeks(JanuaryFirst(y), st, z, startOfWeek);
    YearLength(y);
    WeekdayDiffIsModular((z + 4) % 7, startOfWeek);
    RebuildFromWeek(z, st, startOfWeek);
  }

  lemma RebuildFromWeek(z: int, st: int, startOfWeek: int)
    requires (st + 4) % 7 == startOfWeek && st - 7 <= z
    ensures var w := if z < st then 0 else (z - st) / 7 + 1;
            st + 7 * (w - 1) + ((z + 4) % 7 - startOfWeek) % 7 == z
  {
    hide *;
    Weekdays.DifferenceModSeven(z + 4, startOfWeek);
    assert z + 4 - startOfWeek == (z - st) + 7 * ((st + 4) / 7);
    Weekdays.DifferenceModSeven(z - st, -7 * ((st + 4) / 7));
    assert ((z + 4) % 7 - startOfWeek) % 7 == (z - st) % 7;
  }

  /** %U (weeks from Sunday) and %W (weeks from Monday): week 0 before the
      year's first such day. An invalid date still prints, but fails the stream. */
  method PrintYearWeek(x: Date, startOfWeek: int) returns (failed: bool, wn: int)
    requires startOfWeek == SUNDAY || startOfWeek == MONDAY
    requires ShortYear(x.year)
    ensures failed <==> !DateOk(x)
    ensures wn == CountWeekday(JanuaryFirst(x.year), ToDays(x), startOfWeek)
    ensures !failed ==> wn <= 53
    ensures !failed ==> FromYearWeek(x.year, wn, (ToDays(x) + 4) % 7, startOfWeek) == ToDays(x)
  {
    hide ToDays, FirstWeekday, FromYearWeek, CountWeekday;
    failed := !DateOk(x);
    var ld := ToDays(x);
    var st := FirstWeekday(x.year, startOfWeek);
    FirstWeekdayInJanuary(x.year, startOfWeek);
    CountByWeeks(JanuaryFirst(x.year), st, ld, startOfWeek);
    if ld < st {
      wn := 0;
    } else {
      wn := TruncDiv(ld - st, 7) + 1;
    }
    if !failed {
      ToDaysIsOrderPreserving(x, Date(x.year, 1, 1));
      ToDaysIsOrderPreserving(x, Date(x.year + 1, 1, 1));
      YearWeekRoundTrip(x.year, ld, startOfWeek);
    }
  }
}
