/** The proleptic Gregorian calendar of date.h: closed-form conversions between
    day numbers and civil dates, and the day-by-day calendar they refine.
    Day 0 is 1970-01-01. */
module Calendar {

  // ---------------------------------------------------------------------
  // Machine arithmetic
  // ---------------------------------------------------------------------

  /** The division of C++, which truncates toward zero. */
  function TruncDiv(a: int, b: int): (q: int)
    requires b > 0
  {
    if a >= 0 then a / b else -((-a) / b)
  }

  /** Subtracting b-1 from negative dividends turns truncation into flooring. */
  lemma TruncDivFloors(a: int, b: int)
    requires b > 0
    ensures TruncDiv(if a >= 0 then a else a - (b - 1), b) == a / b
  {
    if a < 0 {
      var q, p := a / b, (b - 1 - a) / b;
      var r, s := a % b, (b - 1 - a) % b;
      assert a == b * q + r && b - 1 - a == b * p + s;
      assert b * (p + q) == b - 1 - r - s;
      SmallMultiple(p + q, b);
    }
  }

  lemma SmallMultiple(x: int, b: int)
    requires b > 0 && -b < b * x < b
    ensures x == 0
  {
    if x > 0 {
      MultipleGrows(x, b);
    } else if x < 0 {
      MultipleGrows(-x, b);
    }
  }

  lemma MultipleGrows(x: int, b: int)
    requires x > 0 && b > 0
    ensures b * x >= b && b * -x <= -b
  {
    if x > 1 {
      MultipleGrows(x - 1, b);
      assert b * x == b * (x - 1) + b;
    }
  }

  /** What storing an int in the 16-bit year field leaves. */
  function ToShort(y: int): (s: int)
    ensures -32768 <= s <= 32767
    ensures s == y <==> -32768 <= y <= 32767
  {
    (y + 32768) % 65536 - 32768
  }

  // ---------------------------------------------------------------------
  // Civil dates
  // ---------------------------------------------------------------------

  datatype Date = Date(year: int, month: int, day: int)

  const MIN_YEAR := -32767
  const MAX_YEAR := 32767

  predicate YearOk(y: int) {
    MIN_YEAR <= y <= MAX_YEAR
  }

  predicate IsLeap(y: int) {
    y % 4 == 0 && (y % 100 != 0 || y % 400 == 0)
  }

  const DAYS_IN_MONTH: seq<int> := [31, 28, 31, 30, 31, 30, 31, 31, 30, 31, 30, 31]

  /** The last day of a month; a month out of range answers 29, as in the source. */
  function LastDay(y: int, m: int): (d: int)
  {
    if (m != 2 || !IsLeap(y)) && 1 <= m <= 12 then DAYS_IN_MONTH[m - 1] else 29
  }

  /** A month and day that exist in year y, whatever the width of y. */
  predicate OnCalendar(x: Date) {
    1 <= x.month <= 12 && 1 <= x.day <= LastDay(x.year, x.month)
  }

  predicate DateOk(x: Date) {
    YearOk(x.year) && OnCalendar(x)
  }

  /** The following day by the rules of the calendar alone. */
  function Successor(x: Date): Date {
    if x.day < LastDay(x.year, x.month) then Date(x.year, x.month, x.day + 1)
    else if x.month < 12 then Date(x.year, x.month + 1, 1)
    else Date(x.year + 1, 1, 1)
  }

  /** The preceding day by the rules of the calendar alone. */
  function Predecessor(x: Date): Date {
    if x.day > 1 then Date(x.year, x.month, x.day - 1)
    else if x.month > 1 then Date(x.year, x.month - 1, LastDay(x.year, x.month - 1))
    else Date(x.year - 1, 12, 31)
  }

  /** Walking z days from 1970-01-01, one day at a time. */
  function Walk(z: int): Date
    decreases if z >= 0 then z else -z
  {
    if z == 0 then Date(1970, 1, 1)
    else if z > 0 then Successor(Walk(z - 1))
    else Predecessor(Walk(z + 1))
  }

  // ---------------------------------------------------------------------
  // The closed forms
  // ---------------------------------------------------------------------

  /** Day number of a date. Unsigned wrap cancels in the source's sum, so the
      intermediate values are kept as integers. */
  function ToDays(x: Date): int {
    var y := x.year - (if x.month <= 2 then 1 else 0);
    var era := TruncDiv(if y >= 0 then y else y - 399, 400);
    var yoe := y - era * 400;
    var doy := (153 * (if x.month > 2 then x.month - 3 else x.month + 9) + 2) / 5 + x.day - 1;
    var doe := yoe * 365 + yoe / 4 - yoe / 100 + doy;
    era * 146097 + doe - 719468
  }

  function YearOfEra(doe: int): int {
    (doe - doe / 1460 + doe / 36524 - doe / 146096) / 365
  }

  /** The date of a day number before the year is narrowed to 16 bits. */
  function FromDaysWide(days: int): Date {
    var z := days + 719468;
    var era := TruncDiv(if z >= 0 then z else z - 146096, 146097);
    FromDayOfEra(era, z - era * 146097)
  }

  function FromDayOfEra(era: int, doe: int): Date {
    var yoe := YearOfEra(doe);
    FromDayOfYear(era, yoe, doe - (365 * yoe + yoe / 4 - yoe / 100))
  }

  function FromDayOfYear(era: int, yoe: int, doy: int): Date {
    var mp := (5 * doy + 2) / 153;
    var d := doy - (153 * mp + 2) / 5 + 1;
    var m := if mp < 10 then mp + 3 else mp - 9;
    Date(yoe + era * 400 + (if m <= 2 then 1 else 0), m, d)
  }

  function FromDays(days: int): Date {
    var w := FromDaysWide(days);
    w.(year := ToShort(w.year))
  }

  // ---------------------------------------------------------------------
  // Years counted from March inside a 400-year era
  // ---------------------------------------------------------------------

  /** Days of an era before its March-based year k. */
  function DaysBefore(k: int): int {
    365 * k + k / 4 - k / 100
  }

  /** Length of March-based year k, whose February belongs to civil year k+1. */
  function MarchYearLength(k: int): int {
    if (k + 1) % 4 == 0 && ((k + 1) % 100 != 0 || (k + 1) % 400 == 0) then 366 else 365
  }

  /** Length of the March-based month mp. */
  function MarchMonthLength(mp: int, k: int): int {
    if mp == 11 then MarchYearLength(k) - 337
    else if mp in {1, 3, 6, 8} then 30
    else 31
  }

  /** The reciprocal trick finds the year of any day of the era. */
  lemma YearOfEraIsExact(k: int, doy: int)
    requires 0 <= k < 400 && 0 <= doy < MarchYearLength(k)
    ensures 0 <= DaysBefore(k) + doy <= 146096
    ensures YearOfEra(DaysBefore(k) + doy) == k
  {
    var c, r := k / 100, k % 100;
    var a, b := r / 4, r % 4;
    assert k == 100 * c + 4 * a + b && 0 <= c < 4 && 0 <= a < 25 && 0 <= b < 4;
    YearOfEraByParts(c, a, b, doy);
  }

  lemma YearOfEraByParts(c: int, a: int, b: int, doy: int)
    requires 0 <= c < 4 && 0 <= a < 25 && 0 <= b < 4
    requires 0 <= doy <= 365
    requires doy == 365 ==> b == 3 && (a != 24 || c == 3)
    ensures var k := 100 * c + 4 * a + b;
            && DaysBefore(k) == 36524 * c + 1461 * a + 365 * b
            && 0 <= DaysBefore(k) + doy <= 146096
            && YearOfEra(DaysBefore(k) + doy) == k
  {
    var k := 100 * c + 4 * a + b;
    Quotients(c, a, b);
    var doe := 36524 * c + 1461 * a + 365 * b + doy;
    assert DaysBefore(k) + doy == doe;
    hide DaysBefore;
    CenturyOfEra(c, 1461 * a + 365 * b + doy);
    FoursOfEra(c, a, b, doy);
  }

  lemma Quotients(c: int, a: int, b: int)
    requires 0 <= a < 25 && 0 <= b < 4
    ensures var k := 100 * c + 4 * a + b; k / 4 == 25 * c + a && k / 100 == c
  {
  }

  lemma CenturyOfEra(c: int, rest: int)
    requires 0 <= c < 4 && 0 <= rest <= 36524 && (rest == 36524 ==> c == 3)
    ensures var doe := 36524 * c + rest; doe / 36524 - doe / 146096 == c
  {
  }

  lemma FoursOfEra(c: int, a: int, b: int, doy: int)
    requires 0 <= c < 4 && 0 <= a < 25 && 0 <= b < 4
    requires 0 <= doy <= 365
    requires doy == 365 ==> b == 3 && (a != 24 || c == 3)
    ensures var doe := 36524 * c + 1461 * a + 365 * b + doy;
      (doe - doe / 1460 + c) / 365 == 100 * c + 4 * a + b
  {
    var k := 100 * c + 4 * a + b;
    var doe := 36524 * c + 1461 * a + 365 * b + doy;
    var carry := 24 * c + a + 365 * b + doy;
    var delta := if carry >= 1460 then 1 else 0;
    assert doe == 1460 * (25 * c + a + delta) + (carry - 1460 * delta);
    assert doe / 1460 == 25 * c + a + delta;
    assert doe - doe / 1460 + c == 365 * k + (doy - delta);
    assert 0 <= doy - delta < 365;
  }

  /** Every day of the era lies in some March-based year. */
  lemma EraCovered(doe: int) returns (k: int, doy: int)
    requires 0 <= doe <= 146096
    ensures 0 <= k < 400 && 0 <= doy < MarchYearLength(k)
    ensures doe == DaysBefore(k) + doy
  {
    var c := if doe / 36524 < 3 then doe / 36524 else 3;
    var r := doe - 36524 * c;
    var a, s := r / 1461, r % 1461;
    var b := if s / 365 < 3 then s / 365 else 3;
    doy := s - 365 * b;
    k := 100 * c + 4 * a + b;
    assert 0 <= a < 25 && 0 <= doy <= 365;
    assert k / 4 == 25 * c + a;
    assert k / 100 == c;
    assert doy == 365 ==> b == 3 && (a != 24 || c == 3);
    MarchYearLengthByParts(c, a, b);
  }

  lemma MarchYearLengthByParts(c: int, a: int, b: int)
    requires 0 <= c < 4 && 0 <= a < 25 && 0 <= b < 4
    ensures MarchYearLength(100 * c + 4 * a + b) == 366 <==> b == 3 && (a != 24 || c == 3)
  {
    var n := 100 * c + 4 * a + b + 1;
    assert n % 4 == (b + 1) % 4;
    if b == 3 {
      assert n % 100 == (4 * a + 4) % 100;
      if a == 24 { assert n == 100 * (c + 1); }
    }
  }

  /** The 153-day trick finds the month of any day of a March-based year. */
  lemma MonthOfDay(k: int, mp: int, d: int)
    requires 0 <= mp <= 11 && 1 <= d <= MarchMonthLength(mp, k)
    ensures var doy := (153 * mp + 2) / 5 + d - 1;
            0 <= doy < MarchYearLength(k) && (5 * doy + 2) / 153 == mp
  {
  }

  lemma MonthCovered(k: int, doy: int) returns (mp: int, d: int)
    requires 0 <= doy < MarchYearLength(k)
    ensures 0 <= mp <= 11 && 1 <= d <= MarchMonthLength(mp, k)
    ensures doy == (153 * mp + 2) / 5 + d - 1
    ensures mp == (5 * doy + 2) / 153
  {
    mp := (5 * doy + 2) / 153;
    d := doy - (153 * mp + 2) / 5 + 1;
  }

  lemma LeapRepeats(era: int, n: int)
    requires 0 <= n <= 400
    ensures IsLeap(era * 400 + n) <==> n % 4 == 0 && (n % 100 != 0 || n % 400 == 0)
  {
    ModFour(100 * era, n);
    ModHundred(4 * era, n);
    ModFourHundred(era, n);
  }

  lemma ModFour(k: int, n: int)
    ensures (4 * k + n) % 4 == n % 4
  {
  }

  lemma ModHundred(k: int, n: int)
    ensures (100 * k + n) % 100 == n % 100
  {
  }

  lemma ModFourHundred(k: int, n: int)
    ensures (400 * k + n) % 400 == n % 400
  {
  }

  /** Month lengths counted from March agree with the calendar's table. */
  lemma MarchMonthIsCivilMonth(era: int, k: int, mp: int)
    requires 0 <= mp <= 11 && 0 <= k < 400
    ensures var m := if mp < 10 then mp + 3 else mp - 9;
            LastDay(era * 400 + k + (if m <= 2 then 1 else 0), m) == MarchMonthLength(mp, k)
  {
    if mp == 11 {
      LeapRepeats(era, k + 1);
    }
  }

  // ---------------------------------------------------------------------
  // The two conversions in era coordinates
  // ---------------------------------------------------------------------

  /** A civil date from its era, March-based year, month and day. */
  function FromParts(era: int, k: int, mp: int, d: int): Date {
    var m := if mp < 10 then mp + 3 else mp - 9;
    Date(era * 400 + k + (if m <= 2 then 1 else 0), m, d)
  }

  predicate PartsOk(k: int, mp: int, d: int) {
    0 <= k < 400 && 0 <= mp <= 11 && 1 <= d <= MarchMonthLength(mp, k)
  }

  function DaysOfParts(era: int, k: int, mp: int, d: int): int {
    era * 146097 + DaysBefore(k) + (153 * mp + 2) / 5 + d - 1 - 719468
  }

  lemma ToDaysOfParts(era: int, k: int, mp: int, d: int)
    requires PartsOk(k, mp, d)
    ensures OnCalendar(FromParts(era, k, mp, d))
    ensures ToDays(FromParts(era, k, mp, d)) == DaysOfParts(era, k, mp, d)
  {
    MarchMonthIsCivilMonth(era, k, mp);
    var y := era * 400 + k;
    TruncDivFloors(y, 400);
    assert y / 400 == era;
  }

  lemma FromDaysOfParts(era: int, k: int, mp: int, d: int)
    requires PartsOk(k, mp, d)
    ensures FromDaysWide(DaysOfParts(era, k, mp, d)) == FromParts(era, k, mp, d)
  {
    hide TruncDiv, YearOfEra, DaysBefore, MarchMonthLength, MarchYearLength, FromParts, FromDayOfEra,
         FromDaysWide, PartsOk;
    FromDayOfEraOfParts(era, k, mp, d);
    EraOfDays(era, DaysBefore(k) + (153 * mp + 2) / 5 + d - 1);
  }

  lemma FromDayOfEraOfParts(era: int, k: int, mp: int, d: int)
    requires PartsOk(k, mp, d)
    ensures var doe := DaysBefore(k) + (153 * mp + 2) / 5 + d - 1;
      0 <= doe <= 146096 && FromDayOfEra(era, doe) == FromParts(era, k, mp, d)
  {
    MonthOfDay(k, mp, d);
    hide FromDayOfEra, DaysBefore, MarchMonthLength, MarchYearLength, FromDayOfYear, FromParts;
    FromDayOfEraIsOfYear(era, k, (153 * mp + 2) / 5 + d - 1);
    FromDayOfYearOfParts(era, k, mp, d);
  }

  lemma FromDayOfEraIsOfYear(era: int, k: int, doy: int)
    requires 0 <= k < 400 && 0 <= doy < MarchYearLength(k)
    ensures 0 <= DaysBefore(k) + doy <= 146096
    ensures FromDayOfEra(era, DaysBefore(k) + doy) == FromDayOfYear(era, k, doy)
  {
    hide YearOfEra, MarchYearLength, FromDayOfYear;
    YearOfEraIsExact(k, doy);
  }

  lemma FromDayOfYearOfParts(era: int, k: int, mp: int, d: int)
    requires PartsOk(k, mp, d)
    ensures FromDayOfYear(era, k, (153 * mp + 2) / 5 + d - 1) == FromParts(era, k, mp, d)
  {
    MonthOfDay(k, mp, d);
    hide MarchMonthLength, MarchYearLength, PartsOk;
  }

  lemma EraOfDays(era: int, doe: int)
    requires 0 <= doe <= 146096
    ensures FromDaysWide(era * 146097 + doe - 719468) == FromDayOfEra(era, doe)
  {
    hide FromDayOfEra;
    TruncDivFloors(era * 146097 + doe, 146097);
  }

  lemma PartsOfDays(z: int) returns (era: int, k: int, mp: int, d: int)
    ensures PartsOk(k, mp, d) && z == DaysOfParts(era, k, mp, d)
  {
    era := (z + 719468) / 146097;
    var doe := (z + 719468) % 146097;
    var doy;
    k, doy := EraCovered(doe);
    mp, d := MonthCovered(k, doy);
  }

  lemma PartsOfDate(x: Date) returns (era: int, k: int, mp: int, d: int)
    requires OnCalendar(x)
    ensures PartsOk(k, mp, d) && x == FromParts(era, k, mp, d)
  {
    var y := if x.month <= 2 then x.year - 1 else x.year;
    era, k := y / 400, y % 400;
    mp := if x.month > 2 then x.month - 3 else x.month + 9;
    d := x.day;
    MarchMonthIsCivilMonth(era, k, mp);
  }

  // ---------------------------------------------------------------------
  // Main results
  // ---------------------------------------------------------------------

  /** Every day number is the day of a date on the calendar, and of that date only. */
  lemma WideRoundTrip(z: int)
    ensures OnCalendar(FromDaysWide(z)) && ToDays(FromDaysWide(z)) == z
  {
    var era, k, mp, d := PartsOfDays(z);
    FromDaysOfParts(era, k, mp, d);
    ToDaysOfParts(era, k, mp, d);
  }

  lemma WideRoundTripBack(x: Date)
    requires OnCalendar(x)
    ensures FromDaysWide(ToDays(x)) == x
  {
    var era, k, mp, d := PartsOfDate(x);
    ToDaysOfParts(era, k, mp, d);
    FromDaysOfParts(era, k, mp, d);
  }

  /** The next calendar day has the next day number. */
  lemma SuccessorAddsOne(x: Date)
    requires OnCalendar(x)
    ensures OnCalendar(Successor(x)) && ToDays(Successor(x)) == ToDays(x) + 1
  {
    var era, k, mp, d := PartsOfDate(x);
    ToDaysOfParts(era, k, mp, d);
    NextPartsAddOne(era, k, mp, d);
    NextPartsAreSuccessor(era, k, mp, d);
    hide ToDays, FromParts, DaysOfParts, Successor, OnCalendar, PartsOk, NextParts;
    var (era', k', mp', d') := NextParts(era, k, mp, d);
    ToDaysOfParts(era', k', mp', d');
  }

  /** The next day in era coordinates. */
  function NextParts(era: int, k: int, mp: int, d: int): (int, int, int, int) {
    if d < MarchMonthLength(mp, k) then (era, k, mp, d + 1)
    else if mp < 11 then (era, k, mp + 1, 1)
    else if k < 399 then (era, k + 1, 0, 1)
    else (era + 1, 0, 0, 1)
  }

  lemma NextPartsAddOne(era: int, k: int, mp: int, d: int)
    requires PartsOk(k, mp, d)
    ensures var (era', k', mp', d') := NextParts(era, k, mp, d);
            PartsOk(k', mp', d') && DaysOfParts(era', k', mp', d') == DaysOfParts(era, k, mp, d) + 1
  {
    if mp == 11 && k < 399 {
      DaysBeforeStep(k);
    }
  }

  lemma NextPartsAreSuccessor(era: int, k: int, mp: int, d: int)
    requires PartsOk(k, mp, d)
    ensures var (era', k', mp', d') := NextParts(era, k, mp, d);
            FromParts(era', k', mp', d') == Successor(FromParts(era, k, mp, d))
  {
    MarchMonthIsCivilMonth(era, k, mp);
    hide LastDay, IsLeap, MarchMonthLength;
  }

  lemma DaysBeforeStep(k: int)
    requires 0 <= k < 399
    ensures DaysBefore(k + 1) == DaysBefore(k) + MarchYearLength(k)
  {
  }

  lemma PredecessorUndoesSuccessor(x: Date)
    requires OnCalendar(x)
    ensures Predecessor(Successor(x)) == x
  {
  }

  /** The closed form lists the days in calendar order, one step per day number. */
  lemma DayByDay(z: int)
    ensures FromDaysWide(z + 1) == Successor(FromDaysWide(z))
    ensures FromDaysWide(z) == Predecessor(FromDaysWide(z + 1))
  {
    hide FromDaysWide, ToDays, OnCalendar, Successor, Predecessor;
    var x := FromDaysWide(z);
    WideRoundTrip(z);
    SuccessorAddsOne(x);
    WideRoundTripBack(Successor(x));
    PredecessorUndoesSuccessor(x);
  }

  lemma EpochIsDayZero()
    ensures ToDays(Date(1970, 1, 1)) == 0 && FromDaysWide(0) == Date(1970, 1, 1)
  {
    var epoch := FromParts(4, 369, 10, 1);
    ToDaysOfParts(4, 369, 10, 1);
    FromDaysOfParts(4, 369, 10, 1);
    assert epoch == Date(1970, 1, 1);
  }

  /** The closed form is the walk from the epoch, day by day, in both directions. */
  lemma {:induction false} ClosedFormIsWalk(z: int)
    ensures FromDaysWide(z) == Walk(z)
    decreases if z >= 0 then z else -z
  {
    hide FromDaysWide, Successor, Predecessor;
    if z == 0 {
      EpochIsDayZero();
    } else if z > 0 {
      ClosedFormIsWalk(z - 1);
      DayByDay(z - 1);
    } else {
      ClosedFormIsWalk(z + 1);
      DayByDay(z);
    }
  }

  predicate Before(x: Date, y: Date) {
    || x.year < y.year
    || (x.year == y.year && x.month < y.month)
    || (x.year == y.year && x.month == y.month && x.day < y.day)
  }

  lemma {:induction false} LaterDayIsLaterDate(z: int, w: int)
    requires z < w
    ensures Before(FromDaysWide(z), FromDaysWide(w))
    decreases w - z
  {
    hide FromDaysWide, Before;
    NextDayIsLaterDate(w - 1);
    if z < w - 1 {
      LaterDayIsLaterDate(z, w - 1);
      BeforeIsTransitive(FromDaysWide(z), FromDaysWide(w - 1), FromDaysWide(w));
    }
  }

  lemma NextDayIsLaterDate(z: int)
    ensures Before(FromDaysWide(z), FromDaysWide(z + 1))
  {
    DayByDay(z);
    SuccessorIsLater(FromDaysWide(z));
  }

  lemma SuccessorIsLater(x: Date)
    ensures Before(x, Successor(x))
  {
  }

  lemma BeforeIsTransitive(x: Date, y: Date, z: Date)
    requires Before(x, y) && Before(y, z)
    ensures Before(x, z)
  {
  }

  /** Day numbers order dates exactly as the calendar does. */
  lemma ToDaysIsOrderPreserving(x: Date, y: Date)
    requires OnCalendar(x) && OnCalendar(y)
    ensures Before(x, y) <==> ToDays(x) < ToDays(y)
  {
    hide FromDaysWide, ToDays, OnCalendar;
    var z, w := ToDays(x), ToDays(y);
    WideRoundTripBack(x);
    WideRoundTripBack(y);
    if z < w {
      LaterDayIsLaterDate(z, w);
    } else if w < z {
      LaterDayIsLaterDate(w, z);
    }
  }

  const FIRST_DAY := ToDays(Date(MIN_YEAR, 1, 1))
  const LAST_DAY := ToDays(Date(MAX_YEAR, 12, 31))

  /** With 16-bit years, a day number gives a valid date that converts back to it
      exactly when it lies between the first and the last representable day. */
  lemma DayRoundTrip(z: int)
    ensures DateOk(FromDays(z)) && ToDays(FromDays(z)) == z <==> FIRST_DAY <= z <= LAST_DAY
  {
    hide FromDaysWide, ToDays;
    var first, last, w := Date(MIN_YEAR, 1, 1), Date(MAX_YEAR, 12, 31), FromDaysWide(z);
    WideRoundTrip(z);
    ToDaysIsOrderPreserving(w, first);
    ToDaysIsOrderPreserving(last, w);
    var x := FromDays(z);
    if OnCalendar(x) && YearOk(x.year) {
      ToDaysIsOrderPreserving(x, first);
      ToDaysIsOrderPreserving(last, x);
    }
  }

  /** Every valid date has a day number in range that gives it back. */
  lemma DateRoundTrip(x: Date)
    requires DateOk(x)
    ensures FIRST_DAY <= ToDays(x) <= LAST_DAY && FromDays(ToDays(x)) == x
  {
    WideRoundTripBack(x);
    DayRoundTrip(ToDays(x));
  }

  /** In range, the next day number gives exactly the next calendar day. */
  lemma NextDay(z: int)
    requires FIRST_DAY <= z < LAST_DAY
    ensures FromDays(z + 1) == Successor(FromDays(z))
  {
    DayByDay(z);
    DayRoundTrip(z);
    DayRoundTrip(z + 1);
    WideIsNarrow(z);
    WideIsNarrow(z + 1);
  }

  lemma WideIsNarrow(z: int)
    requires FIRST_DAY <= z <= LAST_DAY
    ensures FromDays(z) == FromDaysWide(z)
  {
    DayRoundTrip(z);
    WideRoundTripBack(FromDays(z));
  }
}
