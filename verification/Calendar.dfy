/**
 The civil-date arithmetic of src/gw_event.c against the calendar itself.

 `CivilFromDays` is the source's closed form.  The proleptic Gregorian calendar is
 given separately: leap years, month lengths, the next day, and how many days lie
 before a year and before a month.
 */
module Calendar {

  datatype Date = Date(y: int, m: int, d: int)

  /** Division as the source's language does it: towards zero. */
  function TruncDiv(a: int, b: int): int
    requires b > 0
  {
    if a >= 0 then a / b else -((-a) / b)
  }

  function TruncMod(a: int, b: int): int
    requires b > 0
  {
    a - TruncDiv(a, b) * b
  }

  // ---------------------------------------------------------------- the source

  function Era(z: int): int {
    TruncDiv(if z >= 0 then z else z - 146096, 146097)
  }

  function YearOfEra(doe: int): int {
    (doe - doe / 1460 + doe / 36524 - doe / 146096) / 365
  }

  function CivilFromDays(days: int): Date {
    var z := days + 719468;
    var era := Era(z);
    var doe := z - era * 146097;
    var yoe := YearOfEra(doe);
    var y := yoe + era * 400;
    MonthAndDay(y, doe - (365 * yoe + yoe / 4 - yoe / 100))
  }

  /** Day `doy` of the year that begins on March 1 of `y`. */
  function MonthAndDay(y: int, doy: int): Date {
    var mp := (5 * doy + 2) / 153;
    var d := doy - (153 * mp + 2) / 5 + 1;
    var m := if mp < 10 then mp + 3 else mp - 9;
    Date(y + (if m <= 2 then 1 else 0), m, d)
  }

  // ---------------------------------------------------------------- the calendar

  predicate IsLeap(y: int) {
    y % 4 == 0 && (y % 100 != 0 || y % 400 == 0)
  }

  function LeapDay(y: int): int {
    if IsLeap(y) then 1 else 0
  }

  function DaysInMonth(y: int, m: int): int {
    if m == 2 then 28 + LeapDay(y)
    else if m == 4 || m == 6 || m == 9 || m == 11 then 30
    else 31
  }

  predicate ValidDate(x: Date) {
    1 <= x.m <= 12 && 1 <= x.d <= DaysInMonth(x.y, x.m)
  }

  function NextDay(x: Date): Date {
    if x.d < DaysInMonth(x.y, x.m) then x.(d := x.d + 1)
    else if x.m < 12 then Date(x.y, x.m + 1, 1)
    else Date(x.y + 1, 1, 1)
  }

  /** Days before year `y`, counted from year 1. */
  function DaysBeforeYear(y: int): int {
    365 * (y - 1) + (y - 1) / 4 - (y - 1) / 100 + (y - 1) / 400
  }

  function DaysBeforeMonth(y: int, m: int): int {
    if m <= 1 then 0 else DaysBeforeMonth(y, m - 1) + DaysInMonth(y, m - 1)
  }

  /** Days from 1970-01-01. */
  function DayNumber(x: Date): int {
    DaysBeforeYear(x.y) + DaysBeforeMonth(x.y, x.m) + x.d - 1 - DaysBeforeYear(1970)
  }

  // ---------------------------------------------------------------- counting days

  lemma YearLength(y: int)
    ensures DaysBeforeYear(y + 1) == DaysBeforeYear(y) + 365 + LeapDay(y)
  {
    assert y / 4 == (y - 1) / 4 + if y % 4 == 0 then 1 else 0;
    assert y / 100 == (y - 1) / 100 + if y % 100 == 0 then 1 else 0;
    assert y / 400 == (y - 1) / 400 + if y % 400 == 0 then 1 else 0;
    Multiples(y);
  }

  lemma Multiples(y: int)
    ensures y % 400 == 0 ==> y % 100 == 0
    ensures y % 100 == 0 ==> y % 4 == 0
  {
    var a, b, c := y / 400, y / 100, y / 4;
    assert y % 100 == y - 100 * b && y % 4 == y - 4 * c;
    if y % 400 == 0 {
      assert y % 100 == 100 * (4 * a - b);
    }
    if y % 100 == 0 {
      assert y % 4 == 4 * (25 * b - c);
    }
  }

  lemma MonthsOfYear(y: int)
    ensures DaysBeforeMonth(y, 1) == 0
    ensures DaysBeforeMonth(y, 2) == 31
    ensures DaysBeforeMonth(y, 3) == 59 + LeapDay(y)
    ensures DaysBeforeMonth(y, 4) == 90 + LeapDay(y)
    ensures DaysBeforeMonth(y, 5) == 120 + LeapDay(y)
    ensures DaysBeforeMonth(y, 6) == 151 + LeapDay(y)
    ensures DaysBeforeMonth(y, 7) == 181 + LeapDay(y)
    ensures DaysBeforeMonth(y, 8) == 212 + LeapDay(y)
    ensures DaysBeforeMonth(y, 9) == 243 + LeapDay(y)
    ensures DaysBeforeMonth(y, 10) == 273 + LeapDay(y)
    ensures DaysBeforeMonth(y, 11) == 304 + LeapDay(y)
    ensures DaysBeforeMonth(y, 12) == 334 + LeapDay(y)
  {
    hide IsLeap;
    assert DaysBeforeMonth(y, 2) == 31;
    assert DaysBeforeMonth(y, 3) == 59 + LeapDay(y);
    assert DaysBeforeMonth(y, 4) == 90 + LeapDay(y);
    assert DaysBeforeMonth(y, 5) == 120 + LeapDay(y);
    assert DaysBeforeMonth(y, 6) == 151 + LeapDay(y);
    assert DaysBeforeMonth(y, 7) == 181 + LeapDay(y);
    assert DaysBeforeMonth(y, 8) == 212 + LeapDay(y);
    assert DaysBeforeMonth(y, 9) == 243 + LeapDay(y);
    assert DaysBeforeMonth(y, 10) == 273 + LeapDay(y);
    assert DaysBeforeMonth(y, 11) == 304 + LeapDay(y);
    assert DaysBeforeMonth(y, 12) == 334 + LeapDay(y);
  }

  /** The day number counts days: the next day's is one more. */
  lemma DayNumberCounts(x: Date)
    requires ValidDate(x)
    ensures ValidDate(NextDay(x)) && DayNumber(NextDay(x)) == DayNumber(x) + 1
  {
    hide IsLeap, DaysBeforeYear;
    YearLength(x.y);
    MonthsOfYear(x.y);
    MonthsOfYear(x.y + 1);
  }

  // ---------------------------------------------------------------- the closed form

  lemma EraIsFloor(z: int)
    ensures Era(z) == z / 146097
  {
  }

  /** March 1 of year `yoe` of an era is this many days into the era. */
  function YearStart(yoe: int): int {
    365 * yoe + yoe / 4 - yoe / 100
  }

  /** A day of an era by its century `c`, four-year cycle `q`, year `t` of the cycle and
      day `u` of the year, years beginning on March 1. */
  predicate InEra(c: int, q: int, t: int, u: int) {
    && 0 <= c <= 3 && 0 <= q <= 24 && 0 <= t <= 3 && 0 <= u <= 365
    && (u == 365 ==> t == 3 && (q < 24 || c == 3))
  }

  function EraDay(c: int, q: int, t: int, u: int): int {
    36524 * c + 1461 * q + 365 * t + u
  }

  lemma SplitsEra(doe: int) returns (c: int, q: int, t: int, u: int)
    requires 0 <= doe < 146097
    ensures InEra(c, q, t, u) && doe == EraDay(c, q, t, u)
  {
    c := if doe / 36524 > 3 then 3 else doe / 36524;
    var r := doe - 36524 * c;
    q := r / 1461;
    var s := r - 1461 * q;
    t := if s / 365 > 3 then 3 else s / 365;
    u := s - 365 * t;
  }

  lemma YearOfEraAt(c: int, q: int, t: int, u: int)
    requires InEra(c, q, t, u)
    ensures YearOfEra(EraDay(c, q, t, u)) == 100 * c + 4 * q + t
  {
    var doe := EraDay(c, q, t, u);
    var e := if 24 * c + q + 365 * t + u >= 1460 then 1 else 0;
    assert doe / 1460 == 25 * c + q + e;
    assert doe / 36524 - doe / 146096 == c;
    assert doe - doe / 1460 + doe / 36524 - doe / 146096 == 365 * (100 * c + 4 * q + t) + (u - e);
  }

  lemma YearStartAt(c: int, q: int, t: int)
    requires 0 <= c <= 3 && 0 <= q <= 24 && 0 <= t <= 3
    ensures YearStart(100 * c + 4 * q + t) == EraDay(c, q, t, 0)
  {
  }

  lemma LeapInEra(c: int, q: int)
    requires 0 <= c <= 3 && 0 <= q <= 24
    ensures IsLeap(100 * c + 4 * q + 4) <==> q < 24 || c == 3
  {
    var y := 100 * c + 4 * q + 4;
    assert y % 4 == 0;
    if q < 24 {
      assert y % 100 == 4 * q + 4;
    } else {
      assert y == 100 * (c + 1);
    }
  }

  /** The year of the era is the one that the day falls into. */
  lemma YearOfEraFits(doe: int)
    requires 0 <= doe < 146097
    ensures var yoe := YearOfEra(doe);
            && 0 <= yoe < 400
            && YearStart(yoe) <= doe < YearStart(yoe) + 365 + LeapDay(yoe + 1)
  {
    var c, q, t, u := SplitsEra(doe);
    YearOfEraAt(c, q, t, u);
    YearStartAt(c, q, t);
    if u == 365 {
      LeapInEra(c, q);
    }
  }

  lemma LeapRepeats(y: int, era: int)
    ensures IsLeap(y + 400 * era) == IsLeap(y)
  {
    var x := y + 400 * era;
    assert x / 400 == y / 400 + era && x % 400 == x - 400 * (x / 400);
    assert x / 100 == y / 100 + 4 * era && x % 100 == x - 100 * (x / 100);
    assert x / 4 == y / 4 + 100 * era && x % 4 == x - 4 * (x / 4);
  }

  /** March 1 of a year, in days from 1970-01-01. */
  lemma MarchFirst(yoe: int, era: int)
    requires 0 <= yoe < 400
    ensures DayNumber(Date(yoe + 400 * era, 3, 1)) == 146097 * era + YearStart(yoe) - 719468
  {
    var y := yoe + 400 * era;
    MonthsOfYear(y);
    YearLength(y);
    assert y / 4 == yoe / 4 + 100 * era;
    assert y / 100 == yoe / 100 + 4 * era;
    assert y / 400 == era;
  }

  lemma MonthAndDayFit(y: int, doy: int)
    requires 0 <= doy < 365 + LeapDay(y + 1)
    ensures var x := MonthAndDay(y, doy);
            ValidDate(x) && DayNumber(x) == DayNumber(Date(y, 3, 1)) + doy
  {
    hide IsLeap, DaysBeforeYear, DaysBeforeMonth;
    var mp := (5 * doy + 2) / 153;
    assert 0 <= mp <= 11;
    YearLength(y);
    MonthsOfYear(y);
    MonthsOfYear(y + 1);
    assert (153 * mp + 2) / 5 == if mp == 0 then 0 else if mp == 1 then 31 else if mp == 2 then 61
      else if mp == 3 then 92 else if mp == 4 then 122 else if mp == 5 then 153 else if mp == 6 then 184
      else if mp == 7 then 214 else if mp == 8 then 245 else if mp == 9 then 275 else if mp == 10 then 306 else 337;
  }

  /** Every day number, negative ones included, is turned into a date that the calendar
      has and that is that many days from 1970-01-01. */
  lemma CivilIsRight(days: int)
    ensures ValidDate(CivilFromDays(days)) && DayNumber(CivilFromDays(days)) == days
  {
    hide IsLeap, DayNumber, ValidDate, YearOfEra, Era, MonthAndDay;
    var z := days + 719468;
    EraIsFloor(z);
    var era := Era(z);
    var doe := z - era * 146097;
    YearOfEraFits(doe);
    var yoe := YearOfEra(doe);
    LeapRepeats(yoe + 1, era);
    MarchFirst(yoe, era);
    MonthAndDayFit(yoe + era * 400, doe - YearStart(yoe));
  }

  // ---------------------------------------------------------------- bijection

  predicate Before(x: Date, x': Date) {
    x.y < x'.y || (x.y == x'.y && (x.m < x'.m || (x.m == x'.m && x.d < x'.d)))
  }

  lemma {:induction false} YearsAscend(y: int, y': int)
    requires y <= y'
    ensures DaysBeforeYear(y) + 365 * (y' - y) <= DaysBeforeYear(y')
    decreases y' - y
  {
    if y < y' {
      YearLength(y);
      YearsAscend(y + 1, y');
    }
  }

  /** Later dates have larger day numbers. */
  lemma DayNumbersAscend(x: Date, x': Date)
    requires ValidDate(x) && ValidDate(x') && Before(x, x')
    ensures DayNumber(x) < DayNumber(x')
  {
    hide IsLeap, DaysBeforeYear, DaysBeforeMonth;
    MonthsOfYear(x.y);
    MonthsOfYear(x'.y);
    if x.y < x'.y {
      YearLength(x.y);
      YearsAscend(x.y + 1, x'.y);
    }
  }

  /** Every date of the calendar comes back from its day number. */
  lemma CivilInverts(x: Date)
    requires ValidDate(x)
    ensures CivilFromDays(DayNumber(x)) == x
  {
    hide DayNumber, ValidDate, CivilFromDays;
    var x' := CivilFromDays(DayNumber(x));
    CivilIsRight(DayNumber(x));
    if Before(x, x') {
      DayNumbersAscend(x, x');
    }
    if Before(x', x) {
      DayNumbersAscend(x', x);
    }
  }

  /** The day after the date of `days` is the date of `days + 1`. */
  lemma CivilSteps(days: int)
    ensures CivilFromDays(days + 1) == NextDay(CivilFromDays(days))
  {
    hide DayNumber, ValidDate, CivilFromDays, NextDay;
    CivilIsRight(days);
    DayNumberCounts(CivilFromDays(days));
    CivilInverts(NextDay(CivilFromDays(days)));
  }

  lemma CivilEpoch()
    ensures CivilFromDays(0) == Date(1970, 1, 1)
  {
    assert DayNumber(Date(1970, 1, 1)) == 0;
    CivilInverts(Date(1970, 1, 1));
  }
}
