/**
 * Gregorian calendar arithmetic behind the calendar widget: month lengths, a day count
 * from which weekdays follow, and stepping the displayed month back and forth.
 *
 * A JavaScript `Date` is modelled by the triple it is built from: the full year, the
 * 0-based month and the 1-based day of the month. Time of day and time zone are not modelled.
 */
module Calendar {

  datatype Date = Date(year: int, month: int, day: int)

  /** Gregorian leap-year rule. */
  predicate IsLeap(y: int) {
    y % 4 == 0 && (y % 100 != 0 || y % 400 == 0)
  }

  /** The Gregorian month table, month 0-based. */
  function DaysInMonth(y: int, m: int): (n: int)
    requires 0 <= m < 12
    ensures 28 <= n <= 31
    ensures n == 28 <==> m == 1 && !IsLeap(y)
    ensures n == 29 <==> m == 1 && IsLeap(y)
    ensures n == 30 <==> m == 3 || m == 5 || m == 8 || m == 10
  {
    if m == 1 then (if IsLeap(y) then 29 else 28)
    else if m == 3 || m == 5 || m == 8 || m == 10 then 30
    else 31
  }

  /** A date the JavaScript `Date` accessors can return: month in 0..11, day within the month. */
  predicate IsValidDate(d: Date) {
    0 <= d.month < 12 && 1 <= d.day <= DaysInMonth(d.year, d.month)
  }

  /**
   * Days before the first of March of the year `Y`, counted from the first of March of year 0.
   * Counting years from March puts the leap day at the end of the counted year.
   * Dafny's `/` floors for a positive divisor, so this also holds for negative years.
   */
  function MarchYearStart(Y: int): int {
    365 * Y + Y / 4 - Y / 100 + Y / 400
  }

  /** The number of days from 1 January 1970 to `d` (negative before it). */
  function DayNumber(d: Date): int
    requires 0 <= d.month < 12
  {
    var Y := if d.month < 2 then d.year - 1 else d.year;
    var mp := if d.month < 2 then d.month + 10 else d.month - 2;  // months since March
    MarchYearStart(Y) + (153 * mp + 2) / 5 + d.day - 1 - 719468
  }

  /** `Date.prototype.getDay`: 0 = Sunday .. 6 = Saturday; 1 January 1970 was a Thursday. */
  function Weekday(d: Date): (w: int)
    requires 0 <= d.month < 12
    ensures 0 <= w < 7
  {
    (DayNumber(d) + 4) % 7
  }

  /** A month counted as 12 * year + month, so that consecutive months differ by one. */
  function MonthOrdinal(d: Date): int {
    12 * d.year + d.month
  }

  /** `startOfMonth`: the first day of the month of `d`. */
  function StartOfMonth(d: Date): (r: Date)
    ensures r.day == 1 && MonthOrdinal(r) == MonthOrdinal(d) && r.year == d.year
  {
    Date(d.year, d.month, 1)
  }

  /**
   * `new Date(year, monthIndex, 1)` for a year the constructor takes as it is: a month index
   * outside 0..11 carries into the neighbouring years.
   */
  function MonthStart(year: int, monthIndex: int): (r: Date)
    ensures r.day == 1 && 0 <= r.month < 12
    ensures MonthOrdinal(r) == 12 * year + monthIndex
  {
    Date(year + monthIndex / 12, monthIndex % 12, 1)
  }

  /** `nextMonth`: the first day of the following month. */
  function NextMonth(d: Date): (r: Date)
    ensures r.day == 1 && 0 <= r.month < 12
    ensures MonthOrdinal(r) == MonthOrdinal(d) + 1
  {
    MonthStart(d.year, d.month + 1)
  }

  /** `prevMonth`: the first day of the preceding month. */
  function PrevMonth(d: Date): (r: Date)
    ensures r.day == 1 && 0 <= r.month < 12
    ensures MonthOrdinal(r) == MonthOrdinal(d) - 1
  {
    MonthStart(d.year, d.month - 1)
  }

  // ----- properties of the month arithmetic -----

  /** A month ordinal and a month in 0..11 determine the year. */
  lemma OrdinalDeterminesMonth(a: Date, b: Date)
    requires 0 <= a.month < 12 && 0 <= b.month < 12
    requires MonthOrdinal(a) == MonthOrdinal(b)
    ensures a.year == b.year && a.month == b.month
  {
  }

  /** Stepping forward then back, or back then forward, returns to the first of the same month. */
  lemma NavigationRoundTrip(d: Date)
    requires 0 <= d.month < 12
    ensures PrevMonth(NextMonth(d)) == StartOfMonth(d)
    ensures NextMonth(PrevMonth(d)) == StartOfMonth(d)
  {
    OrdinalDeterminesMonth(PrevMonth(NextMonth(d)), StartOfMonth(d));
    OrdinalDeterminesMonth(NextMonth(PrevMonth(d)), StartOfMonth(d));
  }

  /** December carries into January of the next year, January back into December of the last. */
  lemma NavigationYearCarry(d: Date)
    requires 0 <= d.month < 12
    ensures d.month == 11 ==> NextMonth(d) == Date(d.year + 1, 0, 1)
    ensures d.month < 11 ==> NextMonth(d) == Date(d.year, d.month + 1, 1)
    ensures d.month == 0 ==> PrevMonth(d) == Date(d.year - 1, 11, 1)
    ensures d.month > 0 ==> PrevMonth(d) == Date(d.year, d.month - 1, 1)
  {
    OrdinalDeterminesMonth(NextMonth(d), if d.month == 11 then Date(d.year + 1, 0, 1) else Date(d.year, d.month + 1, 1));
    OrdinalDeterminesMonth(PrevMonth(d), if d.month == 0 then Date(d.year - 1, 11, 1) else Date(d.year, d.month - 1, 1));
  }

  /** `startOfMonth` is idempotent. */
  lemma StartOfMonthIdempotent(d: Date)
    ensures StartOfMonth(StartOfMonth(d)) == StartOfMonth(d)
  {
  }

  // ----- the day count agrees with the month table -----

  /** A March-based year is 366 days long exactly when the February at its end is a leap February. */
  lemma MarchYearLength(Y: int)
    ensures MarchYearStart(Y + 1) - MarchYearStart(Y) == if IsLeap(Y + 1) then 366 else 365
  {
    var n := Y + 1;
    FloorStep4(Y);
    FloorStep100(Y);
    FloorStep400(Y);
    DivisorsOfCenturies(n);
    assert MarchYearStart(n) - MarchYearStart(Y) == 365 + (n / 4 - Y / 4) - (n / 100 - Y / 100) + (n / 400 - Y / 400);
  }

  lemma DivisorsOfCenturies(n: int)
    ensures n % 400 == 0 ==> n % 100 == 0
    ensures n % 100 == 0 ==> n % 4 == 0
  {
  }

  // Going from `Y` to `Y + 1`, `Y / k` grows by one exactly when `k` divides `Y + 1`.
  lemma FloorStep4(Y: int)
    ensures (Y + 1) / 4 == Y / 4 + (if (Y + 1) % 4 == 0 then 1 else 0)
  {
  }

  lemma FloorStep100(Y: int)
    ensures (Y + 1) / 100 == Y / 100 + (if (Y + 1) % 100 == 0 then 1 else 0)
  {
  }

  lemma FloorStep400(Y: int)
    ensures (Y + 1) / 400 == Y / 400 + (if (Y + 1) % 400 == 0 then 1 else 0)
  {
  }

  /** The first of the next month is as many days after the first of `m` as the month table says. */
  lemma MonthLengthByDayCount(y: int, m: int)
    requires 0 <= m < 12
    ensures DayNumber(NextMonth(Date(y, m, 1))) == DayNumber(Date(y, m, 1)) + DaysInMonth(y, m)
  {
    NavigationYearCarry(Date(y, m, 1));
    if m == 1 {
      FebruaryLength(y);
    } else if m == 11 {
      DecemberLength(y);
    } else if m == 0 {
      JanuaryLength(y);
    } else {
      MarchToNovemberLength(y, m);
    }
  }

  lemma FebruaryLength(y: int)
    ensures DayNumber(Date(y, 2, 1)) == DayNumber(Date(y, 1, 1)) + (if IsLeap(y) then 29 else 28)
  {
    MarchYearLength(y - 1);
  }

  lemma DecemberLength(y: int)
    ensures DayNumber(Date(y + 1, 0, 1)) == DayNumber(Date(y, 11, 1)) + 31
  {
  }

  lemma JanuaryLength(y: int)
    ensures DayNumber(Date(y, 1, 1)) == DayNumber(Date(y, 0, 1)) + 31
  {
  }

  lemma MarchToNovemberLength(y: int, m: int)
    requires 2 <= m <= 10
    ensures DayNumber(Date(y, m + 1, 1)) == DayNumber(Date(y, m, 1)) + DaysInMonth(y, m)
  {
    var mp := m - 2;
    MonthOfMarchYear(mp);
  }

  /** Month lengths from March on follow the pattern 31, 30, 31, 30, 31 twice over. */
  lemma MonthOfMarchYear(mp: int)
    requires 0 <= mp < 9
    ensures (153 * (mp + 1) + 2) / 5 - (153 * mp + 2) / 5 == if mp % 5 == 1 || mp % 5 == 3 then 30 else 31
  {
  }

  /**
   * `new Date(year, month + 1, 0).getDate()`: day 0 of the next month is the day before its
   * first, and its day of the month counts the days from the first of `m` to it, inclusive.
   */
  function DayZeroOfNextMonth(y: int, m: int): (n: int)
    requires 0 <= m < 12
    ensures n == DaysInMonth(y, m)
  {
    MonthLengthByDayCount(y, m);
    var dayZero := DayNumber(NextMonth(Date(y, m, 1))) - 1;
    dayZero - DayNumber(Date(y, m, 1)) + 1
  }

  /** Consecutive days of one month have consecutive day numbers. */
  lemma DayNumberWithinMonth(y: int, m: int, d: int)
    requires 0 <= m < 12
    ensures DayNumber(Date(y, m, d)) == DayNumber(Date(y, m, 1)) + d - 1
  {
  }

  /** The weekday of day `d` is `d - 1` days after the weekday of the first. */
  lemma WeekdayWithinMonth(y: int, m: int, d: int)
    requires 0 <= m < 12 && 1 <= d
    ensures Weekday(Date(y, m, d)) == (Weekday(Date(y, m, 1)) + d - 1) % 7
  {
    DayNumberWithinMonth(y, m, d);
    ModShift(DayNumber(Date(y, m, 1)) + 4, d - 1);
  }

  lemma ModShift(a: int, e: int)
    requires e >= 0
    ensures (a + e) % 7 == (a % 7 + e) % 7
  {
  }

  /** 1 January 1970 is day zero, and 1 January 2024 was a Monday. */
  lemma KnownWeekdays()
    ensures DayNumber(Date(1970, 0, 1)) == 0 && Weekday(Date(1970, 0, 1)) == 4
    ensures Weekday(Date(2024, 0, 1)) == 1
    ensures Weekday(Date(2023, 1, 1)) == 3
  {
  }

  // ----- the constructor as written: two-digit years -----

  /** `new Date(y, ...)` reads a year argument in 0..99 as 1900..1999. */
  function LegacyYear(y: int): (r: int)
    ensures !(0 <= r <= 99)
    ensures r == y || r == y + 1900
    ensures r == y <==> !(0 <= y <= 99)
  {
    if 0 <= y <= 99 then 1900 + y else y
  }

  /**
   * After the two-digit rule the year argument is never in 0..99, and year arguments 99 and
   * 1999 collide. The month carry that follows the rule can still reach year 99.
   */
  lemma LegacyYearCollides()
    ensures LegacyYear(99) == LegacyYear(1999) == 1999
    ensures forall y :: LegacyYear(y) != 99
  {
  }

  /** `nextMonth` exactly as written: the constructor receives `getFullYear()` and `getMonth() + 1`. */
  function NextMonthAsWritten(d: Date): (r: Date)
    ensures r.day == 1 && 0 <= r.month < 12
    ensures MonthOrdinal(r) == 12 * LegacyYear(d.year) + d.month + 1
  {
    MonthStart(LegacyYear(d.year), d.month + 1)
  }

  /** `prevMonth` exactly as written. */
  function PrevMonthAsWritten(d: Date): (r: Date)
    ensures r.day == 1 && 0 <= r.month < 12
    ensures MonthOrdinal(r) == 12 * LegacyYear(d.year) + d.month - 1
  {
    MonthStart(LegacyYear(d.year), d.month - 1)
  }

  /**
   * As written, one step back from January of year 100 shows December of year 99, and one
   * step forward from there jumps to January 2000 instead of returning to January 100.
   */
  lemma NavigationRoundTripFailsAsWritten()
    ensures PrevMonthAsWritten(Date(100, 0, 1)) == Date(99, 11, 1)
    ensures NextMonthAsWritten(PrevMonthAsWritten(Date(100, 0, 1))) == Date(2000, 0, 1)
  {
  }

  /** Outside years 0..99 the navigation as written is the corrected one. */
  lemma NavigationAsWrittenAgrees(d: Date)
    requires !(0 <= d.year <= 99)
    ensures NextMonthAsWritten(d) == NextMonth(d)
    ensures PrevMonthAsWritten(d) == PrevMonth(d)
  {
  }
}
