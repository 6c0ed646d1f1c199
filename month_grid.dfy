/**
 * `getMonthMatrix(year, month)`: the displayed month as a list of weeks, each a row of seven
 * slots from Sunday to Saturday. Slots before the first of the month and after its last day
 * are empty (`null`); every other slot holds the date of its day.
 *
 * The specification is `GridCell`: reading the rows in order, slot `k` holds day
 * `k - StartDay + 1` when that is a day of the month, and nothing otherwise.
 */
module MonthGrid {
  import opened Wrappers
  import opened Calendar

  /** A grid slot: JavaScript `null` or a `Date`. */
  type Cell = Option<Date>

  /** `first.getDay()`: the column of the first of the month, 0 = Sunday. */
  function StartDay(year: int, month: int): (s: int)
    requires 0 <= month < 12
    ensures 0 <= s < 7
  {
    Weekday(Date(year, month, 1))
  }

  /** The slot at position `k` of the grid read row by row. */
  function GridCell(year: int, month: int, k: int): Cell
    requires 0 <= month < 12
  {
    Slot(year, month, StartDay(year, month), DaysInMonth(year, month), k)
  }

  /** Slot `k` of a month of `dim` days whose first falls in column `startDay`. */
  function Slot(year: int, month: int, startDay: int, dim: int, k: int): Cell {
    var day := k - startDay + 1;
    if 1 <= day <= dim then Some(Date(year, month, day)) else None
  }

  /** The number of rows: enough for the leading blanks and every day, and never more. */
  function WeekCount(year: int, month: int): (n: int)
    requires 0 <= month < 12
    ensures 4 <= n <= 6
    ensures 7 * (n - 1) < StartDay(year, month) + DaysInMonth(year, month) <= 7 * n
  {
    (StartDay(year, month) + DaysInMonth(year, month) + 6) / 7
  }

  /** The rows concatenated, in reading order. */
  function Flatten(weeks: seq<seq<Cell>>): seq<Cell> {
    if weeks == [] then [] else Flatten(weeks[..|weeks| - 1]) + weeks[|weeks| - 1]
  }

  /** The dates of the non-empty slots, in order. */
  function Dates(cells: seq<Cell>): seq<Date> {
    if cells == [] then []
    else
      var last := cells[|cells| - 1];
      Dates(cells[..|cells| - 1]) + (if last.Some? then [last.value] else [])
  }

  /** Days 1 .. DaysInMonth of the month, ascending. */
  function MonthDays(year: int, month: int): (days: seq<Date>)
    requires 0 <= month < 12
    ensures |days| == DaysInMonth(year, month)
    ensures forall i | 0 <= i < |days| :: days[i] == Date(year, month, i + 1) && IsValidDate(days[i])
  {
    seq(DaysInMonth(year, month), i => Date(year, month, i + 1))
  }

  /** The first `n` slots of the grid in reading order. */
  function Cells(year: int, month: int, n: nat): (cells: seq<Cell>)
    requires 0 <= month < 12
    ensures |cells| == n
    ensures forall k | 0 <= k < n :: cells[k] == GridCell(year, month, k)
  {
    seq(n, k => GridCell(year, month, k))
  }

  /** The grid as rows of seven. */
  function Rows(year: int, month: int, n: nat): (weeks: seq<seq<Cell>>)
    requires 0 <= month < 12
    ensures |weeks| == n
    ensures forall w | 0 <= w < n :: |weeks[w]| == 7
  {
    seq(n, w => seq(7, c => GridCell(year, month, 7 * w + c)))
  }

  lemma {:induction false} FlattenRows(year: int, month: int, n: nat)
    requires 0 <= month < 12
    ensures Flatten(Rows(year, month, n)) == Cells(year, month, 7 * n)
  {
    if n > 0 {
      var rows := Rows(year, month, n);
      assert rows[..n - 1] == Rows(year, month, n - 1);
      FlattenRows(year, month, n - 1);
    }
  }

  /** The first `n` slots hold the days that fit before position `n`, in order. */
  lemma {:induction false} DatesOfCells(year: int, month: int, n: nat)
    requires 0 <= month < 12
    ensures var s, dim := StartDay(year, month), DaysInMonth(year, month);
      var count := if n <= s then 0 else if n - s >= dim then dim else n - s;
      Dates(Cells(year, month, n)) == MonthDays(year, month)[..count]
  {
    if n > 0 {
      var cells := Cells(year, month, n);
      assert cells[..n - 1] == Cells(year, month, n - 1);
      DatesOfCells(year, month, n - 1);
    }
  }

  /**
   * Read row by row, the grid's dates are exactly the days of the month: ascending, with no
   * gap and no repetition.
   */
  lemma GridReadsMonthInOrder(year: int, month: int)
    requires 0 <= month < 12
    ensures Dates(Flatten(Rows(year, month, WeekCount(year, month)))) == MonthDays(year, month)
  {
    FlattenRows(year, month, WeekCount(year, month));
    DatesOfCells(year, month, 7 * WeekCount(year, month));
  }

  /** Any list of rows that agrees with the grid slot by slot reads as the days of the month. */
  lemma GridDates(year: int, month: int, weeks: seq<seq<Cell>>)
    requires 0 <= month < 12
    requires |weeks| == WeekCount(year, month)
    requires forall w | 0 <= w < |weeks| :: |weeks[w]| == 7
    requires forall w, c | 0 <= w < |weeks| && 0 <= c < 7 :: weeks[w][c] == GridCell(year, month, 7 * w + c)
    ensures Dates(Flatten(weeks)) == MonthDays(year, month)
  {
    var rows := Rows(year, month, |weeks|);
    forall w | 0 <= w < |weeks| ensures weeks[w] == rows[w] {
      assert forall c | 0 <= c < 7 :: weeks[w][c] == rows[w][c];
    }
    assert weeks == rows;
    GridReadsMonthInOrder(year, month);
  }

  /** Each date stands in the column of its weekday. */
  lemma GridColumnIsWeekday(year: int, month: int, w: int, c: int)
    requires 0 <= month < 12 && 0 <= w && 0 <= c < 7
    ensures GridCell(year, month, 7 * w + c).Some? ==> Weekday(GridCell(year, month, 7 * w + c).value) == c
  {
    var s, dim := StartDay(year, month), DaysInMonth(year, month);
    var day := 7 * w + c - s + 1;
    assert GridCell(year, month, 7 * w + c) == Slot(year, month, s, dim, 7 * w + c);
    if 1 <= day <= dim {
      WeekdayWithinMonth(year, month, day);
      RowColumn(w, c);
    }
  }

  lemma RowColumn(w: int, c: int)
    requires 0 <= c < 7
    ensures (7 * w + c) % 7 == c
  {
  }

  /** January 2024 starts on a Monday and spans five rows; February 2023 has 28 days. */
  lemma KnownMonths()
    ensures StartDay(2024, 0) == 1 && WeekCount(2024, 0) == 5 && |MonthDays(2024, 0)| == 31
    ensures GridCell(2024, 0, 0) == None && GridCell(2024, 0, 1) == Some(Date(2024, 0, 1))
    ensures |MonthDays(2023, 1)| == 28 && |MonthDays(2024, 1)| == 29
  {
    KnownWeekdays();
  }

  /**
   * What the two-digit-year rule changes for a shown year in 0..99: December 99 and December
   * 1999 start in different columns, and February 0 and February 1900 differ in length.
   */
  lemma TwoDigitYearGrids()
    ensures StartDay(99, 11) == 2 && StartDay(LegacyYear(99), 11) == 3
    ensures DaysInMonth(0, 1) == 29 && DaysInMonth(LegacyYear(0), 1) == 28
  {
  }

  /**
   * `getMonthMatrix`: the first row is filled from `startDay` to Saturday without checking
   * the month's end, which is safe because every month has at least 28 days; each later row
   * starts as seven `null`s and is filled until the last day.
   */
  method MonthMatrix(year: int, month: int) returns (weeks: seq<seq<Cell>>)
    requires 0 <= month < 12
    ensures |weeks| == WeekCount(year, month)
    ensures forall w | 0 <= w < |weeks| :: |weeks[w]| == 7
    ensures forall w, c | 0 <= w < |weeks| && 0 <= c < 7 :: weeks[w][c] == GridCell(year, month, 7 * w + c)
    ensures forall c | 0 <= c < StartDay(year, month) :: weeks[0][c] == None
    ensures forall c | StartDay(year, month) <= c < 7 ::
      weeks[0][c] == Some(Date(year, month, c - StartDay(year, month) + 1))
    ensures Dates(Flatten(weeks)) == MonthDays(year, month)
  {
    var startDay := Weekday(Date(year, month, 1));
    var daysInMonth := DayZeroOfNextMonth(year, month);
    assert 0 <= startDay < 7 && 28 <= daysInMonth <= 31;
    weeks := [];
    var week := new Cell[7](_ => None);
    var day := 1;
    for i := 0 to startDay
      invariant forall j | 0 <= j < 7 :: week[j] == None
    {
      week[i] := None;
    }
    for i := startDay to 7
      invariant day == i - startDay + 1
      invariant forall j | 0 <= j < i :: week[j] == Slot(year, month, startDay, daysInMonth, j)
    {
      week[i] := Some(Date(year, month, day));
      day := day + 1;
    }
    AppendSlotRow(year, month, startDay, daysInMonth, weeks, week[..]);
    weeks := weeks + [week[..]];
    while day <= daysInMonth
      invariant 1 <= |weeks| && day <= daysInMonth + 1
      invariant 7 * (|weeks| - 1) < startDay + day - 1 <= 7 * |weeks|
      invariant day <= daysInMonth ==> startDay + day - 1 == 7 * |weeks|
      invariant forall w | 0 <= w < |weeks| :: |weeks[w]| == 7
      invariant forall w, c | 0 <= w < |weeks| && 0 <= c < 7 :: weeks[w][c] == Slot(year, month, startDay, daysInMonth, 7 * w + c)
      decreases daysInMonth - day
    {
      week := new Cell[7](_ => None);
      var i := 0;
      while i < 7 && day <= daysInMonth
        invariant 0 <= i <= 7 && day <= daysInMonth + 1
        invariant startDay + day - 1 == 7 * |weeks| + i
        invariant forall j | 0 <= j < i :: week[j] == Slot(year, month, startDay, daysInMonth, 7 * |weeks| + j)
        invariant forall j | i <= j < 7 :: week[j] == None
      {
        week[i] := Some(Date(year, month, day));
        day := day + 1;
        i := i + 1;
      }
      AppendSlotRow(year, month, startDay, daysInMonth, weeks, week[..]);
      weeks := weeks + [week[..]];
    }
    SlotRowsAreGrid(year, month, startDay, daysInMonth, weeks);
  }

  /** A row holding the next seven slots extends rows that hold their slots. */
  lemma AppendSlotRow(year: int, month: int, startDay: int, dim: int, weeks: seq<seq<Cell>>, row: seq<Cell>)
    requires forall w | 0 <= w < |weeks| :: |weeks[w]| == 7
    requires forall w, c | 0 <= w < |weeks| && 0 <= c < 7 :: weeks[w][c] == Slot(year, month, startDay, dim, 7 * w + c)
    requires |row| == 7 && forall j | 0 <= j < 7 :: row[j] == Slot(year, month, startDay, dim, 7 * |weeks| + j)
    ensures forall w | 0 <= w < |weeks + [row]| :: |(weeks + [row])[w]| == 7
    ensures forall w, c | 0 <= w < |weeks + [row]| && 0 <= c < 7 ::
      (weeks + [row])[w][c] == Slot(year, month, startDay, dim, 7 * w + c)
  {
  }

  /** Rows that hold `Slot` for the month's own start column and length are the month's grid. */
  lemma SlotRowsAreGrid(year: int, month: int, startDay: int, dim: int, weeks: seq<seq<Cell>>)
    requires 0 <= month < 12
    requires startDay == Weekday(Date(year, month, 1)) && dim == DaysInMonth(year, month)
    requires 1 <= |weeks| && 7 * (|weeks| - 1) < startDay + dim <= 7 * |weeks|
    requires forall w | 0 <= w < |weeks| :: |weeks[w]| == 7
    requires forall w, c | 0 <= w < |weeks| && 0 <= c < 7 :: weeks[w][c] == Slot(year, month, startDay, dim, 7 * w + c)
    ensures |weeks| == WeekCount(year, month)
    ensures forall w, c | 0 <= w < |weeks| && 0 <= c < 7 :: weeks[w][c] == GridCell(year, month, 7 * w + c)
    ensures forall c | 0 <= c < StartDay(year, month) :: weeks[0][c] == None
    ensures forall c | StartDay(year, month) <= c < 7 ::
      weeks[0][c] == Some(Date(year, month, c - StartDay(year, month) + 1))
    ensures Dates(Flatten(weeks)) == MonthDays(year, month)
  {
    assert startDay == StartDay(year, month);
    GridDates(year, month, weeks);
  }
}
