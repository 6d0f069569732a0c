/**
 * The month grid of the attendance view (`createAttendanceGrid`): a fixed
 * 5 x 7 table of cells, padding before the first weekday, consecutive day
 * numbers row by row, padding after the last day, and days that need a
 * sixth row dropped.
 */
module GridLayout {
  import opened Wrappers
  import opened Calendar

  const ROWS := 5
  const COLS := 7
  const SLOTS := ROWS * COLS

  /** A grid cell: `null` padding, or a day with its present/absent flag. */
  datatype Cell = Empty | Day(date: int, present: bool)

  type Grid = seq<seq<Cell>>

  predicate IsGrid(g: Grid)
  {
    |g| == ROWS && forall r | 0 <= r < ROWS :: |g[r]| == COLS
  }

  /** Weekday of the first of the month, `new Date(year, month, 1).getDay()`. */
  function FirstDayOfMonth(year: int, month: Month): (w: int)
    ensures 0 <= w < 7
  {
    Weekday(Date(year, month, 1))
  }

  /**
   * The grid of the next month starts `DaysInMonth` weekdays after this
   * month's, across the December to January rollover as well.
   */
  lemma FirstDayOfNextMonth(year: int, month: Month)
    ensures var k := NextMonth(MonthKey(year, month));
      FirstDayOfMonth(k.year, k.month) == (FirstDayOfMonth(year, month) + DaysInMonth(year, month)) % 7
  {
    var k := NextMonth(MonthKey(year, month));
    DayZeroOfNextMonth(year, month);
    var n := DayNumber(Date(year, month, 1));
    assert DayNumber(Date(k.year, k.month, 1)) == n + DaysInMonth(year, month);
    AddMod7(n + 1, DaysInMonth(year, month));
  }

  /**
   * The day number shown in row-major slot `s` (slot 7 * row + col) of a month
   * whose first day falls on weekday `first` and which has `dim` days.
   */
  function SlotDate(first: int, dim: int, s: int): Option<int>
  {
    if s < first || s - first >= dim then None else Some(s - first + 1)
  }

  /** The cell built for slot `s`; `coins[d - 1]` is the random draw for day `d`. */
  function CellAt(first: int, dim: int, coins: seq<bool>, s: int): Cell
    requires dim <= |coins|
  {
    match SlotDate(first, dim, s)
    case None => Empty
    case Some(d) => Day(d, coins[d - 1])
  }

  /** The grid for (year, month), with one status draw per day of the month. */
  function Layout(year: int, month: Month, coins: seq<bool>): (g: Grid)
    requires DaysInMonth(year, month) <= |coins|
    ensures IsGrid(g)
    ensures forall r, c | 0 <= r < ROWS && 0 <= c < COLS && g[r][c].Day? ::
      g[r][c].date == COLS * r + c - FirstDayOfMonth(year, month) + 1 &&
      1 <= g[r][c].date <= DaysInMonth(year, month) &&
      g[r][c].present == coins[g[r][c].date - 1]
  {
    var first, dim := FirstDayOfMonth(year, month), DaysInMonth(year, month);
    var g := seq(ROWS, r => seq(COLS, c => CellAt(first, dim, coins, COLS * r + c)));
    assert forall r, c | 0 <= r < ROWS && 0 <= c < COLS :: g[r][c] == CellAt(first, dim, coins, COLS * r + c);
    g
  }

  /**
   * `createAttendanceGrid`: nested loops push one cell per slot, drawing a
   * status for each day placed and counting days with `currentDay`.
   */
  method CreateAttendanceGrid(year: int, month: Month, coins: seq<bool>) returns (grid: Grid)
    requires DaysInMonth(year, month) <= |coins|
    ensures grid == Layout(year, month, coins)
  {
    var dim := DaysInMonth(year, month);
    var first := FirstDayOfMonth(year, month);
    grid := [];
    var currentDay := 1;
    for row := 0 to ROWS
      invariant |grid| == row
      invariant forall r | 0 <= r < row :: |grid[r]| == COLS
      invariant forall r, c | 0 <= r < row && 0 <= c < COLS :: grid[r][c] == CellAt(first, dim, coins, COLS * r + c)
      invariant currentDay == Min(dim, Max(0, COLS * row - first)) + 1
    {
      var week: seq<Cell> := [];
      for col := 0 to COLS
        invariant |week| == col
        invariant forall c | 0 <= c < col :: week[c] == CellAt(first, dim, coins, COLS * row + c)
        invariant currentDay == Min(dim, Max(0, COLS * row + col - first)) + 1
      {
        if row == 0 && col < first {
          week := week + [Empty];
        } else if currentDay <= dim {
          week := week + [Day(currentDay, coins[currentDay - 1])];
          currentDay := currentDay + 1;
        } else {
          week := week + [Empty];
        }
      }
      grid := grid + [week];
    }
    assert forall r | 0 <= r < ROWS :: grid[r] == Layout(year, month, coins)[r];
  }

  function Min(a: int, b: int): int { if a <= b then a else b }
  function Max(a: int, b: int): int { if a >= b then a else b }

  // ---------------------------------------------------------------------
  // Properties of the layout

  /** The cells of a grid in row-major order. */
  function Slots(g: Grid): (cells: seq<Cell>)
    requires IsGrid(g)
    ensures |cells| == SLOTS
  {
    seq(SLOTS, s requires 0 <= s < SLOTS => g[s / COLS][s % COLS])
  }

  /** The day numbers of the non-empty cells of `cells`, in order. */
  function DayDates(cells: seq<Cell>): seq<int>
  {
    if cells == [] then []
    else
      var last := cells[|cells| - 1];
      DayDates(cells[..|cells| - 1]) + (if last.Day? then [last.date] else [])
  }

  /** 1, 2, ..., n */
  function Consecutive(n: nat): seq<int>
  {
    seq(n, i => i + 1)
  }

  lemma {:induction false} DayDatesOfPrefix(first: int, dim: int, coins: seq<bool>, cells: seq<Cell>, n: nat)
    requires 0 <= first < COLS && 0 <= dim <= |coins|
    requires n <= |cells|
    requires forall s | 0 <= s < |cells| :: cells[s] == CellAt(first, dim, coins, s)
    ensures DayDates(cells[..n]) == Consecutive(Min(dim, Max(0, n - first)))
  {
    if n > 0 {
      DayDatesOfPrefix(first, dim, coins, cells, n - 1);
      assert cells[..n][..n - 1] == cells[..n - 1];
    }
  }

  /**
   * The non-empty cells, read row by row, hold exactly the days
   * 1, 2, ..., min(daysInMonth, 35 - firstDayOfMonth): consecutive, starting
   * at the first, and cut off where the 35 slots run out.
   */
  lemma LayoutDatesInOrder(year: int, month: Month, coins: seq<bool>)
    requires DaysInMonth(year, month) <= |coins|
    ensures DayDates(Slots(Layout(year, month, coins))) ==
      Consecutive(Min(DaysInMonth(year, month), SLOTS - FirstDayOfMonth(year, month)))
  {
    var first, dim := FirstDayOfMonth(year, month), DaysInMonth(year, month);
    var cells := Slots(Layout(year, month, coins));
    forall s | 0 <= s < |cells| ensures cells[s] == CellAt(first, dim, coins, s) {
      assert s == COLS * (s / COLS) + s % COLS;
    }
    DayDatesOfPrefix(first, dim, coins, cells, SLOTS);
    assert cells[..SLOTS] == cells;
  }

  /** The number of non-empty cells is min(daysInMonth, 35 - firstDayOfMonth). */
  lemma LayoutDayCount(year: int, month: Month, coins: seq<bool>)
    requires DaysInMonth(year, month) <= |coins|
    ensures |DayDates(Slots(Layout(year, month, coins)))| ==
      Min(DaysInMonth(year, month), SLOTS - FirstDayOfMonth(year, month))
  {
    LayoutDatesInOrder(year, month, coins);
  }

  /** Where day `d` of the month sits in the grid, if it fits. */
  function PositionOf(first: int, d: int): (rc: (int, int))
  {
    ((first + d - 1) / COLS, (first + d - 1) % COLS)
  }

  /**
   * Day `d` of the month sits at `PositionOf(first, d)` when its slot is one of
   * the 35; otherwise no cell of the grid carries it. Conversely, every day
   * cell sits at the position of its own date.
   */
  lemma LayoutPositions(year: int, month: Month, coins: seq<bool>, d: int)
    requires DaysInMonth(year, month) <= |coins|
    requires 1 <= d <= DaysInMonth(year, month)
    ensures var g, first := Layout(year, month, coins), FirstDayOfMonth(year, month);
      var (r, c) := PositionOf(first, d);
      (first + d - 1 < SLOTS ==> 0 <= r < ROWS && 0 <= c < COLS && g[r][c] == Day(d, coins[d - 1])) &&
      (first + d - 1 >= SLOTS ==> forall i, j | 0 <= i < ROWS && 0 <= j < COLS :: !(g[i][j].Day? && g[i][j].date == d))
  {
    var g, first, dim := Layout(year, month, coins), FirstDayOfMonth(year, month), DaysInMonth(year, month);
    var s := first + d - 1;
    assert s == COLS * (s / COLS) + s % COLS;
    forall i, j | 0 <= i < ROWS && 0 <= j < COLS
      ensures g[i][j] == CellAt(first, dim, coins, COLS * i + j)
    {
    }
  }

  lemma LayoutCellPosition(year: int, month: Month, coins: seq<bool>, r: int, c: int)
    requires DaysInMonth(year, month) <= |coins|
    requires 0 <= r < ROWS && 0 <= c < COLS
    requires Layout(year, month, coins)[r][c].Day?
    ensures PositionOf(FirstDayOfMonth(year, month), Layout(year, month, coins)[r][c].date) == (r, c)
  {
  }

  /**
   * March 2024 starts on a Friday (weekday 5) and has 31 days, one more than
   * the 30 slots left after the padding: the grid shows days 1 to 30 and no
   * cell carries the 31st.
   */
  lemma MarchTwentyTwentyFourLosesLastDay(coins: seq<bool>)
    requires 31 <= |coins|
    ensures FirstDayOfMonth(2024, 2) == 5
    ensures DayDates(Slots(Layout(2024, 2, coins))) == Consecutive(30)
    ensures forall r, c | 0 <= r < ROWS && 0 <= c < COLS :: !(Layout(2024, 2, coins)[r][c].Day? && Layout(2024, 2, coins)[r][c].date == 31)
  {
    assert DaysBeforeMonth(2024, 2) == 60;
    assert DayNumber(Date(2024, 2, 1)) == 738945;
    LayoutDatesInOrder(2024, 2, coins);
    LayoutPositions(2024, 2, coins, 31);
  }
}
