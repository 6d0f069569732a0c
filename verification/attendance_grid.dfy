/**
 * The attendance view component: its state (displayed month, grid, selected
 * cell, pending status, dialog flag) and the handlers that step it —
 * grid click, dialog close, status radio buttons, save, month navigation.
 * The remote write is an outcome passed in by the caller; "now" is an
 * `Instant` parameter; the random status draws are a sequence of booleans.
 */
module AttendanceView {
  import opened Wrappers
  import opened Calendar
  import opened GridLayout
  import opened DateFormat

  /** The JSON body posted to the attendance endpoint. */
  datatype Payload = Payload(username: string, date: string, status: string)

  /** `newStatus ? "present" : "absent"`. */
  function StatusLabel(present: bool): (text: string)
    ensures text == "present" <==> present
    ensures text == "absent" <==> !present
  {
    if present then "present" else "absent"
  }

  /** The day number a cell displays, if any. */
  function Shown(cell: Cell): Option<int>
  {
    if cell.Day? then Some(cell.date) else None
  }

  /**
   * `g` displays the days of (year, month) at their layout positions; the
   * statuses are free. Every grid the component holds satisfies this.
   */
  predicate ShowsMonth(g: Grid, year: int, month: Month)
  {
    IsGrid(g) &&
    forall r, c | 0 <= r < ROWS && 0 <= c < COLS ::
      Shown(g[r][c]) == SlotDate(FirstDayOfMonth(year, month), DaysInMonth(year, month), COLS * r + c)
  }

  /**
   * The render-time test `cell && new Date(year, month, cell.date) > new Date()`:
   * an empty cell is never in the future, and a cell holding a real day is
   * in the future exactly when that day is after today.
   */
  predicate IsFutureCell(year: int, month: Month, cell: Cell, now: Instant): (future: bool)
    ensures future ==> cell.Day?
    ensures cell.Day? && ValidDate(Date(year, month, cell.date)) && ValidInstant(now) ==>
      (future <==> IsAfter(Date(year, month, cell.date), now.date))
  {
    cell.Day? && IsFutureDate(Date(year, month, cell.date), now)
  }

  /** A click on cell (row, col) selects it: the cell holds a day and that day is not in the future. */
  predicate ClickAccepted(g: Grid, year: int, month: Month, row: nat, col: nat, now: Instant)
    requires IsGrid(g) && row < ROWS && col < COLS
  {
    g[row][col].Day? && !IsFutureCell(year, month, g[row][col], now)
  }

  predicate HasDay(g: Grid, row: nat, col: nat)
  {
    row < |g| && col < |g[row]| && g[row][col].Day?
  }

  /**
   * What `handleSaveChanges` posts: nothing unless a status and both indices
   * are set and the selected cell holds a day; otherwise the username, the
   * selected day as `<year>-<MM>-<DD>` and the status label.
   */
  function SaveRequest(username: string, year: int, month: Month, g: Grid,
                       row: Option<nat>, col: Option<nat>, status: Option<bool>): (p: Option<Payload>)
    requires ShowsMonth(g, year, month)
    ensures p.Some? <==> status.Some? && row.Some? && col.Some? && HasDay(g, row.value, col.value)
    ensures p.Some? ==>
      p.value.username == username &&
      ParseDate(p.value.date) == Some((year, month + 1, g[row.value][col.value].date)) &&
      (p.value.status == "present" <==> status.value) &&
      (p.value.status == "absent" <==> !status.value)
  {
    if status.Some? && row.Some? && col.Some? && HasDay(g, row.value, col.value) then
      var day := g[row.value][col.value].date;
      assert 1 <= day <= 31 by {
        assert Shown(g[row.value][col.value]) == Some(day);
      }
      Some(Payload(username, FormatDate(year, month, day), StatusLabel(status.value)))
    else
      None
  }

  /**
   * The guarded update of lines 84-92: when row and cell exist and the cell
   * holds a day, that cell's `present` becomes `v`; every other cell stays.
   */
  function SetPresence(g: Grid, row: nat, col: nat, v: bool): (h: Grid)
    ensures |h| == |g| && forall i | 0 <= i < |g| :: |h[i]| == |g[i]|
    ensures forall i, j | 0 <= i < |g| && 0 <= j < |g[i]| && (i != row || j != col) :: h[i][j] == g[i][j]
    ensures HasDay(g, row, col) ==> h[row][col] == Day(g[row][col].date, v)
    ensures !HasDay(g, row, col) ==> h == g
  {
    if HasDay(g, row, col) then g[row := g[row][col := g[row][col].(present := v)]] else g
  }

  class AttendanceGrid {
    const username: string
    var year: int
    var month: Month
    var attendance: Grid
    var selectedRowIndex: Option<nat>
    var selectedColIndex: Option<nat>
    var newStatus: Option<bool>
    var isDialogOpen: bool

    ghost predicate Valid()
      reads this
    {
      ShowsMonth(attendance, year, month)
    }

    /** Mounting: the month of "now", and the grid the first effect builds for it. */
    constructor (username: string, now: Instant, coins: seq<bool>)
      requires DaysInMonth(now.date.year, now.date.month) <= |coins|
      ensures Valid()
      ensures this.username == username
      ensures year == now.date.year && month == now.date.month
      ensures attendance == Layout(year, month, coins)
      ensures selectedRowIndex == None && selectedColIndex == None
      ensures newStatus == None && !isDialogOpen
    {
      var grid := CreateAttendanceGrid(now.date.year, now.date.month, coins);
      this.username := username;
      year, month := now.date.year, now.date.month;
      attendance := grid;
      selectedRowIndex, selectedColIndex := None, None;
      newStatus, isDialogOpen := None, false;
      new;
      LayoutShowsMonth(year, month, coins);
    }

    /**
     * A click on cell (rowIndex, colIndex): the render-time guard and
     * `handleGridClick` together. A day in the future is ignored; otherwise the
     * cell is selected and the dialog opens. An empty cell passes the render
     * guard, and the handler then reads `.date` of `null` and throws before
     * setting any state, so the click changes nothing.
     */
    method HandleGridClick(rowIndex: nat, colIndex: nat, now: Instant)
      requires Valid() && rowIndex < ROWS && colIndex < COLS
      modifies this
      ensures Valid()
      ensures year == old(year) && month == old(month) && attendance == old(attendance)
      ensures newStatus == old(newStatus)
      ensures if ClickAccepted(attendance, year, month, rowIndex, colIndex, now) then
          selectedRowIndex == Some(rowIndex) && selectedColIndex == Some(colIndex) && isDialogOpen
        else
          selectedRowIndex == old(selectedRowIndex) && selectedColIndex == old(selectedColIndex) &&
          isDialogOpen == old(isDialogOpen)
    {
      var cell := attendance[rowIndex][colIndex];
      if cell.Empty? {
        return;
      }
      if IsFutureDate(Date(year, month, cell.date), now) {
        return;
      }
      selectedRowIndex := Some(rowIndex);
      selectedColIndex := Some(colIndex);
      isDialogOpen := true;
    }

    /** `handleCloseDialog`: closes the dialog and clears the pending status, keeping the selection. */
    method HandleCloseDialog()
      requires Valid()
      modifies this
      ensures Valid()
      ensures !isDialogOpen && newStatus == None
      ensures year == old(year) && month == old(month) && attendance == old(attendance)
      ensures selectedRowIndex == old(selectedRowIndex) && selectedColIndex == old(selectedColIndex)
    {
      isDialogOpen := false;
      newStatus := None;
    }

    /** The "Present" / "Absent" radio buttons. */
    method SetNewStatus(present: bool)
      requires Valid()
      modifies this
      ensures Valid()
      ensures newStatus == Some(present)
      ensures year == old(year) && month == old(month) && attendance == old(attendance)
      ensures selectedRowIndex == old(selectedRowIndex) && selectedColIndex == old(selectedColIndex)
      ensures isDialogOpen == old(isDialogOpen)
    {
      newStatus := Some(present);
    }

    /**
     * `handleSaveChanges`: posts `SaveRequest` of the current state; `writeSucceeds`
     * is the outcome of the post. Only after a successful write does the selected
     * cell take the new status and the dialog close; a failed write, or a
     * selected cell without a day, is caught and changes nothing.
     */
    method HandleSaveChanges(writeSucceeds: bool) returns (sent: Option<Payload>)
      requires Valid()
      modifies this
      ensures Valid()
      ensures sent == SaveRequest(username, old(year), old(month), old(attendance),
                                  old(selectedRowIndex), old(selectedColIndex), old(newStatus))
      ensures year == old(year) && month == old(month)
      ensures selectedRowIndex == old(selectedRowIndex) && selectedColIndex == old(selectedColIndex)
      ensures if sent.Some? && writeSucceeds then
          attendance == SetPresence(old(attendance), old(selectedRowIndex).value,
                                    old(selectedColIndex).value, old(newStatus).value) &&
          !isDialogOpen && newStatus == None
        else
          attendance == old(attendance) && isDialogOpen == old(isDialogOpen) && newStatus == old(newStatus)
    {
      sent := None;
      if newStatus.Some? && selectedRowIndex.Some? && selectedColIndex.Some? {
        var row, col := selectedRowIndex.value, selectedColIndex.value;
        if !HasDay(attendance, row, col) {
          // Reading `.date` of the missing cell throws; the error is caught and logged.
          return;
        }
        var clickedDay := attendance[row][col].date;
        var status := StatusLabel(newStatus.value);
        var formattedDate := FormatDate(year, month, clickedDay);
        sent := Some(Payload(username, formattedDate, status));
        if !writeSucceeds {
          return;
        }
        if row < |attendance| && col < |attendance[row]| && attendance[row][col].Day? {
          attendance := attendance[row := attendance[row][col := attendance[row][col].(present := newStatus.value)]];
        }
        SetPresenceShowsMonth(old(attendance), year, month, row, col, old(newStatus).value);
        isDialogOpen := false;
        newStatus := None;
      }
    }

    /** `handlePreviousMonth` followed by the effect that rebuilds the grid. */
    method HandlePreviousMonth(coins: seq<bool>)
      requires 31 <= |coins|
      modifies this
      ensures Valid()
      ensures MonthKey(year, month) == PreviousMonth(old(MonthKey(year, month)))
      ensures attendance == Layout(year, month, coins)
      ensures selectedRowIndex == old(selectedRowIndex) && selectedColIndex == old(selectedColIndex)
      ensures newStatus == old(newStatus) && isDialogOpen == old(isDialogOpen)
    {
      var shown := month;
      month := if shown == 0 then 11 else shown - 1;
      if shown == 0 {
        year := year - 1;
      }
      attendance := CreateAttendanceGrid(year, month, coins);
      LayoutShowsMonth(year, month, coins);
    }

    /** `handleNextMonth` followed by the effect that rebuilds the grid. */
    method HandleNextMonth(coins: seq<bool>)
      requires 31 <= |coins|
      modifies this
      ensures Valid()
      ensures MonthKey(year, month) == NextMonth(old(MonthKey(year, month)))
      ensures attendance == Layout(year, month, coins)
      ensures selectedRowIndex == old(selectedRowIndex) && selectedColIndex == old(selectedColIndex)
      ensures newStatus == old(newStatus) && isDialogOpen == old(isDialogOpen)
    {
      var shown := month;
      month := if shown == 11 then 0 else shown + 1;
      if shown == 11 {
        year := year + 1;
      }
      attendance := CreateAttendanceGrid(year, month, coins);
      LayoutShowsMonth(year, month, coins);
    }
  }

  // ---------------------------------------------------------------------
  // Properties

  /** Every freshly built grid shows its month. */
  lemma LayoutShowsMonth(year: int, month: Month, coins: seq<bool>)
    requires DaysInMonth(year, month) <= |coins|
    ensures ShowsMonth(Layout(year, month, coins), year, month)
  {
  }

  /** Saving a status changes no date: the grid still shows its month. */
  lemma SetPresenceShowsMonth(g: Grid, year: int, month: Month, row: nat, col: nat, v: bool)
    requires ShowsMonth(g, year, month)
    ensures ShowsMonth(SetPresence(g, row, col, v), year, month)
  {
  }

  /** Saving the same status twice leaves the grid as saving it once. */
  lemma SetPresenceIdempotent(g: Grid, row: nat, col: nat, v: bool)
    ensures SetPresence(SetPresence(g, row, col, v), row, col, v) == SetPresence(g, row, col, v)
  {
    if HasDay(g, row, col) {
      var h: Grid := SetPresence(g, row, col, v);
      assert h[row][col].(present := v) == h[row][col];
      assert h[row][col := h[row][col].(present := v)] == h[row];
    }
  }

  /**
   * On a grid of the displayed month, the render-time future test is "the
   * cell's day is after today", whatever the time of day.
   */
  lemma FutureCellIffAfterToday(g: Grid, year: int, month: Month, row: nat, col: nat, now: Instant)
    requires ShowsMonth(g, year, month) && ValidInstant(now)
    requires row < ROWS && col < COLS
    ensures IsFutureCell(year, month, g[row][col], now) <==>
      g[row][col].Day? && IsAfter(Date(year, month, g[row][col].date), now.date)
  {
    if g[row][col].Day? {
      assert Shown(g[row][col]) == Some(g[row][col].date);
    }
  }

  /**
   * A click is accepted exactly on day cells not after today; in particular
   * the cell for today itself is accepted.
   */
  lemma ClickAcceptedIffNotAfterToday(g: Grid, year: int, month: Month, row: nat, col: nat, now: Instant)
    requires ShowsMonth(g, year, month) && ValidInstant(now)
    requires row < ROWS && col < COLS
    ensures ClickAccepted(g, year, month, row, col, now) <==>
      g[row][col].Day? && !IsAfter(Date(year, month, g[row][col].date), now.date)
    ensures g[row][col].Day? && Date(year, month, g[row][col].date) == now.date ==>
      ClickAccepted(g, year, month, row, col, now)
  {
    FutureCellIffAfterToday(g, year, month, row, col, now);
  }
}
