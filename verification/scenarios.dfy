/**
 * End-to-end runs of the attendance view on March 2024, stated as what a
 * caller can prove from the handlers' contracts: a successful edit, a failed
 * edit, a locked future day, and closing the dialog twice.
 */
module Scenarios {
  import opened Wrappers
  import opened Calendar
  import opened GridLayout
  import opened DateFormat
  import opened AttendanceView

  /** 2024-03-15, noon. */
  function MidMarch(): Instant
  {
    Instant(Date(2024, 2, 15), 43_200_000)
  }

  /** March 10 sits in row 2, column 0 of the March 2024 grid. */
  lemma MarchTenth(coins: seq<bool>)
    requires 31 <= |coins|
    ensures Layout(2024, 2, coins)[2][0] == Day(10, coins[9])
  {
    MarchTwentyTwentyFourLosesLastDay(coins);
    LayoutPositions(2024, 2, coins, 10);
  }

  lemma MarchTenthText()
    ensures FormatDate(2024, 2, 10) == "2024-03-10"
  {
  }

  /** Pick March 10, choose "present", save with a successful write. */
  method SuccessfulEdit(coins: seq<bool>) returns (sent: Option<Payload>, cell: Cell, dialogOpen: bool)
    requires 31 <= |coins|
    ensures sent == Some(Payload("alice", "2024-03-10", "present"))
    ensures cell == Day(10, true)
    ensures !dialogOpen
  {
    var view := new AttendanceGrid("alice", MidMarch(), coins);
    MarchTenth(coins);
    MarchTenthText();
    assert !IsFutureDate(Date(2024, 2, 10), MidMarch());
    view.HandleGridClick(2, 0, MidMarch());
    view.SetNewStatus(true);
    sent := view.HandleSaveChanges(true);
    cell := view.attendance[2][0];
    dialogOpen := view.isDialogOpen;
  }

  /** The same edit with a failed write: the cell keeps its status and the dialog its choice. */
  method FailedEdit(coins: seq<bool>) returns (cell: Cell, dialogOpen: bool, pending: Option<bool>)
    requires 31 <= |coins|
    ensures cell == Day(10, coins[9])
    ensures dialogOpen && pending == Some(true)
  {
    var view := new AttendanceGrid("alice", MidMarch(), coins);
    MarchTenth(coins);
    assert !IsFutureDate(Date(2024, 2, 10), MidMarch());
    view.HandleGridClick(2, 0, MidMarch());
    view.SetNewStatus(true);
    var _ := view.HandleSaveChanges(false);
    cell := view.attendance[2][0];
    dialogOpen := view.isDialogOpen;
    pending := view.newStatus;
  }

  /** A click on tomorrow (March 16, row 2, column 6) selects nothing. */
  method FutureDayLocked(coins: seq<bool>) returns (selected: Option<nat>, dialogOpen: bool)
    requires 31 <= |coins|
    ensures selected == None && !dialogOpen
  {
    var view := new AttendanceGrid("alice", MidMarch(), coins);
    MarchTwentyTwentyFourLosesLastDay(coins);
    assert view.attendance[2][6] == Day(16, coins[15]);
    assert IsFutureDate(Date(2024, 2, 16), MidMarch());
    view.HandleGridClick(2, 6, MidMarch());
    selected := view.selectedRowIndex;
    dialogOpen := view.isDialogOpen;
  }

  /** Closing an already closed dialog leaves the same state as closing it once. */
  method CloseTwice(coins: seq<bool>) returns (dialogOpen: bool, pending: Option<bool>, selected: Option<nat>)
    requires 31 <= |coins|
    ensures !dialogOpen && pending == None && selected == Some(2)
  {
    var view := new AttendanceGrid("alice", MidMarch(), coins);
    MarchTenth(coins);
    assert !IsFutureDate(Date(2024, 2, 10), MidMarch());
    view.HandleGridClick(2, 0, MidMarch());
    view.SetNewStatus(false);
    view.HandleCloseDialog();
    view.HandleCloseDialog();
    dialogOpen, pending, selected := view.isDialogOpen, view.newStatus, view.selectedRowIndex;
  }
}
