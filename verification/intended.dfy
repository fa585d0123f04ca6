/** The task handlers corrected to what the script's comments intend,
    keeping its own scheme that every save sends getCurrentTasksData ("Get
    current tasks data from UI"), the scan of the rows the handler leaves:
    a task is identified by the position of its row, deleting removes
    exactly one entry, and cancelling an edit brings back the text shown
    before it. */
module Intended {
  import opened Wrappers
  import opened Strings
  import opened Tasks
  import opened View
  import Escape
  import opened Reconciler

  /** toggleTaskCompletion without the write through `data-index`: the
      row's class already carries the new state when the rows are scanned,
      so the list sent is that scan, which differs from the scan before only
      in the toggled entry's `completed`. */
  function ToggleTaskCompletion(rows: seq<Row>, p: nat): (r: Step)
    requires p < |rows|
    ensures |r.rows| == |rows|
    ensures r.rows[p] == rows[p].(completedClass := rows[p].checked)
    ensures forall i :: 0 <= i < |rows| && i != p ==> r.rows[i] == rows[i]
    ensures r.sent == Some(Scan(r.rows))
    ensures forall j :: 0 <= j < |rows| ==>
      r.sent.value[j] ==
        (if j == p then Scan(rows)[j].(completed := rows[p].checked) else Scan(rows)[j])
  {
    var isCompleted := rows[p].checked;
    var viewed := rows[p := rows[p].(completedClass := isCompleted)];
    Step(viewed, Some(Scan(viewed)))
  }

  /** cancelEditTask restoring the text the row showed before editing
      began; nothing is sent and no other row changes. */
  function CancelEditTask(rows: seq<Row>, p: nat): (r: Step)
    requires p < |rows| && rows[p].content.Editing?
    ensures r.sent.None?
    ensures |r.rows| == |rows|
    ensures forall i :: 0 <= i < |rows| && i != p ==> r.rows[i] == rows[i]
    ensures r.rows[p] == rows[p].(content := Span(rows[p].content.before))
  {
    var originalText := rows[p].content.before;
    Step(rows[p := rows[p].(content := Span(Escape.Shown(originalText)))], None)
  }

  /** Cancelling right after beginning an edit gives back the row exactly
      as it was. */
  lemma EditThenCancelRestoresRow(rows: seq<Row>, p: nat)
    requires p < |rows| && rows[p].content.Span?
    ensures CancelEditTask(EditTask(rows, p), p).rows == rows
  {
    var r := CancelEditTask(EditTask(rows, p), p).rows;
    assert forall i :: 0 <= i < |rows| ==> r[i] == rows[i];
  }

  /** finishEditTask without the write through `data-index`: a blank value
      brings back the pre-edit text and sends nothing; otherwise the row
      shows the trimmed value and the list sent is the scan of the rows it
      leaves, which is also the scan before, the input having been read
      trimmed already. */
  function FinishEditTask(rows: seq<Row>, p: nat): (r: Step)
    requires p < |rows| && rows[p].content.Editing?
    ensures AllSpace(rows[p].content.value) ==>
      r.sent.None? && r.rows == rows[p := rows[p].(content := Span(rows[p].content.before))]
    ensures !AllSpace(rows[p].content.value) ==>
      && |r.rows| == |rows|
      && r.rows[p] == rows[p].(content := Span(Trim(rows[p].content.value)))
      && (forall i :: 0 <= i < |rows| && i != p ==> r.rows[i] == rows[i])
      && r.sent == Some(Scan(r.rows))
      && r.sent == Some(Scan(rows))
  {
    var newText := Trim(rows[p].content.value);
    if newText == [] then CancelEditTask(rows, p)
    else
      var viewed := rows[p := rows[p].(content := Span(Escape.Shown(newText)))];
      TrimIdempotent(rows[p].content.value);
      var tasks := Scan(viewed);
      assert tasks == Scan(rows) by {
        assert forall j :: 0 <= j < |rows| ==> tasks[j] == Scan(rows)[j];
      }
      Step(viewed, Some(tasks))
  }

  /** deleteTask scanning before it removes the row: on confirmation exactly
      the row's entry leaves the list, and the list sent is the scan of the
      rows that remain. */
  function DeleteTask(rows: seq<Row>, p: nat, confirmed: bool): (r: Step)
    requires p < |rows|
    ensures !confirmed ==> r == Step(rows, None)
    ensures confirmed ==> Removed(rows, r.rows, p)
    ensures confirmed ==> r.sent.Some? && Removed(Scan(rows), r.sent.value, p)
    ensures confirmed ==> r.sent == Some(Scan(r.rows))
  {
    if !confirmed then Step(rows, None)
    else
      var tasks := Scan(rows);
      var sent := Splice(tasks, At(p));
      var remaining := rows[..p] + rows[p + 1..];
      assert Scan(remaining) == sent by {
        assert forall j :: 0 <= j < |remaining| ==> Scan(remaining)[j] == sent[j];
      }
      Step(remaining, Some(sent))
  }

  /** On the rows where the as-written delete drops two entries, the
      corrected one drops one: the list sent is one shorter than the rows
      it started from. */
  lemma DeleteSendsOneFewer(rows: seq<Row>, p: nat)
    requires p < |rows|
    ensures |DeleteTask(rows, p, true).sent.value| == |rows| - 1
  {
  }

  /** updateTasksSummary on a page that always holds the summary block
      (drawn hidden for an empty list, or created by the script when it is
      missing), as the add handler's comment "Show summary if tasks now
      exist" intends: the summary is visible exactly when there is a row,
      and on synced rows it counts the completed entries of the scan. */
  function UpdateTasksSummary(rows: seq<Row>): (s: Summary)
    ensures s.total == |rows|
    ensures s.visible <==> rows != []
    ensures Synced(rows) ==> s.completed == CountDone(Scan(rows))
  {
    if Synced(rows) then
      SummaryMatchesScan(rows, true);
      ClientSummary(rows, true)
    else ClientSummary(rows, true)
  }
}
