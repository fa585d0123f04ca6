/** The task handlers of the dashboard script as written: each is a pure
    function from the rendered rows to the rows it leaves and the list it
    hands to saveTasks, if any. Row text is written into the page through
    the corrected escape (`Escape.Shown`), which keeps the escaping defect
    apart from the list logic. */
module Reconciler {
  import opened Wrappers
  import opened Strings
  import opened Tasks
  import opened View
  import Escape

  /** What a handler leaves: the rows, and the list passed to saveTasks. */
  datatype Step = Step(rows: seq<Row>, sent: Option<seq<Task>>)

  /** addNewTask: a blank input does nothing at all; otherwise the trimmed
      text is appended, unchecked, to the scanned list, that list is sent,
      the input is cleared and a fresh row whose index is the old row count
      is appended. The second component is the new-task input afterwards. */
  function AddNewTask(rows: seq<Row>, input: string): (r: (Step, string))
    ensures r.0.sent.None? <==> AllSpace(input)
    ensures AllSpace(input) ==> r.0.rows == rows && r.1 == input
    ensures !AllSpace(input) ==>
      && r.0.sent == Some(Scan(rows) + [Task(Trim(input), false)])
      && |r.0.rows| == |rows| + 1 && r.0.rows[..|rows|] == rows
      && r.0.rows[|rows|] == Row(Span(Trim(input)), false, false, At(|rows|))
      && r.1 == ""
  {
    var taskText := Trim(input);
    if taskText == [] then (Step(rows, None), input)
    else
      var tasks := Scan(rows) + [Task(taskText, false)];
      var row := Row(Span(Escape.Shown(taskText)), false, false, At(|tasks| - 1));
      assert (rows + [row])[..|rows|] == rows;
      (Step(rows + [row], Some(tasks)), "")
  }

  /** What addNewTask sends is exactly what the rows it leaves scan to. */
  lemma AddSendsView(rows: seq<Row>, input: string)
    ensures AddNewTask(rows, input).0.sent.Some? ==>
      AddNewTask(rows, input).0.sent.value == Scan(AddNewTask(rows, input).0.rows)
  {
    var r := AddNewTask(rows, input).0;
    if r.sent.Some? {
      TrimIdempotent(input);
      ScanAppend(rows, [r.rows[|rows|]]);
      assert r.rows == rows + [r.rows[|rows|]];
    }
  }

  /** toggleTaskCompletion, run once the browser has flipped the checkbox of
      row `p`: the row's class is set to the checkbox first, the rows are
      scanned, and the entry at the row's `data-index`, if that is in
      bounds, gets the checkbox state; a save is always sent. Every entry
      other than the row's own and the indexed one is the scan before. */
  function ToggleTaskCompletion(rows: seq<Row>, p: nat): (r: Step)
    requires p < |rows|
    ensures |r.rows| == |rows|
    ensures r.rows[p] == rows[p].(completedClass := rows[p].checked)
    ensures forall i :: 0 <= i < |rows| && i != p ==> r.rows[i] == rows[i]
    ensures r.sent.Some? && |r.sent.value| == |rows|
    ensures forall j :: 0 <= j < |rows| ==>
      r.sent.value[j] ==
        (if j == p || rows[p].dataIndex == At(j)
         then Scan(rows)[j].(completed := rows[p].checked)
         else Scan(rows)[j])
  {
    var isCompleted := rows[p].checked;
    var viewed := rows[p := rows[p].(completedClass := isCompleted)];
    var tasks := Scan(viewed);
    var taskIndex := rows[p].dataIndex;
    var sent :=
      if InBounds(taskIndex, |tasks|)
      then tasks[taskIndex.n := tasks[taskIndex.n].(completed := isCompleted)]
      else tasks;
    Step(viewed, Some(sent))
  }

  /** A toggle sends what the view shows unless its row's `data-index` names
      another row whose completion differs from the new checkbox state. */
  lemma ToggleSendsViewIff(rows: seq<Row>, p: nat)
    requires p < |rows|
    ensures var r := ToggleTaskCompletion(rows, p);
      var d := rows[p].dataIndex;
      r.sent.value == Scan(r.rows) <==>
        (!InBounds(d, |rows|) || d.n == p || Scan(rows)[d.n].completed == rows[p].checked)
  {
    var r := ToggleTaskCompletion(rows, p);
    var d := rows[p].dataIndex;
    if InBounds(d, |rows|) && d.n != p && Scan(rows)[d.n].completed != rows[p].checked {
      assert r.sent.value[d.n] != Scan(r.rows)[d.n];
    }
  }

  /** editTask on row `p`: the span is replaced by an input holding its
      text; a row already being edited has no span and is left alone.
      Beginning an edit does not change what the rows scan to. */
  function EditTask(rows: seq<Row>, p: nat): (r: seq<Row>)
    requires p < |rows|
    ensures |r| == |rows|
    ensures forall i :: 0 <= i < |rows| && i != p ==> r[i] == rows[i]
    ensures rows[p].content.Span? ==>
      r[p] == rows[p].(content := Editing(rows[p].content.text, rows[p].content.text))
    ensures rows[p].content.Editing? ==> r[p] == rows[p]
    ensures Scan(r) == Scan(rows)
  {
    match rows[p].content
    case Span(currentText) =>
      rows[p := rows[p].(content := Editing(Escape.Shown(currentText), currentText))]
    case Editing(_, _) => rows
  }

  /** cancelEditTask on the input of row `p`: never saves. The row gets back
      a span showing the scanned text at its `data-index`, or nothing when
      that index is out of bounds; all other rows are untouched. */
  function CancelEditTask(rows: seq<Row>, p: nat): (r: Step)
    requires p < |rows| && rows[p].content.Editing?
    ensures r.sent.None?
    ensures |r.rows| == |rows|
    ensures forall i :: 0 <= i < |rows| && i != p ==> r.rows[i] == rows[i]
    ensures r.rows[p] == rows[p].(content := Span(
      if InBounds(rows[p].dataIndex, |rows|) then Trim(RowText(rows[rows[p].dataIndex.n])) else ""))
  {
    var taskIndex := rows[p].dataIndex;
    var tasks := Scan(rows);
    var originalText := if InBounds(taskIndex, |tasks|) then tasks[taskIndex.n].text else "";
    Step(rows[p := rows[p].(content := Span(Escape.Shown(originalText)))], None)
  }

  /** For a row whose index is its own, cancel "restores" the input's
      current trimmed value, not the text shown before editing. */
  lemma CancelRestoresInputValue(rows: seq<Row>, p: nat)
    requires p < |rows| && rows[p].content.Editing?
    requires rows[p].dataIndex == At(p)
    ensures CancelEditTask(rows, p).rows[p].content == Span(Trim(rows[p].content.value))
    ensures Trim(rows[p].content.value) != rows[p].content.before ==>
      CancelEditTask(rows, p).rows[p].content != Span(rows[p].content.before)
  {
  }

  /** finishEditTask on the input of row `p`: a blank value is handed to
      cancel and nothing is sent. Otherwise the row shows the trimmed value,
      the rows are scanned, and only the entry at the row's `data-index`, if
      in bounds, may differ from the scan before: its text becomes the new
      text. */
  function FinishEditTask(rows: seq<Row>, p: nat): (r: Step)
    requires p < |rows| && rows[p].content.Editing?
    ensures AllSpace(rows[p].content.value) ==> r == CancelEditTask(rows, p) && r.sent.None?
    ensures !AllSpace(rows[p].content.value) ==>
      var newText := Trim(rows[p].content.value);
      && |r.rows| == |rows|
      && r.rows[p] == rows[p].(content := Span(newText))
      && (forall i :: 0 <= i < |rows| && i != p ==> r.rows[i] == rows[i])
      && r.sent.Some? && |r.sent.value| == |rows|
      && forall j :: 0 <= j < |rows| ==>
        r.sent.value[j] ==
          (if rows[p].dataIndex == At(j) then Scan(rows)[j].(text := newText) else Scan(rows)[j])
  {
    var newText := Trim(rows[p].content.value);
    var taskIndex := rows[p].dataIndex;
    if newText == [] then CancelEditTask(rows, p)
    else
      var viewed := rows[p := rows[p].(content := Span(Escape.Shown(newText)))];
      TrimIdempotent(rows[p].content.value);
      var tasks := Scan(viewed);
      assert forall j :: 0 <= j < |rows| ==> tasks[j] == Scan(rows)[j];
      var sent :=
        if InBounds(taskIndex, |tasks|)
        then tasks[taskIndex.n := tasks[taskIndex.n].(text := newText)]
        else tasks;
      Step(viewed, Some(sent))
  }

  /** Committing an edit to a blank value, on a row whose index is its own,
      leaves the row showing nothing rather than its pre-edit text. */
  lemma FinishBlankEmptiesRow(rows: seq<Row>, p: nat)
    requires p < |rows| && rows[p].content.Editing?
    requires rows[p].dataIndex == At(p) && AllSpace(rows[p].content.value)
    ensures FinishEditTask(rows, p).rows[p].content == Span("")
    ensures FinishEditTask(rows, p).sent.None?
  {
  }

  /** A committed edit sends what the view shows unless the row's
      `data-index` names another row whose text differs from the new one. */
  lemma FinishSendsViewIff(rows: seq<Row>, p: nat)
    requires p < |rows| && rows[p].content.Editing? && !AllSpace(rows[p].content.value)
    ensures var r := FinishEditTask(rows, p);
      var d := rows[p].dataIndex;
      r.sent.value == Scan(r.rows) <==>
        (!InBounds(d, |rows|) || d.n == p || Scan(rows)[d.n].text == Trim(rows[p].content.value))
  {
    var r := FinishEditTask(rows, p);
    var d := rows[p].dataIndex;
    TrimIdempotent(rows[p].content.value);
    if InBounds(d, |rows|) && d.n != p && Scan(rows)[d.n].text != Trim(rows[p].content.value) {
      assert r.sent.value[d.n] != Scan(r.rows)[d.n];
    }
  }

  /** deleteTask on row `p`: when the confirmation is declined nothing
      happens; otherwise the row is removed first and the list sent is the
      scan of the remaining rows spliced again at the row's `data-index`. */
  function DeleteTask(rows: seq<Row>, p: nat, confirmed: bool): (r: Step)
    requires p < |rows|
    ensures !confirmed ==> r == Step(rows, None)
    ensures confirmed ==> Removed(rows, r.rows, p)
    ensures confirmed ==> r.sent == Some(Splice(Scan(r.rows), rows[p].dataIndex))
  {
    if !confirmed then Step(rows, None)
    else
      var taskIndex := rows[p].dataIndex;
      var remaining := rows[..p] + rows[p + 1..];
      var tasks := Scan(remaining);
      Step(remaining, Some(Splice(tasks, taskIndex)))
  }

  /** Deleting a row that is not the last, with its own index: two entries
      vanish from the list sent, the deleted row's and its successor's,
      although the successor is still shown. */
  lemma DeleteDropsNeighbour(rows: seq<Row>, p: nat)
    requires p + 1 < |rows| && rows[p].dataIndex == At(p)
    ensures var r := DeleteTask(rows, p, true);
      && |r.sent.value| == |rows| - 2
      && (forall j :: 0 <= j < p ==> r.sent.value[j] == Scan(rows)[j])
      && (forall j :: p <= j < |rows| - 2 ==> r.sent.value[j] == Scan(rows)[j + 2])
      && r.rows[p] == rows[p + 1]
      && |r.sent.value| < |Scan(r.rows)|
  {
  }

  /** Deleting with an index at or past the end of the remaining rows (the
      last row, with its own index, for one) sends exactly the remaining
      rows' scan. */
  lemma DeleteIndexPastEnd(rows: seq<Row>, p: nat)
    requires p < |rows| && rows[p].dataIndex.At? && rows[p].dataIndex.n >= |rows| - 1
    ensures var r := DeleteTask(rows, p, true);
      r.sent == Some(Scan(r.rows))
  {
  }

  /** After deleting a row that is not the last, the next row carries an
      index one past its position: the rows are no longer fresh. */
  lemma DeleteMakesStale(rows: seq<Row>, p: nat)
    requires p + 1 < |rows| && Fresh(rows)
    ensures DeleteTask(rows, p, true).rows[p].dataIndex == At(p + 1)
    ensures !Fresh(DeleteTask(rows, p, true).rows)
  {
  }

  /** A stale index makes a toggle write the wrong entry: after the first of
      three rows was deleted, checking the (former) second row marks the
      third one completed in the list sent, although it is shown unchecked. */
  lemma StaleToggleCorruptsNeighbour()
    ensures var rows := [Row(Span("b"), false, true, At(1)), Row(Span("c"), false, false, At(2))];
      var r := ToggleTaskCompletion(rows, 0);
      && r.sent.value[1] == Task("c", true)
      && Scan(r.rows)[1] == Task("c", false)
  {
    var rows := [Row(Span("b"), false, true, At(1)), Row(Span("c"), false, false, At(2))];
    TrimOfTrimmed("c");
  }

  /** Adding keeps every row's class equal to its checkbox and every row's
      index equal to its position. */
  lemma AddKeepsInvariants(rows: seq<Row>, input: string)
    ensures Synced(rows) ==> Synced(AddNewTask(rows, input).0.rows)
    ensures Fresh(rows) ==> Fresh(AddNewTask(rows, input).0.rows)
  {
    var r := AddNewTask(rows, input).0;
    if r.sent.Some? {
      assert forall i :: 0 <= i < |rows| ==> r.rows[i] == r.rows[..|rows|][i];
    }
  }

  /** A toggle brings its row's class back in line with the checkbox the
      browser just flipped, whatever it was before, and keeps indices. */
  lemma ToggleKeepsInvariants(rows: seq<Row>, p: nat)
    requires p < |rows|
    ensures (forall i :: 0 <= i < |rows| && i != p ==> rows[i].completedClass == rows[i].checked) ==>
      Synced(ToggleTaskCompletion(rows, p).rows)
    ensures Fresh(rows) ==> Fresh(ToggleTaskCompletion(rows, p).rows)
  {
  }

  /** Beginning an edit touches only the text of a row. */
  lemma EditKeepsInvariants(rows: seq<Row>, p: nat)
    requires p < |rows|
    ensures Synced(rows) ==> Synced(EditTask(rows, p))
    ensures Fresh(rows) ==> Fresh(EditTask(rows, p))
  {
  }

  /** Committing an edit touches only the text of a row. */
  lemma FinishKeepsInvariants(rows: seq<Row>, p: nat)
    requires p < |rows| && rows[p].content.Editing?
    ensures Synced(rows) ==> Synced(FinishEditTask(rows, p).rows)
    ensures Fresh(rows) ==> Fresh(FinishEditTask(rows, p).rows)
  {
  }

  /** Cancelling an edit touches only the text of a row. */
  lemma CancelKeepsInvariants(rows: seq<Row>, p: nat)
    requires p < |rows| && rows[p].content.Editing?
    ensures Synced(rows) ==> Synced(CancelEditTask(rows, p).rows)
    ensures Fresh(rows) ==> Fresh(CancelEditTask(rows, p).rows)
  {
  }

  /** Deleting keeps class and checkbox in line on the rows that remain,
      and keeps indices fresh exactly when the last row is deleted (or the
      confirmation is declined). */
  lemma DeleteKeepsInvariants(rows: seq<Row>, p: nat, confirmed: bool)
    requires p < |rows|
    ensures Synced(rows) ==> Synced(DeleteTask(rows, p, confirmed).rows)
    ensures Fresh(rows) ==> (Fresh(DeleteTask(rows, p, confirmed).rows) <==> (!confirmed || p == |rows| - 1))
  {
    if Fresh(rows) && confirmed && p < |rows| - 1 {
      DeleteMakesStale(rows, p);
    }
  }

  /** Every handler builds the list it saves from getCurrentTasksData, the
      scan of the rows on screen, yet the delete splices that scan once more:
      deleting the first of two rows saves an empty list while one row is
      still shown. */
  lemma AsWrittenSaveDrifts()
    ensures var rows := [Row(Span("a"), false, false, At(0)), Row(Span("b"), false, false, At(1))];
      var r := DeleteTask(rows, 0, true);
      r.sent == Some([]) && |r.rows| == 1
  {
  }
}
