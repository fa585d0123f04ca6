/** The rendered task list of the dashboard script, seen as a sequence of
    rows, and getCurrentTasksData, which rebuilds the task list from it. */
module View {
  import opened Strings
  import opened Tasks

  /** Where a row's text lives: the static text span, or the inline edit
      input that replaced it. `value` is what the input currently holds;
      `before` is the text the span showed when editing began. The code as
      written never reads `before` (the DOM keeps no copy of it); the
      corrected cancel in module Intended does. */
  datatype Content = Span(text: string) | Editing(value: string, before: string)

  /** A `data-index` attribute after parseInt: an integer, or NaN. */
  datatype Index = At(n: int) | NaN

  /** One `.dtn-task-item`: its text, its `completed` class, its checkbox
      and the `data-index` it was rendered with (shared by the row, its
      checkbox, its buttons and its edit input, and never updated). */
  datatype Row = Row(content: Content, completedClass: bool, checked: bool, dataIndex: Index)

  /** `span.text() || input.val() || ''`: a row has either a span or an
      input, so this is whichever of the two is present. */
  function RowText(r: Row): string {
    match r.content
    case Span(t) => t
    case Editing(v, _) => v
  }

  /** The entry getCurrentTasksData pushes for one row: the span's text or
      else the input's value, trimmed, and the class or else the checkbox.
      The text is empty exactly when the row holds only whitespace. */
  function ScanRow(r: Row): (t: Task)
    ensures IsTrimmed(t.text)
    ensures t.text == [] <==> AllSpace(RowText(r))
  {
    Task(Trim(RowText(r)), r.completedClass || r.checked)
  }

  /** getCurrentTasksData: one entry per row, in document order. */
  function Scan(rows: seq<Row>): (tasks: seq<Task>)
    ensures |tasks| == |rows|
  {
    seq(|rows|, i requires 0 <= i < |rows| => ScanRow(rows[i]))
  }

  /** The stored `data-index` plays no part in the scan: rows that differ
      only in it scan to the same list. */
  lemma ScanIgnoresDataIndex(rows: seq<Row>, other: seq<Row>)
    requires |other| == |rows|
    requires forall i :: 0 <= i < |rows| ==> other[i] == rows[i].(dataIndex := other[i].dataIndex)
    ensures Scan(other) == Scan(rows)
  {
  }

  /** Scanning distributes over concatenation of row lists. */
  lemma ScanAppend(a: seq<Row>, b: seq<Row>)
    ensures Scan(a + b) == Scan(a) + Scan(b)
  {
  }

  /** Every scanned text is trimmed. */
  lemma ScanTextsTrimmed(rows: seq<Row>)
    ensures forall i :: 0 <= i < |rows| ==> IsTrimmed(Scan(rows)[i].text)
  {
  }

  /** `tasks[idx]` is a task (and so truthy) exactly for an integer index
      within the list. */
  predicate InBounds(idx: Index, n: nat)
    ensures InBounds(idx, n) ==> idx.At? && SpliceStart(idx, n) == idx.n && idx.n < n
  {
    idx.At? && 0 <= idx.n < n
  }

  /** The start Array.prototype.splice uses on a list of length `n`:
      NaN counts as 0, a negative start counts from the end, and a start past
      the end is clamped to the length. */
  function SpliceStart(idx: Index, n: nat): (k: nat)
    ensures k <= n
  {
    match idx
    case NaN => 0
    case At(i) =>
      if i < 0 then (if n + i < 0 then 0 else n + i)
      else if i > n then n
      else i
  }

  /** `r` is `s` with the element at `k` removed and every later element
      moved one place to the left. */
  ghost predicate Removed<T>(s: seq<T>, r: seq<T>, k: nat) {
    && k < |s|
    && |r| == |s| - 1
    && (forall j :: 0 <= j < k ==> r[j] == s[j])
    && (forall j :: k <= j < |r| ==> r[j] == s[j + 1])
  }

  /** `s.splice(idx, 1)`, returning the array it leaves. */
  function Splice<T>(s: seq<T>, idx: Index): (r: seq<T>)
    ensures SpliceStart(idx, |s|) < |s| ==> Removed(s, r, SpliceStart(idx, |s|))
    ensures SpliceStart(idx, |s|) == |s| ==> r == s
  {
    var k := SpliceStart(idx, |s|);
    if k < |s| then s[..k] + s[k + 1..] else s
  }

  /** Every row still carries the index of its own position. */
  predicate Fresh(rows: seq<Row>) {
    forall i :: 0 <= i < |rows| ==> rows[i].dataIndex == At(i)
  }

  /** Every row's class agrees with its checkbox. */
  predicate Synced(rows: seq<Row>) {
    forall i :: 0 <= i < |rows| ==> rows[i].completedClass == rows[i].checked
  }

  /** `$('.dtn-task-item.completed').length`: rows carrying the class. */
  function CountCompletedClass(rows: seq<Row>): (n: nat)
    ensures n <= |rows|
  {
    if rows == [] then 0
    else (if rows[0].completedClass then 1 else 0) + CountCompletedClass(rows[1..])
  }

  /** The counts updateTasksSummary shows, and whether it shows them. */
  datatype Summary = Summary(completed: nat, total: nat, visible: bool)

  /** updateTasksSummary on a page where `drawn` says whether the server
      emitted the `.dtn-tasks-summary` block: the completed count reads only
      the class and the total counts every row. jQuery writes and shows only
      elements that exist, so the summary is visible exactly when the block
      was drawn and there is a row; without the block nothing is shown. */
  function ClientSummary(rows: seq<Row>, drawn: bool): (s: Summary)
    ensures s.total == |rows| && s.completed <= s.total
    ensures s.visible <==> drawn && rows != []
  {
    Summary(CountCompletedClass(rows), |rows|, drawn && |rows| > 0)
  }

  /** Rows whose classes follow the `completed` flags of a task list, one
      for one, carry as many classes as the list has completed tasks. */
  lemma {:induction false} ClassCountMatches(rows: seq<Row>, ts: seq<Task>)
    requires |rows| == |ts|
    requires forall i :: 0 <= i < |ts| ==> rows[i].completedClass == ts[i].completed
    ensures CountCompletedClass(rows) == CountDone(ts)
  {
    if ts != [] {
      ClassCountMatches(rows[1..], ts[1..]);
    }
  }

  /** When class and checkbox agree on every row, the summary's completed
      count is the number of tasks the scan marks completed. */
  lemma {:induction false} SummaryMatchesScan(rows: seq<Row>, drawn: bool)
    requires Synced(rows)
    ensures ClientSummary(rows, drawn).completed == CountDone(Scan(rows))
  {
    if rows != [] {
      SummaryMatchesScan(rows[1..], drawn);
      assert Scan(rows)[1..] == Scan(rows[1..]);
    }
  }
}
