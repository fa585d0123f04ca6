/** The task half of dtn_dashboard_widget_content: the rows it draws from
    the stored list, the empty-state block and the completion summary.
    `esc_html` followed by the browser's decoding of the page is the
    parameter `shown`. */
module Widget {
  import opened Wrappers
  import opened Php
  import opened Tasks
  import opened Strings
  import opened View
  import opened Gateway
  import Reconciler
  import Intended

  /** The template's test for drawing an element: an array with both
      `text` and `completed` set. */
  predicate Renders(e: Value)
    ensures Renders(e) ==> Kept(e)
  {
    Isset(e, "text") && Isset(e, "completed")
  }

  /** `checked($completed, true)`: the attribute is written when the two
      values agree as strings, and `(string) true` is `"1"`. */
  function CheckedAttr(v: Value): (r: bool)
    ensures r ==> ToBool(v)
    ensures v.Bool? ==> r == v.b
  {
    match v
    case Bool(b) => b
    case Int(i) => i == 1
    case Float(f) => f == 1.0
    case Str(s) => s == "1"
    case _ => false
  }

  /** `data-index="<?php echo esc_attr($index) ?>"` as the script's
      parseInt reads it back. */
  function KeyIndex(k: Key): Index {
    match k
    case IntKey(n) => At(n)
    case StrKey(_) => NaN
  }

  /** The row drawn for an element that passes the test. */
  function RenderRow(k: Key, e: Value, shown: Value -> string): (r: Row)
    requires Renders(e)
    ensures r.checked ==> r.completedClass
  {
    var completed := Coalesce(e, "completed", Null);
    Row(Span(shown(Coalesce(e, "text", Null))), ToBool(completed), CheckedAttr(completed), KeyIndex(k))
  }

  /** The foreach over the stored list: a row per passing element, in order. */
  function RenderEntries(entries: seq<(Key, Value)>, shown: Value -> string): (r: seq<Row>)
    ensures |r| <= |entries|
  {
    if entries == [] then []
    else
      var n := |entries| - 1;
      RenderEntries(entries[..n], shown) + (if Renders(entries[n].1) then [RenderRow(entries[n].0, entries[n].1, shown)] else [])
  }

  /** The rows drawn for a stored value; foreach over anything but an
      array draws nothing. */
  function RenderList(v: Value, shown: Value -> string): (r: seq<Row>)
    ensures !v.Array? ==> r == []
  {
    if v.Array? then RenderEntries(v.entries, shown) else []
  }

  /** `empty($tasks)`: whether the "No tasks yet" block is drawn. */
  function ShowsEmptyState(v: Value): (r: bool)
    ensures v.Array? ==> (r <==> v.entries == [])
    ensures r <==> !ToBool(v)
  {
    !ToBool(v)
  }

  /** The array_filter callback: `completed` set and truthy. */
  predicate CountsAsDone(e: Value)
    ensures CountsAsDone(e) ==> e.Array?
    ensures Renders(e) && CheckedAttr(Coalesce(e, "completed", Null)) ==> CountsAsDone(e)
  {
    Isset(e, "completed") && ToBool(Coalesce(e, "completed", Null))
  }

  function CompletedCount(entries: seq<(Key, Value)>): (n: nat)
    ensures n <= |entries|
  {
    if entries == [] then 0
    else (if CountsAsDone(entries[0].1) then 1 else 0) + CompletedCount(entries[1..])
  }

  /** The summary the server draws: hidden for an empty list, otherwise the
      truthy-`completed` count over every element, drawn or not, against the
      count of every element. `None` for a non-empty value that is not an
      array, where count() fails. */
  function ServerSummary(v: Value): (r: Option<Summary>)
    ensures v.Array? ==> r.Some? && r.value.total == |v.entries| && r.value.completed <= r.value.total
    ensures r.Some? ==> (r.value.visible <==> !ShowsEmptyState(v))
  {
    if !ToBool(v) then Some(Summary(0, 0, false))
    else if v.Array? then Some(Summary(CompletedCount(v.entries), |v.entries|, true))
    else None
  }

  /** Element `i` of `entries` encodes task `i` of `ts`. */
  predicate EncodesTasks(entries: seq<(Key, Value)>, ts: seq<Task>) {
    |entries| == |ts| && forall i :: 0 <= i < |ts| ==> entries[i].1 == EncodeTask(ts[i])
  }

  /** The lookups of an encoded task. */
  lemma EncodeTaskFields(t: Task)
    ensures Renders(EncodeTask(t))
    ensures Coalesce(EncodeTask(t), "text", Null) == Str(t.text)
    ensures Coalesce(EncodeTask(t), "completed", Null) == Bool(t.completed)
  {
    var entries := EncodeTask(t).entries;
    assert Field("text") != Field("completed") by { assert "text"[0] != "completed"[0]; }
    assert entries[1..] == [(Field("completed"), Bool(t.completed))];
    assert Lookup(entries, Field("completed")) == Some(Bool(t.completed));
  }

  /** Every element the save handler stores passes the template's test. */
  lemma StoredEntriesRender(ts: seq<Task>)
    ensures forall i :: 0 <= i < |Encode(ts).entries| ==> Renders(Encode(ts).entries[i].1)
  {
    forall i | 0 <= i < |Encode(ts).entries|
      ensures Renders(Encode(ts).entries[i].1)
    {
      EncodeTaskFields(ts[i]);
    }
  }

  /** On an encoded list, the server's completed count is the number of
      completed tasks. */
  lemma {:induction false} CompletedCountOfEncoded(entries: seq<(Key, Value)>, ts: seq<Task>)
    requires EncodesTasks(entries, ts)
    ensures CompletedCount(entries) == CountDone(ts)
  {
    if ts != [] {
      EncodeTaskFields(ts[0]);
      assert EncodesTasks(entries[1..], ts[1..]) by {
        assert forall i :: 0 <= i < |ts| - 1 ==> entries[1..][i] == entries[i + 1] && ts[1..][i] == ts[i + 1];
      }
      CompletedCountOfEncoded(entries[1..], ts[1..]);
    }
  }

  /** The row drawn for task `t` stored at position `n`. */
  lemma RowOfEncoded(t: Task, n: nat, shown: Value -> string)
    requires IsTrimmed(t.text) && shown(Str(t.text)) == t.text
    ensures Renders(EncodeTask(t))
    ensures var row := RenderRow(IntKey(n), EncodeTask(t), shown);
      row.dataIndex == At(n) && row.completedClass == row.checked && ScanRow(row) == t
  {
    EncodeTaskFields(t);
    TrimOfTrimmed(t.text);
  }

  /** Every text is trimmed and comes through escaping as it was. */
  predicate Displayable(ts: seq<Task>, shown: Value -> string) {
    forall i :: 0 <= i < |ts| ==> IsTrimmed(ts[i].text) && shown(Str(ts[i].text)) == ts[i].text
  }

  /** When every element passes the template's test, row `i` is the row
      drawn from element `i`. */
  lemma {:induction false} RenderAll(entries: seq<(Key, Value)>, shown: Value -> string)
    requires forall i :: 0 <= i < |entries| ==> Renders(entries[i].1)
    ensures |RenderEntries(entries, shown)| == |entries|
    ensures forall i :: 0 <= i < |entries| ==> RenderEntries(entries, shown)[i] == RenderRow(entries[i].0, entries[i].1, shown)
  {
    if entries != [] {
      var n := |entries| - 1;
      var init := entries[..n];
      assert forall i :: 0 <= i < n ==> init[i] == entries[i];
      RenderAll(init, shown);
      var rows := RenderEntries(entries, shown);
      assert rows == RenderEntries(init, shown) + [RenderRow(entries[n].0, entries[n].1, shown)];
    }
  }

  /** The same for the list as the handler stores it, provided the texts
      are trimmed and survive escaping. */
  lemma RenderEncoded(ts: seq<Task>, shown: Value -> string)
    requires Displayable(ts, shown)
    ensures var rows := RenderList(Encode(ts), shown);
      |rows| == |ts| && Fresh(rows) && Synced(rows) && Scan(rows) == ts
  {
    var rows := RenderList(Encode(ts), shown);
    StoredEntriesRender(ts);
    RenderAll(Encode(ts).entries, shown);
    forall i | 0 <= i < |ts|
      ensures rows[i].dataIndex == At(i) && rows[i].completedClass == rows[i].checked && Scan(rows)[i] == ts[i]
    {
      RowOfEncoded(ts[i], i, shown);
    }
  }

  /** On a stored list, the empty state shows exactly when the list is
      empty, and the summary counts the completed tasks against all tasks. */
  lemma {:induction false} SummaryOfEncoded(ts: seq<Task>)
    ensures ShowsEmptyState(Encode(ts)) <==> ts == []
    ensures ServerSummary(Encode(ts)) == Some(Summary(CountDone(ts), |ts|, ts != []))
  {
    CompletedCountOfEncoded(Encode(ts).entries, ts);
  }

  /** `!empty($tasks)`: whether the `.dtn-tasks-summary` block, with its
      two count spans, is part of the page. */
  predicate SummaryDrawn(v: Value)
    ensures v.Array? ==> (SummaryDrawn(v) <==> v.entries != [])
    ensures SummaryDrawn(v) ==> ToBool(v)
  {
    !ShowsEmptyState(v)
  }

  /** The page as drawn and the script's own summary agree for every
      stored list, whatever its texts: after load, updateTasksSummary shows
      what the server drew, and so does the corrected summary. */
  lemma ServerAndClientSummariesAgree(ts: seq<Task>, shown: Value -> string)
    ensures ServerSummary(Encode(ts)) == Some(ClientSummary(RenderList(Encode(ts), shown), SummaryDrawn(Encode(ts))))
    ensures ServerSummary(Encode(ts)) == Some(Intended.UpdateTasksSummary(RenderList(Encode(ts), shown)))
  {
    var rows := RenderList(Encode(ts), shown);
    StoredEntriesRender(ts);
    RenderAll(Encode(ts).entries, shown);
    forall i | 0 <= i < |ts|
      ensures rows[i].completedClass == ts[i].completed
    {
      EncodeTaskFields(ts[i]);
    }
    ClassCountMatches(rows, ts);
    SummaryOfEncoded(ts);
    assert Intended.UpdateTasksSummary(rows) == ClientSummary(rows, true);
  }

  /** On a page drawn with an empty list the summary block is missing, so
      after the first task is added the script's summary stays hidden,
      until a reload, although there is now a row; the corrected summary
      shows it. */
  lemma {:induction false} SummaryMissingAfterEmptyLoad(v: Value, shown: Value -> string, input: string)
    requires ShowsEmptyState(v) && !AllSpace(input)
    ensures var rows := Reconciler.AddNewTask(RenderList(v, shown), input).0.rows;
      && |rows| == 1
      && !ClientSummary(rows, SummaryDrawn(v)).visible
      && Intended.UpdateTasksSummary(rows).visible
  {
    assert RenderList(v, shown) == [] by {
      if v.Array? {
        assert v.entries == [];
      }
    }
  }

  /** Every text passes through the sanitizer and through escaping as it was. */
  predicate Survives(ts: seq<Task>, sanitize: Value -> string, shown: Value -> string) {
    forall i :: 0 <= i < |ts| ==> sanitize(Str(ts[i].text)) == ts[i].text && shown(Str(ts[i].text)) == ts[i].text
  }

  /** Saving the list the script scanned and reloading the dashboard draws
      rows that scan to the same list, provided the sanitizer and escaping
      leave its texts alone. */
  lemma {:induction false} SaveThenReload(ctx: Context, store: Store, rows: seq<Row>, userId: int,
                       sanitize: Value -> string, shown: Value -> string)
    requires ctx.nonceValid && ctx.isAdministrator && userId != 0 && userId == ctx.currentUser
    requires Survives(Scan(rows), sanitize, shown)
    ensures var after := SaveTasks(ctx, TasksRequest(Some(userId), Some(Encode(Scan(rows)))), store, sanitize).1;
      var drawn := RenderList(LoadTasks(after, userId), shown);
      && LoadTasks(after, userId) == Encode(Scan(rows))
      && Fresh(drawn) && Synced(drawn) && Scan(drawn) == Scan(rows)
  {
    var ts := Scan(rows);
    FilterEncodeRoundTrip(ts, sanitize);
    ScanTextsTrimmed(rows);
    RenderEncoded(ts, shown);
  }
}
