/** The two AJAX save handlers, dtn_save_notes_ajax and dtn_save_tasks_ajax:
    their guards, the task filter and the write into the per-user option
    store. WordPress's nonce check, capability check, current user and
    sanitizers are inputs. */
module Gateway {
  import opened Wrappers
  import opened Php
  import opened Tasks

  /** The options table: option name to stored value. */
  type Store = map<string, Value>

  /** The option holding a user's task list; no other user's tasks
      option has this name. */
  function TasksKey(user: int): (r: string)
    ensures |r| > 10 && r[..10] == "dtn_tasks_" && r[10..] == IntToString(user)
    ensures forall u :: u != user ==> "dtn_tasks_" + IntToString(u) != r
  {
    var r := "dtn_tasks_" + IntToString(user);
    assert forall u :: u != user ==> "dtn_tasks_" + IntToString(u) != r by {
      forall u | u != user
        ensures "dtn_tasks_" + IntToString(u) != r
      {
        if "dtn_tasks_" + IntToString(u) == r {
          assert ("dtn_tasks_" + IntToString(u))[10..] == IntToString(u);
          assert r[10..] == IntToString(user);
          IntToStringInjective(u, user);
        }
      }
    }
    r
  }

  /** The option holding a user's notes; no user's tasks option has this
      name. */
  function NotesKey(user: int): (r: string)
    ensures |r| > 10 && r[..10] == "dtn_notes_" && r[10..] == IntToString(user)
    ensures forall u :: TasksKey(u) != r
  {
    var r := "dtn_notes_" + IntToString(user);
    assert forall u :: TasksKey(u)[4] == 't' by {
      forall u ensures TasksKey(u)[4] == 't' {
        assert TasksKey(u)[..10][4] == 't';
      }
    }
    assert r[4] == 'n';
    r
  }

  /** Each user's two options are distinct from each other and from every
      other user's. */
  lemma KeysDistinct(a: int, b: int)
    ensures TasksKey(a) != NotesKey(b)
    ensures TasksKey(a) == TasksKey(b) <==> a == b
    ensures NotesKey(a) == NotesKey(b) <==> a == b
  {
    assert TasksKey(a)[4] == 't' && NotesKey(b)[4] == 'n';
    if TasksKey(a) == TasksKey(b) {
      assert TasksKey(a)[10..] == IntToString(a) && TasksKey(b)[10..] == IntToString(b);
      IntToStringInjective(a, b);
    }
    if NotesKey(a) == NotesKey(b) {
      assert NotesKey(a)[10..] == IntToString(a) && NotesKey(b)[10..] == IntToString(b);
      IntToStringInjective(a, b);
    }
  }

  /** What WordPress reports about the request: whether its nonce verifies,
      whether the caller is an administrator, and the caller's user id. */
  datatype Context = Context(nonceValid: bool, isAdministrator: bool, currentUser: int)

  /** The POST fields of a tasks save: `user_id` after intval (absent when
      not posted) and `tasks` after stripslashes and json_decode (absent
      when not posted, Null when it is not valid JSON). */
  datatype TasksRequest = TasksRequest(userId: Option<int>, tasks: Option<Value>)

  /** The POST fields of a notes save. */
  datatype NotesRequest = NotesRequest(userId: Option<int>, notes: Option<string>)

  /** wp_die with a message, or a JSON success or error carrying one. */
  datatype Response = Died(message: string) | Success(message: string) | Error(message: string)

  const SecurityCheckFailed := "Security check failed"
  const InsufficientPermissions := "Insufficient permissions"
  const InvalidUser := "Invalid user or data"
  const NotesSaved := "Notes saved successfully"
  const TasksSaved := "Tasks saved successfully"

  /** `$user_id && $user_id === get_current_user_id()`, with a missing
      `user_id` read as 0. */
  predicate OwnUser(ctx: Context, userId: Option<int>)
    ensures OwnUser(ctx, userId) ==> userId == Some(ctx.currentUser) && ctx.currentUser != 0
  {
    userId.GetOr(0) != 0 && userId.GetOr(0) == ctx.currentUser
  }

  /** The two guards every handler runs before it reads its payload:
      `None` when both pass, else the response that ends the request. */
  function Guard(ctx: Context): (r: Option<Response>)
    ensures r.None? <==> ctx.nonceValid && ctx.isAdministrator
    ensures !ctx.nonceValid ==> r == Some(Died(SecurityCheckFailed))
    ensures ctx.nonceValid && !ctx.isAdministrator ==> r == Some(Died(InsufficientPermissions))
  {
    if !ctx.nonceValid then Some(Died(SecurityCheckFailed))
    else if !ctx.isAdministrator then Some(Died(InsufficientPermissions))
    else None
  }

  /** dtn_save_notes_ajax: after the guards, the sanitized notes (`''`
      when not posted) overwrite the caller's notes option, provided the
      posted user id is the caller's. */
  function SaveNotes(ctx: Context, req: NotesRequest, store: Store, sanitize: string -> string): (r: (Response, Store))
    ensures Guard(ctx).Some? ==> r == (Guard(ctx).value, store)
    ensures Guard(ctx).None? && !OwnUser(ctx, req.userId) ==> r == (Error(InvalidUser), store)
    ensures Guard(ctx).None? && OwnUser(ctx, req.userId) ==>
      r == (Success(NotesSaved), store[NotesKey(ctx.currentUser) := Str(sanitize(req.notes.GetOr("")))])
  {
    if Guard(ctx).Some? then (Guard(ctx).value, store)
    else
      var userId := req.userId.GetOr(0);
      var notes := sanitize(req.notes.GetOr(""));
      if userId != 0 && userId == ctx.currentUser then
        (Success(NotesSaved), store[NotesKey(userId) := Str(notes)])
      else (Error(InvalidUser), store)
  }

  /** The filter's test: an array with `text` set. */
  predicate Kept(e: Value)
    ensures Kept(e) ==> e.Array? && Coalesce(e, "text", Null) != Null
  {
    Isset(e, "text")
  }

  /** The entry the filter builds from a kept element: the sanitized text,
      and `completed` cast to bool with a missing value read as false. */
  function Clean(e: Value, sanitize: Value -> string): (t: Task)
    requires Kept(e)
    ensures t.completed <==> ToBool(Coalesce(e, "completed", Bool(false)))
  {
    Task(sanitize(Coalesce(e, "text", Null)), ToBool(Coalesce(e, "completed", Bool(false))))
  }

  /** The foreach over the decoded tasks: each kept element, in order,
      appended as its cleaned entry; the rest skipped. */
  function FilterEntries(entries: seq<(Key, Value)>, sanitize: Value -> string): (r: seq<Task>)
    ensures |r| <= |entries|
  {
    if entries == [] then []
    else
      var last := entries[|entries| - 1].1;
      FilterEntries(entries[..|entries| - 1], sanitize) + (if Kept(last) then [Clean(last, sanitize)] else [])
  }

  /** The sanitized list: empty unless the payload decoded to an array. */
  function FilterTasks(tasks: Value, sanitize: Value -> string): (r: seq<Task>)
    ensures !tasks.Array? ==> r == []
  {
    if tasks.Array? then FilterEntries(tasks.entries, sanitize) else []
  }

  /** The positions of the kept elements, in increasing order. */
  function KeptPositions(entries: seq<(Key, Value)>): (r: seq<nat>)
    ensures forall j :: 0 <= j < |r| ==> r[j] < |entries| && Kept(entries[r[j]].1)
    ensures forall j, k :: 0 <= j < k < |r| ==> r[j] < r[k]
    ensures forall i :: 0 <= i < |entries| && Kept(entries[i].1) ==> i in r
  {
    if entries == [] then []
    else
      var n := |entries| - 1;
      var front := KeptPositions(entries[..n]);
      assert forall i :: 0 <= i < n ==> entries[..n][i] == entries[i];
      front + (if Kept(entries[n].1) then [n] else [])
  }

  /** The filter keeps exactly the elements that are arrays with `text`
      set, in their original order, and cleans each. */
  lemma {:induction false} FilterKeepsExactlyTextEntries(entries: seq<(Key, Value)>, sanitize: Value -> string)
    ensures |FilterEntries(entries, sanitize)| == |KeptPositions(entries)|
    ensures forall j :: 0 <= j < |KeptPositions(entries)| ==>
      FilterEntries(entries, sanitize)[j] == Clean(entries[KeptPositions(entries)[j]].1, sanitize)
  {
    if entries != [] {
      var n := |entries| - 1;
      FilterKeepsExactlyTextEntries(entries[..n], sanitize);
      assert forall i :: 0 <= i < n ==> entries[..n][i] == entries[i];
    }
  }

  /** How the client's list arrives after JSON.stringify and
      json_decode(…, true), and how the filtered list is stored: a list
      whose element `i` is `{text, completed}`. */
  function EncodeTask(t: Task): Value {
    Array([(Field("text"), Str(t.text)), (Field("completed"), Bool(t.completed))])
  }

  function Encode(ts: seq<Task>): (v: Value)
    ensures v.Array? && |v.entries| == |ts|
    ensures forall i :: 0 <= i < |ts| ==> v.entries[i].0 == IntKey(i)
  {
    Array(seq(|ts|, i requires 0 <= i < |ts| => (IntKey(i), EncodeTask(ts[i]))))
  }

  lemma EncodePrefix(ts: seq<Task>)
    requires ts != []
    ensures Encode(ts).entries[..|ts| - 1] == Encode(ts[..|ts| - 1]).entries
  {
  }

  /** One encoded entry is kept and cleans back to the task it encodes. */
  lemma CleanEncodeTask(t: Task, sanitize: Value -> string)
    requires sanitize(Str(t.text)) == t.text
    ensures Kept(EncodeTask(t)) && Clean(EncodeTask(t), sanitize) == t
  {
    var entries := EncodeTask(t).entries;
    assert Field("text") != Field("completed") by { assert "text"[0] != "completed"[0]; }
    assert Lookup(entries, Field("text")) == Some(Str(t.text));
    assert entries[1..] == [(Field("completed"), Bool(t.completed))];
    assert Lookup(entries, Field("completed")) == Some(Bool(t.completed));
  }

  /** The filter passes a well-formed client list through unchanged,
      provided the sanitizer leaves its texts alone. */
  lemma {:induction false} FilterEncodeRoundTrip(ts: seq<Task>, sanitize: Value -> string)
    requires forall i :: 0 <= i < |ts| ==> sanitize(Str(ts[i].text)) == ts[i].text
    ensures FilterTasks(Encode(ts), sanitize) == ts
  {
    if ts != [] {
      var n := |ts| - 1;
      var entries := Encode(ts).entries;
      EncodePrefix(ts);
      FilterEncodeRoundTrip(ts[..n], sanitize);
      CleanEncodeTask(ts[n], sanitize);
      assert entries[n].1 == EncodeTask(ts[n]);
      assert FilterEntries(entries, sanitize) == FilterEntries(entries[..n], sanitize) + [ts[n]];
      assert ts == ts[..n] + [ts[n]];
    }
  }

  /** An example: an element without `text` is dropped and `"yes"` is a
      true `completed`. */
  lemma FilterExample(sanitize: Value -> string)
    requires sanitize(Str("a")) == "a" && sanitize(Str("b")) == "b"
    ensures FilterTasks(Array([
      (IntKey(0), Array([(Field("text"), Str("a"))])),
      (IntKey(1), Array([(Field("foo"), Str("bad"))])),
      (IntKey(2), Array([(Field("text"), Str("b")), (Field("completed"), Str("yes"))]))
    ]), sanitize) == [Task("a", false), Task("b", true)]
  {
    var a := Array([(Field("text"), Str("a"))]);
    var bad := Array([(Field("foo"), Str("bad"))]);
    var b := Array([(Field("text"), Str("b")), (Field("completed"), Str("yes"))]);
    var e := [(IntKey(0), a), (IntKey(1), bad), (IntKey(2), b)];
    assert Field("text") != Field("completed") by { assert "text"[0] != "completed"[0]; }
    assert Field("foo") != Field("text") by { assert "foo"[0] != "text"[0]; }
    assert Kept(a) && Clean(a, sanitize) == Task("a", false);
    assert !Kept(bad);
    assert Kept(b) && Clean(b, sanitize) == Task("b", true);
    assert e[..2][..1] == e[..1] && e[..1][..0] == [];
    assert FilterEntries(e[..1], sanitize) == [Task("a", false)];
    assert FilterEntries(e[..2], sanitize) == [Task("a", false)];
  }

  /** dtn_save_tasks_ajax: after the guards, the filtered list (empty when
      `tasks` is not posted or does not decode to an array) overwrites the
      caller's tasks option, provided the posted user id is the caller's. */
  function SaveTasks(ctx: Context, req: TasksRequest, store: Store, sanitize: Value -> string): (r: (Response, Store))
    ensures Guard(ctx).Some? ==> r == (Guard(ctx).value, store)
    ensures Guard(ctx).None? && !OwnUser(ctx, req.userId) ==> r == (Error(InvalidUser), store)
    ensures Guard(ctx).None? && OwnUser(ctx, req.userId) ==>
      r == (Success(TasksSaved), store[TasksKey(ctx.currentUser) := Encode(FilterTasks(req.tasks.GetOr(Array([])), sanitize))])
  {
    if Guard(ctx).Some? then (Guard(ctx).value, store)
    else
      var userId := req.userId.GetOr(0);
      var tasks := req.tasks.GetOr(Array([]));
      var sanitized := FilterTasks(tasks, sanitize);
      if userId != 0 && userId == ctx.currentUser then
        (Success(TasksSaved), store[TasksKey(userId) := Encode(sanitized)])
      else (Error(InvalidUser), store)
  }

  /** A failed guard ends either handler the same way whatever was posted:
      the payload is never read and nothing is written. */
  lemma GuardsPrecedePayload(ctx: Context, store: Store, t1: TasksRequest, t2: TasksRequest,
                             n1: NotesRequest, n2: NotesRequest, st: Value -> string, sn: string -> string)
    requires !ctx.nonceValid || !ctx.isAdministrator
    ensures SaveTasks(ctx, t1, store, st) == SaveTasks(ctx, t2, store, st)
    ensures SaveNotes(ctx, n1, store, sn) == SaveNotes(ctx, n2, store, sn)
    ensures SaveTasks(ctx, t1, store, st).0.Died? && SaveTasks(ctx, t1, store, st).1 == store
    ensures SaveNotes(ctx, n1, store, sn).0.Died? && SaveNotes(ctx, n1, store, sn).1 == store
  {
  }

  /** A handler writes exactly when both guards pass and the posted user
      id is the caller's own, non-zero id; otherwise the store is as it was. */
  lemma WritesOnlyForOwnUser(ctx: Context, store: Store, t: TasksRequest, n: NotesRequest,
                             st: Value -> string, sn: string -> string)
    ensures SaveTasks(ctx, t, store, st).0.Success? <==> ctx.nonceValid && ctx.isAdministrator && OwnUser(ctx, t.userId)
    ensures SaveNotes(ctx, n, store, sn).0.Success? <==> ctx.nonceValid && ctx.isAdministrator && OwnUser(ctx, n.userId)
    ensures !SaveTasks(ctx, t, store, st).0.Success? ==> SaveTasks(ctx, t, store, st).1 == store
    ensures !SaveNotes(ctx, n, store, sn).0.Success? ==> SaveNotes(ctx, n, store, sn).1 == store
  {
  }

  /** A save touches only the caller's own option of its kind: every other
      option, including the caller's other one and every other user's, keeps
      its value. */
  lemma SaveTouchesOnlyOwnKey(ctx: Context, store: Store, t: TasksRequest, n: NotesRequest,
                              st: Value -> string, sn: string -> string, other: int)
    ensures var after := SaveTasks(ctx, t, store, st).1;
      && (forall k :: k != TasksKey(ctx.currentUser) ==> (k in after <==> k in store))
      && (forall k :: k != TasksKey(ctx.currentUser) && k in store ==> after[k] == store[k])
      && (NotesKey(other) in after <==> NotesKey(other) in store)
      && (other != ctx.currentUser && TasksKey(other) in store ==> TasksKey(other) in after && after[TasksKey(other)] == store[TasksKey(other)])
    ensures var after := SaveNotes(ctx, n, store, sn).1;
      && (forall k :: k != NotesKey(ctx.currentUser) ==> (k in after <==> k in store))
      && (forall k :: k != NotesKey(ctx.currentUser) && k in store ==> after[k] == store[k])
      && (TasksKey(other) in after <==> TasksKey(other) in store)
      && (other != ctx.currentUser && NotesKey(other) in store ==> NotesKey(other) in after && after[NotesKey(other)] == store[NotesKey(other)])
  {
    KeysDistinct(other, ctx.currentUser);
    KeysDistinct(ctx.currentUser, other);
  }

  /** A save without a usable payload still overwrites the caller's list,
      with the empty list. */
  lemma UnusablePayloadClearsList(ctx: Context, store: Store, t: TasksRequest, st: Value -> string)
    requires ctx.nonceValid && ctx.isAdministrator && OwnUser(ctx, t.userId)
    requires t.tasks.None? || !t.tasks.value.Array?
    ensures SaveTasks(ctx, t, store, st).1 == store[TasksKey(ctx.currentUser) := Array([])]
  {
    assert Encode([]) == Array([]);
  }

  /** get_option for a user's task list, defaulting to an empty array. */
  function LoadTasks(store: Store, user: int): Value {
    if TasksKey(user) in store then store[TasksKey(user)] else Array([])
  }

  /** A user who never saved loads the empty list; after a write of a
      user's tasks option, that user loads exactly what was written and
      every other user loads what they loaded before. */
  lemma LoadSeesOwnSaveOnly(store: Store, user: int, v: Value, other: int)
    ensures TasksKey(user) !in store ==> LoadTasks(store, user) == Array([])
    ensures LoadTasks(store[TasksKey(user) := v], user) == v
    ensures other != user ==> LoadTasks(store[TasksKey(user) := v], other) == LoadTasks(store, other)
  {
    KeysDistinct(user, other);
  }
}
