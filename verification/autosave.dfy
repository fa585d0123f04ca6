/** Saving the notes textarea: the Save Notes button, and autoSaveNotes,
    whose one-second debounce is modelled as discrete blur and timer events
    (the delay itself is not modelled). */
module NotesAutoSave {
  import opened Wrappers

  /** `text` is the textarea's value; `saved` is its `original-value` data,
      read as `''` while it was never set; `live` holds the timers that were
      set and neither cleared nor fired; `current` is the timer id held by
      `autoSaveTimeout`; `next` is the id the next setTimeout returns. */
  datatype State = State(text: string, saved: string, live: set<nat>, current: Option<nat>, next: nat)

  datatype Event =
    | Type(value: string)     // the user edits the notes
    | Blur                    // the textarea loses focus
    | Fire(id: nat)           // timer `id` expires
    | Click                   // the Save Notes button is pressed
    | Succeeded(sent: string) // a notes save carrying `sent` reports success
    | Failed                  // a notes save fails or does not reach the server

  /** The page as rendered: the stored notes in the textarea, no
      `original-value` recorded, no timer set. */
  function Init(text: string): (s: State)
    ensures Valid(s) && s.live == {} && s.text == text && s.saved == ""
  {
    State(text, "", {}, None, 0)
  }

  /** Only the timer held by `autoSaveTimeout` can be live, and timer ids
      are never reused. */
  predicate Valid(s: State) {
    && (forall id :: id in s.live ==> s.current == Some(id))
    && (s.current.Some? ==> s.current.value < s.next)
  }

  /** One event as the script handles it: the new state and the notes
      value sent to the server, if any. A blur clears the pending timer and
      sets a new one; a live timer that fires sends the textarea's value
      only if it differs from the recorded value; the button always sends;
      a success records the textarea's value at the moment it arrives. */
  function Step(s: State, e: Event): (r: (State, Option<string>))
    ensures Valid(s) ==> Valid(r.0)
    ensures !e.Succeeded? ==> r.0.saved == s.saved
    ensures e.Fire? && e.id in s.live ==>
      && (r.1.Some? <==> s.text != s.saved)
      && (r.1.Some? ==> r.1.value == s.text)
      && r.0.live == s.live - {e.id}
    ensures e.Fire? && e.id !in s.live ==> r == (s, None)
    ensures Valid(s) && e.Blur? ==> r.0.live == {s.next} && r.0.current == Some(s.next)
    ensures e.Click? ==> r.1 == Some(s.text)
    ensures e.Type? || e.Blur? || e.Succeeded? || e.Failed? ==> r.1.None?
  {
    match e
    case Type(value) => (s.(text := value), None)
    case Blur =>
      var cleared := if s.current.Some? then s.live - {s.current.value} else s.live;
      (s.(live := cleared + {s.next}, current := Some(s.next), next := s.next + 1), None)
    case Fire(id) =>
      if id !in s.live then (s, None)
      else
        var after := s.(live := s.live - {id});
        var currentNotes := s.text;
        var originalNotes := s.saved;
        if currentNotes != originalNotes then (after, Some(currentNotes)) else (after, None)
    case Click => (s, Some(s.text))
    case Succeeded(_) => (s.(saved := s.text), None)
    case Failed => (s, None)
  }

  /** At most one auto-save timer is ever pending. */
  lemma AtMostOnePending(s: State)
    requires Valid(s)
    ensures |s.live| <= 1
  {
    if s.current.Some? {
      assert s.live <= {s.current.value};
      SubsetCardinality(s.live, {s.current.value});
    } else {
      assert s.live == {};
    }
  }

  lemma SubsetCardinality<T>(a: set<T>, b: set<T>)
    requires a <= b
    ensures |a| <= |b|
  {
    assert b == a + (b - a);
  }

  /** Two blurs in a row leave one pending timer, the second: the first
      can no longer fire, so the pair yields at most one save. */
  lemma TwoBlursCoalesce(s: State)
    requires Valid(s)
    ensures var s2 := Step(Step(s, Blur).0, Blur).0;
      && s2.live == {s.next + 1}
      && Step(s2, Fire(s.next)) == (s2, None)
      && (Step(s2, Fire(s.next + 1)).1.Some? <==> s.text != s.saved)
  {
  }

  /** Runs `events` in order from `s`: the final state and every value sent. */
  function Run(s: State, events: seq<Event>): (State, seq<string>)
    decreases |events|
  {
    if events == [] then (s, [])
    else
      var (t, out) := Step(s, events[0]);
      var (u, rest) := Run(t, events[1..]);
      (u, (if out.Some? then [out.value] else []) + rest)
  }

  /** Every run from a well-formed state ends in a well-formed state. */
  lemma {:induction false} RunKeepsValid(s: State, events: seq<Event>)
    requires Valid(s)
    ensures Valid(Run(s, events).0)
    decreases |events|
  {
    if events != [] {
      RunKeepsValid(Step(s, events[0]).0, events[1..]);
    }
  }

  /** Over any session from the page as rendered, at most one auto-save
      timer is pending at any time. */
  lemma NeverTwoPending(notes: string, events: seq<Event>)
    ensures Valid(Init(notes))
    ensures |Run(Init(notes), events).0.live| <= 1
  {
    RunKeepsValid(Init(notes), events);
    AtMostOnePending(Run(Init(notes), events).0);
  }

  function CountBlurs(events: seq<Event>): nat {
    if events == [] then 0 else (if events[0].Blur? then 1 else 0) + CountBlurs(events[1..])
  }

  function CountClicks(events: seq<Event>): nat {
    if events == [] then 0 else (if events[0].Click? then 1 else 0) + CountClicks(events[1..])
  }

  /** Coalescing over a whole session: every save is a button press or
      consumes a timer set by a blur, so saves never outnumber presses plus
      blurs (plus a timer already pending at the start). */
  lemma {:induction false} SavesBoundedByBlursAndClicks(s: State, events: seq<Event>)
    ensures |Run(s, events).1| + |Run(s, events).0.live| <= |s.live| + CountBlurs(events) + CountClicks(events)
    decreases |events|
  {
    if events != [] {
      var (t, out) := Step(s, events[0]);
      SavesBoundedByBlursAndClicks(t, events[1..]);
      match events[0]
      case Blur =>
        var cleared := if s.current.Some? then s.live - {s.current.value} else s.live;
        assert |cleared| <= |s.live|;
        assert t.live == cleared + {s.next};
      case _ =>
    }
  }

  /** The debounce as the script's comment ("only save if content changed")
      intends it with the recorded value taken from the acknowledged
      request instead of from the textarea when the answer arrives. */
  function IntendedStep(s: State, e: Event): (r: (State, Option<string>))
    ensures e.Succeeded? ==> r == (s.(saved := e.sent), None)
    ensures !e.Succeeded? ==> r == Step(s, e)
  {
    match e
    case Succeeded(sent) => (s.(saved := sent), None)
    case _ => Step(s, e)
  }

  /** One corrected step keeps the recorded value among the values issued
      so far (or the initial `''`), provided a success acknowledges an
      issued value. */
  lemma IntendedStepRecordsSent(s: State, e: Event, issued: set<string>)
    requires s.saved == "" || s.saved in issued
    requires e.Succeeded? ==> e.sent in issued
    ensures var (t, out) := IntendedStep(s, e);
      t.saved == "" || t.saved in issued + (if out.Some? then {out.value} else {})
  {
  }

  /** A session under the corrected debounce: the final state and the
      notes values sent, in order. */
  function IntendedRun(s: State, events: seq<Event>): (State, seq<string>)
    decreases |events|
  {
    if events == [] then (s, [])
    else
      var (t, out) := IntendedStep(s, events[0]);
      var (u, rest) := IntendedRun(t, events[1..]);
      (u, (if out.Some? then [out.value] else []) + rest)
  }

  /** Every success in the session acknowledges a value in `issued` or one
      sent earlier in the session: an answer only arrives for a request. */
  predicate AcknowledgesSent(s: State, events: seq<Event>, issued: set<string>)
    decreases |events|
  {
    events == [] ||
      var (t, out) := IntendedStep(s, events[0]);
      && (events[0].Succeeded? ==> events[0].sent in issued)
      && AcknowledgesSent(t, events[1..], issued + (if out.Some? then {out.value} else {}))
  }

  lemma {:induction false} IntendedRunRecordsIssued(s: State, events: seq<Event>, issued: set<string>)
    requires s.saved == "" || s.saved in issued
    requires AcknowledgesSent(s, events, issued)
    ensures var (u, sent) := IntendedRun(s, events);
      u.saved == "" || u.saved in issued || u.saved in sent
    decreases |events|
  {
    if events != [] {
      var (t, out) := IntendedStep(s, events[0]);
      var more := issued + (if out.Some? then {out.value} else {});
      IntendedStepRecordsSent(s, events[0], issued);
      IntendedRunRecordsIssued(t, events[1..], more);
      var (u, rest) := IntendedRun(t, events[1..]);
      assert IntendedRun(s, events) == (u, (if out.Some? then [out.value] else []) + rest);
    }
  }

  /** With the correction, over any session from the page as rendered in
      which every success answers a request of that session, the recorded
      value is always `''` or a value the session sent. */
  lemma IntendedRecordsOnlySentValues(notes: string, events: seq<Event>)
    requires AcknowledgesSent(Init(notes), events, {})
    ensures var (u, sent) := IntendedRun(Init(notes), events);
      u.saved == "" || u.saved in sent
  {
    IntendedRunRecordsIssued(Init(notes), events, {});
  }

  /** As written, a success can record a value no request ever carried:
      the text typed while the save was in flight. */
  lemma AsWrittenRecordsUnsentText()
    ensures var s := State("ab", "", {}, None, 0);
      var issued := {"a"};
      && Step(s, Succeeded("a")).0.saved == "ab"
      && "ab" !in issued
  {
  }

  /** The run-level property fails as written: in a session whose only
      success answers its only request, the value recorded is one the
      session never sent. */
  lemma AsWrittenSessionRecordsUnsent()
    ensures var events := [Click, Type("ab"), Succeeded("a")];
      && AcknowledgesSent(Init("a"), events, {})
      && Run(Init("a"), events).1 == ["a"]
      && Run(Init("a"), events).0.saved == "ab"
  {
    var events := [Click, Type("ab"), Succeeded("a")];
    var s1 := Step(Init("a"), Click).0;
    var s2 := Step(s1, Type("ab")).0;
    assert events[1..] == [Type("ab"), Succeeded("a")];
    assert events[1..][1..] == [Succeeded("a")];
    assert AcknowledgesSent(s2, [Succeeded("a")], {"a"});
    assert Run(s2, [Succeeded("a")]).1 == [];
  }

  /** The consequence, as a session: the notes "a" are saved with the
      button, "b" is typed before the answer arrives, and the later blur
      sends nothing although the server holds "a" while the textarea shows
      "ab". The corrected debounce sends "ab". */
  lemma EditDuringSaveIsLost()
    ensures Run(Init("a"), [Click, Type("ab"), Succeeded("a"), Blur, Fire(0)]).1 == ["a"]
    ensures IntendedStep(IntendedStep(IntendedStep(IntendedStep(IntendedStep(Init("a"),
      Click).0, Type("ab")).0, Succeeded("a")).0, Blur).0, Fire(0)).1 == Some("ab")
  {
    var s0 := Init("a");
    var s1 := Step(s0, Click).0;
    var s2 := Step(s1, Type("ab")).0;
    var s3 := Step(s2, Succeeded("a")).0;
    var s4 := Step(s3, Blur).0;
    assert s4.live == {0};
    assert Run(s4, [Fire(0)]).1 == [];
    assert [Fire(0)] == [Blur, Fire(0)][1..];
    assert Run(s3, [Blur, Fire(0)]).1 == [];
  }

  /** The recorded value starts empty, so the first blur after the page is
      shown re-sends notes that were loaded from the server unchanged. */
  lemma FirstBlurResendsLoadedNotes(notes: string)
    requires notes != ""
    ensures var s := Step(Init(notes), Blur).0;
      Step(s, Fire(0)).1 == Some(notes)
  {
  }
}
