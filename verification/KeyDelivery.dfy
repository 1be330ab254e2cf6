/** From polls to handlers: what a registered keyboard handler knows at the end of a run. */
module KeyDelivery {
  import opened KeyStrokes
  import opened KeyPolls
  import opened KeyRuns
  import opened EventRegistry
  import opened EventHearing

  // Bits of the event type mask; which ones they are does not matter.
  const KEY_UP: nat := 0
  const KEY_DOWN: nat := 1
  const MODIFIER_UP: nat := 2
  const MODIFIER_DOWN: nat := 3

  function TypeOf(event: Event): nat {
    match event
    case KeyUp(_, _, _) => KEY_UP
    case KeyDown(_, _, _) => KEY_DOWN
    case ModifierUp(_) => MODIFIER_UP
    case ModifierDown(_) => MODIFIER_DOWN
  }

  /** The queue entries for the events of a run; the data of an entry leads to its event. */
  function QueueOf(trace: seq<Event>): (queue: seq<Info>)
    ensures |queue| == |trace|
  {
    seq(|trace|, i requires 0 <= i < |trace| => Info({TypeOf(trace[i])}, i))
  }

  ghost predicate Leads(trace: seq<Event>, infos: seq<Info>) {
    forall i :: 0 <= i < |infos| ==> infos[i].data < |trace|
  }

  function EventsOf(trace: seq<Event>, infos: seq<Info>): seq<Event>
    requires Leads(trace, infos)
  {
    seq(|infos|, i requires 0 <= i < |infos| => trace[infos[i].data])
  }

  // What the handler makes of it.

  lemma {:induction false} MatchingLeads(trace: seq<Event>, eventType: EventType)
    ensures Leads(trace, Matching(QueueOf(trace), eventType))
  {
    if trace != [] {
      var n := |trace| - 1;
      MatchingLeads(trace[..n], eventType);
      assert QueueOf(trace)[..n] == QueueOf(trace[..n]);
    }
  }

  lemma Meets(eventType: EventType, bit: nat)
    ensures bit in eventType <==> eventType * {bit} != {}
  {
    if bit in eventType {
      assert bit in eventType * {bit};
    }
  }

  /** The events a handler hears of a trace, one event at a time. */
  lemma HeardNext(trace: seq<Event>, eventType: EventType)
    requires trace != []
    ensures
      var n := |trace| - 1;
      && Leads(trace, Matching(QueueOf(trace), eventType))
      && Leads(trace[..n], Matching(QueueOf(trace[..n]), eventType))
      && EventsOf(trace, Matching(QueueOf(trace), eventType))
         == EventsOf(trace[..n], Matching(QueueOf(trace[..n]), eventType))
            + if TypeOf(trace[n]) in eventType then [trace[n]] else []
  {
    var n := |trace| - 1;
    MatchingLeads(trace, eventType);
    MatchingLeads(trace[..n], eventType);
    assert QueueOf(trace)[..n] == QueueOf(trace[..n]);
    var shorter := Matching(QueueOf(trace[..n]), eventType);
    Meets(eventType, TypeOf(trace[n]));
    assert eventType * QueueOf(trace)[n].eventType == eventType * {TypeOf(trace[n])};
    assert EventsOf(trace, Matching(QueueOf(trace), eventType))[..|shorter|] == EventsOf(trace[..n], shorter);
  }

  lemma ReplayNext(events: seq<Event>, event: Event)
    ensures Replay(events + [event], {}) == ReplayOne(Replay(events, {}), event)
  {
    assert (events + [event])[..|events|] == events;
  }

  lemma FollowNext(events: seq<Event>, event: Event)
    ensures Follow(events + [event], 0) == FollowOne(Follow(events, 0), event)
  {
    assert (events + [event])[..|events|] == events;
  }

  lemma OtherTypesKeepKeys(keys: set<KeyCode>, event: Event, eventType: EventType)
    requires KEY_UP in eventType && KEY_DOWN in eventType && TypeOf(event) !in eventType
    ensures ReplayOne(keys, event) == keys
  {
  }

  lemma OtherTypesKeepModifiers(modifiers: ModifierMap, event: Event, eventType: EventType)
    requires MODIFIER_UP in eventType && MODIFIER_DOWN in eventType && TypeOf(event) !in eventType
    ensures FollowOne(modifiers, event) == modifiers
  {
  }

  /** The events of these types. */
  function Wanted(trace: seq<Event>, eventType: EventType): seq<Event> {
    if trace == [] then []
    else
      var n := |trace| - 1;
      Wanted(trace[..n], eventType) + if TypeOf(trace[n]) in eventType then [trace[n]] else []
  }

  lemma {:induction false} HeardIsWanted(trace: seq<Event>, eventType: EventType)
    ensures Leads(trace, Matching(QueueOf(trace), eventType))
    ensures EventsOf(trace, Matching(QueueOf(trace), eventType)) == Wanted(trace, eventType)
  {
    if trace != [] {
      HeardNext(trace, eventType);
      HeardIsWanted(trace[..|trace| - 1], eventType);
    }
  }

  /** For a handler of key events, events of other types make no difference to the keys. */
  lemma {:induction false} WantedKeys(trace: seq<Event>, eventType: EventType)
    requires KEY_UP in eventType && KEY_DOWN in eventType
    ensures Replay(Wanted(trace, eventType), {}) == Replay(trace, {})
  {
    if trace != [] {
      var n := |trace| - 1;
      WantedKeys(trace[..n], eventType);
      if TypeOf(trace[n]) in eventType {
        ReplayNext(Wanted(trace[..n], eventType), trace[n]);
      } else {
        assert Wanted(trace, eventType) == Wanted(trace[..n], eventType);
        OtherTypesKeepKeys(Replay(trace[..n], {}), trace[n], eventType);
      }
    }
  }

  lemma {:induction false} WantedModifiers(trace: seq<Event>, eventType: EventType)
    requires MODIFIER_UP in eventType && MODIFIER_DOWN in eventType
    ensures Follow(Wanted(trace, eventType), 0) == Follow(trace, 0)
  {
    if trace != [] {
      var n := |trace| - 1;
      WantedModifiers(trace[..n], eventType);
      if TypeOf(trace[n]) in eventType {
        FollowNext(Wanted(trace[..n], eventType), trace[n]);
      } else {
        assert Wanted(trace, eventType) == Wanted(trace[..n], eventType);
        OtherTypesKeepModifiers(Follow(trace[..n], 0), trace[n], eventType);
      }
    }
  }

  /**
    End to end: over every run of polls and however the queue is dispatched in between, a handler that stays registered
    for key events and replays what it hears ends with exactly the tracked keys.
  */
  lemma HandlerKnowsKeys<H>(run: seq<Sample>, rounds: seq<Round<H>>, handle: H, eventType: EventType)
    requires Proper(run) && Queued(rounds) == QueueOf(Trace(Initial(), run))
    requires forall i :: 0 <= i < |rounds| ==> Listed(rounds[i].entries, handle, eventType)
    requires KEY_UP in eventType && KEY_DOWN in eventType
    ensures Leads(Trace(Initial(), run), Heard(rounds, handle))
    ensures Replay(EventsOf(Trace(Initial(), run), Heard(rounds, handle)), {}) == Held(After(Initial(), run).slots)
  {
    HeardIsMatching(rounds, handle, eventType);
    HeardIsWanted(Trace(Initial(), run), eventType);
    WantedKeys(Trace(Initial(), run), eventType);
    RunReplaysKeys(run);
  }

  /** The same for modifiers: a handler of modifier events always knows the polled modifiers. */
  lemma HandlerKnowsModifiers<H>(run: seq<Sample>, rounds: seq<Round<H>>, handle: H, eventType: EventType)
    requires Proper(run) && Queued(rounds) == QueueOf(Trace(Initial(), run))
    requires forall i :: 0 <= i < |rounds| ==> Listed(rounds[i].entries, handle, eventType)
    requires MODIFIER_UP in eventType && MODIFIER_DOWN in eventType
    ensures Leads(Trace(Initial(), run), Heard(rounds, handle))
    ensures Follow(EventsOf(Trace(Initial(), run), Heard(rounds, handle)), 0) == LastModifiers(run)
  {
    HeardIsMatching(rounds, handle, eventType);
    HeardIsWanted(Trace(Initial(), run), eventType);
    WantedModifiers(Trace(Initial(), run), eventType);
    RunFollowsModifiers(run);
  }

  // From registering to knowing.

  /**
    A handler of key events that registers successfully and is left registered, whatever other operations there are and
    whatever events of other types are queued, ends with exactly the tracked keys once the queue has been dispatched.
  */
  lemma RegisteredKnowsKeys<H>(
    run: seq<Sample>, r: Registry<H>, handle: H, eventType: EventType, pollsStart: bool, ops: seq<Operation<H>>)
    requires Proper(run) && KEY_UP in eventType && KEY_DOWN in eventType
    requires Unlisted(r.entries, handle) && Succeeds(r, pollsStart)
    requires forall op <- ops :: Leaves(op, handle)
    requires Matching(r.queue + Enqueued(ops), eventType) == Matching(QueueOf(Trace(Initial(), run)), eventType)
    requires RunFrom(Apply(r, Register(handle, eventType, pollsStart)), ops).queue == []
    ensures
      var after := Apply(r, Register(handle, eventType, pollsStart));
      var told := Heard(Rounds(after, ops), handle);
      && Received(RunFrom(after, ops).delivered, handle) == Received(r.delivered, handle) + told
      && Leads(Trace(Initial(), run), told)
      && Replay(EventsOf(Trace(Initial(), run), told), {}) == Held(After(Initial(), run).slots)
  {
    hide Listed, Unlisted, Apply, Received, RunFrom, Rounds, Enqueued, Heard, Leads, Replay, Trace, After, Held;
    RegisteredHears(r, handle, eventType, pollsStart, ops);
    var told := Heard(Rounds(Apply(r, Register(handle, eventType, pollsStart)), ops), handle);
    assert told + [] == told;
    HeardIsWanted(Trace(Initial(), run), eventType);
    WantedKeys(Trace(Initial(), run), eventType);
    RunReplaysKeys(run);
  }

  /** The same for modifiers. */
  lemma RegisteredKnowsModifiers<H>(
    run: seq<Sample>, r: Registry<H>, handle: H, eventType: EventType, pollsStart: bool, ops: seq<Operation<H>>)
    requires Proper(run) && MODIFIER_UP in eventType && MODIFIER_DOWN in eventType
    requires Unlisted(r.entries, handle) && Succeeds(r, pollsStart)
    requires forall op <- ops :: Leaves(op, handle)
    requires Matching(r.queue + Enqueued(ops), eventType) == Matching(QueueOf(Trace(Initial(), run)), eventType)
    requires RunFrom(Apply(r, Register(handle, eventType, pollsStart)), ops).queue == []
    ensures
      var after := Apply(r, Register(handle, eventType, pollsStart));
      var told := Heard(Rounds(after, ops), handle);
      && Received(RunFrom(after, ops).delivered, handle) == Received(r.delivered, handle) + told
      && Leads(Trace(Initial(), run), told)
      && Follow(EventsOf(Trace(Initial(), run), told), 0) == LastModifiers(run)
  {
    hide Listed, Unlisted, Apply, Received, RunFrom, Rounds, Enqueued, Heard, Leads, Follow, Trace;
    RegisteredHears(r, handle, eventType, pollsStart, ops);
    var told := Heard(Rounds(Apply(r, Register(handle, eventType, pollsStart)), ops), handle);
    assert told + [] == told;
    HeardIsWanted(Trace(Initial(), run), eventType);
    WantedModifiers(Trace(Initial(), run), eventType);
    RunFollowsModifiers(run);
  }
}
