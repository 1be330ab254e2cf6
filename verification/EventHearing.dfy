/** From registering to hearing: what a handler is told over a run of registry operations. */
module EventHearing {
  import opened EventRegistry

  // Several dispatches.

  /** A dispatch: the registry and the queue it finds. */
  datatype Round<H> = Round(entries: seq<Entry<H>>, queue: seq<Info>)

  /** Everything queued over all dispatches. */
  function Queued<H>(rounds: seq<Round<H>>): seq<Info> {
    if rounds == [] then [] else Queued(rounds[..|rounds| - 1]) + rounds[|rounds| - 1].queue
  }

  /** Everything the handler is told over all dispatches. */
  function Heard<H(==)>(rounds: seq<Round<H>>, handle: H): seq<Info> {
    if rounds == [] then []
    else
      var last := rounds[|rounds| - 1];
      Heard(rounds[..|rounds| - 1], handle) + Received(Deliveries(Readied(last.entries), last.queue), handle)
  }

  predicate ListedAt<H(==)>(entries: seq<Entry<H>>, handle: H, eventType: EventType, k: nat) {
    && Alone(entries, k) && entries[k].handle == handle
    && entries[k].registered && entries[k].eventType == eventType
  }

  /** The handler is listed once, registered, with these types. */
  ghost predicate Listed<H>(entries: seq<Entry<H>>, handle: H, eventType: EventType) {
    exists k :: ListedAt(entries, handle, eventType, k)
  }

  /** The handler is not registered. */
  predicate Unlisted<H(==)>(entries: seq<Entry<H>>, handle: H) {
    forall entry <- entries :: entry.handle == handle ==> !entry.registered
  }

  lemma {:induction false} MatchingAppend(a: seq<Info>, b: seq<Info>, eventType: EventType)
    ensures Matching(a + b, eventType) == Matching(a, eventType) + Matching(b, eventType)
  {
    if b == [] {
      assert a + b == a;
    } else {
      var n := |b| - 1;
      assert (a + b)[..|a + b| - 1] == a + b[..n];
      MatchingAppend(a, b[..n], eventType);
    }
  }

  lemma HeardInRound<H>(round: Round<H>, handle: H, eventType: EventType)
    requires Listed(round.entries, handle, eventType)
    ensures Received(Deliveries(Readied(round.entries), round.queue), handle) == Matching(round.queue, eventType)
  {
    var k :| ListedAt(round.entries, handle, eventType, k);
    HandlerSees(round.entries, round.queue, k);
  }

  /** However the queue is cut into dispatches, a handler that stays registered hears every event of its types once. */
  lemma {:induction false} HeardIsMatching<H>(rounds: seq<Round<H>>, handle: H, eventType: EventType)
    requires forall i :: 0 <= i < |rounds| ==> Listed(rounds[i].entries, handle, eventType)
    ensures Heard(rounds, handle) == Matching(Queued(rounds), eventType)
  {
    hide Listed, Received, Deliveries;
    if rounds != [] {
      var n := |rounds| - 1;
      HeardIsMatching(rounds[..n], handle, eventType);
      HeardInRound(rounds[n], handle, eventType);
      MatchingAppend(Queued(rounds[..n]), rounds[n].queue, eventType);
    }
  }

  lemma {:induction false} UnlistedHearsNothing<H>(entries: seq<Entry<H>>, queue: seq<Info>, handle: H)
    requires Unlisted(entries, handle)
    ensures Received(Deliveries(Readied(entries), queue), handle) == []
  {
    if queue != [] {
      var n := |queue| - 1;
      UnlistedHearsNothing(entries, queue[..n], handle);
      StrangerHearsNothing(Readied(entries), queue[n], handle);
      ReceivedAppend(Deliveries(Readied(entries), queue[..n]), Told(Readied(entries), queue[n]), handle);
    }
  }

  // A run of operations.

  /** The dispatches of a run. */
  function Rounds<H(==)>(r: Registry<H>, ops: seq<Operation<H>>): (rounds: seq<Round<H>>)
    ensures |rounds| <= |ops|
  {
    if ops == [] then []
    else
      var n := |ops| - 1;
      var before := RunFrom(r, ops[..n]);
      Rounds(r, ops[..n]) + if ops[n].Dispatch? then [Round(before.entries, before.queue)] else []
  }

  /** The events queued by the operations. */
  function Enqueued<H>(ops: seq<Operation<H>>): seq<Info> {
    if ops == [] then []
    else
      var n := |ops| - 1;
      Enqueued(ops[..n]) + if ops[n].Enqueue? then [ops[n].info] else []
  }

  // What the last operation of a run adds.

  lemma QueuedInLast<H>(r: Registry<H>, ops: seq<Operation<H>>)
    requires ops != []
    ensures
      var n := |ops| - 1;
      Queued(Rounds(r, ops))
      == Queued(Rounds(r, ops[..n])) + if ops[n].Dispatch? then RunFrom(r, ops[..n]).queue else []
  {
    hide RunFrom;
    var n := |ops| - 1;
    var rounds, before := Rounds(r, ops[..n]), RunFrom(r, ops[..n]);
    if ops[n].Dispatch? {
      assert (rounds + [Round(before.entries, before.queue)])[..|rounds|] == rounds;
    } else {
      assert Rounds(r, ops) == rounds;
    }
  }

  lemma HeardInLast<H>(r: Registry<H>, ops: seq<Operation<H>>, handle: H)
    requires ops != []
    ensures
      var n := |ops| - 1;
      var before := RunFrom(r, ops[..n]);
      Heard(Rounds(r, ops), handle)
      == Heard(Rounds(r, ops[..n]), handle)
         + if ops[n].Dispatch? then Received(Deliveries(Readied(before.entries), before.queue), handle) else []
  {
    hide RunFrom, Received, Deliveries, Readied;
    var n := |ops| - 1;
    var rounds, before := Rounds(r, ops[..n]), RunFrom(r, ops[..n]);
    if ops[n].Dispatch? {
      assert (rounds + [Round(before.entries, before.queue)])[..|rounds|] == rounds;
    } else {
      assert Rounds(r, ops) == rounds;
    }
  }

  lemma OperationDelivers<H>(r: Registry<H>, op: Operation<H>, handle: H)
    ensures Received(Apply(r, op).delivered, handle)
            == Received(r.delivered, handle)
               + if op.Dispatch? then Received(Deliveries(Readied(r.entries), r.queue), handle) else []
  {
    hide Received, Deliveries, Readied, Registered;
    ReceivedAppend(r.delivered, Deliveries(Readied(r.entries), r.queue), handle);
  }

  lemma OperationQueues<H>(r: Registry<H>, op: Operation<H>)
    ensures r.queue + (if op.Enqueue? then [op.info] else [])
            == (if op.Dispatch? then r.queue else []) + Apply(r, op).queue
  {
  }

  /** What a run delivers to a handler is what its dispatches tell it. */
  lemma {:induction false} DeliveredIsHeard<H>(r: Registry<H>, ops: seq<Operation<H>>, handle: H)
    ensures Received(RunFrom(r, ops).delivered, handle) == Received(r.delivered, handle) + Heard(Rounds(r, ops), handle)
  {
    if ops != [] {
      hide Received, Deliveries, Readied, Apply, Rounds;
      var n := |ops| - 1;
      DeliveredIsHeard(r, ops[..n], handle);
      OperationDelivers(RunFrom(r, ops[..n]), ops[n], handle);
      HeardInLast(r, ops, handle);
    }
  }

  lemma Regroup<T>(a: seq<T>, b: seq<T>, c: seq<T>, d: seq<T>, e: seq<T>, f: seq<T>, g: seq<T>)
    requires a + b == d + e && e + c == f + g
    ensures a + (b + c) == d + f + g
  {
    assert a + (b + c) == a + b + c;
    assert d + e + c == d + (e + c);
  }

  /** No event is lost, doubled or moved: what was queued is dispatched in order or still in the queue. */
  lemma {:induction false} QueueIsConserved<H>(r: Registry<H>, ops: seq<Operation<H>>)
    ensures r.queue + Enqueued(ops) == Queued(Rounds(r, ops)) + RunFrom(r, ops).queue
  {
    if ops != [] {
      hide Apply, Rounds, Queued;
      var n := |ops| - 1;
      QueueIsConserved(r, ops[..n]);
      OperationQueues(RunFrom(r, ops[..n]), ops[n]);
      QueuedInLast(r, ops);
      Regroup(
        r.queue, Enqueued(ops[..n]), if ops[n].Enqueue? then [ops[n].info] else [], Queued(Rounds(r, ops[..n])),
        RunFrom(r, ops[..n]).queue, if ops[n].Dispatch? then RunFrom(r, ops[..n]).queue else [], RunFrom(r, ops).queue);
    }
  }

  // Staying registered.

  /** The operation neither registers nor unregisters the handler. */
  predicate Leaves<H(==)>(op: Operation<H>, handle: H) {
    match op
    case Register(other, _, _) => other != handle
    case Unregister(other) => other != handle
    case UnregisterAll => false
    case _ => true
  }

  lemma {:induction false} RegisteredIsPart<H>(entries: seq<Entry<H>>, entry: Entry<H>)
    ensures entry in Registered(entries) <==> entry in entries && entry.registered
  {
    if entries != [] {
      var n := |entries| - 1;
      RegisteredIsPart(entries[..n], entry);
      assert entries == entries[..n] + [entries[n]];
    }
  }

  /** A clean-up keeps a registered handler listed. */
  lemma {:induction false} CleanUpKeepsListed<H>(
    entries: seq<Entry<H>>, handle: H, eventType: EventType, k: nat)
    returns (place: nat)
    requires ListedAt(entries, handle, eventType, k)
    ensures ListedAt(Registered(entries), handle, eventType, place)
  {
    var n := |entries| - 1;
    var kept := Registered(entries[..n]);
    if k == n {
      place := |kept|;
      forall i | 0 <= i < |kept|
        ensures kept[i].handle != handle
      {
        RegisteredIsPart(entries[..n], kept[i]);
      }
    } else {
      place := CleanUpKeepsListed(entries[..n], handle, eventType, k);
    }
  }

  lemma OperationKeepsListed<H>(r: Registry<H>, op: Operation<H>, handle: H, eventType: EventType)
    requires Listed(r.entries, handle, eventType) && Leaves(op, handle)
    ensures Listed(Apply(r, op).entries, handle, eventType)
  {
    var k :| ListedAt(r.entries, handle, eventType, k);
    var after := Apply(r, op).entries;
    if op.Register? {
      k := CleanUpKeepsListed(r.entries, handle, eventType, k);
    } else if op.Dispatch? {
      k := CleanUpKeepsListed(Readied(r.entries), handle, eventType, k);
    }
    assert ListedAt(after, handle, eventType, k);
  }

  lemma OperationKeepsUnlisted<H>(r: Registry<H>, op: Operation<H>, handle: H)
    requires Unlisted(r.entries, handle) && !(op.Register? && op.handle == handle)
    ensures Unlisted(Apply(r, op).entries, handle)
  {
    var ready := Readied(r.entries);
    forall entry: Entry<H>
      ensures entry in Registered(r.entries) ==> entry in r.entries
      ensures entry in Registered(ready) ==> entry in ready
    {
      RegisteredIsPart(r.entries, entry);
      RegisteredIsPart(ready, entry);
    }
  }

  lemma {:induction false} StaysListed<H>(
    r: Registry<H>, ops: seq<Operation<H>>, handle: H, eventType: EventType)
    requires Listed(r.entries, handle, eventType)
    requires forall op <- ops :: Leaves(op, handle)
    ensures Listed(RunFrom(r, ops).entries, handle, eventType)
    ensures forall i :: 0 <= i < |Rounds(r, ops)| ==> Listed(Rounds(r, ops)[i].entries, handle, eventType)
  {
    hide Listed, Apply, Leaves;
    if ops != [] {
      var n := |ops| - 1;
      StaysListed(r, ops[..n], handle, eventType);
      OperationKeepsListed(RunFrom(r, ops[..n]), ops[n], handle, eventType);
    }
  }

  /** Without being registered a handler is told nothing. */
  lemma {:induction false} StaysUnlisted<H>(r: Registry<H>, ops: seq<Operation<H>>, handle: H)
    requires Unlisted(r.entries, handle)
    requires forall op <- ops :: !(op.Register? && op.handle == handle)
    ensures Unlisted(RunFrom(r, ops).entries, handle)
    ensures Heard(Rounds(r, ops), handle) == []
  {
    hide Unlisted, Apply, Received, Deliveries;
    if ops != [] {
      var n := |ops| - 1;
      var before := RunFrom(r, ops[..n]);
      StaysUnlisted(r, ops[..n], handle);
      OperationKeepsUnlisted(before, ops[n], handle);
      UnlistedHearsNothing(before.entries, before.queue, handle);
      HeardInLast(r, ops, handle);
    }
  }

  // Registering and unregistering.

  /** The registration succeeds: polling is under way already or can be started. */
  predicate Succeeds<H>(r: Registry<H>, pollsStart: bool) {
    r.count != 0 || pollsStart
  }

  /**
    Registering an unused handle lists it with its types if and only if polling is under way already or can be started;
    otherwise it is not listed. A handle of an unregistered entry may be used again, as its memory is freed first.
  */
  lemma RegisterLists<H>(r: Registry<H>, handle: H, eventType: EventType, pollsStart: bool)
    requires Unlisted(r.entries, handle)
    ensures
      var after := Apply(r, Register(handle, eventType, pollsStart));
      && after.delivered == r.delivered && after.queue == r.queue
      && if Succeeds(r, pollsStart) then Listed(after.entries, handle, eventType) else Unlisted(after.entries, handle)
  {
    var after := Apply(r, Register(handle, eventType, pollsStart));
    var kept := Registered(r.entries);
    forall entry <- kept
      ensures entry.handle != handle
    {
      RegisteredIsPart(r.entries, entry);
    }
    if Succeeds(r, pollsStart) {
      assert ListedAt(after.entries, handle, eventType, |kept|);
    }
  }

  lemma UnregisterUnlists<H>(r: Registry<H>, op: Operation<H>, handle: H, eventType: EventType)
    requires Listed(r.entries, handle, eventType)
    requires op == Unregister(handle) || op == UnregisterAll
    ensures Unlisted(Apply(r, op).entries, handle)
    ensures Apply(r, op).delivered == r.delivered
  {
  }

  /**
    From registering on, whatever else happens, a handler is told exactly the events of its types, once and in order:
    those in the queue when it registers and those queued later, up to the ones that still wait. If the registration
    fails, it is told nothing.
  */
  lemma RegisteredHears<H>(
    r: Registry<H>, handle: H, eventType: EventType, pollsStart: bool, ops: seq<Operation<H>>)
    requires Unlisted(r.entries, handle)
    requires forall op <- ops :: Leaves(op, handle)
    ensures
      var last := RunFrom(Apply(r, Register(handle, eventType, pollsStart)), ops);
      var told := Heard(Rounds(Apply(r, Register(handle, eventType, pollsStart)), ops), handle);
      && Received(last.delivered, handle) == Received(r.delivered, handle) + told
      && if Succeeds(r, pollsStart) then
           && Listed(last.entries, handle, eventType)
           && told + Matching(last.queue, eventType) == Matching(r.queue + Enqueued(ops), eventType)
         else told == []
  {
    var after := Apply(r, Register(handle, eventType, pollsStart));
    RegisterLists(r, handle, eventType, pollsStart);
    hide Listed, Unlisted, Apply, Received, Matching, RunFrom, Rounds, Enqueued, Heard, Queued;
    DeliveredIsHeard(after, ops, handle);
    if Succeeds(r, pollsStart) {
      StaysListed(after, ops, handle, eventType);
      HeardIsMatching(Rounds(after, ops), handle, eventType);
      QueueIsConserved(after, ops);
      MatchingAppend(Queued(Rounds(after, ops)), RunFrom(after, ops).queue, eventType);
    } else {
      assert forall op <- ops :: Leaves(op, handle) ==> !(op.Register? && op.handle == handle);
      StaysUnlisted(after, ops, handle);
    }
  }

  /** From unregistering on, until it registers again, a handler is told nothing. */
  lemma UnregisteredHearsNothing<H>(
    r: Registry<H>, op: Operation<H>, handle: H, eventType: EventType, ops: seq<Operation<H>>)
    requires Listed(r.entries, handle, eventType)
    requires op == Unregister(handle) || op == UnregisterAll
    requires forall later <- ops :: !(later.Register? && later.handle == handle)
    ensures
      var last := RunFrom(Apply(r, op), ops);
      Unlisted(last.entries, handle) && Received(last.delivered, handle) == Received(r.delivered, handle)
  {
    UnregisterUnlists(r, op, handle, eventType);
    StaysUnlisted(Apply(r, op), ops, handle);
    DeliveredIsHeard(Apply(r, op), ops, handle);
  }
}
