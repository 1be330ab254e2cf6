/**
  The event handler registry and the event queue as sequences: who is told what, in which order.
*/
module EventRegistry {
  import opened Words

  /** A 32-bit mask of event types as the set of its bits. */
  type EventType = set<nat>

  datatype Info = Info(eventType: EventType, data: nat)

  /** A registry entry; `H` identifies the handler. */
  datatype Entry<H> = Entry(handle: H, ready: bool, registered: bool, eventType: EventType)

  datatype Delivery<H> = Delivery(info: Info, handle: H)

  predicate Wants<H>(entry: Entry<H>, info: Info) {
    entry.registered && entry.ready && entry.eventType * info.eventType != {}
  }

  /** Everyone who is told about an event, in list order. */
  function Told<H>(entries: seq<Entry<H>>, info: Info): seq<Delivery<H>> {
    if entries == [] then []
    else
      var n := |entries| - 1;
      Told(entries[..n], info) + if Wants(entries[n], info) then [Delivery(info, entries[n].handle)] else []
  }

  lemma ToldNext<H>(entries: seq<Entry<H>>, n: nat, info: Info)
    requires n < |entries|
    ensures Told(entries[..n + 1], info)
            == Told(entries[..n], info) + if Wants(entries[n], info) then [Delivery(info, entries[n].handle)] else []
  {
    assert entries[..n + 1][..n] == entries[..n];
  }

  /** The callbacks of a whole dispatch: event by event in queue order. */
  function Deliveries<H>(entries: seq<Entry<H>>, queue: seq<Info>): seq<Delivery<H>> {
    if queue == [] then []
    else
      var n := |queue| - 1;
      Deliveries(entries, queue[..n]) + Told(entries, queue[n])
  }

  function Readied<H>(entries: seq<Entry<H>>): seq<Entry<H>> {
    seq(|entries|, i requires 0 <= i < |entries| => entries[i].(ready := true))
  }

  /** The entries that survive a clean-up. */
  function Registered<H>(entries: seq<Entry<H>>): (kept: seq<Entry<H>>)
    ensures |kept| <= |entries|
  {
    if entries == [] then []
    else
      var n := |entries| - 1;
      Registered(entries[..n]) + if entries[n].registered then [entries[n]] else []
  }

  /** No other entry has the handle of entry `k`. */
  predicate Alone<H(==)>(entries: seq<Entry<H>>, k: nat) {
    k < |entries| && forall i :: 0 <= i < |entries| && i != k ==> entries[i].handle != entries[k].handle
  }

  // What one handler sees.

  function Received<H(==)>(deliveries: seq<Delivery<H>>, handle: H): seq<Info> {
    if deliveries == [] then []
    else
      var n := |deliveries| - 1;
      Received(deliveries[..n], handle) + if deliveries[n].handle == handle then [deliveries[n].info] else []
  }

  function Matching(queue: seq<Info>, eventType: EventType): seq<Info> {
    if queue == [] then []
    else
      var n := |queue| - 1;
      Matching(queue[..n], eventType) + if eventType * queue[n].eventType != {} then [queue[n]] else []
  }

  lemma {:induction false} ReceivedAppend<H>(a: seq<Delivery<H>>, b: seq<Delivery<H>>, handle: H)
    ensures Received(a + b, handle) == Received(a, handle) + Received(b, handle)
  {
    if b == [] {
      assert a + b == a;
    } else {
      var n := |b| - 1;
      assert (a + b)[..|a + b| - 1] == a + b[..n];
      ReceivedAppend(a, b[..n], handle);
    }
  }

  lemma {:induction false} StrangerHearsNothing<H>(entries: seq<Entry<H>>, info: Info, handle: H)
    requires forall entry <- entries :: entry.handle == handle ==> !Wants(entry, info)
    ensures Received(Told(entries, info), handle) == []
  {
    if entries != [] {
      var n := |entries| - 1;
      StrangerHearsNothing(entries[..n], info, handle);
      assert entries[n] in entries;
      if Wants(entries[n], info) {
        OneMore(Told(entries[..n], info), Delivery(info, entries[n].handle), handle);
      } else {
        assert Told(entries, info) == Told(entries[..n], info);
      }
    }
  }

  lemma OneMore<H>(before: seq<Delivery<H>>, last: Delivery<H>, handle: H)
    ensures Received(before + [last], handle)
            == Received(before, handle) + if last.handle == handle then [last.info] else []
  {
  }

  /** Each event reaches an interested handler once. */
  lemma {:induction false} ToldOnce<H>(entries: seq<Entry<H>>, info: Info, k: nat)
    requires Alone(entries, k)
    ensures Received(Told(entries, info), entries[k].handle) == if Wants(entries[k], info) then [info] else []
  {
    var n := |entries| - 1;
    var handle := entries[k].handle;
    hide Received;
    if Wants(entries[n], info) {
      OneMore(Told(entries[..n], info), Delivery(info, entries[n].handle), handle);
    } else {
      assert Told(entries, info) == Told(entries[..n], info);
    }
    if k == n {
      StrangerHearsNothing(entries[..n], info, handle);
    } else {
      ToldOnce(entries[..n], info, k);
    }
  }

  /**
    In a dispatch a registered handler that is listed once sees exactly the queued events of its types, each once and
    in the order they were queued; an unregistered one sees nothing.
  */
  lemma {:induction false} HandlerSees<H>(entries: seq<Entry<H>>, queue: seq<Info>, k: nat)
    requires Alone(entries, k)
    ensures Received(Deliveries(Readied(entries), queue), entries[k].handle)
            == if entries[k].registered then Matching(queue, entries[k].eventType) else []
  {
    if queue != [] {
      var n := |queue| - 1;
      HandlerSees(entries, queue[..n], k);
      ToldOnce(Readied(entries), queue[n], k);
      ReceivedAppend(Deliveries(Readied(entries), queue[..n]), Told(Readied(entries), queue[n]), entries[k].handle);
    }
  }

  // Counting handlers.

  function CountRegistered<H>(entries: seq<Entry<H>>): (count: nat)
    ensures count <= |entries|
  {
    if entries == [] then 0
    else CountRegistered(entries[..|entries| - 1]) + if entries[|entries| - 1].registered then 1 else 0
  }

  lemma CountAppend<H>(entries: seq<Entry<H>>, entry: Entry<H>)
    ensures CountRegistered(entries + [entry]) == CountRegistered(entries) + if entry.registered then 1 else 0
  {
  }

  lemma {:induction false} CleanUpKeepsCount<H>(entries: seq<Entry<H>>)
    ensures CountRegistered(Registered(entries)) == CountRegistered(entries)
  {
    if entries != [] {
      var n := |entries| - 1;
      CleanUpKeepsCount(entries[..n]);
      if entries[n].registered {
        CountAppend(Registered(entries[..n]), entries[n]);
      } else {
        assert Registered(entries) == Registered(entries[..n]);
      }
    }
  }

  lemma {:induction false} CountReadied<H>(entries: seq<Entry<H>>)
    ensures CountRegistered(Readied(entries)) == CountRegistered(entries)
  {
    if entries != [] {
      var n := |entries| - 1;
      CountReadied(entries[..n]);
      assert Readied(entries)[..n] == Readied(entries[..n]);
    }
  }

  lemma {:induction false} CountDrop<H>(entries: seq<Entry<H>>, k: nat)
    requires k < |entries|
    ensures CountRegistered(entries[k := entries[k].(registered := false)])
            == CountRegistered(entries) - if entries[k].registered then 1 else 0
  {
    var n := |entries| - 1;
    var after := entries[k := entries[k].(registered := false)];
    if k < n {
      CountDrop(entries[..n], k);
      assert after[..n] == entries[..n][k := entries[k].(registered := false)];
    } else {
      assert after[..n] == entries[..n];
    }
  }

  function Dropped<H>(entries: seq<Entry<H>>): seq<Entry<H>> {
    seq(|entries|, i requires 0 <= i < |entries| => entries[i].(registered := false))
  }

  lemma {:induction false} CountDropped<H>(entries: seq<Entry<H>>)
    ensures CountRegistered(Dropped(entries)) == 0
  {
    if entries != [] {
      var n := |entries| - 1;
      CountDropped(entries[..n]);
      assert Dropped(entries)[..n] == Dropped(entries[..n]);
    }
  }

  lemma {:induction false} AllRegisteredCount<H>(entries: seq<Entry<H>>)
    ensures CountRegistered(entries) == |entries| <==> forall entry <- entries :: entry.registered
  {
    if entries != [] {
      var n := |entries| - 1;
      AllRegisteredCount(entries[..n]);
      assert entries == entries[..n] + [entries[n]];
    }
  }

  // Runs.

  /** The registry as a machine; `polling` tells whether the keyboard and pointer poll events run. */
  datatype Registry<H> = Registry(
    entries: seq<Entry<H>>, count: u64, polling: bool, queue: seq<Info>, delivered: seq<Delivery<H>>)

  datatype Operation<H> =
    | Register(handle: H, eventType: EventType, pollsStart: bool)
    | Unregister(handle: H)
    | UnregisterAll
    | Enqueue(info: Info)
    | Dispatch

  /** First entry from `i` on with this handle, or the number of entries. */
  function FindHandle<H(==)>(entries: seq<Entry<H>>, handle: H, i: nat): (index: nat)
    requires i <= |entries|
    ensures i <= index <= |entries|
    ensures forall k :: i <= k < index ==> entries[k].handle != handle
    ensures index < |entries| ==> entries[index].handle == handle
    decreases |entries| - i
  {
    if i < |entries| && entries[i].handle != handle then FindHandle(entries, handle, i + 1) else i
  }

  function AfterRegister<H>(r: Registry<H>, handle: H, eventType: EventType, pollsStart: bool): Registry<H> {
    var cleaned := r.(entries := Registered(r.entries));
    if r.count == 0 && !pollsStart then cleaned
    else
      cleaned.(
        entries := cleaned.entries + [Entry(handle, false, true, eventType)],
        count := Wrap(r.count + 1),
        polling := r.polling || r.count == 0)
  }

  function AfterUnregister<H(==)>(r: Registry<H>, handle: H): Registry<H> {
    var k := FindHandle(r.entries, handle, 0);
    var count := if k < |r.entries| then Wrap(r.count - 1) else r.count;
    r.(entries := if k < |r.entries| then r.entries[k := r.entries[k].(registered := false)] else r.entries,
       count := count,
       polling := r.polling && count != 0)
  }

  function AfterUnregisterAll<H>(r: Registry<H>): Registry<H> {
    var count := Wrap(r.count - |r.entries|);
    r.(entries := Dropped(r.entries), count := count, polling := r.polling && count != 0)
  }

  function AfterDispatch<H>(r: Registry<H>): Registry<H> {
    r.(entries := Registered(Readied(r.entries)),
       queue := [],
       delivered := r.delivered + Deliveries(Readied(r.entries), r.queue))
  }

  function Apply<H(==)>(r: Registry<H>, op: Operation<H>): Registry<H> {
    match op
    case Register(handle, eventType, pollsStart) => AfterRegister(r, handle, eventType, pollsStart)
    case Unregister(handle) => AfterUnregister(r, handle)
    case UnregisterAll => AfterUnregisterAll(r)
    case Enqueue(info) => r.(queue := r.queue + [info])
    case Dispatch => AfterDispatch(r)
  }

  /** The counter is the number of registered handlers, and polling runs as long as there is one. */
  predicate InSync<H>(r: Registry<H>) {
    r.count == CountRegistered(r.entries) && (r.polling <==> r.count != 0)
  }

  /** The operation unregisters only handlers that are registered. */
  predicate Clean<H(==)>(r: Registry<H>, op: Operation<H>) {
    match op
    case Unregister(handle) =>
      var k := FindHandle(r.entries, handle, 0);
      k < |r.entries| ==> r.entries[k].registered
    case UnregisterAll => forall entry <- r.entries :: entry.registered
    case _ => true
  }

  /** Lists and counters stay below the limits of memory. */
  predicate Sane<H>(r: Registry<H>) {
    |r.entries| < 0x1_0000_0000
  }

  lemma OffByMore(count: nat, taken: nat, dropped: nat)
    requires dropped <= count < 0x1_0000_0000 && taken < 0x1_0000_0000
    ensures Wrap(count - taken) == count - dropped <==> taken == dropped
  {
  }

  lemma RegisterKeepsSync<H>(r: Registry<H>, handle: H, eventType: EventType, pollsStart: bool)
    requires InSync(r) && Sane(r)
    ensures InSync(AfterRegister(r, handle, eventType, pollsStart))
  {
    CleanUpKeepsCount(r.entries);
    CountAppend(Registered(r.entries), Entry(handle, false, true, eventType));
  }

  lemma UnregisterSync<H>(r: Registry<H>, handle: H)
    requires InSync(r) && Sane(r)
    ensures InSync(AfterUnregister(r, handle)) <==> Clean(r, Unregister(handle))
  {
    var k := FindHandle(r.entries, handle, 0);
    if k < |r.entries| {
      CountDrop(r.entries, k);
      OffByMore(r.count, 1, if r.entries[k].registered then 1 else 0);
    }
  }

  lemma UnregisterAllSync<H>(r: Registry<H>)
    requires InSync(r) && Sane(r)
    ensures InSync(AfterUnregisterAll(r)) <==> Clean(r, UnregisterAll)
  {
    CountDropped(r.entries);
    AllRegisteredCount(r.entries);
    OffByMore(r.count, |r.entries|, r.count);
  }

  /** The counter stays right exactly as long as no handler is unregistered twice. */
  lemma SyncExactly<H>(r: Registry<H>, op: Operation<H>)
    requires InSync(r) && Sane(r)
    ensures InSync(Apply(r, op)) <==> Clean(r, op)
  {
    match op
    case Register(handle, eventType, pollsStart) => RegisterKeepsSync(r, handle, eventType, pollsStart);
    case Unregister(handle) => UnregisterSync(r, handle);
    case UnregisterAll => UnregisterAllSync(r);
    case Enqueue(_) =>
    case Dispatch =>
      CountReadied(r.entries);
      CleanUpKeepsCount(Readied(r.entries));
  }

  function Start<H>(): Registry<H> {
    Registry([], 0, false, [], [])
  }

  function RunFrom<H(==)>(r: Registry<H>, ops: seq<Operation<H>>): Registry<H> {
    if ops == [] then r else Apply(RunFrom(r, ops[..|ops| - 1]), ops[|ops| - 1])
  }

  function Run<H(==)>(ops: seq<Operation<H>>): Registry<H> {
    RunFrom(Start(), ops)
  }

  lemma RunNext<H>(ops: seq<Operation<H>>, op: Operation<H>)
    ensures Run(ops + [op]) == Apply(Run(ops), op)
  {
    assert (ops + [op])[..|ops|] == ops;
  }

  /** No operation of the run unregisters a handler that is not registered. */
  predicate AllClean<H(==)>(ops: seq<Operation<H>>) {
    ops == [] || (AllClean(ops[..|ops| - 1]) && Clean(Run(ops[..|ops| - 1]), ops[|ops| - 1]))
  }

  /** The counter is right after every operation of the run. */
  predicate SyncThroughout<H(==)>(ops: seq<Operation<H>>) {
    InSync(Run(ops)) && (ops == [] || SyncThroughout(ops[..|ops| - 1]))
  }

  lemma {:induction false} EntriesGrowSlowly<H>(ops: seq<Operation<H>>)
    ensures |Run(ops).entries| <= |ops|
  {
    if ops != [] {
      EntriesGrowSlowly(ops[..|ops| - 1]);
    }
  }

  /** Over a run the counter is right after every operation if and only if no handler is unregistered twice. */
  lemma {:induction false} RunSyncExactly<H>(ops: seq<Operation<H>>)
    requires |ops| < 0x1_0000_0000
    ensures SyncThroughout(ops) <==> AllClean(ops)
  {
    if ops != [] {
      var shorter := ops[..|ops| - 1];
      RunSyncExactly(shorter);
      EntriesGrowSlowly(shorter);
      if InSync(Run(shorter)) {
        SyncExactly(Run(shorter), ops[|ops| - 1]);
      }
    }
  }

  /** Unregistering a handler twice takes the counter of an empty registry to 2^64 - 1, and polling goes on. */
  lemma DoubleUnregisterUnderflows(handle: int)
    ensures
      var ops := [Register(handle, {0}, true), Unregister(handle), Unregister(handle)];
      && AllClean(ops[..2]) && !AllClean(ops)
      && Run(ops).count == TWO_TO_THE_64 - 1 && CountRegistered(Run(ops).entries) == 0
  {
    var ops := [Register(handle, {0}, true), Unregister(handle), Unregister(handle)];
    var registered := [Entry(handle, false, true, {0})];
    RunNext([], ops[0]);
    assert ops[..1] == [ops[0]] && Run(ops[..1]).entries == [] + registered;
    RunNext(ops[..1], ops[1]);
    assert ops[..2] == ops[..1] + [ops[1]];
    var left := registered[0 := Entry(handle, false, false, {0})];
    assert Run(ops[..2]).entries == left;
    RunNext(ops[..2], ops[2]);
    assert ops == ops[..2] + [ops[2]] && Run(ops).entries == left;
    assert left[..0] == [];
  }
}
