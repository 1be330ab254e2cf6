/** Event handlers and the event queue in place, proved against the registry machine. */
module EventLib {
  import opened Words
  import opened EventRegistry
  import opened EventHearing

  class EventHandle {
    var ready: bool
    var registered: bool
    const eventType: EventType

    constructor (eventType: EventType)
      ensures this.eventType == eventType && !ready && registered
    {
      this.eventType := eventType;
      ready, registered := false, true;
    }

    function View(): Entry<EventHandle>
      reads this
    {
      Entry(this, ready, registered, eventType)
    }
  }

  /** The argument of EventUnregisterHandler: a handle, or -1 for all of them. */
  datatype Target = One(handle: EventHandle) | All

  datatype Status = Success | InvalidParameter | PollError

  ghost function EntriesOf(handles: seq<EventHandle>): (entries: seq<Entry<EventHandle>>)
    reads handles
    ensures |entries| == |handles|
    ensures forall i :: 0 <= i < |handles| ==> entries[i] == handles[i].View()
  {
    seq(|handles|, i requires 0 <= i < |handles| reads handles => handles[i].View())
  }

  function Unregistered(r: Registry<EventHandle>, target: Target): Registry<EventHandle> {
    match target
    case One(handle) => AfterUnregister(r, handle)
    case All => AfterUnregisterAll(r)
  }

  /** There is something to unregister. */
  predicate Concerns(handles: seq<EventHandle>, target: Target) {
    match target
    case One(handle) => handle in handles
    case All => handles != []
  }

  class EventCenter {
    var handles: seq<EventHandle>
    var numberOfEventHandles: u64
    var polling: bool
    var queue: seq<Info>
    /** Every callback made so far. */
    var delivered: seq<Delivery<EventHandle>>

    ghost predicate Valid()
      reads this
    {
      forall i, j :: 0 <= i < j < |handles| ==> handles[i] != handles[j]
    }

    ghost function View(): Registry<EventHandle>
      reads this, handles
    {
      Registry(EntriesOf(handles), numberOfEventHandles, polling, queue, delivered)
    }

    constructor ()
      ensures Valid() && View() == Start()
    {
      handles, numberOfEventHandles, polling := [], 0, false;
      queue, delivered := [], [];
    }

    /** InternalRemoveUnregisteredEvents. */
    method RemoveUnregisteredEvents()
      requires Valid()
      modifies this`handles
      ensures Valid() && forall h <- handles :: h in old(handles)
      ensures EntriesOf(handles) == Registered(old(EntriesOf(handles)))
    {
      ghost var entries := EntriesOf(handles);
      var kept := [];
      for i := 0 to |handles|
        invariant handles == old(handles)
        invariant forall k :: 0 <= k < |kept| ==> kept[k] in handles[..i]
        invariant forall k, l :: 0 <= k < l < |kept| ==> kept[k] != kept[l]
        invariant EntriesOf(kept) == Registered(entries[..i])
      {
        assert entries[..i + 1][..i] == entries[..i];
        if handles[i].registered {
          assert handles[i] !in handles[..i];
          kept := kept + [handles[i]];
        }
      }
      assert entries[..|entries|] == entries;
      handles := kept;
    }

    /** InternalFlagAllEventsReady. */
    method FlagAllEventsReady()
      requires Valid()
      modifies handles
      ensures EntriesOf(handles) == Readied(old(EntriesOf(handles)))
    {
      ghost var entries := EntriesOf(handles);
      for i := 0 to |handles|
        invariant forall k :: 0 <= k < i ==> handles[k].View() == entries[k].(ready := true)
        invariant forall k :: i <= k < |handles| ==> handles[k].View() == entries[k]
      {
        handles[i].ready := true;
      }
    }

    /** Walks the handler list for one event. */
    method CallsFor(info: Info) returns (calls: seq<Delivery<EventHandle>>)
      ensures calls == Told(EntriesOf(handles), info)
    {
      ghost var entries := EntriesOf(handles);
      calls := [];
      for i := 0 to |handles|
        invariant calls == Told(entries[..i], info)
      {
        ToldNext(entries, i, info);
        var handle := handles[i];
        if handle.registered && handle.ready && handle.eventType * info.eventType != {} {
          calls := calls + [Delivery(info, handle)];
        }
      }
      assert entries[..|entries|] == entries;
    }

    /** InternalSignalEvents; a callback is recorded and changes nothing else. */
    method SignalEvents(info: Info)
      modifies this`delivered
      ensures delivered == old(delivered) + Told(EntriesOf(handles), info)
    {
      var calls := CallsFor(info);
      delivered := delivered + calls;
    }

    /** EventAddEventToQueue. */
    method AddEventToQueue(info: Info)
      modifies this`queue
      ensures View() == old(View()).(queue := old(queue) + [info])
    {
      queue := queue + [info];
    }

    /** The loop that drains the queue. */
    method DrainQueue()
      modifies this`queue, this`delivered
      ensures queue == []
      ensures delivered == old(delivered) + Deliveries(EntriesOf(handles), old(queue))
    {
      hide Told;
      ghost var entries, before, n := EntriesOf(handles), queue, 0;
      while queue != []
        invariant 0 <= n <= |before| && queue == before[n..]
        invariant delivered == old(delivered) + Deliveries(entries, before[..n])
        decreases |queue|
      {
        assert before[..n + 1][..n] == before[..n];
        SignalEvents(queue[0]);
        queue := queue[1..];
        n := n + 1;
      }
      assert before[..n] == before;
    }

    /** InternalQueueEventNotifyFunction. */
    method QueueEventNotify()
      requires Valid()
      modifies this, handles
      ensures Valid() && View() == AfterDispatch(old(View()))
    {
      ghost var before := View();
      FlagAllEventsReady();
      assert EntriesOf(handles) == Readied(before.entries);
      DrainQueue();
      assert delivered == before.delivered + Deliveries(Readied(before.entries), before.queue);
      RemoveUnregisteredEvents();
      assert View() == AfterDispatch(before);
    }

    method AddHandle(eventType: EventType) returns (handle: EventHandle)
      requires Valid()
      modifies this`handles, this`numberOfEventHandles
      ensures Valid() && fresh(handle)
      ensures EntriesOf(handles) == old(EntriesOf(handles)) + [Entry(handle, false, true, eventType)]
      ensures numberOfEventHandles == Wrap(old(numberOfEventHandles) + 1)
    {
      hide Wrap;
      handle := new EventHandle(eventType);
      numberOfEventHandles := Wrap(numberOfEventHandles + 1);
      handles := handles + [handle];
    }

    /** EventRegisterHandler; `pollsStart` is whether the poll events can be created when they are needed. */
    method RegisterHandler(eventType: EventType, hasHandle: bool, hasFunction: bool, pollsStart: bool)
      returns (status: Status, handle: EventHandle?)
      requires Valid()
      modifies this
      ensures Valid()
      ensures if !hasHandle || !hasFunction || eventType == {} then
                status == InvalidParameter && handle == null && View() == old(View())
              else if old(numberOfEventHandles) == 0 && !pollsStart then
                status == PollError && handle == null
                && View() == old(View()).(entries := Registered(old(EntriesOf(handles))))
              else
                status == Success && handle != null && fresh(handle)
                && Unlisted(old(View().entries), handle) && Listed(View().entries, handle, eventType)
                && View() == AfterRegister(old(View()), handle, eventType, pollsStart)
    {
      handle := null;
      if !hasHandle || !hasFunction || eventType == {} {
        return InvalidParameter, null;
      }
      RemoveUnregisteredEvents();
      if numberOfEventHandles == 0 {
        if !pollsStart {
          return PollError, null;
        }
        polling := true;
      }
      handle := AddHandle(eventType);
      hide Registered, Wrap, Listed, Unlisted;
      RegisterLists(old(View()), handle, eventType, pollsStart);
      status := Success;
    }

    /** The loop of EventUnregisterHandler for a single handle. */
    method UnregisterOne(handle: EventHandle) returns (status: Status)
      requires Valid()
      modifies this`numberOfEventHandles, handles
      ensures
        var entries := old(EntriesOf(handles));
        var k := FindHandle(entries, handle, 0);
        if k < |entries| then
          && status == Success && numberOfEventHandles == Wrap(old(numberOfEventHandles) - 1)
          && EntriesOf(handles) == entries[k := entries[k].(registered := false)]
        else
          && status == InvalidParameter && numberOfEventHandles == old(numberOfEventHandles)
          && EntriesOf(handles) == entries
    {
      ghost var entries := EntriesOf(handles);
      for i := 0 to |handles|
        invariant EntriesOf(handles) == entries && numberOfEventHandles == old(numberOfEventHandles)
        invariant FindHandle(entries, handle, 0) == FindHandle(entries, handle, i)
      {
        if handles[i] == handle {
          handles[i].registered := false;
          numberOfEventHandles := Wrap(numberOfEventHandles - 1);
          return Success;
        }
      }
      status := InvalidParameter;
    }

    /** The loop of EventUnregisterHandler for the handle -1: every entry counts, registered or not. */
    method UnregisterEvery() returns (status: Status)
      requires Valid()
      modifies this`numberOfEventHandles, handles
      ensures status == if handles == [] then InvalidParameter else Success
      ensures numberOfEventHandles == Wrap(old(numberOfEventHandles) - |handles|)
      ensures EntriesOf(handles) == Dropped(old(EntriesOf(handles)))
    {
      ghost var entries := EntriesOf(handles);
      status := InvalidParameter;
      WrapAdd(numberOfEventHandles, 0);
      for i := 0 to |handles|
        invariant status == if i == 0 then InvalidParameter else Success
        invariant numberOfEventHandles == Wrap(old(numberOfEventHandles) - i)
        invariant forall k :: 0 <= k < i ==> handles[k].View() == entries[k].(registered := false)
        invariant forall k :: i <= k < |handles| ==> handles[k].View() == entries[k]
      {
        handles[i].registered := false;
        WrapAdd(old(numberOfEventHandles) - i, -1);
        numberOfEventHandles := Wrap(numberOfEventHandles - 1);
        status := Success;
      }
    }

    /** EventUnregisterHandler. */
    method UnregisterHandler(target: Target) returns (status: Status)
      requires Valid()
      modifies this, handles
      ensures Valid()
      ensures View() == Unregistered(old(View()), target)
      ensures status == if Concerns(old(handles), target) then Success else InvalidParameter
    {
      hide FindHandle, Dropped, Wrap;
      match target {
        case One(handle) => status := UnregisterOne(handle);
        case All => status := UnregisterEvery();
      }
      if numberOfEventHandles == 0 {
        polling := false;
      }
    }
  }
}
