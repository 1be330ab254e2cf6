/** What holds over every run of polls from the initial state. */
module KeyRuns {
  import opened FiniteSets
  import opened KeyStrokes
  import opened KeyPolls

  /** What the key map aggregator returns for one poll. */
  datatype Sample = Sample(modifiers: ModifierMap, keys: seq<KeyCode>)

  /** Key codes are never 0, which marks a free slot. */
  ghost predicate Proper(run: seq<Sample>) {
    forall sample <- run :: 0 !in sample.keys
  }

  function After(st: State, run: seq<Sample>): State {
    if run == [] then st
    else
      var n := |run| - 1;
      PollState(After(st, run[..n]), run[n].modifiers, run[n].keys)
  }

  function Trace(st: State, run: seq<Sample>): seq<Event> {
    if run == [] then []
    else
      var n := |run| - 1;
      Trace(st, run[..n]) + PollEvents(After(st, run[..n]), run[n].modifiers, run[n].keys)
  }

  function LastModifiers(run: seq<Sample>): ModifierMap {
    if run == [] then 0 else run[|run| - 1].modifiers
  }

  function LastKeys(run: seq<Sample>): seq<KeyCode> {
    if run == [] then [] else run[|run| - 1].keys
  }

  ghost predicate Invariant(st: State, modifiers: ModifierMap, keys: seq<KeyCode>) {
    && Tidy(st.slots)
    && (forall c <- Held(st.slots) :: c in keys)
    && st.modifiers == st.previous == modifiers
    && (st.cLockChanged <==> CAPS_LOCK in keys)
  }

  lemma InvariantInitially()
    ensures Invariant(Initial(), 0, []) && Held(Initial().slots) == {}
  {
  }

  lemma InvariantStep(
    st: State, modifiers: ModifierMap, keys: seq<KeyCode>, lastModifiers: ModifierMap, lastKeys: seq<KeyCode>)
    requires Invariant(st, lastModifiers, lastKeys) && 0 !in keys
    ensures Invariant(PollState(st, modifiers, keys), modifiers, keys)
    ensures PollState(st, modifiers, keys).cLockOn
            == (st.cLockOn != (CAPS_LOCK in keys && CAPS_LOCK !in lastKeys))
  {
    PollHolds(st, modifiers, keys);
    CapsLockTogglesOnRisingEdge(st, modifiers, keys, lastKeys);
    if lastModifiers != modifiers {
      ModifierChangeReports(st, modifiers, keys);
    }
  }

  /** After every poll both modifier copies are the polled modifiers and only polled keys are tracked. */
  lemma {:induction false} RunInvariant(run: seq<Sample>)
    requires Proper(run)
    ensures Invariant(After(Initial(), run), LastModifiers(run), LastKeys(run))
  {
    if run == [] {
      InvariantInitially();
    } else {
      var n := |run| - 1;
      RunInvariant(run[..n]);
      assert run[n] in run;
      InvariantStep(After(Initial(), run[..n]), run[n].modifiers, run[n].keys,
        LastModifiers(run[..n]), LastKeys(run[..n]));
    }
  }

  /** A listener that follows KEY_DOWN and KEY_UP always knows exactly the tracked keys. */
  lemma {:induction false} RunReplaysKeys(run: seq<Sample>)
    requires Proper(run)
    ensures Replay(Trace(Initial(), run), {}) == Held(After(Initial(), run).slots)
  {
    if run == [] {
      InvariantInitially();
    } else {
      var n := |run| - 1;
      var before := After(Initial(), run[..n]);
      RunInvariant(run[..n]);
      RunReplaysKeys(run[..n]);
      assert run[n] in run;
      PollReplays(before, run[n].modifiers, run[n].keys);
      ReplayAppend(Trace(Initial(), run[..n]), PollEvents(before, run[n].modifiers, run[n].keys), {});
    }
  }

  // Modifiers.

  function FollowOne(held: ModifierMap, event: Event): ModifierMap {
    match event
    case ModifierUp(modifiers) => held & !modifiers
    case ModifierDown(modifiers) => held | modifiers
    case _ => held
  }

  /** The modifiers a listener believes to be held. */
  function Follow(events: seq<Event>, held: ModifierMap): ModifierMap {
    if events == [] then held
    else FollowOne(Follow(events[..|events| - 1], held), events[|events| - 1])
  }

  lemma {:induction false} FollowAppend(first: seq<Event>, second: seq<Event>, held: ModifierMap)
    ensures Follow(first + second, held) == Follow(second, Follow(first, held))
  {
    if second == [] {
      assert first + second == first;
    } else {
      var n := |second| - 1;
      assert (first + second)[..|first + second| - 1] == first + second[..n];
      FollowAppend(first, second[..n], held);
    }
  }

  lemma {:induction false} FollowKeyEvents(events: seq<Event>, held: ModifierMap)
    requires forall event <- events :: event.KeyUp? || event.KeyDown?
    ensures Follow(events, held) == held
  {
    if events != [] {
      assert events[|events| - 1] in events;
      FollowKeyEvents(events[..|events| - 1], held);
    }
  }

  lemma LostAndGained(before: ModifierMap, after: ModifierMap)
    ensures (before & !Lost(before, after)) | Gained(before, after) == after
    ensures Lost(before, after) & !before == 0 && Gained(before, after) & before == 0
  {
  }

  lemma FollowIfAny(event: Event, held: ModifierMap)
    requires event.ModifierUp? || event.ModifierDown?
    ensures Follow(IfAny(event), held) == FollowOne(held, event)
  {
    assert held & !0 == held && held | 0 == held;
    if event.modifiers != 0 {
      assert Follow([event], held) == FollowOne(Follow([event][..0], held), event);
    }
  }

  lemma FollowModifierEvents(before: ModifierMap, after: ModifierMap)
    ensures Follow(ModifierEvents(before, after), before) == after
  {
    if before != after {
      var up, down := ModifierUp(Lost(before, after)), ModifierDown(Gained(before, after));
      FollowAppend(IfAny(up), IfAny(down), before);
      FollowIfAny(up, before);
      FollowIfAny(down, FollowOne(before, up));
      LostAndGained(before, after);
    }
  }

  lemma FollowReported(keyEvents: seq<Event>, before: ModifierMap, after: ModifierMap)
    requires forall event <- keyEvents :: event.KeyUp? || event.KeyDown?
    ensures Follow(keyEvents + ModifierEvents(before, after), before) == after
  {
    FollowKeyEvents(keyEvents, before);
    FollowModifierEvents(before, after);
    FollowAppend(keyEvents, ModifierEvents(before, after), before);
  }

  lemma FollowPoll(
    ups: seq<Event>, downs: seq<Event>, reports: bool, before: ModifierMap, after: ModifierMap)
    requires forall event <- ups + downs :: event.KeyUp? || event.KeyDown?
    requires !reports ==> before == after
    ensures Follow(ups + (if reports then downs + ModifierEvents(before, after) else []), before) == after
  {
    if reports {
      FollowReported(ups + downs, before, after);
      assert ups + (downs + ModifierEvents(before, after)) == ups + downs + ModifierEvents(before, after);
    } else {
      FollowKeyEvents(ups, before);
      assert ups + [] == ups;
    }
  }

  lemma PollFollows(st: State, modifiers: ModifierMap, keys: seq<KeyCode>)
    requires Tidy(st.slots) && 0 !in keys && st.modifiers == st.previous
    ensures Follow(PollEvents(st, modifiers, keys), st.previous) == modifiers
  {
    if st.modifiers != modifiers {
      ModifierChangeReports(st, modifiers, keys);
    }
    FollowPoll(KeyUpsOf(st, modifiers, keys), KeyDownsOf(st, modifiers, keys), Reports(st, modifiers, keys),
      st.previous, modifiers);
  }

  /** A listener that follows MODIFIER_UP and MODIFIER_DOWN always knows exactly the polled modifiers. */
  lemma {:induction false} RunFollowsModifiers(run: seq<Sample>)
    requires Proper(run)
    ensures Follow(Trace(Initial(), run), 0) == LastModifiers(run)
  {
    if run != [] {
      var n := |run| - 1;
      var before := After(Initial(), run[..n]);
      RunInvariant(run[..n]);
      RunFollowsModifiers(run[..n]);
      assert run[n] in run;
      PollFollows(before, run[n].modifiers, run[n].keys);
      FollowAppend(Trace(Initial(), run[..n]), PollEvents(before, run[n].modifiers, run[n].keys), 0);
    }
  }

  // Caps Lock.

  /** How often Caps Lock appeared in a poll after being absent from the one before. */
  function RisingEdges(run: seq<Sample>): nat {
    if run == [] then 0
    else
      var n := |run| - 1;
      RisingEdges(run[..n]) + if CAPS_LOCK in run[n].keys && CAPS_LOCK !in LastKeys(run[..n]) then 1 else 0
  }

  lemma CapsLockStep(run: seq<Sample>)
    requires Proper(run) && run != []
    ensures
      var n := |run| - 1;
      After(Initial(), run).cLockOn
      == (After(Initial(), run[..n]).cLockOn != (CAPS_LOCK in run[n].keys && CAPS_LOCK !in LastKeys(run[..n])))
  {
    var n := |run| - 1;
    RunInvariant(run[..n]);
    assert run[n] in run;
    InvariantStep(After(Initial(), run[..n]), run[n].modifiers, run[n].keys,
        LastModifiers(run[..n]), LastKeys(run[..n]));
  }

  lemma Parity(count: nat, more: bool)
    ensures (count + if more then 1 else 0) % 2 == 1 <==> (count % 2 == 1) != more
  {
  }

  lemma NothingPolled(run: seq<Sample>)
    requires run == []
    ensures After(Initial(), run) == Initial()
  {
  }

  /** Caps Lock is on after an odd number of presses, even if it never got a slot. */
  lemma {:induction false} RunCapsLock(run: seq<Sample>)
    requires Proper(run)
    ensures After(Initial(), run).cLockOn <==> RisingEdges(run) % 2 == 1
  {
    hide After, LastKeys;
    if run == [] {
      NothingPolled(run);
    } else {
      var n := |run| - 1;
      RunCapsLock(run[..n]);
      CapsLockStep(run);
      Parity(RisingEdges(run[..n]), CAPS_LOCK in run[n].keys && CAPS_LOCK !in LastKeys(run[..n]));
    }
  }

  // Bounds.

  /** The 12-entry release buffer always has room to spare. */
  lemma ReleaseBufferSuffices(st: State, modifiers: ModifierMap, keys: seq<KeyCode>)
    requires Tidy(st.slots)
    ensures |CodesReleased(st, modifiers, keys)| <= 11
  {
  }

  // Tracking a fixed set of keys.

  lemma HeldGrows(slots: seq<Slot>, slot: Slot)
    requires slot.code != 0
    ensures Held(slots + [slot]) == Held(slots) + {slot.code}
  {
  }

  lemma {:induction false} CodesAreMany(slots: seq<Slot>)
    requires forall i :: 0 <= i < |slots| ==> slots[i].code != 0
    requires forall i, j :: 0 <= i < j < |slots| ==> slots[i].code != slots[j].code
    ensures |Held(slots)| == |slots|
  {
    if slots == [] {
      assert Held(slots) == {};
    } else {
      var n := |slots| - 1;
      CodesAreMany(slots[..n]);
      HeldGrows(slots[..n], slots[n]);
      assert slots == slots[..n] + [slots[n]];
      assert forall slot <- slots[..n] :: slot.code != slots[n].code;
    }
  }

  lemma FullSlots(slots: seq<Slot>)
    requires Tidy(slots)
    ensures Holds(slots, 0) || |Held(slots)| == SLOT_COUNT
  {
    if !Holds(slots, 0) {
      assert forall i :: 0 <= i < |slots| ==> slots[i].code != 0;
      CodesAreMany(slots);
    }
  }

  ghost function KeySet(keys: seq<KeyCode>): set<KeyCode> {
    set key <- keys
  }

  /** With at most ten keys held, a poll tracks exactly one more of them, until all are tracked. */
  lemma PollTracksOneMore(st: State, modifiers: ModifierMap, keys: seq<KeyCode>)
    requires Tidy(st.slots) && 0 !in keys && |KeySet(keys)| <= SLOT_COUNT
    ensures
      var kept := Kept(Held(st.slots), keys);
      var after := Held(PollState(st, modifiers, keys).slots);
      && kept <= after <= KeySet(keys)
      && |after| == if kept == KeySet(keys) then |kept| else |kept| + 1
  {
    hide Tidy, Press, Released, Started, SlotsAfter, Holds, Held;
    var slots := Released(Started(st, modifiers), keys);
    var kept := Kept(Held(st.slots), keys);
    PollHolds(st, modifiers, keys);
    StartedTidy(st, modifiers);
    ReleasedTidy(Started(st, modifiers), keys);
    FullSlots(slots);
    var code := NewKey(slots, keys);
    if code == 0 {
      forall key | key in keys ensures key in kept {
        HoldsIsHeld(slots, key);
      }
      assert kept == KeySet(keys);
    } else {
      HoldsIsHeld(slots, code);
      assert code in KeySet(keys) && code !in kept;
      SubsetSize(kept, KeySet(keys));
    }
  }

  function Min(a: int, b: int): int {
    if a < b then a else b
  }

  lemma HeldKeysStep(st: State, sample: Sample, held: set<KeyCode>)
    requires Tidy(st.slots) && 0 !in sample.keys
    requires KeySet(sample.keys) == held && |held| <= SLOT_COUNT
    ensures
      var before, after := Held(st.slots) * held, Held(PollState(st, sample.modifiers, sample.keys).slots);
      && Tidy(PollState(st, sample.modifiers, sample.keys).slots)
      && after <= held && |before| <= |held|
      && |after * held| == Min(|held|, |before| + 1)
  {
    var after := Held(PollState(st, sample.modifiers, sample.keys).slots);
    PollHolds(st, sample.modifiers, sample.keys);
    PollTracksOneMore(st, sample.modifiers, sample.keys);
    assert Kept(Held(st.slots), sample.keys) == Held(st.slots) * held;
    assert after * held == after;
    SubsetSize(Held(st.slots) * held, held);
  }

  /** A fixed set of at most ten keys is tracked completely after as many polls as there are untracked keys. */
  lemma {:induction false} HeldKeysGetTracked(st: State, run: seq<Sample>, held: set<KeyCode>)
    requires Tidy(st.slots) && Proper(run) && |held| <= SLOT_COUNT
    requires forall sample <- run :: KeySet(sample.keys) == held
    ensures Tidy(After(st, run).slots)
    ensures run != [] ==> Held(After(st, run).slots) <= held
    ensures |Held(After(st, run).slots) * held| == Min(|held|, |Held(st.slots) * held| + |run|)
  {
    hide PollState, Tidy, Held;
    if run == [] {
      SubsetSize(Held(st.slots) * held, held);
    } else {
      var n := |run| - 1;
      HeldKeysGetTracked(st, run[..n], held);
      assert run[n] in run;
      HeldKeysStep(After(st, run[..n]), run[n], held);
    }
  }

  // Key repetition.

  function DownCount(events: seq<Event>): nat {
    if events == [] then 0
    else DownCount(events[..|events| - 1]) + if events[|events| - 1].KeyDown? then 1 else 0
  }

  lemma {:induction false} DownCountAppend(first: seq<Event>, second: seq<Event>)
    ensures DownCount(first + second) == DownCount(first) + DownCount(second)
  {
    if second == [] {
      assert first + second == first;
    } else {
      var n := |second| - 1;
      assert (first + second)[..|first + second| - 1] == first + second[..n];
      DownCountAppend(first, second[..n]);
    }
  }

  lemma {:induction false} NoDowns(events: seq<Event>)
    requires forall event <- events :: !event.KeyDown?
    ensures DownCount(events) == 0
  {
    if events != [] {
      assert events[|events| - 1] in events;
      NoDowns(events[..|events| - 1]);
    }
  }

  lemma DownsReported(ups: seq<Event>, downs: seq<Event>, changes: seq<Event>, reports: bool)
    requires forall event <- ups + changes :: !event.KeyDown?
    requires |downs| <= 1 && (downs != [] ==> reports && downs[0].KeyDown?)
    ensures DownCount(ups + (if reports then downs + changes else [])) == |downs|
  {
    NoDowns(ups);
    NoDowns(changes);
    DownCountAppend(downs, changes);
    DownCountAppend(ups, if reports then downs + changes else []);
    if downs != [] {
      assert DownCount(downs) == DownCount(downs[..0]) + 1;
    }
  }

  lemma DownCountOfPoll(st: State, modifiers: ModifierMap, keys: seq<KeyCode>)
    ensures DownCount(PollEvents(st, modifiers, keys)) == |KeyDownsOf(st, modifiers, keys)|
  {
    DownsReported(KeyUpsOf(st, modifiers, keys), KeyDownsOf(st, modifiers, keys),
      ModifierEvents(st.previous, modifiers), Reports(st, modifiers, keys));
  }

  /** The key sits alone in the first slot and has been held for `strokes` further polls. */
  ghost predicate Alone(slots: seq<Slot>, code: KeyCode, strokes: nat) {
    && |slots| == SLOT_COUNT && slots[0] == Slot(code, strokes, true)
    && forall i :: 1 <= i < |slots| ==> slots[i] == EMPTY
  }

  lemma AlonePressed(st: State, modifiers: ModifierMap, code: KeyCode)
    requires Tidy(st.slots) && code != 0 && code !in Held(st.slots)
    ensures Alone(SlotsAfter(st, modifiers, [code]), code, 0)
  {
  }

  lemma PressOne(slots: seq<Slot>, code: KeyCode)
    requires Find(slots, code, 0) < |slots|
    ensures
      var index := Find(slots, code, 0);
      Press(slots, [code]) == slots[index := slots[index].(strokes := slots[index].strokes + 1)]
  {
  }

  lemma AloneHeld(st: State, modifiers: ModifierMap, code: KeyCode, strokes: nat)
    requires Alone(st.slots, code, strokes) && code != 0 && st.modifiers == modifiers
    ensures Alone(SlotsAfter(st, modifiers, [code]), code, strokes + 1)
  {
    var released := Released(st.slots, [code]);
    assert Find(released, code, 0) == 0;
    PressOne(released, code);
  }

  /** KEY_DOWN events of a key on its own, `n` polls after it was pressed. */
  function Repeats(n: nat): nat {
    1 + if n < 50 then 0 else (n - 50) / 5 + 1
  }

  lemma AloneReports(st: State, modifiers: ModifierMap, code: KeyCode, strokes: nat)
    requires Alone(SlotsAfter(st, modifiers, [code]), code, strokes)
    ensures DownCount(PollEvents(st, modifiers, [code])) == if Accepted(strokes) then 1 else 0
  {
    DownCountOfPoll(st, modifiers, [code]);
  }

  lemma RepeatsStep(n: nat)
    ensures n > 0 ==> Repeats(n) == Repeats(n - 1) + if Accepted(n) then 1 else 0
  {
  }

  lemma TraceDowns(st: State, run: seq<Sample>)
    requires run != []
    ensures
      var n := |run| - 1;
      DownCount(Trace(st, run)) ==
      DownCount(Trace(st, run[..n])) + DownCount(PollEvents(After(st, run[..n]), run[n].modifiers, run[n].keys))
  {
    var n := |run| - 1;
    DownCountAppend(Trace(st, run[..n]), PollEvents(After(st, run[..n]), run[n].modifiers, run[n].keys));
  }

  lemma LoneKeyFirst(st: State, modifiers: ModifierMap, code: KeyCode)
    requires Tidy(st.slots) && code != 0 && code !in Held(st.slots)
    ensures Alone(PollState(st, modifiers, [code]).slots, code, 0)
    ensures DownCount(PollEvents(st, modifiers, [code])) == 1
  {
    AlonePressed(st, modifiers, code);
    AloneReports(st, modifiers, code, 0);
  }

  lemma LoneKeyNext(st: State, modifiers: ModifierMap, code: KeyCode, strokes: nat)
    requires Alone(st.slots, code, strokes) && code != 0 && st.modifiers == modifiers
    ensures Alone(PollState(st, modifiers, [code]).slots, code, strokes + 1)
    ensures DownCount(PollEvents(st, modifiers, [code])) == Repeats(strokes + 1) - Repeats(strokes)
  {
    AloneHeld(st, modifiers, code, strokes);
    AloneReports(st, modifiers, code, strokes + 1);
    RepeatsStep(strokes + 1);
  }

  /** A key pressed alone and held for n more polls: one KEY_DOWN, and after 50 polls another every fifth poll. */
  lemma {:induction false} LoneKeyRepeats(
    st: State, run: seq<Sample>, modifiers: ModifierMap, code: KeyCode, n: nat)
    requires Tidy(st.slots) && code != 0 && code !in Held(st.slots)
    requires |run| == n + 1 && forall i :: 0 <= i < |run| ==> run[i] == Sample(modifiers, [code])
    ensures DownCount(Trace(st, run)) == Repeats(n)
    ensures Alone(After(st, run).slots, code, n) && After(st, run).modifiers == modifiers
  {
    var before := After(st, run[..n]);
    TraceDowns(st, run);
    if n == 0 {
      LoneKeyFirst(before, modifiers, code);
    } else {
      LoneKeyRepeats(st, run[..n], modifiers, code, n - 1);
      LoneKeyNext(before, modifiers, code, n - 1);
    }
  }
}
