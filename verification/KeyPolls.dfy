/** What single polls keep: tracked keys, reported strokes, modifiers and Caps Lock. */
module KeyPolls {
  import opened KeyStrokes

  /** Slots hold distinct keys, free slots are cleared, and at most one key repeats. */
  ghost predicate Tidy(slots: seq<Slot>) {
    && |slots| == SLOT_COUNT
    && (forall i :: 0 <= i < |slots| && slots[i].code == 0 ==> slots[i] == EMPTY)
    && (forall i, j :: 0 <= i < j < |slots| && slots[i].code != 0 ==> slots[i].code != slots[j].code)
    && (forall i, j :: 0 <= i < j < |slots| && slots[i].current ==> !slots[j].current)
  }

  ghost function Held(slots: seq<Slot>): set<KeyCode> {
    set slot <- slots | slot.code != 0 :: slot.code
  }

  ghost function Kept(held: set<KeyCode>, keys: seq<KeyCode>): set<KeyCode> {
    set c <- held | c in keys
  }

  ghost predicate SameCodes(a: seq<Slot>, b: seq<Slot>) {
    |a| == |b| && forall i :: 0 <= i < |a| ==> a[i].code == b[i].code
  }

  ghost predicate NoCurrent(slots: seq<Slot>) {
    forall slot <- slots :: !slot.current
  }

  lemma FindSame(a: seq<Slot>, b: seq<Slot>, code: KeyCode, i: nat)
    requires SameCodes(a, b) && i <= |a|
    ensures Find(a, code, i) == Find(b, code, i)
  {
  }

  lemma HeldSame(a: seq<Slot>, b: seq<Slot>)
    requires SameCodes(a, b)
    ensures Held(a) == Held(b)
  {
  }

  lemma HoldsIsHeld(slots: seq<Slot>, code: KeyCode)
    requires code != 0
    ensures Holds(slots, code) <==> code in Held(slots)
  {
  }

  lemma CancelledTidy(slots: seq<Slot>)
    ensures NoCurrent(Cancelled(slots)) && SameCodes(Cancelled(slots), slots)
    ensures Tidy(slots) ==> Tidy(Cancelled(slots))
    ensures Held(Cancelled(slots)) == Held(slots)
  {
  }

  lemma StartedTidy(st: State, modifiers: ModifierMap)
    requires Tidy(st.slots)
    ensures Tidy(Started(st, modifiers)) && Held(Started(st, modifiers)) == Held(st.slots)
    ensures st.modifiers != modifiers ==> NoCurrent(Started(st, modifiers))
  {
    CancelledTidy(st.slots);
  }

  lemma ReleasedTidy(slots: seq<Slot>, keys: seq<KeyCode>)
    requires Tidy(slots) && 0 !in keys
    ensures Tidy(Released(slots, keys))
    ensures NoCurrent(slots) ==> NoCurrent(Released(slots, keys))
    ensures Held(Released(slots, keys)) == Kept(Held(slots), keys)
  {
    ReleasedHeld(slots, keys);
    assert forall i :: 0 <= i < |slots| ==> slots[i] in slots;
  }

  lemma ReleasedHeld(slots: seq<Slot>, keys: seq<KeyCode>)
    ensures Held(Released(slots, keys)) == Kept(Held(slots), keys)
  {
    var after := Released(slots, keys);
    forall c
      ensures c in Held(after) <==> c in Held(slots) && c in keys
    {
      if c in Held(after) {
        var i :| 0 <= i < |after| && after[i].code == c;
        assert slots[i] in slots;
      }
      if c in Held(slots) && c in keys {
        var i :| 0 <= i < |slots| && slots[i].code == c;
        assert after[i] in after;
      }
    }
  }

  lemma {:induction false} ReleasedCodesAre(slots: seq<Slot>, keys: seq<KeyCode>)
    ensures forall c :: c in ReleasedCodes(slots, keys) <==> c in Held(slots) && c !in keys
  {
    if slots != [] {
      var n := |slots| - 1;
      ReleasedCodesAre(slots[..n], keys);
      assert slots == slots[..n] + [slots[n]];
      assert Held(slots) == Held(slots[..n]) + if slots[n].code != 0 then {slots[n].code} else {};
    }
  }

  /** The first polled key without a slot, or 0. */
  function NewKey(slots: seq<Slot>, keys: seq<KeyCode>): (code: KeyCode)
    ensures code != 0 ==> code in keys && !Holds(slots, code)
    ensures code == 0 && 0 !in keys ==> forall k <- keys :: Holds(slots, k)
    decreases keys
  {
    if keys == [] then 0
    else if Holds(slots, keys[0]) then NewKey(slots, keys[1..])
    else keys[0]
  }

  lemma {:induction false} NewKeySame(a: seq<Slot>, b: seq<Slot>, keys: seq<KeyCode>)
    requires SameCodes(a, b)
    ensures NewKey(a, keys) == NewKey(b, keys)
    decreases keys
  {
    if keys != [] {
      FindSame(a, b, keys[0], 0);
      NewKeySame(a, b, keys[1..]);
    }
  }

  ghost predicate SameCurrent(a: seq<Slot>, b: seq<Slot>) {
    |a| == |b| && forall i :: 0 <= i < |a| ==> a[i].current == b[i].current
  }

  ghost predicate FreeStaysClear(before: seq<Slot>, after: seq<Slot>) {
    |before| == |after|
    && forall i :: 0 <= i < |after| && before[i] == EMPTY && after[i].code == 0 ==> after[i] == EMPTY
  }

  /** Without a new key only strokes are counted; with one, it takes the first free slot and every other key rests. */
  ghost predicate Pressed(before: seq<Slot>, after: seq<Slot>, code: KeyCode) {
    var free := Find(before, 0, 0);
    && FreeStaysClear(before, after)
    && if code == 0 then SameCodes(after, before) && SameCurrent(after, before)
       else if free == |before| then SameCodes(after, before) && NoCurrent(after)
       else
         && after[free] == Slot(code, 0, true)
         && forall i :: 0 <= i < |before| && i != free ==> after[i].code == before[i].code && !after[i].current
  }

  lemma PressedFromCounted(before: seq<Slot>, counted: seq<Slot>, after: seq<Slot>, code: KeyCode)
    requires SameCodes(counted, before) && SameCurrent(counted, before) && FreeStaysClear(before, counted)
    requires Pressed(counted, after, code)
    ensures Pressed(before, after, code)
  {
  }

  lemma InsertPresses(slots: seq<Slot>, code: KeyCode)
    requires code != 0
    ensures Pressed(slots, Insert(Cancelled(slots), code), code)
  {
  }

  lemma NothingPressed(slots: seq<Slot>)
    ensures Pressed(slots, slots, 0)
  {
  }

  /** Counting a stroke of a tracked key changes neither codes nor the current stroke. */
  lemma CountedSame(slots: seq<Slot>, index: nat)
    requires index < |slots| && slots[index].code != 0
    ensures
      var counted := slots[index := slots[index].(strokes := slots[index].strokes + 1)];
      SameCodes(counted, slots) && SameCurrent(counted, slots) && FreeStaysClear(slots, counted)
  {
  }

  lemma {:induction false} PressEffect(slots: seq<Slot>, keys: seq<KeyCode>)
    requires 0 !in keys
    ensures Pressed(slots, Press(slots, keys), NewKey(slots, keys))
    decreases keys
  {
    hide Pressed, Insert, Cancelled;
    if keys == [] {
      NothingPressed(slots);
    } else {
      var index := Find(slots, keys[0], 0);
      if index < |slots| {
        var counted := slots[index := slots[index].(strokes := slots[index].strokes + 1)];
        CountedSame(slots, index);
        PressEffect(counted, keys[1..]);
        NewKeySame(counted, slots, keys[1..]);
        PressedFromCounted(slots, counted, Press(slots, keys), NewKey(slots, keys));
      } else {
        InsertPresses(slots, keys[0]);
      }
    }
  }

  /** The key a poll admits to the slots, or 0. */
  function Admitted(slots: seq<Slot>, keys: seq<KeyCode>): KeyCode {
    if Holds(slots, 0) then NewKey(slots, keys) else 0
  }

  lemma HeldInsert(before: seq<Slot>, after: seq<Slot>, place: nat, code: KeyCode)
    requires place < |before| == |after| && before[place].code == 0 && after[place].code == code != 0
    requires forall i :: 0 <= i < |before| && i != place ==> after[i].code == before[i].code
    ensures Held(after) == Held(before) + {code}
  {
  }

  lemma PressTidy(slots: seq<Slot>, keys: seq<KeyCode>)
    requires Tidy(slots) && 0 !in keys
    ensures Tidy(Press(slots, keys))
    ensures
      var code := Admitted(slots, keys);
      Held(Press(slots, keys)) == Held(slots) + if code == 0 then {} else {code}
  {
    PressEffect(slots, keys);
    var after, code, free := Press(slots, keys), NewKey(slots, keys), Find(slots, 0, 0);
    if code != 0 && free < |slots| {
      HeldInsert(slots, after, free, code);
    } else {
      HeldSame(after, slots);
    }
  }

  /** A key that takes a slot becomes the current stroke at once and is accepted in the same poll. */
  lemma PressStroke(slots: seq<Slot>, keys: seq<KeyCode>)
    requires Tidy(slots) && 0 !in keys
    ensures
      var after := Press(slots, keys);
      var current, code := Current(after, 0), Admitted(slots, keys);
      && (code != 0 ==> current < |after| && after[current] == Slot(code, 0, true))
      && (NoCurrent(slots) && code == 0 ==> current == |after|)
  {
    PressEffect(slots, keys);
    var after := Press(slots, keys);
    var current := Current(after, 0);
    if current < |after| {
      assert after[current] in after;
      assert slots[current] in slots;
    }
  }

  lemma CurrentIsHeld(slots: seq<Slot>)
    requires Tidy(slots)
    ensures Current(slots, 0) < |slots| ==> slots[Current(slots, 0)].code in Held(slots)
  {
  }

  /** The keys tracked after a poll: those still held, and the admitted one. */
  lemma PollHolds(st: State, modifiers: ModifierMap, keys: seq<KeyCode>)
    requires Tidy(st.slots) && 0 !in keys
    ensures Tidy(SlotsAfter(st, modifiers, keys))
    ensures
      var kept := Kept(Held(st.slots), keys);
      var code := Admitted(Released(Started(st, modifiers), keys), keys);
      Held(SlotsAfter(st, modifiers, keys)) == kept + if code == 0 then {} else {code}
  {
    StartedTidy(st, modifiers);
    ReleasedTidy(Started(st, modifiers), keys);
    PressTidy(Released(Started(st, modifiers), keys), keys);
  }

  // Replaying the key events.

  ghost function ReplayOne(held: set<KeyCode>, event: Event): set<KeyCode> {
    match event
    case KeyUp(code, _, _) => held - {code}
    case KeyDown(code, _, _) => held + {code}
    case _ => held
  }

  /** The keys a listener believes to be held. */
  ghost function Replay(events: seq<Event>, held: set<KeyCode>): set<KeyCode> {
    if events == [] then held
    else ReplayOne(Replay(events[..|events| - 1], held), events[|events| - 1])
  }

  lemma {:induction false} ReplayAppend(first: seq<Event>, second: seq<Event>, held: set<KeyCode>)
    ensures Replay(first + second, held) == Replay(second, Replay(first, held))
  {
    if second == [] {
      assert first + second == first;
    } else {
      var n := |second| - 1;
      assert (first + second)[..|first + second| - 1] == first + second[..n];
      ReplayAppend(first, second[..n], held);
    }
  }

  lemma {:induction false} ReplayKeyUps(codes: seq<KeyCode>, modifiers: ModifierMap, held: set<KeyCode>)
    ensures Replay(KeyUps(codes, modifiers), held) == held - set c <- codes
  {
    if codes != [] {
      var n := |codes| - 1;
      assert KeyUps(codes, modifiers)[..n] == KeyUps(codes[..n], modifiers);
      ReplayKeyUps(codes[..n], modifiers, held);
      assert codes == codes[..n] + [codes[n]];
    }
  }

  lemma ReplayModifierEvents(before: ModifierMap, after: ModifierMap, held: set<KeyCode>)
    ensures Replay(ModifierEvents(before, after), held) == held
  {
    ReplayAppend(IfAny(ModifierUp(Lost(before, after))), IfAny(ModifierDown(Gained(before, after))), held);
  }

  lemma KeyUpsLeaveKept(st: State, modifiers: ModifierMap, keys: seq<KeyCode>)
    requires Tidy(st.slots) && 0 !in keys
    ensures Replay(KeyUpsOf(st, modifiers, keys), Held(st.slots)) == Kept(Held(st.slots), keys)
  {
    var codes := CodesReleased(st, modifiers, keys);
    ReplayKeyUps(codes, if CapsLockAfter(st, modifiers, keys) then modifiers | SHIFT else modifiers, Held(st.slots));
    StartedTidy(st, modifiers);
    ReleasedCodesAre(Started(st, modifiers), keys);
    assert forall c :: c in codes ==> c !in keys;
    assert forall c :: c in Held(st.slots) && c !in keys ==> c in ReleasedCodes(Started(st, modifiers), keys);
  }

  /** A poll that admits a key reports its KEY_DOWN; any other KEY_DOWN repeats a key that is held already. */
  lemma KeyDownsTellAdmitted(st: State, modifiers: ModifierMap, keys: seq<KeyCode>)
    requires Tidy(st.slots) && 0 !in keys
    ensures
      var code := Admitted(Released(Started(st, modifiers), keys), keys);
      && (code != 0 ==>
            && Reports(st, modifiers, keys)
            && |KeyDownsOf(st, modifiers, keys)| == 1 && KeyDownsOf(st, modifiers, keys)[0].code == code)
      && (forall event <- KeyDownsOf(st, modifiers, keys) ::
            event.KeyDown? && event.code in Held(SlotsAfter(st, modifiers, keys)))
  {
    StartedTidy(st, modifiers);
    ReleasedTidy(Started(st, modifiers), keys);
    PressStroke(Released(Started(st, modifiers), keys), keys);
    PollHolds(st, modifiers, keys);
    CurrentIsHeld(SlotsAfter(st, modifiers, keys));
  }

  lemma DownsCompleteKept(st: State, modifiers: ModifierMap, keys: seq<KeyCode>)
    requires Tidy(st.slots) && 0 !in keys
    ensures
      var kept := Kept(Held(st.slots), keys);
      Replay(if Reports(st, modifiers, keys) then KeyDownsOf(st, modifiers, keys) else [], kept)
      == Held(SlotsAfter(st, modifiers, keys))
  {
    var kept := Kept(Held(st.slots), keys);
    var downs := KeyDownsOf(st, modifiers, keys);
    PollHolds(st, modifiers, keys);
    KeyDownsTellAdmitted(st, modifiers, keys);
    if downs != [] {
      assert downs[0] in downs;
      assert Replay(downs, kept) == ReplayOne(Replay(downs[..0], kept), downs[0]);
    }
  }

  lemma ReplayReported(
    ups: seq<Event>, downs: seq<Event>, changes: seq<Event>, reports: bool,
    held: set<KeyCode>, kept: set<KeyCode>, after: set<KeyCode>)
    requires Replay(ups, held) == kept
    requires Replay(if reports then downs else [], kept) == after
    requires Replay(changes, after) == after
    ensures Replay(ups + (if reports then downs + changes else []), held) == after
  {
    ReplayAppend(ups, if reports then downs + changes else [], held);
    ReplayAppend(downs, changes, kept);
  }

  /** Replaying the events of a poll turns the tracked keys before it into those after it. */
  lemma PollReplays(st: State, modifiers: ModifierMap, keys: seq<KeyCode>)
    requires Tidy(st.slots) && 0 !in keys
    ensures Replay(PollEvents(st, modifiers, keys), Held(st.slots)) == Held(SlotsAfter(st, modifiers, keys))
  {
    var after := Held(SlotsAfter(st, modifiers, keys));
    KeyUpsLeaveKept(st, modifiers, keys);
    DownsCompleteKept(st, modifiers, keys);
    ReplayModifierEvents(st.previous, modifiers, after);
    ReplayReported(
      KeyUpsOf(st, modifiers, keys), KeyDownsOf(st, modifiers, keys), ModifierEvents(st.previous, modifiers),
      Reports(st, modifiers, keys), Held(st.slots), Kept(Held(st.slots), keys), after);
  }

  // Modifiers.

  /** A modifier change never ends in EFI_NOT_READY. */
  lemma ModifierChangeReports(st: State, modifiers: ModifierMap, keys: seq<KeyCode>)
    requires Tidy(st.slots) && 0 !in keys
    requires st.modifiers != modifiers
    ensures Reports(st, modifiers, keys)
  {
    StartedTidy(st, modifiers);
    ReleasedTidy(Started(st, modifiers), keys);
    PressStroke(Released(Started(st, modifiers), keys), keys);
  }

  // Caps Lock.

  /** Caps Lock toggles exactly on a poll that has it when the previous one had not, slot or no slot. */
  lemma CapsLockTogglesOnRisingEdge(st: State, modifiers: ModifierMap, keys: seq<KeyCode>, lastKeys: seq<KeyCode>)
    requires Tidy(st.slots) && 0 !in keys
    requires forall c <- Held(st.slots) :: c in lastKeys
    requires st.cLockChanged <==> CAPS_LOCK in lastKeys
    ensures CapsLockToggles(st, modifiers, keys) <==> CAPS_LOCK in keys && CAPS_LOCK !in lastKeys
    ensures PollState(st, modifiers, keys).cLockChanged <==> CAPS_LOCK in keys
  {
  }
}
