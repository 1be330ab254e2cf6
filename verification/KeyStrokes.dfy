/**
  One keyboard poll as a function: from the slots and flags before it and the polled keys to those after it and the
  events it queues.
*/
module KeyStrokes {

  type KeyCode = nat
  type ModifierMap = bv16

  // Values of AppleHid.h, which is not part of this model; no property depends on them beyond CAPS_LOCK != 0.
  const CAPS_LOCK: KeyCode := 0x739
  const KEY_A: KeyCode := 0x704
  const KEY_Z: KeyCode := 0x71D
  const SHIFT: ModifierMap := 0x22

  const SLOT_COUNT: int := 10
  const KEY_STROKE_DELAY: int := 5

  /** KEY_STROKE_INFORMATION: a tracked key, for how many polls it has been held, and whether it is repeating. */
  datatype Slot = Slot(code: KeyCode, strokes: nat, current: bool)

  const EMPTY: Slot := Slot(0, 0, false)

  datatype State = State(
    slots: seq<Slot>,
    modifiers: ModifierMap,
    previous: ModifierMap,
    cLockOn: bool,
    cLockChanged: bool)

  datatype Event =
    | KeyUp(code: KeyCode, shifted: bool, modifiers: ModifierMap)
    | KeyDown(code: KeyCode, shifted: bool, modifiers: ModifierMap)
    | ModifierUp(modifiers: ModifierMap)
    | ModifierDown(modifiers: ModifierMap)

  predicate IsLetter(code: KeyCode) {
    KEY_A <= code <= KEY_Z
  }

  function Initial(): State {
    State(seq(SLOT_COUNT, _ => EMPTY), 0, 0, false, false)
  }

  /** The least index from `i` on whose slot holds `code`, or the number of slots. */
  function Find(slots: seq<Slot>, code: KeyCode, i: nat): (index: nat)
    requires i <= |slots|
    ensures i <= index <= |slots|
    ensures forall k :: i <= k < index ==> slots[k].code != code
    ensures index < |slots| ==> slots[index].code == code
    decreases |slots| - i
  {
    if i < |slots| && slots[i].code != code then Find(slots, code, i + 1) else i
  }

  predicate Holds(slots: seq<Slot>, code: KeyCode) {
    Find(slots, code, 0) < |slots|
  }

  function Cancelled(slots: seq<Slot>): seq<Slot> {
    seq(|slots|, i requires 0 <= i < |slots| => slots[i].(current := false))
  }

  function ReleaseOne(slot: Slot, keys: seq<KeyCode>): Slot {
    if slot.code in keys then slot else EMPTY
  }

  function Released(slots: seq<Slot>, keys: seq<KeyCode>): seq<Slot> {
    seq(|slots|, i requires 0 <= i < |slots| => ReleaseOne(slots[i], keys))
  }

  function CodeReleased(slot: Slot, keys: seq<KeyCode>): seq<KeyCode> {
    if slot.code !in keys && slot.code != 0 then [slot.code] else []
  }

  function ReleasedCodes(slots: seq<Slot>, keys: seq<KeyCode>): (codes: seq<KeyCode>)
    ensures |codes| <= |slots|
    ensures forall c <- codes :: c !in keys && c != 0
  {
    if slots == [] then []
    else
      var n := |slots| - 1;
      ReleasedCodes(slots[..n], keys) + CodeReleased(slots[n], keys)
  }

  lemma NothingReleased(none: seq<Slot>, keys: seq<KeyCode>)
    requires none == []
    ensures ReleasedCodes(none, keys) == []
  {
  }

  lemma ReleasedCodesNext(slots: seq<Slot>, n: nat, keys: seq<KeyCode>)
    requires n < |slots|
    ensures ReleasedCodes(slots[..n + 1], keys) == ReleasedCodes(slots[..n], keys) + CodeReleased(slots[n], keys)
  {
    assert slots[..n + 1][..n] == slots[..n];
  }

  /** Caps Lock is reported as released also when it never got a slot. */
  function CapsLockRelease(cLockChanged: bool, keys: seq<KeyCode>): seq<KeyCode> {
    if cLockChanged && CAPS_LOCK !in keys then [CAPS_LOCK] else []
  }

  /** Caps Lock toggles when it is polled without having a slot and without having toggled already. */
  predicate Toggles(slots: seq<Slot>, cLockChanged: bool, keys: seq<KeyCode>) {
    CAPS_LOCK in keys && !Holds(slots, CAPS_LOCK) && !cLockChanged
  }

  function Insert(slots: seq<Slot>, code: KeyCode): seq<Slot> {
    var free := Find(slots, 0, 0);
    if free < |slots| then slots[free := Slot(code, 0, true)] else slots
  }

  /** Counts a poll for the tracked keys up to the first untracked one, which takes over. */
  function Press(slots: seq<Slot>, keys: seq<KeyCode>): (pressed: seq<Slot>)
    ensures |pressed| == |slots|
    decreases keys
  {
    if keys == [] then slots
    else
      var index := Find(slots, keys[0], 0);
      if index < |slots| then
        Press(slots[index := slots[index].(strokes := slots[index].strokes + 1)], keys[1..])
      else
        Insert(Cancelled(slots), keys[0])
  }

  /** The least index from `i` on whose slot is the current stroke, or the number of slots. */
  function Current(slots: seq<Slot>, i: nat): (index: nat)
    requires i <= |slots|
    ensures i <= index <= |slots|
    ensures forall k :: i <= k < index ==> !slots[k].current
    ensures index < |slots| ==> slots[index].current
    decreases |slots| - i
  {
    if i < |slots| && !slots[i].current then Current(slots, i + 1) else i
  }

  /** A key repeats 50 polls after it was pressed and then every fifth poll. */
  predicate Accepted(strokes: nat) {
    if strokes < KEY_STROKE_DELAY * 10 then strokes == 0 else strokes % KEY_STROKE_DELAY == 0
  }

  function KeyUps(codes: seq<KeyCode>, modifiers: ModifierMap): (events: seq<Event>)
    ensures |events| == |codes|
  {
    seq(|codes|, i requires 0 <= i < |codes| => KeyUp(codes[i], modifiers & SHIFT != 0, modifiers))
  }

  function Lost(before: ModifierMap, after: ModifierMap): ModifierMap {
    (before ^ after) & before
  }

  function Gained(before: ModifierMap, after: ModifierMap): ModifierMap {
    (before ^ after) & after
  }

  /** EventCreateEventQueue ignores an event that carries neither key data nor modifiers. */
  function IfAny(event: Event): seq<Event> {
    if event.modifiers != 0 then [event] else []
  }

  function ModifierEvents(before: ModifierMap, after: ModifierMap): seq<Event> {
    if before == after then []
    else IfAny(ModifierUp(Lost(before, after))) + IfAny(ModifierDown(Gained(before, after)))
  }

  /** A modifier change cancels the current stroke. */
  function Started(st: State, modifiers: ModifierMap): (slots: seq<Slot>)
    ensures |slots| == |st.slots|
  {
    if st.modifiers != modifiers then Cancelled(st.slots) else st.slots
  }

  /** Slots after the poll. */
  function SlotsAfter(st: State, modifiers: ModifierMap, keys: seq<KeyCode>): (slots: seq<Slot>)
    ensures |slots| == |st.slots|
  {
    Press(Released(Started(st, modifiers), keys), keys)
  }

  predicate CapsLockToggles(st: State, modifiers: ModifierMap, keys: seq<KeyCode>) {
    Toggles(Released(Started(st, modifiers), keys), st.cLockChanged && CAPS_LOCK in keys, keys)
  }

  predicate CapsLockAfter(st: State, modifiers: ModifierMap, keys: seq<KeyCode>) {
    st.cLockOn != CapsLockToggles(st, modifiers, keys)
  }

  function CodesReleased(st: State, modifiers: ModifierMap, keys: seq<KeyCode>): seq<KeyCode> {
    ReleasedCodes(Started(st, modifiers), keys) + CapsLockRelease(st.cLockChanged, keys)
  }

  /** KEY_UP events carry Shift while Caps Lock is on. */
  function KeyUpsOf(st: State, modifiers: ModifierMap, keys: seq<KeyCode>): seq<Event> {
    KeyUps(CodesReleased(st, modifiers, keys),
           if CapsLockAfter(st, modifiers, keys) then modifiers | SHIFT else modifiers)
  }

  function KeyDownOf(slot: Slot, cLockOn: bool, modifiers: ModifierMap): Event {
    KeyDown(slot.code, (IsLetter(slot.code) && cLockOn) != (modifiers & SHIFT != 0), modifiers)
  }

  /** Whether the poll ends in success; otherwise neither a key nor a modifier change is reported. */
  predicate Reports(st: State, modifiers: ModifierMap, keys: seq<KeyCode>) {
    var slots := SlotsAfter(st, modifiers, keys);
    var current := Current(slots, 0);
    if current < |slots| then Accepted(slots[current].strokes) else st.modifiers != modifiers
  }

  function KeyDownsOf(st: State, modifiers: ModifierMap, keys: seq<KeyCode>): seq<Event> {
    var slots := SlotsAfter(st, modifiers, keys);
    var current := Current(slots, 0);
    if current < |slots| && Accepted(slots[current].strokes) then
      [KeyDownOf(slots[current], CapsLockAfter(st, modifiers, keys), modifiers)]
    else
      []
  }

  function PollEvents(st: State, modifiers: ModifierMap, keys: seq<KeyCode>): seq<Event> {
    KeyUpsOf(st, modifiers, keys)
    + (if Reports(st, modifiers, keys) then
         KeyDownsOf(st, modifiers, keys) + ModifierEvents(st.previous, modifiers)
       else
         [])
  }

  function PollState(st: State, modifiers: ModifierMap, keys: seq<KeyCode>): State {
    State(
      SlotsAfter(st, modifiers, keys),
      modifiers,
      if Reports(st, modifiers, keys) then modifiers else st.previous,
      CapsLockAfter(st, modifiers, keys),
      (st.cLockChanged && CAPS_LOCK in keys) || CapsLockToggles(st, modifiers, keys))
  }
}
