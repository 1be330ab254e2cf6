/** The keyboard poll handler in place on its ten slots, proved against the poll function. */
module KeyHandlerState {
  import opened Wrappers
  import opened KeyStrokes

  function ToSeq<T>(option: Option<T>): seq<T> {
    if option.Some? then [option.value] else []
  }

  class KeyHandler {
    const slots: array<Slot>
    var modifiers: ModifierMap
    var previousModifiers: ModifierMap
    var cLockOn: bool
    var cLockChanged: bool
    /** Everything handed to the event queue so far. */
    var queued: seq<Event>

    ghost predicate Valid()
      reads this
    {
      slots.Length == SLOT_COUNT
    }

    ghost function View(): State
      reads this, slots
    {
      State(slots[..], modifiers, previousModifiers, cLockOn, cLockChanged)
    }

    /** InternalInitializeKeyHandler on freshly loaded globals. */
    constructor ()
      ensures Valid() && fresh(slots) && View() == Initial() && queued == []
    {
      slots := new Slot[SLOT_COUNT](_ => EMPTY);
      modifiers, previousModifiers := 0, 0;
      cLockOn, cLockChanged := false, false;
      queued := [];
      new;
      assert slots[..] == Initial().slots;
    }

    method FindSlot(code: KeyCode) returns (index: nat)
      ensures index == Find(slots[..], code, 0)
    {
      index := 0;
      while index < slots.Length
        invariant index <= slots.Length
        invariant Find(slots[..], code, 0) == Find(slots[..], code, index)
      {
        if slots[index].code == code {
          return;
        }
        index := index + 1;
      }
    }

    method InKeys(code: KeyCode, keys: seq<KeyCode>) returns (found: bool)
      ensures found == (code in keys)
    {
      var index := 0;
      while index < |keys|
        invariant 0 <= index <= |keys|
        invariant code !in keys[..index]
      {
        if code == keys[index] {
          return true;
        }
        index := index + 1;
      }
      found := false;
    }

    /** One slot: emptied and its code noted if the key was released. */
    method EmptySlot(index: nat, keys: seq<KeyCode>, buffer: array<KeyCode>, count: nat) returns (newCount: nat)
      requires Valid() && index < SLOT_COUNT && count <= index && buffer.Length == 12
      modifies slots, buffer
      ensures slots[index] == ReleaseOne(old(slots[index]), keys)
      ensures forall k :: 0 <= k < slots.Length && k != index ==> slots[k] == old(slots[k])
      ensures newCount <= count + 1
      ensures buffer[..newCount] == old(buffer[..count]) + CodeReleased(old(slots[index]), keys)
    {
      newCount := count;
      var held := InKeys(slots[index].code, keys);
      if !held {
        if slots[index].code != 0 {
          buffer[count] := slots[index].code;
          newCount := count + 1;
        }
        slots[index] := EMPTY;
      }
    }

    /** Empties the slots of released keys and notes their codes. */
    method EmptySlots(keys: seq<KeyCode>, buffer: array<KeyCode>) returns (count: nat)
      requires Valid() && buffer.Length == 12
      modifies slots, buffer
      ensures slots[..] == Released(old(slots[..]), keys)
      ensures count <= SLOT_COUNT && buffer[..count] == ReleasedCodes(old(slots[..]), keys)
    {
      hide ReleasedCodes, ReleaseOne, CodeReleased;
      ghost var before := slots[..];
      count := 0;
      NothingReleased(before[..0], keys);
      for index := 0 to slots.Length
        invariant count <= index
        invariant forall k :: 0 <= k < index ==> slots[k] == ReleaseOne(before[k], keys)
        invariant forall k :: index <= k < slots.Length ==> slots[k] == before[k]
        invariant buffer[..count] == ReleasedCodes(before[..index], keys)
      {
        ReleasedCodesNext(before, index, keys);
        count := EmptySlot(index, keys, buffer, count);
      }
      assert before[..slots.Length] == before;
    }

    /** InternalGetAndRemoveReleasedKeys: its 12-entry buffer is never overrun. */
    method GetAndRemoveReleasedKeys(keys: seq<KeyCode>) returns (released: seq<KeyCode>)
      requires Valid()
      modifies slots, this`cLockChanged
      ensures slots[..] == Released(old(slots[..]), keys)
      ensures cLockChanged == (old(cLockChanged) && CAPS_LOCK in keys)
      ensures released == ReleasedCodes(old(slots[..]), keys) + CapsLockRelease(old(cLockChanged), keys)
    {
      var buffer := new KeyCode[12];
      var count := EmptySlots(keys, buffer);
      if cLockChanged {
        var held := InKeys(CAPS_LOCK, keys);
        if !held {
          cLockChanged := false;
          buffer[count] := CAPS_LOCK;
          count := count + 1;
        }
      }
      released := buffer[..count];
    }

    /** InternalIsCLockOn. */
    method IsCLockOn(keys: seq<KeyCode>) returns (on: bool)
      ensures on == (cLockOn != Toggles(slots[..], cLockChanged, keys))
    {
      on := cLockOn;
      for index := 0 to |keys|
        invariant on == cLockOn && !Toggles(slots[..], cLockChanged, keys[..index])
      {
        var slot := FindSlot(keys[index]);
        if slot == slots.Length && keys[index] == CAPS_LOCK && !cLockChanged {
          on := !cLockOn;
          return;
        }
      }
      assert keys[..|keys|] == keys;
    }

    method CancelStrokes()
      modifies slots
      ensures slots[..] == Cancelled(old(slots[..]))
    {
      for index := 0 to slots.Length
        invariant forall k :: 0 <= k < index ==> slots[k] == old(slots[k]).(current := false)
        invariant forall k :: index <= k < slots.Length ==> slots[k] == old(slots[k])
      {
        slots[index] := slots[index].(current := false);
      }
    }

    method InsertKey(code: KeyCode)
      modifies slots
      ensures slots[..] == Insert(old(slots[..]), code)
    {
      var free := FindSlot(0);
      if free < slots.Length {
        slots[free] := Slot(code, 0, true);
      }
    }

    /** The loop that counts strokes and admits at most one new key. */
    method PressKeys(keys: seq<KeyCode>)
      modifies slots
      ensures slots[..] == Press(old(slots[..]), keys)
    {
      var index := 0;
      while index < |keys|
        invariant 0 <= index <= |keys|
        invariant Press(old(slots[..]), keys) == Press(slots[..], keys[index..])
      {
        var slot := FindSlot(keys[index]);
        assert keys[index..][0] == keys[index] && keys[index..][1..] == keys[index + 1..];
        if slot < slots.Length {
          slots[slot] := slots[slot].(strokes := slots[slot].strokes + 1);
        } else {
          CancelStrokes();
          InsertKey(keys[index]);
          return;
        }
        index := index + 1;
      }
    }

    /** InternalGetCurrentStroke. */
    method GetCurrentStroke() returns (index: nat)
      ensures index == Current(slots[..], 0)
    {
      index := 0;
      while index < slots.Length
        invariant index <= slots.Length
        invariant Current(slots[..], 0) == Current(slots[..], index)
      {
        if slots[index].current {
          return;
        }
        index := index + 1;
      }
    }

    method QueueKeyUps(codes: seq<KeyCode>, appleModifiers: ModifierMap)
      modifies this`queued
      ensures queued == old(queued) + KeyUps(codes, appleModifiers)
    {
      var shiftPressed := appleModifiers & SHIFT != 0;
      for index := 0 to |codes|
        invariant queued == old(queued) + KeyUps(codes[..index], appleModifiers)
      {
        queued := queued + [KeyUp(codes[index], shiftPressed, appleModifiers)];
      }
      assert codes[..|codes|] == codes;
    }

    /** First half of InternalGetCurrentKeyStroke: released keys and Caps Lock. */
    method ReleaseKeys(polled: ModifierMap, keys: seq<KeyCode>, ghost st: State) returns (on: bool)
      requires Valid() && st == View()
      modifies this`cLockOn, this`cLockChanged, this`queued, slots
      ensures slots[..] == Released(Started(st, polled), keys)
      ensures on == cLockOn == CapsLockAfter(st, polled, keys)
      ensures cLockChanged ==
              ((st.cLockChanged && CAPS_LOCK in keys) || CapsLockToggles(st, polled, keys))
      ensures queued == old(queued) + KeyUpsOf(st, polled, keys)
    {
      if modifiers != polled {
        CancelStrokes();
      }
      assert slots[..] == Started(st, polled);
      var released := GetAndRemoveReleasedKeys(keys);
      assert released == CodesReleased(st, polled, keys);
      on := IsCLockOn(keys);
      QueueKeyUps(released, if on then polled | SHIFT else polled);
      if on != cLockOn {
        cLockOn := on;
        cLockChanged := true;
      }
    }

    /** InternalGetCurrentKeyStroke; `ready` is false for EFI_NOT_READY. */
    method GetCurrentKeyStroke(polled: ModifierMap, keys: seq<KeyCode>, ghost st: State)
      returns (ready: bool, key: Option<Event>)
      requires Valid() && st == View()
      modifies this, slots
      ensures previousModifiers == st.previous
      ensures slots[..] == SlotsAfter(st, polled, keys)
      ensures modifiers == polled
      ensures cLockOn == CapsLockAfter(st, polled, keys)
      ensures cLockChanged ==
              ((st.cLockChanged && CAPS_LOCK in keys) || CapsLockToggles(st, polled, keys))
      ensures queued == old(queued) + KeyUpsOf(st, polled, keys)
      ensures ready == Reports(st, polled, keys)
      ensures KeyDownsOf(st, polled, keys) == ToSeq(key)
      ensures key.Some? ==> ready
    {
      hide Press, Released, Started, CapsLockAfter, CapsLockToggles, KeyUpsOf;
      var on := ReleaseKeys(polled, keys, st);
      PressKeys(keys);
      var current := GetCurrentStroke();
      ready, key := false, None;
      if current < slots.Length || modifiers != polled {
        modifiers := polled;
        if current < slots.Length {
          var slot := slots[current];
          if Accepted(slot.strokes) {
            var shifted := (IsLetter(slot.code) && on) != (modifiers & SHIFT != 0);
            ready, key := true, Some(KeyDown(slot.code, shifted, polled));
          }
        } else {
          ready := true;
        }
      }
    }

    /** EventCreateEventQueue for an event without key data: nothing is queued for an empty modifier map. */
    method QueueModifiers(event: Event)
      modifies this`queued
      ensures queued == old(queued) + IfAny(event)
    {
      if event.modifiers != 0 {
        queued := queued + [event];
      }
    }

    /** Reports a modifier change as at most one MODIFIER_UP and one MODIFIER_DOWN. */
    method ReportModifiers(polled: ModifierMap)
      modifies this`queued, this`previousModifiers
      ensures previousModifiers == polled
      ensures queued == old(queued) + ModifierEvents(old(previousModifiers), polled)
    {
      if previousModifiers != polled {
        QueueModifiers(ModifierUp(Lost(previousModifiers, polled)));
        QueueModifiers(ModifierDown(Gained(previousModifiers, polled)));
        previousModifiers := polled;
      }
    }

    method ReportSuccess(key: Option<Event>, polled: ModifierMap)
      modifies this`queued, this`previousModifiers
      ensures previousModifiers == polled
      ensures queued == old(queued) + (ToSeq(key) + ModifierEvents(old(previousModifiers), polled))
    {
      if key.Some? {
        queued := queued + [key.value];
      }
      ReportModifiers(polled);
    }

    /** InternalKeyStrokePollNotifyFunction with the keys and modifiers the aggregator returned. */
    method Poll(polled: ModifierMap, keys: seq<KeyCode>)
      requires Valid()
      modifies this, slots
      ensures Valid()
      ensures View() == PollState(old(View()), polled, keys)
      ensures queued == old(queued) + PollEvents(old(View()), polled, keys)
    {
      hide SlotsAfter, CapsLockAfter, CapsLockToggles, Reports, KeyDownsOf, KeyUpsOf, ModifierEvents;
      ghost var st, before := View(), queued;
      var ready, key := GetCurrentKeyStroke(polled, keys, st);
      if ready {
        ghost var ups, rest := KeyUpsOf(st, polled, keys), ToSeq(key) + ModifierEvents(st.previous, polled);
        ReportSuccess(key, polled);
        assert before + ups + rest == before + (ups + rest);
      }
    }
  }
}
