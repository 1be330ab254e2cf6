/** The events of polls one by one: what they carry, how often they come and in which order. */
module KeyEvents {
  import opened KeyStrokes
  import opened KeyPolls
  import opened KeyRuns

  // Shift.

  lemma UpShift(codes: seq<KeyCode>, modifiers: ModifierMap, on: bool, event: Event)
    requires event in KeyUps(codes, if on then modifiers | SHIFT else modifiers)
    ensures event.KeyUp? && event.modifiers == (if on then modifiers | SHIFT else modifiers)
    ensures event.shifted <==> on || modifiers & SHIFT != 0
  {
    ShiftBits(modifiers);
  }

  lemma DownShift(st: State, modifiers: ModifierMap, keys: seq<KeyCode>, event: Event)
    requires event in KeyDownsOf(st, modifiers, keys)
    ensures event.KeyDown? && event.modifiers == modifiers
    ensures
      event.shifted <==>
      (KEY_A <= event.code <= KEY_Z && CapsLockAfter(st, modifiers, keys)) != (modifiers & SHIFT != 0)
  {
    hide SlotsAfter, CapsLockAfter, Accepted;
  }

  /** Where an event of a poll comes from. */
  lemma EventSource(st: State, modifiers: ModifierMap, keys: seq<KeyCode>, event: Event)
    requires event in PollEvents(st, modifiers, keys)
    ensures event in KeyUpsOf(st, modifiers, keys) || event in KeyDownsOf(st, modifiers, keys)
            || event.ModifierUp? || event.ModifierDown?
  {
    hide KeyUpsOf, KeyDownsOf, Reports;
    assert forall change <- ModifierEvents(st.previous, modifiers) :: change.ModifierUp? || change.ModifierDown?;
  }

  /** What key events of a poll carry: KEY_UPs have Shift added while Caps Lock is on. */
  lemma PollShift(st: State, modifiers: ModifierMap, keys: seq<KeyCode>, event: Event)
    requires event in PollEvents(st, modifiers, keys)
    ensures
      var on, shift := CapsLockAfter(st, modifiers, keys), modifiers & SHIFT != 0;
      && (event.KeyDown? ==>
            && event.modifiers == modifiers
            && (event.shifted <==> (KEY_A <= event.code <= KEY_Z && on) != shift))
      && (event.KeyUp? ==>
            && event.modifiers == (if on then modifiers | SHIFT else modifiers)
            && (event.shifted <==> on || shift))
  {
    hide CapsLockAfter, KeyUps, KeyDownsOf, CodesReleased, PollEvents;
    EventSource(st, modifiers, keys, event);
    if event in KeyUpsOf(st, modifiers, keys) {
      UpShift(CodesReleased(st, modifiers, keys), modifiers, CapsLockAfter(st, modifiers, keys), event);
    } else if event in KeyDownsOf(st, modifiers, keys) {
      DownShift(st, modifiers, keys, event);
    }
  }

  lemma ShiftBits(modifiers: ModifierMap)
    ensures (modifiers | SHIFT) & SHIFT != 0
  {
    assert (modifiers | SHIFT) & SHIFT == SHIFT;
  }

  /** Caps Lock as it should be after the first n polls: pressed an odd number of times. */
  predicate CapsOdd(run: seq<Sample>, n: nat)
    requires n <= |run|
  {
    RisingEdges(run[..n]) % 2 == 1
  }

  /**
    Over every run: a letter is reported shifted if and only if exactly one of Shift and Caps Lock is on, any other key
    if and only if Shift is held, a KEY_UP if and only if at least one of the two is on.
  */
  lemma RunShift(run: seq<Sample>, n: nat, event: Event)
    requires Proper(run) && n < |run|
    requires event in PollEvents(After(Initial(), run[..n]), run[n].modifiers, run[n].keys)
    ensures
      var odd, shift := CapsOdd(run, n + 1), run[n].modifiers & SHIFT != 0;
      && (event.KeyDown? ==>
            && event.modifiers == run[n].modifiers
            && (event.shifted <==> if KEY_A <= event.code <= KEY_Z then odd != shift else shift))
      && (event.KeyUp? ==>
            && event.modifiers == (if odd then run[n].modifiers | SHIFT else run[n].modifiers)
            && (event.shifted <==> odd || shift))
  {
    var part := run[..n + 1];
    assert part[..n] == run[..n] && part[n] == run[n];
    RunCapsLock(part);
    assert After(Initial(), part).cLockOn
           == CapsLockAfter(After(Initial(), run[..n]), run[n].modifiers, run[n].keys);
    PollShift(After(Initial(), run[..n]), run[n].modifiers, run[n].keys, event);
  }

  // Order.

  function Rank(event: Event): nat {
    match event
    case KeyUp(_, _, _) => 0
    case KeyDown(_, _, _) => 1
    case ModifierUp(_) => 2
    case ModifierDown(_) => 3
  }

  lemma ModifierOrder(before: ModifierMap, after: ModifierMap)
    ensures
      var events := ModifierEvents(before, after);
      && |events| <= 2
      && (forall i :: 0 <= i < |events| ==> Rank(events[i]) >= 2)
      && (|events| == 2 ==> events[0].ModifierUp? && events[1].ModifierDown?)
  {
    hide Lost, Gained;
  }

  /** A poll reports releases, then at most one press, then at most one change of modifiers each way. */
  lemma PollOrder(st: State, modifiers: ModifierMap, keys: seq<KeyCode>, i: nat, j: nat)
    requires i < j < |PollEvents(st, modifiers, keys)|
    ensures
      var events := PollEvents(st, modifiers, keys);
      Rank(events[i]) < Rank(events[j]) || (events[i].KeyUp? && events[j].KeyUp?)
  {
    var ups, downs := KeyUpsOf(st, modifiers, keys), KeyDownsOf(st, modifiers, keys);
    assert forall k :: 0 <= k < |ups| ==> ups[k].KeyUp?;
    assert |downs| <= 1 && forall k :: 0 <= k < |downs| ==> downs[k].KeyDown?;
    ModifierOrder(st.previous, modifiers);
    hide KeyUpsOf, KeyDownsOf, ModifierEvents, Reports;
    JoinedOrder(ups, downs, ModifierEvents(st.previous, modifiers), Reports(st, modifiers, keys), i, j);
  }

  lemma JoinedOrder(ups: seq<Event>, downs: seq<Event>, changes: seq<Event>, reports: bool, i: nat, j: nat)
    requires forall k :: 0 <= k < |ups| ==> ups[k].KeyUp?
    requires |downs| <= 1 && forall k :: 0 <= k < |downs| ==> downs[k].KeyDown?
    requires |changes| <= 2 && (forall k :: 0 <= k < |changes| ==> Rank(changes[k]) >= 2)
    requires |changes| == 2 ==> changes[0].ModifierUp? && changes[1].ModifierDown?
    requires i < j < |ups + if reports then downs + changes else []|
    ensures
      var events := ups + if reports then downs + changes else [];
      Rank(events[i]) < Rank(events[j]) || (events[i].KeyUp? && events[j].KeyUp?)
  {
  }

  // Releases.

  function CountUps(events: seq<Event>, code: KeyCode): nat {
    if events == [] then 0
    else
      var n := |events| - 1;
      CountUps(events[..n], code) + if events[n].KeyUp? && events[n].code == code then 1 else 0
  }

  lemma {:induction false} CountUpsAppend(first: seq<Event>, second: seq<Event>, code: KeyCode)
    ensures CountUps(first + second, code) == CountUps(first, code) + CountUps(second, code)
  {
    if second == [] {
      assert first + second == first;
    } else {
      var n := |second| - 1;
      assert (first + second)[..|first + second| - 1] == first + second[..n];
      CountUpsAppend(first, second[..n], code);
    }
  }

  lemma {:induction false} NoUps(events: seq<Event>, code: KeyCode)
    requires forall i :: 0 <= i < |events| ==> !events[i].KeyUp?
    ensures CountUps(events, code) == 0
  {
    if events != [] {
      NoUps(events[..|events| - 1], code);
    }
  }

  lemma {:induction false} UpsAreCodes(codes: seq<KeyCode>, modifiers: ModifierMap, code: KeyCode)
    ensures CountUps(KeyUps(codes, modifiers), code) == multiset(codes)[code]
  {
    if codes != [] {
      var n := |codes| - 1;
      assert KeyUps(codes, modifiers)[..n] == KeyUps(codes[..n], modifiers);
      UpsAreCodes(codes[..n], modifiers, code);
      assert codes == codes[..n] + [codes[n]];
    }
  }

  /** Every code in the slots is released once if it is no longer polled. */
  lemma {:induction false} ReleasedOnce(slots: seq<Slot>, keys: seq<KeyCode>, code: KeyCode)
    requires code != 0
    requires forall i, j :: 0 <= i < j < |slots| && slots[i].code != 0 ==> slots[i].code != slots[j].code
    ensures multiset(ReleasedCodes(slots, keys))[code] == if code in Held(slots) && code !in keys then 1 else 0
  {
    if slots == [] {
      assert Held(slots) == {};
    } else {
      var n := |slots| - 1;
      ReleasedOnce(slots[..n], keys, code);
      assert slots[n].code == code ==> code !in Held(slots[..n]);
      hide Held;
      HeldMore(slots);
    }
  }

  lemma HeldMore(slots: seq<Slot>)
    requires slots != []
    ensures
      var n := |slots| - 1;
      Held(slots) == Held(slots[..n]) + if slots[n].code != 0 then {slots[n].code} else {}
  {
    var n := |slots| - 1;
    assert slots == slots[..n] + [slots[n]];
  }

  lemma CodesExactly(st: State, modifiers: ModifierMap, keys: seq<KeyCode>, code: KeyCode)
    requires Tidy(st.slots) && code != 0
    ensures multiset(CodesReleased(st, modifiers, keys))[code]
            == (if code in Held(st.slots) && code !in keys then 1 else 0)
               + (if code == CAPS_LOCK && st.cLockChanged && code !in keys then 1 else 0)
  {
    StartedTidy(st, modifiers);
    ReleasedOnce(Started(st, modifiers), keys, code);
    hide Started, ReleasedCodes, Held, Tidy;
  }

  lemma OnlyKeyUpsCount(st: State, modifiers: ModifierMap, keys: seq<KeyCode>, code: KeyCode)
    ensures CountUps(PollEvents(st, modifiers, keys), code) == CountUps(KeyUpsOf(st, modifiers, keys), code)
  {
    var downs, changes := KeyDownsOf(st, modifiers, keys), ModifierEvents(st.previous, modifiers);
    var rest := if Reports(st, modifiers, keys) then downs + changes else [];
    assert forall k :: 0 <= k < |downs| ==> !downs[k].KeyUp?;
    assert forall k :: 0 <= k < |changes| ==> !changes[k].KeyUp?;
    hide KeyUpsOf, KeyDownsOf, ModifierEvents, Reports;
    NoUps(rest, code);
    CountUpsAppend(KeyUpsOf(st, modifiers, keys), rest, code);
  }

  /** How often a poll reports a key as released: once if it was tracked, Caps Lock once more if it had toggled. */
  lemma UpsExactly(st: State, modifiers: ModifierMap, keys: seq<KeyCode>, code: KeyCode)
    requires Tidy(st.slots) && code != 0
    ensures CountUps(PollEvents(st, modifiers, keys), code)
            == (if code in Held(st.slots) && code !in keys then 1 else 0)
               + (if code == CAPS_LOCK && st.cLockChanged && code !in keys then 1 else 0)
  {
    hide PollEvents, CodesReleased, CapsLockAfter, Held, Tidy, KeyUps;
    OnlyKeyUpsCount(st, modifiers, keys, code);
    CodesExactly(st, modifiers, keys, code);
    var carried := if CapsLockAfter(st, modifiers, keys) then modifiers | SHIFT else modifiers;
    UpsAreCodes(CodesReleased(st, modifiers, keys), carried, code);
  }

  /** Over every run, Caps Lock is reported as released in exactly those polls that miss it after one that had it. */
  lemma RunCapsLockUps(run: seq<Sample>, n: nat)
    requires Proper(run) && n < |run|
    ensures
      var events := PollEvents(After(Initial(), run[..n]), run[n].modifiers, run[n].keys);
      CountUps(events, CAPS_LOCK) > 0 <==> CAPS_LOCK in LastKeys(run[..n]) && CAPS_LOCK !in run[n].keys
  {
    assert Proper(run[..n]) by {
      assert forall sample <- run[..n] :: sample in run;
    }
    RunInvariant(run[..n]);
    UpsExactly(After(Initial(), run[..n]), run[n].modifiers, run[n].keys, CAPS_LOCK);
  }

  // Repetitions.

  predicate NoDuplicates(keys: seq<KeyCode>) {
    forall i, j :: 0 <= i < j < |keys| ==> keys[i] != keys[j]
  }

  /** Without a new key, every polled key has been held for one more poll. */
  lemma {:induction false} PressCounts(slots: seq<Slot>, keys: seq<KeyCode>, i: nat)
    requires 0 !in keys && NoDuplicates(keys) && NewKey(slots, keys) == 0 && i < |slots|
    requires forall i, j :: 0 <= i < j < |slots| && slots[i].code != 0 ==> slots[i].code != slots[j].code
    ensures Press(slots, keys)[i]
            == slots[i].(strokes := slots[i].strokes + if slots[i].code in keys then 1 else 0)
    decreases keys
  {
    if keys != [] {
      var index := Find(slots, keys[0], 0);
      var counted := slots[index := slots[index].(strokes := slots[index].strokes + 1)];
      NewKeySame(counted, slots, keys[1..]);
      assert forall k :: 0 <= k < |keys[1..]| ==> keys[1..][k] == keys[k + 1];
      PressCounts(counted, keys[1..], i);
      assert keys[0] !in keys[1..];
      assert slots[i].code in keys <==> slots[i].code == keys[0] || slots[i].code in keys[1..];
    }
  }

  /** The slot of the key that repeats, if it is still held. */
  ghost predicate RepeatsAt(st: State, modifiers: ModifierMap, keys: seq<KeyCode>, i: int) {
    && 0 <= i < |st.slots| && st.slots[i].current && st.slots[i].code in keys && st.modifiers == modifiers
    && st.slots[i].strokes + 1 >= 50 && (st.slots[i].strokes + 1) % 5 == 0
  }

  /** With nothing new, the slots are those released, each counted once more if its key is polled. */
  lemma NothingNew(st: State, modifiers: ModifierMap, keys: seq<KeyCode>)
    requires Tidy(st.slots) && 0 !in keys && NoDuplicates(keys)
    requires NewKey(Released(Started(st, modifiers), keys), keys) == 0
    ensures
      var slots := SlotsAfter(st, modifiers, keys);
      forall i :: 0 <= i < |slots| ==>
        slots[i] ==
        if st.slots[i].code in keys then
          Slot(st.slots[i].code, st.slots[i].strokes + 1, st.slots[i].current && st.modifiers == modifiers)
        else EMPTY
  {
    var released := Released(Started(st, modifiers), keys);
    StartedTidy(st, modifiers);
    ReleasedTidy(Started(st, modifiers), keys);
    forall i | 0 <= i < |released|
      ensures Press(released, keys)[i]
              == released[i].(strokes := released[i].strokes + if released[i].code in keys then 1 else 0)
    {
      PressCounts(released, keys, i);
    }
  }

  /** The current slot after such a poll is the current one before, if its key and the modifiers stay. */
  lemma CurrentStays(st: State, modifiers: ModifierMap, keys: seq<KeyCode>, slots: seq<Slot>)
    requires Tidy(st.slots) && |slots| == |st.slots|
    requires forall i :: 0 <= i < |slots| ==>
               slots[i] ==
               if st.slots[i].code in keys then
                 Slot(st.slots[i].code, st.slots[i].strokes + 1, st.slots[i].current && st.modifiers == modifiers)
               else EMPTY
    ensures
      var current := Current(slots, 0);
      && (current < |slots| && Accepted(slots[current].strokes) ==> RepeatsAt(st, modifiers, keys, current))
      && (forall i :: RepeatsAt(st, modifiers, keys, i) ==> current == i && Accepted(slots[i].strokes))
  {
  }

  lemma RepeatsExactly(st: State, modifiers: ModifierMap, keys: seq<KeyCode>)
    requires Tidy(st.slots) && 0 !in keys && NoDuplicates(keys)
    requires NewKey(Released(Started(st, modifiers), keys), keys) == 0
    ensures
      var downs := KeyDownsOf(st, modifiers, keys);
      if exists i :: RepeatsAt(st, modifiers, keys, i) then
        |downs| == 1 && forall i :: RepeatsAt(st, modifiers, keys, i) ==> downs[0].code == st.slots[i].code
      else
        downs == []
  {
    NothingNew(st, modifiers, keys);
    CurrentStays(st, modifiers, keys, SlotsAfter(st, modifiers, keys));
    hide SlotsAfter, Tidy, CapsLockAfter, Accepted, Current, NewKey, Released, Started, NoDuplicates;
  }

  /**
    Exactly which key a poll reports as pressed: the one it admits; none if a new key finds no slot; otherwise the
    current one, after 50 polls and then every fifth, as long as it and the modifiers stay.
  */
  lemma DownsExactly(st: State, modifiers: ModifierMap, keys: seq<KeyCode>)
    requires Tidy(st.slots) && 0 !in keys && NoDuplicates(keys)
    ensures
      var slots, downs := Released(Started(st, modifiers), keys), KeyDownsOf(st, modifiers, keys);
      var code := NewKey(slots, keys);
      if code != 0 && Holds(slots, 0) then |downs| == 1 && downs[0].code == code
      else if code != 0 then downs == []
      else if exists i :: RepeatsAt(st, modifiers, keys, i) then
        |downs| == 1 && forall i :: RepeatsAt(st, modifiers, keys, i) ==> downs[0].code == st.slots[i].code
      else
        downs == []
  {
    hide Tidy, KeyDownsOf, Released, Started, NewKey, NoDuplicates, RepeatsAt, Press;
    var slots := Released(Started(st, modifiers), keys);
    if NewKey(slots, keys) == 0 {
      RepeatsExactly(st, modifiers, keys);
    } else {
      KeyDownsTellAdmitted(st, modifiers, keys);
      PressEffect(slots, keys);
      NoCurrentNoDown(st, modifiers, keys);
    }
  }

  lemma NoCurrentNoDown(st: State, modifiers: ModifierMap, keys: seq<KeyCode>)
    ensures NoCurrent(SlotsAfter(st, modifiers, keys)) ==> KeyDownsOf(st, modifiers, keys) == []
  {
    var slots := SlotsAfter(st, modifiers, keys);
    if Current(slots, 0) < |slots| {
      assert slots[Current(slots, 0)] in slots;
    }
  }
}
