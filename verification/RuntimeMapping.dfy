/** The selection of descriptors that get virtual addresses. */
module RuntimeMapping {
  import opened Subsequences
  import opened Words
  import opened MemoryMap
  import opened RuntimeProtection

  /** The runtime descriptors in map order. */
  function RuntimeOf(descs: seq<Descriptor>): (picked: seq<Descriptor>)
    ensures |picked| <= |descs|
  {
    if descs == [] then []
    else
      var n := |descs| - 1;
      RuntimeOf(descs[..n]) + if CountsAsRuntime(descs[n]) then [descs[n]] else []
  }

  /** Exactly the runtime descriptors that are not reserved, in their order: `at` are their places. */
  lemma {:induction false} RuntimeOfExactly(descs: seq<Descriptor>) returns (at: seq<nat>)
    ensures Places(descs, RuntimeOf(descs), at)
    ensures forall k :: 0 <= k < |descs| ==> (k in at <==> descs[k].runtime && descs[k].kind != Reserved)
  {
    if descs == [] {
      return [];
    }
    var n := |descs| - 1;
    var earlier := RuntimeOfExactly(descs[..n]);
    hide Places;
    at := PlacesNext(descs, RuntimeOf(descs[..n]), earlier, CountsAsRuntime(descs[n]));
  }

  lemma RuntimeNext(descs: seq<Descriptor>, n: nat)
    requires n < |descs|
    ensures RuntimeOf(descs[..n + 1])
            == RuntimeOf(descs[..n]) + if CountsAsRuntime(descs[n]) then [descs[n]] else []
  {
    assert descs[..n + 1][..n] == descs[..n];
  }

  lemma {:induction false} RuntimeGrows(descs: seq<Descriptor>, n: nat)
    requires n <= |descs|
    ensures RuntimeOf(descs[..n]) <= RuntimeOf(descs)
    decreases |descs| - n
  {
    if n < |descs| {
      RuntimeNext(descs, n);
      RuntimeGrows(descs, n + 1);
    } else {
      assert descs[..n] == descs;
    }
  }

  /** A runtime descriptor follows the ones picked before it. */
  lemma RuntimePlace(descs: seq<Descriptor>, i: nat)
    requires i < |descs| && CountsAsRuntime(descs[i])
    ensures
      var place := |RuntimeOf(descs[..i])|;
      && place < |RuntimeOf(descs)| && RuntimeOf(descs)[place] == descs[i]
      && RuntimeOf(descs[..i]) <= RuntimeOf(descs)
  {
    RuntimeNext(descs, i);
    RuntimeGrows(descs, i);
    RuntimeGrows(descs, i + 1);
  }

  predicate DifferInKind(a: seq<Descriptor>, b: seq<Descriptor>) {
    |a| == |b| && forall k :: 0 <= k < |a| ==> a[k].(kind := b[k].kind) == b[k]
  }

  /** Protection changes types but not the selection: the same descriptors are picked in the same order. */
  lemma {:induction false} SelectionSurvivesProtection(before: seq<Descriptor>, after: seq<Descriptor>)
    requires DifferInKind(after, before)
    requires forall k :: 0 <= k < |before| ==> CountsAsRuntime(after[k]) == CountsAsRuntime(before[k])
    ensures DifferInKind(RuntimeOf(after), RuntimeOf(before))
  {
    if before != [] {
      SelectionSurvivesProtection(before[..|before| - 1], after[..|before| - 1]);
    }
  }

  lemma HiddenSelection(descs: seq<Descriptor>, area: u64, areaSize: u64)
    ensures DifferInKind(RuntimeOf(Hidden(descs, area, areaSize)), RuntimeOf(descs))
  {
    SelectionSurvivesProtection(descs, Hidden(descs, area, areaSize));
  }
}
