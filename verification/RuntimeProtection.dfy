/**
  Hiding runtime memory from boot.efi and giving it back: what is recorded and what is restored, as sequences.
*/
module RuntimeProtection {
  import opened Words
  import opened MemoryMap

  const RT_RELOC_PROTECT_MAX_NUM: int := 64

  datatype RelocInfo = RelocInfo(physicalStart: u64, physicalEnd: u64, kind: MemoryType)

  predicate Eligible(d: Descriptor, area: u64, areaSize: u64) {
    && d.runtime && d.pages > 0
    && (d.kind.RuntimeServicesCode? || d.kind.RuntimeServicesData?)
    && !d.AreaWithin(area, areaSize)
  }

  function Record(d: Descriptor): RelocInfo {
    RelocInfo(d.physicalStart, d.LastAddr(), d.kind)
  }

  /** The entries recorded while protecting, at most as many as the table holds. */
  function Recorded(descs: seq<Descriptor>, area: u64, areaSize: u64): (entries: seq<RelocInfo>)
    ensures |entries| <= RT_RELOC_PROTECT_MAX_NUM
  {
    if descs == [] then []
    else
      var n := |descs| - 1;
      var entries := Recorded(descs[..n], area, areaSize);
      if Eligible(descs[n], area, areaSize) && |entries| < RT_RELOC_PROTECT_MAX_NUM then
        entries + [Record(descs[n])]
      else
        entries
  }

  lemma RecordedNext(descs: seq<Descriptor>, n: nat, area: u64, areaSize: u64)
    requires n < |descs|
    ensures
      var entries := Recorded(descs[..n], area, areaSize);
      Recorded(descs[..n + 1], area, areaSize) ==
      if Eligible(descs[n], area, areaSize) && |entries| < RT_RELOC_PROTECT_MAX_NUM then
        entries + [Record(descs[n])]
      else
        entries
  {
    assert descs[..n + 1][..n] == descs[..n];
  }

  /** Descriptor k after protection: an eligible type becomes MMIO while there is an entry left. */
  function HiddenAt(descs: seq<Descriptor>, area: u64, areaSize: u64, k: nat): Descriptor
    requires k < |descs|
  {
    if Eligible(descs[k], area, areaSize) && |Recorded(descs[..k], area, areaSize)| < RT_RELOC_PROTECT_MAX_NUM then
      descs[k].(kind := MemoryMappedIo)
    else
      descs[k]
  }

  function Hidden(descs: seq<Descriptor>, area: u64, areaSize: u64): seq<Descriptor> {
    seq(|descs|, k requires 0 <= k < |descs| => HiddenAt(descs, area, areaSize, k))
  }

  /** Once the table is full nothing is recorded or hidden any more. */
  lemma {:induction false} FullStays(descs: seq<Descriptor>, n: nat, k: nat, area: u64, areaSize: u64)
    requires n <= k <= |descs| && |Recorded(descs[..n], area, areaSize)| == RT_RELOC_PROTECT_MAX_NUM
    ensures Recorded(descs[..k], area, areaSize) == Recorded(descs[..n], area, areaSize)
    decreases k
  {
    if n < k {
      FullStays(descs, n, k - 1, area, areaSize);
      RecordedNext(descs, k - 1, area, areaSize);
    }
  }

  /** The descriptors before the k-th that protection is about. */
  ghost function EligibleBefore(descs: seq<Descriptor>, area: u64, areaSize: u64, k: nat): set<int>
    requires k <= |descs|
  {
    set i | 0 <= i < k && descs[i].runtime && descs[i].pages > 0 && !descs[i].AreaWithin(area, areaSize)
            && (descs[i].kind == RuntimeServicesCode || descs[i].kind == RuntimeServicesData)
  }

  lemma {:induction false} RecordedCount(descs: seq<Descriptor>, area: u64, areaSize: u64, k: nat)
    requires k <= |descs|
    ensures
      var count := |EligibleBefore(descs, area, areaSize, k)|;
      |Recorded(descs[..k], area, areaSize)|
      == if count < RT_RELOC_PROTECT_MAX_NUM then count else RT_RELOC_PROTECT_MAX_NUM
    decreases k
  {
    if k == 0 {
      assert EligibleBefore(descs, area, areaSize, k) == {};
    } else {
      RecordedCount(descs, area, areaSize, k - 1);
      EligibleNext(descs, area, areaSize, k - 1);
      RecordedNext(descs, k - 1, area, areaSize);
      hide Recorded, Eligible, EligibleBefore;
    }
  }

  lemma EligibleNext(descs: seq<Descriptor>, area: u64, areaSize: u64, k: nat)
    requires k < |descs|
    ensures |EligibleBefore(descs, area, areaSize, k + 1)|
            == |EligibleBefore(descs, area, areaSize, k)| + if Eligible(descs[k], area, areaSize) then 1 else 0
  {
    var more := if Eligible(descs[k], area, areaSize) then {k} else {};
    assert EligibleBefore(descs, area, areaSize, k + 1) == EligibleBefore(descs, area, areaSize, k) + more;
  }

  /**
    Exactly which descriptors are hidden, and as what: runtime code and data with pages that do not hold the system
    table become MMIO, as long as there have been fewer than 64 of them; everything else stays.
  */
  lemma HiddenExactly(descs: seq<Descriptor>, area: u64, areaSize: u64, k: nat)
    requires k < |descs|
    ensures
      var d := descs[k];
      Hidden(descs, area, areaSize)[k] ==
      if d.runtime && d.pages > 0 && (d.kind == RuntimeServicesCode || d.kind == RuntimeServicesData)
         && !d.AreaWithin(area, areaSize) && |EligibleBefore(descs, area, areaSize, k)| < 64 then
        d.(kind := MemoryMappedIo)
      else
        d
  {
    RecordedCount(descs, area, areaSize, k);
  }

  predicate Matches(entry: RelocInfo, d: Descriptor) {
    d.physicalStart == entry.physicalStart && d.LastAddr() == entry.physicalEnd
  }

  predicate IsRecorded(entries: seq<RelocInfo>, d: Descriptor) {
    exists entry <- entries :: Matches(entry, d)
  }

  /** A descriptor with the type of the first entry for its range. */
  function RestoreOne(entries: seq<RelocInfo>, d: Descriptor): Descriptor {
    if entries == [] then d
    else if Matches(entries[0], d) then d.(kind := entries[0].kind)
    else RestoreOne(entries[1..], d)
  }

  function MatchCount(entries: seq<RelocInfo>, descs: seq<Descriptor>): (count: nat)
    ensures count <= |descs|
  {
    if descs == [] then 0
    else
      var n := |descs| - 1;
      MatchCount(entries, descs[..n]) + if IsRecorded(entries, descs[n]) then 1 else 0
  }

  /** Restoring stops once as many descriptors as there are entries have been found. */
  function RestoredAt(entries: seq<RelocInfo>, descs: seq<Descriptor>, k: nat): Descriptor
    requires k < |descs|
  {
    if MatchCount(entries, descs[..k]) < |entries| then RestoreOne(entries, descs[k]) else descs[k]
  }

  function Restored(entries: seq<RelocInfo>, descs: seq<Descriptor>): seq<Descriptor> {
    seq(|descs|, k requires 0 <= k < |descs| => RestoredAt(entries, descs, k))
  }

  predicate SameRange(a: Descriptor, b: Descriptor) {
    a.physicalStart == b.physicalStart && a.LastAddr() == b.LastAddr()
  }

  predicate DistinctRanges(descs: seq<Descriptor>) {
    forall i, j :: 0 <= i < j < |descs| ==> !SameRange(descs[i], descs[j])
  }

  lemma DisjointMapsHaveDistinctRanges(descs: seq<Descriptor>)
    requires WellFormed(descs) && Disjoint(descs) && HavePages(descs)
    ensures DistinctRanges(descs)
  {
  }

  // The early exit drops nothing.

  ghost function EntryRanges(entries: seq<RelocInfo>): set<(u64, u64)> {
    set entry <- entries :: (entry.physicalStart, entry.physicalEnd)
  }

  lemma {:induction false} FewRanges(entries: seq<RelocInfo>)
    ensures |EntryRanges(entries)| <= |entries|
  {
    if entries == [] {
      assert EntryRanges(entries) == {};
    } else {
      FewRanges(entries[1..]);
      assert entries == [entries[0]] + entries[1..];
      assert EntryRanges(entries) ==
             EntryRanges(entries[1..]) + {(entries[0].physicalStart, entries[0].physicalEnd)};
    }
  }

  /** Descriptors with distinct ranges can match at most one range of the table each. */
  lemma {:induction false} MatchesAreFew(entries: seq<RelocInfo>, descs: seq<Descriptor>, ranges: set<(u64, u64)>)
    requires DistinctRanges(descs)
    requires forall d <- descs :: IsRecorded(entries, d) ==> (d.physicalStart, d.LastAddr()) in ranges
    ensures MatchCount(entries, descs) <= |ranges|
  {
    if descs != [] {
      var n := |descs| - 1;
      if IsRecorded(entries, descs[n]) {
        var rest := ranges - {(descs[n].physicalStart, descs[n].LastAddr())};
        assert |rest| == |ranges| - 1;
        forall d | d in descs[..n] && IsRecorded(entries, d)
          ensures (d.physicalStart, d.LastAddr()) in rest
        {
          var i :| 0 <= i < n && d == descs[i];
          assert !SameRange(descs[i], descs[n]);
        }
        MatchesAreFew(entries, descs[..n], rest);
      } else {
        MatchesAreFew(entries, descs[..n], ranges);
      }
    }
  }

  lemma MatchNext(entries: seq<RelocInfo>, descs: seq<Descriptor>, n: nat)
    requires n < |descs|
    ensures MatchCount(entries, descs[..n + 1])
            == MatchCount(entries, descs[..n]) + if IsRecorded(entries, descs[n]) then 1 else 0
  {
    assert descs[..n + 1][..n] == descs[..n];
  }

  lemma {:induction false} MatchesGrow(entries: seq<RelocInfo>, descs: seq<Descriptor>, n: nat, m: nat)
    requires n <= m <= |descs|
    ensures MatchCount(entries, descs[..n]) <= MatchCount(entries, descs[..m])
    decreases m
  {
    if n < m {
      MatchesGrow(entries, descs, n, m - 1);
      MatchNext(entries, descs, m - 1);
    }
  }

  lemma UnrecordedStays(entries: seq<RelocInfo>, d: Descriptor)
    requires !IsRecorded(entries, d)
    ensures RestoreOne(entries, d) == d
  {
  }

  /** In any map with distinct ranges, every descriptor is looked up: stopping early never skips a match. */
  lemma EarlyExitDropsNothing(entries: seq<RelocInfo>, descs: seq<Descriptor>, i: nat)
    requires DistinctRanges(descs) && i < |descs|
    ensures RestoredAt(entries, descs, i) == RestoreOne(entries, descs[i])
  {
    if IsRecorded(entries, descs[i]) {
      FewRanges(entries);
      forall d | d in descs && IsRecorded(entries, d)
        ensures (d.physicalStart, d.LastAddr()) in EntryRanges(entries)
      {
        var entry :| entry in entries && Matches(entry, d);
      }
      MatchesAreFew(entries, descs, EntryRanges(entries));
      MatchNext(entries, descs, i);
      MatchesGrow(entries, descs, i + 1, |descs|);
      assert descs[..|descs|] == descs;
    } else {
      UnrecordedStays(entries, descs[i]);
    }
  }

  // The entries know the original types.

  lemma {:induction false} UnknownRangeUnrecorded(before: seq<Descriptor>, area: u64, areaSize: u64, d: Descriptor)
    requires forall b <- before :: !SameRange(b, d)
    ensures !IsRecorded(Recorded(before, area, areaSize), d)
  {
    if before != [] {
      assert before[|before| - 1] in before;
      UnknownRangeUnrecorded(before[..|before| - 1], area, areaSize, d);
    }
  }

  lemma {:induction false} RestoreOneAppend(entries: seq<RelocInfo>, entry: RelocInfo, d: Descriptor)
    ensures RestoreOne(entries + [entry], d) ==
            if IsRecorded(entries, d) then RestoreOne(entries, d)
            else if Matches(entry, d) then d.(kind := entry.kind) else d
  {
    if entries != [] {
      assert (entries + [entry])[1..] == entries[1..] + [entry];
      assert entries == [entries[0]] + entries[1..];
      RestoreOneAppend(entries[1..], entry, d);
    }
  }

  /** A descriptor with the range of before[k] and the type protection left there gets the original type back. */
  lemma {:induction false} KnownRangeRestored(
    before: seq<Descriptor>, area: u64, areaSize: u64, k: nat, d: Descriptor)
    requires DistinctRanges(before) && k < |before|
    requires SameRange(before[k], d) && d.kind == HiddenAt(before, area, areaSize, k).kind
    ensures RestoreOne(Recorded(before, area, areaSize), d) == d.(kind := before[k].kind)
  {
    var n := |before| - 1;
    var earlier := Recorded(before[..n], area, areaSize);
    RestoreOneAppend(earlier, Record(before[n]), d);
    if k == n {
      forall b | b in before[..n] ensures !SameRange(b, d) {
        var i :| 0 <= i < n && b == before[i];
        assert !SameRange(before[i], before[n]);
      }
      UnknownRangeUnrecorded(before[..n], area, areaSize, d);
      UnrecordedStays(earlier, d);
    } else {
      assert before[..n][..k] == before[..k];
      assert !SameRange(before[k], before[n]);
      KnownRangeRestored(before[..n], area, areaSize, k, d);
      if !IsRecorded(earlier, d) {
        UnrecordedStays(earlier, d);
      }
    }
  }

  /**
    Restoring undoes protecting, also when the protected map has been reordered, extended by other ranges or had other
    fields changed in between, and also when the table was too small for all runtime descriptors.
  */
  lemma RestoreUndoesProtect(before: seq<Descriptor>, area: u64, areaSize: u64, after: seq<Descriptor>, i: nat)
    requires DistinctRanges(before) && DistinctRanges(after) && i < |after|
    ensures
      var restored := Restored(Recorded(before, area, areaSize), after);
      && (forall k :: 0 <= k < |before| && SameRange(before[k], after[i])
                      && Hidden(before, area, areaSize)[k].kind == after[i].kind ==>
                        restored[i] == after[i].(kind := before[k].kind))
      && ((forall b <- before :: !SameRange(b, after[i])) ==> restored[i] == after[i])
  {
    var entries := Recorded(before, area, areaSize);
    EarlyExitDropsNothing(entries, after, i);
    forall k | 0 <= k < |before| && SameRange(before[k], after[i])
               && Hidden(before, area, areaSize)[k].kind == after[i].kind
      ensures RestoreOne(entries, after[i]) == after[i].(kind := before[k].kind)
    {
      KnownRangeRestored(before, area, areaSize, k, after[i]);
    }
    if forall b <- before :: !SameRange(b, after[i]) {
      UnknownRangeUnrecorded(before, area, areaSize, after[i]);
      UnrecordedStays(entries, after[i]);
    }
  }

  /** The plain round trip: protect, then restore the same map. */
  lemma RoundTrip(before: seq<Descriptor>, area: u64, areaSize: u64)
    requires DistinctRanges(before)
    ensures Restored(Recorded(before, area, areaSize), Hidden(before, area, areaSize)) == before
  {
    var hidden := Hidden(before, area, areaSize);
    assert forall k :: 0 <= k < |before| ==> SameRange(before[k], hidden[k]);
    forall i, j | 0 <= i < j < |hidden|
      ensures !SameRange(hidden[i], hidden[j])
    {
      assert !SameRange(before[i], before[j]);
    }
    forall i | 0 <= i < |before|
      ensures Restored(Recorded(before, area, areaSize), hidden)[i] == before[i]
    {
      RestoreUndoesProtect(before, area, areaSize, hidden, i);
    }
  }
}
