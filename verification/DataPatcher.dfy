/** Masked find and replace on a block of bytes. */
module DataPatcher {
  import opened Wrappers
  import opened LittleEndian

  function And(a: byte, b: byte): byte {
    ((a as bv8) & (b as bv8)) as int
  }

  /** Bits of `value` where the mask is set, bits of `was` elsewhere. */
  function Blend(was: byte, value: byte, mask: byte): byte {
    (((was as bv8) & !(mask as bv8)) | ((value as bv8) & (mask as bv8))) as int
  }

  datatype Patch = Patch(find: seq<byte>, mask: Option<seq<byte>>, replace: seq<byte>, replaceMask: Option<seq<byte>>)
  {
    const size: nat := |find|

    predicate Valid() {
      && |replace| == size
      && (mask.Some? ==> |mask.value| == size)
      && (replaceMask.Some? ==> |replaceMask.value| == size)
    }

    predicate Fits(b: byte, i: nat)
      requires Valid() && i < size
    {
      (if mask.Some? then And(b, mask.value[i]) else b) == find[i]
    }

    function Fresh(b: byte, i: nat): byte
      requires Valid() && i < size
    {
      if replaceMask.Some? then Blend(b, replace[i], replaceMask.value[i]) else replace[i]
    }

    predicate FitsAt(data: seq<byte>, offset: nat, i: nat)
      requires Valid() && i < size && offset + size <= |data|
    {
      Fits(data[offset + i], i)
    }

    predicate MatchesAt(data: seq<byte>, offset: nat)
      requires Valid()
    {
      offset + size <= |data| && forall i :: 0 <= i < size ==> FitsAt(data, offset, i)
    }

    /** The least match from `offset` on, |data| if there is none; the search stops before a match at the very end. */
    function FindFrom(data: seq<byte>, offset: nat): (found: nat)
      requires Valid()
      ensures found == |data| || (offset <= found && found + size < |data| && MatchesAt(data, found))
      ensures size > 0 ==> forall k :: offset <= k < found && k + size < |data| ==> !MatchesAt(data, k)
      decreases |data| - offset
    {
      if size == 0 || offset + size >= |data| then |data|
      else if MatchesAt(data, offset) then offset
      else FindFrom(data, offset + 1)
    }

    /** The least match anywhere from `offset` on, |data| if there is none. */
    function Leftmost(data: seq<byte>, offset: nat): (found: nat)
      requires Valid() && size > 0
      ensures found == |data| || (offset <= found && MatchesAt(data, found))
      ensures forall k :: offset <= k < found ==> !MatchesAt(data, k)
      decreases |data| - offset
    {
      if offset + size > |data| then |data|
      else if MatchesAt(data, offset) then offset
      else Leftmost(data, offset + 1)
    }

    /** The leftmost match is found if and only if it does not end where the data ends. */
    lemma FindsLeftmostExactly(data: seq<byte>, offset: nat)
      requires Valid() && size > 0
      ensures FindFrom(data, offset) == Leftmost(data, offset) <==> Leftmost(data, offset) + size != |data|
    {
    }

    /** The non-overlapping matches from `offset` on, from left to right. */
    function Sites(data: seq<byte>, offset: nat): (sites: seq<nat>)
      requires Valid()
      ensures forall i :: 0 <= i < |sites| ==>
                offset <= sites[i] && sites[i] + size < |data| && MatchesAt(data, sites[i])
      ensures forall i, j :: 0 <= i < j < |sites| ==> sites[i] + size <= sites[j]
      ensures sites != [] ==> size > 0
      decreases |data| - offset
    {
      var found := FindFrom(data, offset);
      if found == |data| || size == 0 then [] else [found] + Sites(data, found + size)
    }

    function ReplaceAt(data: seq<byte>, site: nat): (after: seq<byte>)
      requires Valid() && site + size <= |data|
      ensures |after| == |data|
    {
      seq(|data|, k requires 0 <= k < |data| => if site <= k < site + size then Fresh(data[k], k - site) else data[k])
    }

    ghost predicate InData(data: seq<byte>, sites: seq<nat>) {
      forall i :: 0 <= i < |sites| ==> sites[i] + size <= |data|
    }

    function ReplaceAll(data: seq<byte>, sites: seq<nat>): (after: seq<byte>)
      requires Valid() && InData(data, sites)
      ensures |after| == |data|
    {
      if sites == [] then data
      else ReplaceAt(ReplaceAll(data, sites[..|sites| - 1]), sites[|sites| - 1])
    }
  }

  /** The matches that are replaced: `skip` of them are passed over, and at most `count` replaced, 0 for all. */
  function Chosen(sites: seq<nat>, count: nat, skip: nat): (chosen: seq<nat>) {
    if skip >= |sites| then []
    else if count == 0 || skip + count >= |sites| then sites[skip..]
    else sites[skip..skip + count]
  }

  /** After the matches that are passed over, the next `count` of them, or all if `count` is 0. */
  lemma ChosenExactly(sites: seq<nat>, count: nat, skip: nat)
    ensures forall i :: 0 <= i < |Chosen(sites, count, skip)| ==>
              skip + i < |sites| && Chosen(sites, count, skip)[i] == sites[skip + i]
    ensures |Chosen(sites, count, skip)| < |sites| - skip ==> count > 0 && |Chosen(sites, count, skip)| == count
    ensures count > 0 ==> |Chosen(sites, count, skip)| <= count
  {
    var chosen := Chosen(sites, count, skip);
    if skip < |sites| {
      assert chosen == sites[skip..skip + |chosen|];
    }
  }

  lemma SitesFirst(patch: Patch, data: seq<byte>, offset: nat)
    requires patch.Valid() && patch.size > 0 && patch.FindFrom(data, offset) < |data|
    ensures
      var found := patch.FindFrom(data, offset);
      patch.Sites(data, offset) == [found] + patch.Sites(data, found + patch.size)
  {
  }

  lemma NoneFound(patch: Patch, data: seq<byte>, offset: nat)
    requires patch.Valid()
    ensures patch.FindFrom(data, offset) == |data| <==> patch.Sites(data, offset) == []
    ensures patch.FindFrom(data, offset) < |data| ==> patch.size > 0
  {
  }

  lemma FoundBefore(patch: Patch, data: seq<byte>, offset: nat, k: nat)
    requires patch.Valid() && patch.size > 0 && offset <= k && k + patch.size < |data| && patch.MatchesAt(data, k)
    ensures offset <= patch.FindFrom(data, offset) <= k
  {
  }

  /** The match at `k` overlaps one of the sites. */
  ghost predicate Covered(patch: Patch, sites: seq<nat>, k: nat) {
    exists i :: 0 <= i < |sites| && sites[i] <= k < sites[i] + patch.size
  }

  /** No match is missing from the sites but those that overlap one of them or end where the data ends. */
  lemma {:induction false} SitesComplete(patch: Patch, data: seq<byte>, offset: nat, k: nat)
    requires patch.Valid() && patch.size > 0 && offset <= k && k + patch.size < |data| && patch.MatchesAt(data, k)
    ensures Covered(patch, patch.Sites(data, offset), k)
    decreases |data| - offset
  {
    hide Patch.MatchesAt, Patch.FindFrom, Patch.Sites, Patch.Valid, Patch.FitsAt;
    FoundBefore(patch, data, offset, k);
    SitesFirst(patch, data, offset);
    var found, sites := patch.FindFrom(data, offset), patch.Sites(data, offset);
    if k < found + patch.size {
      assert sites[0] == found;
    } else {
      SitesComplete(patch, data, found + patch.size, k);
      var later := patch.Sites(data, found + patch.size);
      var i :| 0 <= i < |later| && later[i] <= k < later[i] + patch.size;
      assert sites[i + 1] == later[i];
    }
  }

  /** What ApplyPatch makes of the data. */
  function Patched(data: seq<byte>, patch: Patch, count: nat, skip: nat): (after: seq<byte>)
    requires patch.Valid()
    ensures |after| == |data|
  {
    patch.ReplaceAll(data, Chosen(patch.Sites(data, 0), count, skip))
  }

  // The search sees the original data.

  ghost predicate SameFrom(a: seq<byte>, b: seq<byte>, offset: nat) {
    |a| == |b| && forall k :: offset <= k < |a| ==> a[k] == b[k]
  }

  lemma MatchSame(patch: Patch, a: seq<byte>, b: seq<byte>, from: nat, offset: nat)
    requires patch.Valid() && SameFrom(a, b, from) && from <= offset
    ensures patch.MatchesAt(a, offset) <==> patch.MatchesAt(b, offset)
  {
    if offset + patch.size <= |a| {
      assert forall i :: 0 <= i < patch.size ==> (patch.FitsAt(a, offset, i) <==> patch.FitsAt(b, offset, i));
    }
  }

  lemma {:induction false} FindSame(patch: Patch, a: seq<byte>, b: seq<byte>, offset: nat)
    requires patch.Valid() && SameFrom(a, b, offset)
    ensures patch.FindFrom(a, offset) == patch.FindFrom(b, offset)
    decreases |a| - offset
  {
    if patch.size > 0 && offset + patch.size < |a| {
      MatchSame(patch, a, b, offset, offset);
      if !patch.MatchesAt(a, offset) {
        FindSame(patch, a, b, offset + 1);
      }
    }
  }

  /** Bytes outside the sites stay, and so do all bytes behind them. */
  lemma {:induction false} ReplaceAllFrame(patch: Patch, data: seq<byte>, sites: seq<nat>, k: nat)
    requires patch.Valid() && patch.InData(data, sites) && k < |data|
    requires forall i :: 0 <= i < |sites| ==> !(sites[i] <= k < sites[i] + patch.size)
    ensures patch.ReplaceAll(data, sites)[k] == data[k]
  {
    if sites != [] {
      ReplaceAllFrame(patch, data, sites[..|sites| - 1], k);
    }
  }

  /** At a chosen site the replacement is in place, computed from the original bytes. */
  lemma {:induction false} ReplaceAllAt(patch: Patch, data: seq<byte>, sites: seq<nat>, i: nat, k: nat)
    requires patch.Valid() && patch.InData(data, sites) && i < |sites| && k < patch.size
    requires forall a, b :: 0 <= a < b < |sites| ==> sites[a] + patch.size <= sites[b]
    ensures patch.ReplaceAll(data, sites)[sites[i] + k] == patch.Fresh(data[sites[i] + k], k)
  {
    var n := |sites| - 1;
    if i < n {
      ReplaceAllAt(patch, data, sites[..n], i, k);
      assert sites[i] + patch.size <= sites[n];
    } else {
      ReplaceAllFrame(patch, data, sites[..n], sites[i] + k);
    }
  }

  // A match at the very end.

  /** Data that is nothing but the pattern is not found. */
  lemma PatternAtTheEndIsMissed(patch: Patch)
    requires patch.Valid() && patch.size > 0 && patch.mask.None?
    ensures patch.MatchesAt(patch.find, 0) && patch.FindFrom(patch.find, 0) == |patch.find|
    ensures forall count: nat, skip: nat :: Patched(patch.find, patch, count, skip) == patch.find
  {
  }

  // In place, on `size` bytes of memory at `base`.

  function DataAt(m: seq<byte>, base: nat, size: nat): (data: seq<byte>)
    requires base + size <= |m|
    ensures |data| == size
  {
    m[base..base + size]
  }

  method MatchesHere(mem: array<byte>, base: nat, size: nat, patch: Patch, offset: nat) returns (matches: bool)
    requires patch.Valid() && base + size <= mem.Length && offset + patch.size <= size
    ensures matches == patch.MatchesAt(DataAt(mem[..], base, size), offset)
  {
    ghost var data := DataAt(mem[..], base, size);
    for i := 0 to patch.size
      invariant forall k :: 0 <= k < i ==> patch.FitsAt(data, offset, k)
    {
      assert mem[base + offset + i] == data[offset + i];
      if !patch.Fits(mem[base + offset + i], i) {
        assert !patch.FitsAt(data, offset, i);
        return false;
      }
    }
    matches := true;
  }

  /** FindPattern; `size` stands for -1. */
  method FindPattern(mem: array<byte>, base: nat, size: nat, patch: Patch, start: nat) returns (found: nat)
    requires patch.Valid() && base + size <= mem.Length
    ensures found == patch.FindFrom(DataAt(mem[..], base, size), start)
  {
    ghost var data := DataAt(mem[..], base, size);
    if patch.size == 0 || size == 0 || start >= size || size - start < patch.size {
      return size;
    }
    found := start;
    while found + patch.size < size
      invariant start <= found
      invariant patch.FindFrom(data, start) == patch.FindFrom(data, found)
      decreases size - found
    {
      var matches := MatchesHere(mem, base, size, patch, found);
      if matches {
        return;
      }
      found := found + 1;
    }
    found := size;
  }

  method ReplaceHere(mem: array<byte>, base: nat, size: nat, patch: Patch, site: nat)
    requires patch.Valid() && base + size <= mem.Length && site + patch.size <= size
    modifies mem
    ensures forall k :: 0 <= k < mem.Length && !(base <= k < base + size) ==> mem[k] == old(mem[k])
    ensures DataAt(mem[..], base, size) == patch.ReplaceAt(DataAt(old(mem[..]), base, size), site)
  {
    ghost var was := mem[..];
    for i := 0 to patch.size
      invariant forall k :: 0 <= k < mem.Length && !(base + site <= k < base + site + i) ==> mem[k] == was[k]
      invariant forall k :: base + site <= k < base + site + i ==> mem[k] == patch.Fresh(was[k], k - base - site)
    {
      mem[base + site + i] := patch.Fresh(mem[base + site + i], i);
    }
    ghost var after, target := DataAt(mem[..], base, size), patch.ReplaceAt(DataAt(was, base, size), site);
    forall k | 0 <= k < size
      ensures after[k] == target[k]
    {
      assert after[k] == mem[base + k] && DataAt(was, base, size)[k] == was[base + k];
    }
  }

  /** How many of the first `done` sites have been replaced. */
  function Replaced(done: nat, skip: nat): (replaced: nat)
    ensures replaced <= done
  {
    if done < skip then 0 else done - skip
  }

  /** Where the loop stands: `done` sites of the original data have been handled, the search goes on at `offset`. */
  ghost predicate Progress(
    patch: Patch, data: seq<byte>, now: seq<byte>, sites: seq<nat>, offset: nat, done: nat, skip: nat)
  {
    && patch.Valid() && patch.InData(data, sites) && done <= |sites|
    && patch.Sites(data, offset) == sites[done..] && SameFrom(data, now, offset)
    && now == patch.ReplaceAll(data, sites[done - Replaced(done, skip)..done])
  }

  lemma ProgressStarts(patch: Patch, data: seq<byte>, skip: nat)
    requires patch.Valid()
    ensures Progress(patch, data, data, patch.Sites(data, 0), 0, 0, skip)
  {
  }

  /** The search finds the next site of the original data, or there is none. */
  lemma ProgressFinds(patch: Patch, data: seq<byte>, now: seq<byte>, sites: seq<nat>, offset: nat, done: nat, skip: nat)
    requires Progress(patch, data, now, sites, offset, done, skip)
    ensures |now| == |data|
    ensures
      var found := patch.FindFrom(now, offset);
      if found == |data| then done == |sites|
      else
        && done < |sites| && sites[done] == found && patch.size > 0 && offset <= found
        && patch.Sites(data, found + patch.size) == sites[done + 1..]
  {
    hide Patch.MatchesAt, Patch.FindFrom, Patch.ReplaceAll, Patch.Sites;
    FindSame(patch, data, now, offset);
    var found := patch.FindFrom(data, offset);
    NoneFound(patch, data, offset);
    if found < |data| {
      SitesFirst(patch, data, offset);
      assert sites[done..][0] == sites[done] && sites[done..][1..] == sites[done + 1..];
    }
  }

  lemma ProgressPasses(
    patch: Patch, data: seq<byte>, now: seq<byte>, sites: seq<nat>, offset: nat, done: nat, skip: nat)
    requires Progress(patch, data, now, sites, offset, done, skip)
    requires patch.FindFrom(now, offset) != |data| && done < skip
    ensures Progress(patch, data, now, sites, patch.FindFrom(now, offset) + patch.size, done + 1, skip)
  {
  }

  lemma ProgressReplaces(
    patch: Patch, data: seq<byte>, now: seq<byte>, sites: seq<nat>, offset: nat, done: nat, skip: nat)
    requires Progress(patch, data, now, sites, offset, done, skip)
    requires patch.FindFrom(now, offset) != |data| && done >= skip
    ensures
      var found := patch.FindFrom(now, offset);
      && found + patch.size <= |now|
      && Progress(patch, data, patch.ReplaceAt(now, found), sites, found + patch.size, done + 1, skip)
  {
    hide Patch.MatchesAt, Patch.FindFrom, Patch.Sites, Patch.ReplaceAll;
    ProgressFinds(patch, data, now, sites, offset, done, skip);
    ReplaceAllNext(patch, data, sites, skip, done);
    hide Patch.Valid;
  }

  lemma ReplaceAllNext(patch: Patch, data: seq<byte>, sites: seq<nat>, skip: nat, done: nat)
    requires patch.Valid() && patch.InData(data, sites) && skip <= done < |sites|
    ensures patch.ReplaceAll(data, sites[skip..done + 1])
            == patch.ReplaceAt(patch.ReplaceAll(data, sites[skip..done]), sites[done])
  {
    hide Patch.MatchesAt, Patch.FindFrom, Patch.Sites, Patch.ReplaceAt;
    assert sites[skip..done + 1][..done - skip] == sites[skip..done];
  }

  /** Finds the next match and replaces it unless it is to be passed over. */
  method PatchNext(
    mem: array<byte>, base: nat, size: nat, patch: Patch, offset: nat, passing: nat,
    ghost data: seq<byte>, ghost sites: seq<nat>, ghost done: nat, ghost skip: nat)
    returns (found: nat)
    requires base + size <= mem.Length && passing == (if done < skip then skip - done else 0)
    requires Progress(patch, data, DataAt(mem[..], base, size), sites, offset, done, skip)
    modifies mem
    ensures forall k :: 0 <= k < mem.Length && !(base <= k < base + size) ==> mem[k] == old(mem[k])
    ensures found == size ==>
              done == |sites| && Progress(patch, data, DataAt(mem[..], base, size), sites, offset, done, skip)
    ensures found != size ==>
              && done < |sites|
              && Progress(patch, data, DataAt(mem[..], base, size), sites, found + patch.size, done + 1, skip)
  {
    ghost var now := DataAt(mem[..], base, size);
    ProgressFinds(patch, data, now, sites, offset, done, skip);
    assert patch.Valid();
    hide Patch.Sites, Patch.ReplaceAll, Patch.ReplaceAt, Patch.FindFrom, Patch.Valid, Progress;
    found := FindPattern(mem, base, size, patch, offset);
    if found < size {
      if passing > 0 {
        ProgressPasses(patch, data, now, sites, offset, done, skip);
      } else {
        ProgressReplaces(patch, data, now, sites, offset, done, skip);
        ReplaceHere(mem, base, size, patch, found);
      }
    }
  }

  /**
    ApplyPatch. Only bytes of the data change: the chosen matches of the original data are replaced, although the search
    runs on data that is being changed.
  */
  method ApplyPatch(mem: array<byte>, base: nat, size: nat, patch: Patch, count: nat, skip: nat)
    returns (replaceCount: nat)
    requires patch.Valid() && base + size <= mem.Length
    modifies mem
    ensures forall k :: 0 <= k < mem.Length && !(base <= k < base + size) ==> mem[k] == old(mem[k])
    ensures DataAt(mem[..], base, size) == Patched(DataAt(old(mem[..]), base, size), patch, count, skip)
    ensures replaceCount == |Chosen(patch.Sites(DataAt(old(mem[..]), base, size), 0), count, skip)|
  {
    hide Patch.Sites, Patch.ReplaceAll, Patch.ReplaceAt, Patch.FindFrom, Patch.Valid, Patched, Progress, DataAt, Chosen;
    ghost var data, sites, done := DataAt(mem[..], base, size), patch.Sites(DataAt(mem[..], base, size), 0), 0;
    var offset, passing, left := 0, skip, count;
    replaceCount := 0;
    ProgressStarts(patch, data, skip);
    while true
      invariant forall k :: 0 <= k < mem.Length && !(base <= k < base + size) ==> mem[k] == old(mem[k])
      invariant 0 <= offset && done <= |sites| && passing == (if done < skip then skip - done else 0)
      invariant replaceCount == Replaced(done, skip)
      invariant if count == 0 then left == 0 else 0 < left == count - replaceCount
      invariant Progress(patch, data, DataAt(mem[..], base, size), sites, offset, done, skip)
      decreases |sites| - done
    {
      var found := PatchNext(mem, base, size, patch, offset, passing, data, sites, done, skip);
      if found == size {
        break;
      }
      offset, done := found + patch.size, done + 1;
      if passing > 0 {
        passing := passing - 1;
      } else {
        replaceCount := replaceCount + 1;
        if left > 0 {
          left := left - 1;
          if left == 0 {
            break;
          }
        }
      }
    }
    ProgressEnds(patch, data, DataAt(mem[..], base, size), sites, offset, done, count, skip);
  }

  lemma ProgressEnds(
    patch: Patch, data: seq<byte>, now: seq<byte>, sites: seq<nat>, offset: nat, done: nat, count: nat, skip: nat)
    requires Progress(patch, data, now, sites, offset, done, skip) && sites == patch.Sites(data, 0)
    requires done == |sites| || (count > 0 && done == skip + count)
    requires count > 0 ==> Replaced(done, skip) <= count
    ensures now == Patched(data, patch, count, skip) && Replaced(done, skip) == |Chosen(sites, count, skip)|
  {
    hide Patch.Sites, Patch.ReplaceAll, SameFrom, Patch.MatchesAt;
    assert sites[..|sites|] == sites;
    if done < skip {
      assert sites[done..done] == [];
    }
    assert Chosen(sites, count, skip) == sites[done - Replaced(done, skip)..done];
  }
}
