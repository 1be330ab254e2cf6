/**
  Stripping the RUNTIME attribute from memory-mapped I/O, which shrinks the area boot.efi reserves behind the kernel.
*/
module DevirtualiseMmio {
  import opened Words
  import opened MemoryMap

  predicate IsWhitelisted(d: Descriptor, whitelist: seq<u64>) {
    exists address <- whitelist :: d.AreaWithin(address, 1)
  }

  predicate Strips(d: Descriptor, whitelist: seq<u64>) {
    d.pages > 0 && d.kind.MemoryMappedIo? && d.runtime && !IsWhitelisted(d, whitelist)
  }

  function StripOne(d: Descriptor, whitelist: seq<u64>): Descriptor {
    if Strips(d, whitelist) then d.(runtime := false) else d
  }

  function Stripped(descs: seq<Descriptor>, whitelist: seq<u64>): seq<Descriptor> {
    seq(|descs|, i requires 0 <= i < |descs| => StripOne(descs[i], whitelist))
  }

  function PagesSaved(descs: seq<Descriptor>, whitelist: seq<u64>): nat {
    if descs == [] then 0
    else
      var last := descs[|descs| - 1];
      PagesSaved(descs[..|descs| - 1], whitelist) + if Strips(last, whitelist) then last.pages else 0
  }

  /** A descriptor loses RUNTIME exactly if it is MMIO with pages and holds no whitelisted address. */
  lemma StrippedExactly(descs: seq<Descriptor>, whitelist: seq<u64>, i: nat)
    requires i < |descs| && descs[i].WellFormed()
    ensures
      var d, after := descs[i], Stripped(descs, whitelist)[i];
      && after == d.(runtime := after.runtime)
      && (after.runtime <==>
            && d.runtime
            && (d.kind != MemoryMappedIo || d.pages == 0 || exists address <- whitelist :: d.Contains(address)))
  {
    var d := descs[i];
    if d.pages > 0 {
      forall address: u64
        ensures d.AreaWithin(address, 1) <==> d.Contains(address)
      {
        OneByteWithin(d, address);
      }
    }
  }

  lemma OneByteWithin(d: Descriptor, address: u64)
    requires d.WellFormed() && d.pages > 0
    ensures d.AreaWithin(address, 1) <==> d.Contains(address)
  {
  }

  /** Strips the map in place; the returned page count is kept in 64 bits. */
  method Devirtualise(descs: array<Descriptor>, whitelist: seq<u64>) returns (pagesSaved: u64)
    modifies descs
    ensures descs[..] == Stripped(old(descs[..]), whitelist)
    ensures pagesSaved == Wrap(PagesSaved(old(descs[..]), whitelist))
  {
    pagesSaved := 0;
    ghost var before := descs[..];
    for i := 0 to descs.Length
      invariant forall k :: 0 <= k < i ==> descs[k] == StripOne(before[k], whitelist)
      invariant forall k :: i <= k < descs.Length ==> descs[k] == before[k]
      invariant pagesSaved == Wrap(PagesSaved(before[..i], whitelist))
    {
      assert before[..i + 1][..i] == before[..i];
      var d := descs[i];
      if d.pages > 0 && d.kind.MemoryMappedIo? && d.runtime {
        var skipped := false;
        var j := 0;
        while j < |whitelist| && !skipped
          invariant j <= |whitelist|
          invariant skipped ==> IsWhitelisted(d, whitelist)
          invariant !skipped ==> forall k :: 0 <= k < j ==> !d.AreaWithin(whitelist[k], 1)
          decreases |whitelist| - j, !skipped
        {
          if d.AreaWithin(whitelist[j], 1) {
            skipped := true;
          } else {
            j := j + 1;
          }
        }
        if !skipped {
          descs[i] := d.(runtime := false);
          WrapAdd(PagesSaved(before[..i], whitelist), d.pages);
          pagesSaved := Wrap(pagesSaved + d.pages);
        }
      }
    }
    assert before[..descs.Length] == before;
  }

  /** Every stripped page, and no other, stops counting as a runtime page. */
  lemma {:induction false} RuntimePagesSaved(descs: seq<Descriptor>, whitelist: seq<u64>)
    ensures RuntimePages(Stripped(descs, whitelist)) + PagesSaved(descs, whitelist) == RuntimePages(descs)
  {
    if descs != [] {
      var n := |descs| - 1;
      RuntimePagesSaved(descs[..n], whitelist);
      assert Stripped(descs, whitelist)[..n] == Stripped(descs[..n], whitelist);
    }
  }
}
