/**
  UEFI memory maps (section 7.2 of UEFI 2.7) as the boot compatibility code sees them.
*/
module MemoryMap {
  import opened Words

  datatype MemoryType =
    | Reserved
    | LoaderCode
    | LoaderData
    | BootServicesCode
    | BootServicesData
    | RuntimeServicesCode
    | RuntimeServicesData
    | Conventional
    | Unusable
    | AcpiReclaim
    | AcpiNvs
    | MemoryMappedIo
    | OtherType(value: nat)

  const PAGE_SIZE: int := 0x1000

  /** `runtime` is the EFI_MEMORY_RUNTIME bit of the attribute mask, `attributes` its other bits. */
  datatype Descriptor = Descriptor(
    kind: MemoryType,
    physicalStart: u64,
    virtualStart: u64,
    pages: u64,
    runtime: bool,
    attributes: u64)
  {
    /** End of the described area as a mathematical integer (not inclusive). */
    function End(): int {
      physicalStart + pages * PAGE_SIZE
    }

    /** LAST_DESCRIPTOR_ADDR, computed in 64 bits: meaningless for zero pages, exact otherwise when it fits. */
    function LastAddr(): u64 {
      Wrap(End() - 1)
    }

    predicate Contains(address: int) {
      physicalStart <= address < End()
    }

    /** AREA_WITHIN_DESCRIPTOR, computed in 64 bits. */
    predicate AreaWithin(area: u64, size: u64) {
      area >= physicalStart && Wrap(area + Wrap(size - 1)) <= LastAddr()
    }

    /** The described bytes exist in a 64-bit address space. */
    predicate WellFormed() {
      End() <= TWO_TO_THE_64
    }
  }

  predicate WellFormed(descs: seq<Descriptor>) {
    forall d <- descs :: d.WellFormed()
  }

  predicate DisjointPair(a: Descriptor, b: Descriptor) {
    a.pages == 0 || b.pages == 0 || a.End() <= b.physicalStart || b.End() <= a.physicalStart
  }

  /** No byte is described twice. */
  predicate Disjoint(descs: seq<Descriptor>) {
    forall i, j :: 0 <= i < j < |descs| ==> DisjointPair(descs[i], descs[j])
  }

  predicate HavePages(descs: seq<Descriptor>) {
    forall d <- descs :: d.pages != 0
  }

  predicate CountsAsRuntime(d: Descriptor) {
    d.kind != Reserved && d.runtime
  }

  /** Number of pages boot.efi will map for runtime services. */
  function RuntimePages(descs: seq<Descriptor>): nat {
    if descs == [] then 0
    else
      var last := descs[|descs| - 1];
      RuntimePages(descs[..|descs| - 1]) + if CountsAsRuntime(last) then last.pages else 0
  }

  /** Every page of a runtime descriptor that is not reserved, by the place of the descriptor and its number in it. */
  ghost function RuntimePageSet(descs: seq<Descriptor>): set<(int, int)> {
    set i, p | 0 <= i < |descs| && 0 <= p < descs[i].pages && descs[i].runtime && descs[i].kind != Reserved :: (i, p)
  }

  ghost function PagesOf(i: int, pages: int): (all: set<(int, int)>)
    requires 0 <= pages
    ensures |all| == pages && forall x :: x in all <==> x.0 == i && 0 <= x.1 < pages
  {
    if pages == 0 then {} else PagesOf(i, pages - 1) + {(i, pages - 1)}
  }

  /** The sum counts exactly these pages. */
  lemma {:induction false} RuntimePagesExactly(descs: seq<Descriptor>)
    ensures RuntimePages(descs) == |RuntimePageSet(descs)|
  {
    if descs == [] {
      assert RuntimePageSet(descs) == {};
    } else {
      RuntimePagesExactly(descs[..|descs| - 1]);
      RuntimePageStep(descs);
    }
  }

  lemma RuntimePageStep(descs: seq<Descriptor>)
    requires descs != []
    ensures
      var n := |descs| - 1;
      |RuntimePageSet(descs)|
      == |RuntimePageSet(descs[..n])| + if descs[n].runtime && descs[n].kind != Reserved then descs[n].pages else 0
  {
    var n := |descs| - 1;
    var last := if descs[n].runtime && descs[n].kind != Reserved then PagesOf(n, descs[n].pages) else {};
    forall i, p
      ensures (i, p) in RuntimePageSet(descs) <==> (i, p) in RuntimePageSet(descs[..n]) || (i, p) in last
    {
    }
    assert RuntimePageSet(descs) == RuntimePageSet(descs[..n]) + last;
    assert RuntimePageSet(descs[..n]) !! last;
  }

  /** In 64 bits, an area lies within a descriptor exactly when it does as a set of bytes. */
  lemma AreaWithinExactly(d: Descriptor, area: u64, size: u64)
    requires d.WellFormed() && d.pages > 0 && size > 0 && area + size <= TWO_TO_THE_64
    ensures d.AreaWithin(area, size) <==> forall b :: area <= b < area + size ==> d.Contains(b)
  {
    assert d.Contains(area) && d.Contains(area + size - 1) ==> forall b :: area <= b < area + size ==> d.Contains(b);
  }

  /** An empty area lies within a descriptor that starts before it and does not end before it, in 64 bits. */
  lemma EmptyAreaWithin(d: Descriptor, area: u64)
    requires d.WellFormed() && d.pages > 0
    ensures d.AreaWithin(area, 0) <==>
            d.physicalStart <= area && if area > 0 then area <= d.End() else d.End() == TWO_TO_THE_64
  {
  }

  /** CountRuntimePages of OcMemoryLib: the sum is kept in 64 bits. */
  method CountRuntimePages(descs: array<Descriptor>) returns (pages: u64)
    ensures pages == Wrap(RuntimePages(descs[..]))
  {
    pages := 0;
    for i := 0 to descs.Length
      invariant pages == Wrap(RuntimePages(descs[..i]))
    {
      assert descs[..i + 1][..i] == descs[..i];
      if CountsAsRuntime(descs[i]) {
        WrapAdd(RuntimePages(descs[..i]), descs[i].pages);
        pages := Wrap(pages + descs[i].pages);
      }
    }
    assert descs[..descs.Length] == descs[..];
  }
}
