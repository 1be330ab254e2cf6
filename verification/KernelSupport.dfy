/** The boot compatibility context parts that hold the recorded types and the partial memory map. */
module KernelSupport {
  import opened Words
  import opened MemoryMap
  import opened RuntimeProtection
  import opened RuntimeMapping

  const RT_DESC_ENTRY_NUM: int := 64
  /** sizeof (EFI_MEMORY_DESCRIPTOR); firmware descriptors may be larger. */
  const DESCRIPTOR_SIZE: int := 40

  datatype Status = Success | OutOfResources | Other(code: nat)

  class RtReloc {
    const relocInfo: array<RelocInfo>
    var numEntries: nat

    ghost predicate Valid()
      reads this
    {
      relocInfo.Length == RT_RELOC_PROTECT_MAX_NUM && numEntries <= RT_RELOC_PROTECT_MAX_NUM
    }

    ghost function Entries(): seq<RelocInfo>
      requires Valid()
      reads this, relocInfo
    {
      relocInfo[..numEntries]
    }

    constructor ()
      ensures Valid() && Entries() == [] && fresh(relocInfo)
    {
      numEntries := 0;
      relocInfo := new RelocInfo[RT_RELOC_PROTECT_MAX_NUM](_ => RelocInfo(0, 0, Reserved));
    }

    method Add(d: Descriptor)
      requires Valid() && numEntries < RT_RELOC_PROTECT_MAX_NUM
      modifies this, relocInfo
      ensures Valid() && Entries() == old(Entries()) + [Record(d)]
    {
      relocInfo[numEntries] := RelocInfo(d.physicalStart, d.LastAddr(), d.kind);
      numEntries := numEntries + 1;
    }

    /** ProtectRtMemoryFromRelocation. */
    method Protect(descs: array<Descriptor>, area: u64, areaSize: u64)
      requires Valid()
      modifies this, relocInfo, descs
      ensures Valid()
      ensures descs[..] == Hidden(old(descs[..]), area, areaSize)
      ensures Entries() == Recorded(old(descs[..]), area, areaSize)
    {
      ghost var before := descs[..];
      numEntries := 0;
      for i := 0 to descs.Length
        invariant Valid()
        invariant forall k :: 0 <= k < i ==> descs[k] == HiddenAt(before, area, areaSize, k)
        invariant forall k :: i <= k < descs.Length ==> descs[k] == before[k]
        invariant Entries() == Recorded(before[..i], area, areaSize)
      {
        var d := descs[i];
        RecordedNext(before, i, area, areaSize);
        if d.runtime && d.pages > 0 && (d.kind.RuntimeServicesCode? || d.kind.RuntimeServicesData?)
           && !d.AreaWithin(area, areaSize) {
          if numEntries == relocInfo.Length {
            forall k | i <= k <= descs.Length
              ensures Recorded(before[..k], area, areaSize) == Recorded(before[..i], area, areaSize)
            {
              FullStays(before, i, k, area, areaSize);
            }
            assert before[..|before|] == before;
            return;
          }
          Add(d);
          descs[i] := d.(kind := MemoryMappedIo);
        }
      }
      assert before[..|before|] == before;
    }

    /** RestoreProtectedRtMemoryTypes. */
    method Restore(descs: array<Descriptor>)
      requires Valid()
      modifies descs
      ensures descs[..] == Restored(Entries(), old(descs[..]))
    {
      ghost var before, entries := descs[..], Entries();
      var left := numEntries;
      var i := 0;
      while i < descs.Length && left > 0
        invariant 0 <= i <= descs.Length
        invariant left == numEntries - MatchCount(entries, before[..i]) >= 0
        invariant forall k :: 0 <= k < i ==> descs[k] == RestoredAt(entries, before, k)
        invariant forall k :: i <= k < descs.Length ==> descs[k] == before[k]
      {
        MatchNext(entries, before, i);
        var found, kind := Lookup(descs[i]);
        if found {
          descs[i] := descs[i].(kind := kind);
          left := left - 1;
        } else {
          UnrecordedStays(entries, before[i]);
        }
        i := i + 1;
      }
      forall k | i <= k < descs.Length
        ensures RestoredAt(entries, before, k) == before[k]
      {
        MatchesGrow(entries, before, i, k);
      }
    }

    method Lookup(d: Descriptor) returns (found: bool, kind: MemoryType)
      requires Valid()
      ensures found == IsRecorded(Entries(), d)
      ensures found ==> RestoreOne(Entries(), d) == d.(kind := kind)
    {
      ghost var entries := Entries();
      found, kind := false, d.kind;
      for j := 0 to numEntries
        invariant forall k :: 0 <= k < j ==> !Matches(entries[k], d)
        invariant RestoreOne(entries, d) == RestoreOne(entries[j..], d)
      {
        assert entries[j..][1..] == entries[j + 1..];
        if d.physicalStart == relocInfo[j].physicalStart && d.LastAddr() == relocInfo[j].physicalEnd {
          assert Matches(entries[j], d);
          return true, relocInfo[j].kind;
        }
      }
    }
  }

  class KernelState {
    const vmMap: array<Descriptor>
    /** Used bytes of `vmMap`, whose slots are `vmMapDescSize` bytes apart. */
    var vmMapSize: nat
    var vmMapDescSize: nat
    /** Slots in use; the original keeps a pointer to the next slot instead. */
    var vmCount: nat

    ghost predicate Valid()
      reads this
    {
      && vmMap.Length == RT_DESC_ENTRY_NUM
      && vmCount <= RT_DESC_ENTRY_NUM
      && vmMapSize == vmCount * vmMapDescSize
    }

    ghost function Mapped(): seq<Descriptor>
      requires Valid()
      reads this, vmMap
    {
      vmMap[..vmCount]
    }

    constructor ()
      ensures Valid() && fresh(vmMap) && Mapped() == []
    {
      vmMap := new Descriptor[RT_DESC_ENTRY_NUM](_ => Descriptor(Reserved, 0, 0, 0, false, 0));
      vmMapSize, vmMapDescSize, vmCount := 0, 0, 0;
    }

    /** Copies a descriptor into the next slot. */
    method Put(d: Descriptor)
      requires Valid() && vmCount < RT_DESC_ENTRY_NUM
      modifies this, vmMap
      ensures Valid() && vmMapDescSize == old(vmMapDescSize)
      ensures Mapped() == old(Mapped()) + [d]
    {
      vmMap[vmCount] := d;
      vmCount := vmCount + 1;
      vmMapSize := vmMapSize + vmMapDescSize;
    }

    method HasRoom() returns (room: bool)
      requires Valid() && DESCRIPTOR_SIZE <= vmMapDescSize
      ensures room == RoomFor(vmCount + 1, vmMapDescSize)
      ensures room ==> vmCount < RT_DESC_ENTRY_NUM
    {
      SlotsFit(vmCount, vmMapDescSize);
      room := vmMapSize + vmMapDescSize <= RT_DESC_ENTRY_NUM * DESCRIPTOR_SIZE;
    }

    /**
      PerformRtMemoryVirtualMapping. `rejected` are the descriptors the page mapper cannot map, `setMap` is the
      firmware's answer to SetVirtualAddressMap.
    */
    method MapRuntime(descs: array<Descriptor>, descSize: nat, rejected: set<Descriptor>, setMap: Status)
      returns (status: Status)
      requires Valid() && descs != vmMap && DESCRIPTOR_SIZE <= descSize
      modifies this, vmMap
      ensures Valid() && vmMapDescSize == descSize
      ensures Mapped() <= RuntimeOf(descs[..])
      ensures if Mappable(RuntimeOf(descs[..]), descSize, rejected)
              then status == setMap && Mapped() == RuntimeOf(descs[..])
              else status == OutOfResources
    {
      vmMapSize, vmMapDescSize, vmCount := 0, descSize, 0;
      ghost var view := descs[..];
      for i := 0 to descs.Length
        invariant descs[..] == view
        invariant Valid() && vmMapDescSize == descSize
        invariant Mapped() == RuntimeOf(view[..i])
        invariant Mappable(RuntimeOf(view[..i]), descSize, rejected)
      {
        var d := descs[i];
        RuntimeNext(view, i);
        if !d.kind.Reserved? && d.runtime {
          RuntimePlace(view, i);
          var room := HasRoom();
          if !room || d in rejected {
            NotMappable(RuntimeOf(view), vmCount, descSize, rejected);
            return OutOfResources;
          }
          Put(d);
        }
      }
      assert view[..descs.Length] == view;
      status := setMap;
    }
  }

  predicate RoomFor(count: nat, descSize: nat) {
    count * descSize <= RT_DESC_ENTRY_NUM * DESCRIPTOR_SIZE
  }

  /** Everything picked fits into the table and can be mapped. */
  predicate Mappable(picked: seq<Descriptor>, descSize: nat, rejected: set<Descriptor>) {
    RoomFor(|picked|, descSize) && forall d <- picked :: d !in rejected
  }

  lemma NotMappable(picked: seq<Descriptor>, place: nat, descSize: nat, rejected: set<Descriptor>)
    requires place < |picked|
    requires !RoomFor(place + 1, descSize) || picked[place] in rejected
    ensures !Mappable(picked, descSize, rejected)
  {
  }

  /** Whoever finds room in bytes finds room in slots. */
  lemma SlotsFit(count: nat, descSize: nat)
    requires DESCRIPTOR_SIZE <= descSize
    ensures RoomFor(count + 1, descSize) ==> count < RT_DESC_ENTRY_NUM
  {
  }
}
