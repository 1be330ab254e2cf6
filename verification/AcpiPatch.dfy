/** AcpiApplyPatch on one table. */
module AcpiPatch {
  import opened LittleEndian
  import opened AcpiMemory
  import opened AcpiTables
  import opened AcpiContext
  import opened AcpiEdit
  import opened DataPatcher
  import AcpiDrop

  /** How much of the table is patched: all of it unless there is a limit. */
  function PatchSize(m: seq<byte>, table: nat, limit: nat): nat
    requires table + 8 <= |m|
  {
    if limit == 0 then TableLength(m, table) else limit
  }

  /** The bytes of the table after the patch, before the checksum. */
  function PatchedTable(m: seq<byte>, table: nat, patch: Patch, limit: nat, count: nat, skip: nat): seq<byte>
    requires patch.Valid() && table + 8 <= |m| && table + PatchSize(m, table, limit) <= |m|
  {
    Patched(DataAt(m, table, PatchSize(m, table, limit)), patch, count, skip)
  }

  function PatchCount(m: seq<byte>, table: nat, patch: Patch, limit: nat, count: nat, skip: nat): nat
    requires patch.Valid() && table + 8 <= |m| && table + PatchSize(m, table, limit) <= |m|
  {
    |Chosen(patch.Sites(DataAt(m, table, PatchSize(m, table, limit)), 0), count, skip)|
  }

  /** Memory with the patched bytes in place. */
  function Overlay(m: seq<byte>, table: nat, patched: seq<byte>): (after: seq<byte>)
    requires table + |patched| <= |m|
    ensures |after| == |m|
  {
    m[..table] + patched + m[table + |patched|..]
  }

  /** The length field after the patch, which may have changed it. */
  function NewLength(m: seq<byte>, table: nat, patched: seq<byte>): nat
    requires table + 8 <= |m| && table + |patched| <= |m|
  {
    TableLength(Overlay(m, table, patched), table)
  }

  /** What the new length says is there. */
  predicate NewLengthFits(m: seq<byte>, table: nat, patched: seq<byte>)
    requires table + 8 <= |m| && table + |patched| <= |m|
  {
    NewLength(m, table, patched) >= HEADER_SIZE ==> table + NewLength(m, table, patched) <= |m|
  }

  /** The memory after the patch and the checksum: `patched` from the table on, but for the checksum byte. */
  ghost predicate HoldsPatched(before: seq<byte>, after: seq<byte>, table: nat, patched: seq<byte>) {
    && table + |patched| <= |before| && |after| == |before|
    && forall k :: 0 <= k < |before| && k != table + CHECKSUM ==> after[k] == Overlay(before, table, patched)[k]
  }

  lemma PatchedLength(before: seq<byte>, after: seq<byte>, table: nat, patched: seq<byte>)
    requires table + 8 <= |before| && HoldsPatched(before, after, table, patched)
    ensures TableLength(after, table) == NewLength(before, table, patched)
  {
    ReadSame(Overlay(before, table, patched), after, table + LENGTH, 4);
  }

  lemma PatchedNothing(m: seq<byte>, table: nat, patch: Patch, limit: nat, count: nat, skip: nat)
    requires patch.Valid() && table + 8 <= |m| && table + PatchSize(m, table, limit) <= |m|
    requires PatchCount(m, table, patch, limit, count, skip) == 0
    ensures PatchedTable(m, table, patch, limit, count, skip) == DataAt(m, table, PatchSize(m, table, limit))
  {
  }

  /** The bytes of one table and what to do about the checksum. */
  method PatchBytes(mem: array<byte>, table: nat, patch: Patch, limit: nat, count: nat, skip: nat)
    returns (replaceCount: nat)
    requires patch.Valid() && Headed(mem[..], table) && table + PatchSize(mem[..], table, limit) <= mem.Length
    requires NewLengthFits(mem[..], table, PatchedTable(mem[..], table, patch, limit, count, skip))
    modifies mem
    ensures replaceCount == PatchCount(old(mem[..]), table, patch, limit, count, skip)
    ensures replaceCount == 0 ==> mem[..] == old(mem[..])
    ensures PatchDone(old(mem[..]), mem[..], table, PatchedTable(old(mem[..]), table, patch, limit, count, skip),
                      replaceCount)
  {
    hide SumsToZero, ReadInt, Patched, Chosen, Overlay, Patch.Sites, Patch.Valid;
    ghost var before := mem[..];
    ghost var patched := PatchedTable(before, table, patch, limit, count, skip);
    var length := Read(mem, table + LENGTH, 4);
    var size := if limit == 0 then length else limit;
    replaceCount := ApplyPatch(mem, table, size, patch, count, skip);
    ghost var written := mem[..];
    WrittenHolds(before, written, table, patched);
    PatchedLength(before, written, table, patched);
    if replaceCount > 0 {
      var newLength := Read(mem, table + LENGTH, 4);
      if newLength >= HEADER_SIZE {
        RefreshChecksum(mem, table, newLength, CHECKSUM);
        PatchedLength(before, mem[..], table, patched);
      }
    } else {
      PatchedNothing(before, table, patch, limit, count, skip);
      NothingWritten(before, written, table, size);
    }
  }

  /** The patched bytes are in place, and if anything was replaced the table sums to zero over its new length. */
  ghost predicate PatchDone(before: seq<byte>, after: seq<byte>, table: nat, patched: seq<byte>, replaceCount: nat) {
    && table + 8 <= |before| && HoldsPatched(before, after, table, patched)
    && TableLength(after, table) == NewLength(before, table, patched)
    && (replaceCount > 0 && TableLength(after, table) >= HEADER_SIZE ==>
          table + TableLength(after, table) <= |after| && SumsToZero(after, table, TableLength(after, table)))
  }

  lemma WrittenHolds(before: seq<byte>, written: seq<byte>, table: nat, patched: seq<byte>)
    requires |written| == |before| && table + |patched| <= |before| && DataAt(written, table, |patched|) == patched
    requires forall k :: 0 <= k < |before| && !(table <= k < table + |patched|) ==> written[k] == before[k]
    ensures written == Overlay(before, table, patched)
  {
    assert forall k :: 0 <= k < |patched| ==> DataAt(written, table, |patched|)[k] == written[table + k];
  }

  lemma NothingWritten(before: seq<byte>, written: seq<byte>, table: nat, size: nat)
    requires |written| == |before| && table + size <= |before|
    requires DataAt(written, table, size) == DataAt(before, table, size)
    requires forall k :: 0 <= k < |before| && !(table <= k < table + size) ==> written[k] == before[k]
    ensures written == before
  {
    forall k | table <= k < table + size
      ensures written[k] == before[k]
    {
      assert DataAt(written, table, size)[k - table] == DataAt(before, table, size)[k - table];
    }
  }

  /** Inside the table, a patch is an edit if and only if it leaves the value of the length field alone. */
  lemma PatchEditsExactly(before: seq<byte>, after: seq<byte>, table: nat, patched: seq<byte>, replaceCount: nat)
    requires HasTable(before, table) && |patched| <= TableLength(before, table)
    requires PatchDone(before, after, table, patched, replaceCount) && (replaceCount == 0 ==> after == before)
    ensures Edits(before, after, table) <==> NewLength(before, table, patched) == TableLength(before, table)
  {
    forall k | 0 <= k < |before| && !(table <= k < table + TableLength(before, table))
      ensures after[k] == before[k]
    {
      assert after[k] == Overlay(before, table, patched)[k];
    }
  }

  /** The loop body of AcpiApplyPatch: tables that do not match are left alone. */
  method PatchTable(
    mem: array<byte>, table: nat, p: Pattern, patch: Patch, limit: nat, count: nat, skip: nat)
    returns (replaceCount: nat)
    requires patch.Valid() && Headed(mem[..], table) && table + PatchSize(mem[..], table, limit) <= mem.Length
    requires NewLengthFits(mem[..], table, PatchedTable(mem[..], table, patch, limit, count, skip))
    modifies mem
    ensures replaceCount
            == if Matches(old(mem[..]), table, p) then PatchCount(old(mem[..]), table, patch, limit, count, skip) else 0
    ensures replaceCount == 0 ==> mem[..] == old(mem[..])
    ensures Matches(old(mem[..]), table, p) ==>
              PatchDone(old(mem[..]), mem[..], table, PatchedTable(old(mem[..]), table, patch, limit, count, skip),
                        replaceCount)
  {
    hide Matches, NewLengthFits, PatchedTable, PatchCount, PatchDone, Patch.Valid;
    var matches := AcpiDrop.MatchesTable(mem, table, p);
    replaceCount := 0;
    if matches {
      replaceCount := PatchBytes(mem, table, patch, limit, count, skip);
    }
  }
}

/** Relocating memory regions in AML: where a name is found, and what writing the addresses does to the table. */
module AcpiRelocate {
  import opened LittleEndian
  import opened AcpiMemory
  import opened AcpiTables
  import opened AcpiContext
  import opened AcpiEdit

  const AML_NAME_OP: byte := 8
  const NAME_SIZE: int := 4

  predicate NamedAt(data: seq<byte>, name: seq<byte>, i: nat)
    requires |name| == NAME_SIZE
  {
    && i + NAME_SIZE < |data| && data[i] == AML_NAME_OP
    && data[i + 1] == name[0] && data[i + 2] == name[1] && data[i + 3] == name[2] && data[i + 4] == name[3]
  }

  /** AcpiFindName: one more than the least place of the declaration, 0 if there is none. */
  method FindName(data: seq<byte>, name: seq<byte>) returns (found: nat)
    requires |name| == NAME_SIZE
    ensures found == 0 ==> forall i: nat :: !NamedAt(data, name, i)
    ensures found > 0 ==> NamedAt(data, name, found - 1) && forall i: nat :: i < found - 1 ==> !NamedAt(data, name, i)
  {
    if |data| < NAME_SIZE + 1 {
      return 0;
    }
    for i := 0 to |data| - NAME_SIZE
      invariant forall k: nat :: k < i ==> !NamedAt(data, name, k)
    {
      if data[i] == AML_NAME_OP && data[i + 1] == name[0] && data[i + 2] == name[1]
         && data[i + 3] == name[2] && data[i + 4] == name[3] {
        return i + 1;
      }
    }
    found := 0;
  }

  /** Behind a signature of letters, the address of a named value starts after length and checksum. */
  lemma NamesAreBehindSignature(data: seq<byte>, name: seq<byte>, found: nat)
    requires |name| == NAME_SIZE && found > 0 && NamedAt(data, name, found - 1)
    requires forall k :: 0 <= k < 4 ==> data[k] >= 0x41
    ensures found + NAME_SIZE + 1 > CHECKSUM
  {
  }

  /** An address of `width` bytes at `offset` of the table is overwritten. */
  datatype Site = Site(offset: nat, width: nat, address: nat)

  predicate SiteFits(site: Site, length: nat) {
    CHECKSUM < site.offset && site.offset + site.width <= length && (site.width == 2 || site.width == 4)
  }

  predicate SitesFit(sites: seq<Site>, length: nat) {
    forall i :: 0 <= i < |sites| ==> SiteFits(sites[i], length)
  }

  predicate InSite(site: Site, table: nat, k: int) {
    table + site.offset <= k < table + site.offset + site.width
  }

  predicate Untouched(sites: seq<Site>, n: nat, table: nat, k: int)
    requires n <= |sites|
  {
    forall i :: 0 <= i < n ==> !InSite(sites[i], table, k)
  }

  /** The low bytes of the address, as many as the place has. */
  function SiteValue(site: Site): (x: nat)
    ensures x < Power(site.width)
  {
    site.address % Power(site.width)
  }

  predicate SitesApart(a: Site, b: Site) {
    Apart(a.offset, a.width, b.offset, b.width)
  }

  predicate IsLastWrite(sites: seq<Site>, i: nat, n: nat)
    requires i < n <= |sites|
  {
    forall j :: i < j < n ==> SitesApart(sites[i], sites[j])
  }

  lemma SiteStays(before: seq<byte>, after: seq<byte>, table: nat, length: nat, a: Site, b: Site)
    requires SiteFits(a, length) && SiteFits(b, length) && SitesApart(a, b) && table + length <= |before|
    requires SameOutside(before, after, table + b.offset, table + b.offset + b.width)
    ensures ReadInt(after, table + a.offset, a.width) == ReadInt(before, table + a.offset, a.width)
  {
    ReadSame(before, after, table + a.offset, a.width);
  }

  /** All addresses, in the order in which they are found. */
  method WriteSites(mem: array<byte>, table: nat, length: nat, sites: seq<Site>)
    requires table + length <= mem.Length && SitesFit(sites, length)
    modifies mem
    ensures forall k :: 0 <= k < mem.Length && Untouched(sites, |sites|, table, k) ==> mem[k] == old(mem[k])
    ensures forall i :: 0 <= i < |sites| && IsLastWrite(sites, i, |sites|) ==>
              ReadInt(mem[..], table + sites[i].offset, sites[i].width) == SiteValue(sites[i])
  {
    hide ReadInt, Power;
    ghost var before := mem[..];
    for n := 0 to |sites|
      invariant forall k :: 0 <= k < mem.Length && Untouched(sites, n, table, k) ==> mem[k] == before[k]
      invariant forall i :: 0 <= i < n && IsLastWrite(sites, i, n) ==>
                  ReadInt(mem[..], table + sites[i].offset, sites[i].width) == SiteValue(sites[i])
    {
      ghost var earlier := mem[..];
      assert forall k :: Untouched(sites, n + 1, table, k) ==> Untouched(sites, n, table, k);
      assert forall k :: Untouched(sites, n + 1, table, k) ==> !InSite(sites[n], table, k);
      WriteInt(mem, table + sites[n].offset, sites[n].width, SiteValue(sites[n]));
      forall i | 0 <= i < n && IsLastWrite(sites, i, n + 1)
        ensures ReadInt(mem[..], table + sites[i].offset, sites[i].width) == SiteValue(sites[i])
      {
        assert IsLastWrite(sites, i, n);
        SiteStays(earlier, mem[..], table, length, sites[i], sites[n]);
      }
    }
  }

  /**
    AcpiRelocateTableRegions with the places its scan has matched: an edit of the table in which every place that is not
    written over again holds the new address of its region, and only these places and the checksum differ.
  */
  method RelocateTable(mem: array<byte>, table: nat, sites: seq<Site>)
    requires table + 8 <= mem.Length
    requires TableLength(mem[..], table) >= HEADER_SIZE ==>
               HasTable(mem[..], table) && SitesFit(sites, TableLength(mem[..], table))
    modifies mem
    ensures HasTable(old(mem[..]), table) ==> Edits(old(mem[..]), mem[..], table)
    ensures !HasTable(old(mem[..]), table) || sites == [] ==> mem[..] == old(mem[..])
    ensures HasTable(old(mem[..]), table) ==>
              forall k :: 0 <= k < mem.Length && k != table + CHECKSUM && Untouched(sites, |sites|, table, k) ==>
                mem[k] == old(mem[k])
    ensures HasTable(old(mem[..]), table) ==>
              forall i :: 0 <= i < |sites| && IsLastWrite(sites, i, |sites|) ==>
                table + sites[i].offset + sites[i].width <= mem.Length
                && ReadInt(mem[..], table + sites[i].offset, sites[i].width) == SiteValue(sites[i])
  {
    hide SumsToZero;
    var length := Read(mem, table + LENGTH, 4);
    if length < HEADER_SIZE {
      return;
    }
    ghost var before := mem[..];
    WriteSites(mem, table, length, sites);
    ghost var written := mem[..];
    if sites != [] {
      RefreshChecksum(mem, table, length, CHECKSUM);
    }
    SitesKept(before, written, mem[..], table, length, sites);
  }

  /** The places are behind the length field and the checksum and inside the table. */
  lemma SitesKept(
    before: seq<byte>, written: seq<byte>, after: seq<byte>, table: nat, length: nat, sites: seq<Site>)
    requires |written| == |before| && table + length <= |before| && length >= HEADER_SIZE && SitesFit(sites, length)
    requires forall k :: 0 <= k < |before| && Untouched(sites, |sites|, table, k) ==> written[k] == before[k]
    requires SameOutside(written, after, table + CHECKSUM, table + CHECKSUM + 1)
    ensures SameOutside(before, after, table, table + length) && TableLength(after, table) == TableLength(before, table)
    ensures sites == [] ==> written == before
    ensures forall i :: 0 <= i < |sites| ==>
              ReadInt(after, table + sites[i].offset, sites[i].width)
              == ReadInt(written, table + sites[i].offset, sites[i].width)
  {
    forall k | 0 <= k < |before| && !(table + CHECKSUM < k < table + length)
      ensures written[k] == before[k]
    {
      forall i | 0 <= i < |sites|
        ensures !InSite(sites[i], table, k)
      {
        assert SiteFits(sites[i], length);
      }
    }
    ReadSame(before, after, table + LENGTH, 4);
    forall i | 0 <= i < |sites|
      ensures ReadInt(after, table + sites[i].offset, sites[i].width)
              == ReadInt(written, table + sites[i].offset, sites[i].width)
    {
      assert SiteFits(sites[i], length);
      ReadSame(written, after, table + sites[i].offset, sites[i].width);
    }
  }
}
