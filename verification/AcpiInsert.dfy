/** The memory side of AcpiInsertTable: placing the new table and pointing the FADT at a new DSDT. */
module AcpiInsert {
  import opened LittleEndian
  import opened AcpiMemory
  import opened AcpiTables
  import opened AcpiContext
  import opened AcpiValidity
  import opened AcpiEdit

  function PagesSize(length: nat): (size: nat)
    ensures length <= size < length + 0x1000 && size % 0x1000 == 0
  {
    (length + 0xFFF) / 0x1000 * 0x1000
  }

  /** The new table at `area`, with zeros up to the end of its last page. */
  ghost predicate Placed(m: seq<byte>, area: nat, data: seq<byte>) {
    && area + PagesSize(|data|) <= |m|
    && m[area..area + |data|] == data
    && forall k :: area + |data| <= k < area + PagesSize(|data|) ==> m[k] == 0
  }

  method PlaceTable(mem: array<byte>, area: nat, data: seq<byte>)
    requires area + PagesSize(|data|) <= mem.Length
    modifies mem
    ensures SameOutside(old(mem[..]), mem[..], area, area + PagesSize(|data|))
    ensures Placed(mem[..], area, data)
  {
    WriteBytes(mem, area, data);
    ghost var written := mem[..];
    for k := area + |data| to area + PagesSize(|data|)
      invariant forall j :: 0 <= j < mem.Length && !(area + |data| <= j < k) ==> mem[j] == written[j]
      invariant forall j :: area + |data| <= j < k ==> mem[j] == 0
    {
      mem[k] := 0;
    }
    assert mem[..][area..area + |data|] == written[area..area + |data|];
  }

  /** The status of AcpiInsertTable with `data` of the length passed along. */
  function InsertStatus(data: seq<byte>, fadt: nat, dsdt: nat): Status {
    if |data| < 8 || ReadInt(data, LENGTH, 4) != |data| then InvalidParameter
    else if ReadInt(data, 0, 4) == DSDT_SIGNATURE && (dsdt == 0 || fadt == 0) then InvalidParameter
    else Success
  }

  /** The pages at `area` are below 4 GB and away from everything the context reads. */
  ghost predicate FreePages(m: seq<byte>, rsdp: nat, tables: seq<nat>, fadt: nat, area: nat, size: nat) {
    && 0 < area && area % 0x1000 == 0 && area + size <= BASE_4GB && area + size <= |m|
    && Apart(area, size, rsdp, RSDP_SIZE) && (fadt != 0 ==> Apart(area, size, fadt, FADT_XDSDT_END))
    && forall i :: 0 <= i < |tables| ==> Apart(area, size, tables[i], 8)
  }

  /** A newly placed table reads as what it was made from. */
  lemma PlacedRead(m: seq<byte>, area: nat, data: seq<byte>, at: nat, size: nat)
    requires Placed(m, area, data) && at + size <= |data|
    ensures ReadInt(m, area + at, size) == ReadInt(data, at, size)
  {
    var there := m[area + at..area + at + size];
    forall k | 0 <= k < size
      ensures there[k] == data[at..at + size][k]
    {
      assert m[area..area + |data|][at + k] == there[k];
    }
    assert there == data[at..at + size];
  }

  lemma PlacedListable(m: seq<byte>, area: nat, data: seq<byte>, wide: bool)
    requires Placed(m, area, data) && 0 < area < BASE_4GB && |data| >= 8
    requires ReadInt(data, 0, 4) != DSDT_SIGNATURE && ReadInt(data, 0, 8) != RSDP_SIGNATURE
    ensures Listable(m, area, wide)
  {
    PlacedRead(m, area, data, 0, 4);
    PlacedRead(m, area, data, 0, 8);
  }

  /** Writes into free pages leave the rest of the context alone. */
  lemma ContextKept(
    before: seq<byte>, after: seq<byte>, rsdp: nat, rsdt: nat, xsdt: nat, tables: seq<nat>, fadt: nat,
    area: nat, size: nat)
    requires ContextOk(before, rsdp, rsdt, xsdt, tables) && FreePages(before, rsdp, tables, fadt, area, size)
    requires SameOutside(before, after, area, area + size)
    requires fadt != 0 ==> HasFadt(before, fadt)
    ensures ContextOk(after, rsdp, rsdt, xsdt, tables)
    ensures fadt != 0 ==> HasFadt(after, fadt)
  {
    RsdpSame(before, after, rsdp);
    ListKept(before, after, tables, xsdt != 0);
    if fadt != 0 {
      ReadSame(before, after, fadt + LENGTH, 4);
    }
  }

  /** Appending a table of a kept kind keeps the list valid. */
  lemma ContextAppended(
    m: seq<byte>, rsdp: nat, rsdt: nat, xsdt: nat, tables: seq<nat>, area: nat, data: seq<byte>)
    requires ContextOk(m, rsdp, rsdt, xsdt, tables)
    requires Placed(m, area, data) && 0 < area < BASE_4GB && |data| >= 8
    requires ReadInt(data, 0, 4) != DSDT_SIGNATURE && ReadInt(data, 0, 8) != RSDP_SIGNATURE
    ensures ContextOk(m, rsdp, rsdt, xsdt, tables + [area])
  {
    PlacedListable(m, area, data, xsdt != 0);
    assert HasFadt(m, area);
  }

  /**
    The FADT names the DSDT in every field it has and sums to zero, and nothing but these fields and the checksum
    differs.
  */
  ghost predicate Repointed(before: seq<byte>, after: seq<byte>, fadt: nat, dsdt: nat)
    requires HasTable(before, fadt) && HasFadt(before, fadt)
  {
    && |after| == |before|
    && (forall k :: 0 <= k < |before| && k != fadt + CHECKSUM && !(fadt + FADT_DSDT <= k < fadt + FADT_DSDT + 4)
                    && !(TableLength(before, fadt) >= FADT_XDSDT_END && fadt + FADT_XDSDT <= k < fadt + FADT_XDSDT_END)
                    ==> after[k] == before[k])
    && ReadInt(after, fadt + FADT_DSDT, 4) == dsdt
    && (TableLength(before, fadt) >= FADT_XDSDT_END ==> ReadInt(after, fadt + FADT_XDSDT, 8) == dsdt)
    && SumsToZero(after, fadt, TableLength(before, fadt))
  }

  /** Points the FADT at the DSDT and refreshes its checksum. */
  method ReplaceDsdt(mem: array<byte>, fadt: nat, dsdt: nat)
    requires HasTable(mem[..], fadt) && HasFadt(mem[..], fadt) && dsdt < BASE_4GB
    modifies mem
    ensures Repointed(old(mem[..]), mem[..], fadt, dsdt)
  {
    hide SumsToZero;
    Powers();
    ghost var m0 := mem[..];
    var length := Read(mem, fadt + LENGTH, 4);
    if length >= FADT_XDSDT_END {
      WriteInt(mem, fadt + FADT_XDSDT, 8, dsdt);
    }
    ghost var m1 := mem[..];
    WriteInt(mem, fadt + FADT_DSDT, 4, dsdt);
    ghost var m2 := mem[..];
    RefreshChecksum(mem, fadt, length, CHECKSUM);
    FieldsStay(m1, m2, mem[..], fadt, length);
  }

  /** The two address fields and the checksum do not overlap. */
  lemma FieldsStay(m1: seq<byte>, m2: seq<byte>, m3: seq<byte>, fadt: nat, length: nat)
    requires fadt + FADT_DSDT + 4 <= |m1| && (length >= FADT_XDSDT_END ==> fadt + FADT_XDSDT_END <= |m1|)
    requires SameOutside(m1, m2, fadt + FADT_DSDT, fadt + FADT_DSDT + 4)
    requires SameOutside(m2, m3, fadt + CHECKSUM, fadt + CHECKSUM + 1)
    ensures ReadInt(m3, fadt + FADT_DSDT, 4) == ReadInt(m2, fadt + FADT_DSDT, 4)
    ensures length >= FADT_XDSDT_END ==> ReadInt(m3, fadt + FADT_XDSDT, 8) == ReadInt(m1, fadt + FADT_XDSDT, 8)
  {
    ReadSame(m2, m3, fadt + FADT_DSDT, 4);
    if length >= FADT_XDSDT_END {
      ReadSame(m1, m3, fadt + FADT_XDSDT, 8);
    }
  }

  /** Whoever reads the FADT finds the new DSDT. */
  lemma RepointedReads(before: seq<byte>, after: seq<byte>, fadt: nat, dsdt: nat)
    requires fadt != 0 && HasTable(before, fadt) && HasFadt(before, fadt) && Repointed(before, after, fadt, dsdt)
    ensures TableLength(after, fadt) == TableLength(before, fadt)
    ensures HasFadt(after, fadt) && DsdtOf(after, fadt) == dsdt && Sums(after, fadt)
    ensures SameOutside(before, after, fadt + 8, fadt + FADT_XDSDT_END)
  {
    ReadSame(before, after, fadt + LENGTH, 4);
  }

  /** The bytes behind a FADT that is too short for the 32-bit field already are those of the new address. */
  predicate SpillsNothing(m: seq<byte>, fadt: nat, dsdt: nat)
    requires HasTable(m, fadt) && HasFadt(m, fadt)
  {
    forall k :: TableLength(m, fadt) <= k && FADT_DSDT <= k < FADT_DSDT + 4 ==> IsDsdtByte(m, fadt, dsdt, k)
  }

  predicate IsDsdtByte(m: seq<byte>, fadt: nat, dsdt: nat, k: nat)
    requires fadt + FADT_DSDT + 4 <= |m| && FADT_DSDT <= k < FADT_DSDT + 4
  {
    m[fadt + k] == Encode(dsdt, 4)[k - FADT_DSDT]
  }

  lemma RepointedBytes(before: seq<byte>, after: seq<byte>, fadt: nat, dsdt: nat)
    requires HasTable(before, fadt) && HasFadt(before, fadt) && Repointed(before, after, fadt, dsdt)
    ensures after[fadt + FADT_DSDT..fadt + FADT_DSDT + 4] == Encode(dsdt, 4)
  {
    EncodeDecode(after[fadt + FADT_DSDT..fadt + FADT_DSDT + 4]);
  }

  /**
    Replacing the DSDT is an edit of the FADT if and only if the FADT is long enough for the 32-bit field, or the bytes
    behind it happen to be those of the address.
  */
  lemma ReplacingEditsExactly(before: seq<byte>, after: seq<byte>, fadt: nat, dsdt: nat)
    requires HasTable(before, fadt) && HasFadt(before, fadt) && Repointed(before, after, fadt, dsdt)
    ensures Edits(before, after, fadt) <==> SpillsNothing(before, fadt, dsdt)
    ensures TableLength(before, fadt) >= FADT_DSDT + 4 ==> SpillsNothing(before, fadt, dsdt)
  {
    hide Encode, SumsToZero;
    ReadSame(before, after, fadt + LENGTH, 4);
    RepointedBytes(before, after, fadt, dsdt);
    var bytes := Encode(dsdt, 4);
    forall k | fadt + FADT_DSDT <= k < fadt + FADT_DSDT + 4
      ensures after[k] == bytes[k - fadt - FADT_DSDT]
    {
      assert after[fadt + FADT_DSDT..fadt + FADT_DSDT + 4][k - fadt - FADT_DSDT] == after[k];
    }
    if SpillsNothing(before, fadt, dsdt) {
      forall k | 0 <= k < |before| && !(fadt <= k < fadt + TableLength(before, fadt))
        ensures after[k] == before[k]
      {
        var j := k - fadt;
        if FADT_DSDT <= j < FADT_DSDT + 4 {
          assert after[fadt + j] == bytes[j - FADT_DSDT] && IsDsdtByte(before, fadt, dsdt, j);
        }
      }
    }
    if Edits(before, after, fadt) {
      forall k | TableLength(before, fadt) <= k && FADT_DSDT <= k < FADT_DSDT + 4
        ensures IsDsdtByte(before, fadt, dsdt, k)
      {
        assert after[fadt + k] == before[fadt + k];
      }
    }
  }

  /** Inserting a DSDT is two steps of a run: the new table is placed, and the FADT is edited. */
  lemma DsdtRun(
    m0: seq<byte>, m1: seq<byte>, m2: seq<byte>, tables: set<nat>, area: nat, size: nat, fadt: nat)
    requires AllApart(m0, tables) && fadt in tables && HasFadt(m1, fadt) && HasTable(m1, fadt)
    requires Stepped(m0, m1, tables, Place(area, size)) && Repointed(m1, m2, fadt, area)
    requires TableLength(m1, fadt) >= FADT_DSDT + 4
    ensures EditRun([m0, m1, m2], [Place(area, size), Edit(fadt)], tables)
  {
    ReplacingEditsExactly(m1, m2, fadt, area);
    StepKeepsApart(m0, m1, tables, Place(area, size));
    var states, steps := [m0, m1, m2], [Place(area, size), Edit(fadt)];
    assert states[..2] == [m0, m1] && steps[..1] == [Place(area, size)];
    assert states[..2][..1] == [m0] && steps[..1][..0] == [];
    assert EditRun([m0], [], tables);
    assert EditRun([m0, m1], [Place(area, size)], tables);
  }
}

/** A FADT that is too short for its DSDT field, end to end: initialise, insert a DSDT, and look behind the table. */
module AcpiShortFadt {
  import opened LittleEndian
  import opened AcpiMemory
  import opened AcpiTables
  import opened AcpiContext
  import opened AcpiValidity
  import opened AcpiInsert
  import opened AcpiEdit
  import opened AcpiTracking
  import opened AcpiLib

  const ROOT_PTR: int := 64
  const XSDT: int := 128
  const FADT: int := 200
  const OLD_DSDT: int := 248
  const AREA: int := 0x1000
  const SIZE: int := 0x2000

  /** A root pointer, an XSDT with one entry, and a FADT of 40 bytes with the address of a DSDT behind it. */
  function SampleAt(k: int): byte {
    if k == ROOT_PTR + RSDP_REVISION then 2
    else if k == ROOT_PTR + RSDP_LENGTH then RSDP_SIZE
    else if k == ROOT_PTR + RSDP_XSDT then XSDT
    else if k == XSDT + LENGTH then HEADER_SIZE + 8
    else if k == XSDT + HEADER_SIZE then FADT
    else if k == FADT then 0x46
    else if k == FADT + 1 then 0x41
    else if k == FADT + 2 then 0x43
    else if k == FADT + 3 then 0x50
    else if k == FADT + LENGTH then FADT_DSDT
    else if k == FADT + FADT_DSDT then OLD_DSDT
    else 0
  }

  function Sample(): (m: seq<byte>)
    ensures |m| == SIZE
  {
    seq(SIZE, k => SampleAt(k))
  }

  /** A DSDT that is nothing but its header. */
  function NewDsdt(): (data: seq<byte>)
    ensures |data| == HEADER_SIZE
  {
    [0x44, 0x53, 0x44, 0x54, HEADER_SIZE] + seq(HEADER_SIZE - 5, _ => 0)
  }

  lemma Word(bytes: seq<byte>)
    requires |bytes| == 4
    ensures
      var b0: int, b1: int, b2: int, b3: int := bytes[0], bytes[1], bytes[2], bytes[3];
      Decode(bytes) == b0 + 0x100 * b1 + 0x1_0000 * b2 + 0x100_0000 * b3
  {
    var b1, b2, b3 := bytes[1..], bytes[2..], bytes[3..];
    assert b1[1..] == b2 && b2[1..] == b3 && b3[1..] == [];
    assert Decode(b3) == b3[0] + 256 * Decode([]);
    assert Decode(b2) == b2[0] + 256 * Decode(b3);
    assert Decode(b1) == b1[0] + 256 * Decode(b2);
  }

  lemma SamplePointer(m: seq<byte>)
    requires m == Sample()
    ensures HasRsdp(m, ROOT_PTR) && RsdtOf(m, ROOT_PTR) == 0 && XsdtOf(m, ROOT_PTR) == XSDT
    ensures BaseOf(m, ROOT_PTR) == XSDT && RootOf(m, ROOT_PTR) == Xsdt
  {
    SmallField(m, ROOT_PTR + RSDP_RSDT, 4);
    SmallField(m, ROOT_PTR + RSDP_XSDT, 8);
  }

  lemma SampleFadt(m: seq<byte>)
    requires m == Sample()
    ensures TableLength(m, FADT) == FADT_DSDT && HasTable(m, FADT) && HasFadt(m, FADT) && DsdtOf(m, FADT) == OLD_DSDT
    ensures ReadInt(m, FADT, 4) == FADT_SIGNATURE
  {
    SmallField(m, FADT + LENGTH, 4);
    SmallField(m, FADT + FADT_DSDT, 4);
    Word(m[FADT..FADT + 4]);
  }

  lemma SampleKept(m: seq<byte>)
    requires m == Sample()
    ensures Headed(m, FADT) && !Skipped(m, FADT)
  {
    SampleFadt(m);
    assert m[FADT..FADT + 8][0] == 0x46;
    assert Decode(m[FADT..FADT + 8]) % 256 == 0x46;
  }

  lemma SampleEntries(m: seq<byte>)
    requires m == Sample()
    ensures HasRoot(m, XSDT, Xsdt) && Entries(m, XSDT, Xsdt) == [FADT]
  {
    SmallField(m, XSDT + LENGTH, 4);
    SmallField(m, XSDT + HEADER_SIZE, 8);
    assert EntryAt(m, XSDT, Xsdt, 0) == FADT;
  }

  lemma SampleLoads(m: seq<byte>)
    requires m == Sample()
    ensures Loadable(m, ROOT_PTR) && BaseOf(m, ROOT_PTR) == XSDT && RootOf(m, ROOT_PTR) == Xsdt
    ensures FadtsReadable(m, Entries(m, BaseOf(m, ROOT_PTR), RootOf(m, ROOT_PTR)))
    ensures InitStatus(m, ROOT_PTR) == Success && LoadedTables(m, ROOT_PTR) == [FADT]
    ensures LastFadt(m, [FADT]) == FADT && HasFadt(m, FADT) && DsdtOf(m, FADT) == OLD_DSDT
  {
    SamplePointer(m);
    SampleEntries(m);
    SampleFadt(m);
    SampleKept(m);
    hide Sample, ReadInt, Headed, Skipped;
    NothingSkipped(m, [FADT]);
  }

  lemma SamplePages(m: seq<byte>)
    requires m == Sample()
    ensures FreePages(m, ROOT_PTR, [FADT], FADT, AREA, PagesSize(HEADER_SIZE))
    ensures FadtAlone(m, ROOT_PTR, [FADT], FADT)
  {
    SampleFadt(m);
  }

  lemma NewDsdtAccepted()
    ensures ReadInt(NewDsdt(), 0, 4) == DSDT_SIGNATURE
    ensures InsertStatus(NewDsdt(), FADT, OLD_DSDT) == Success
  {
    var data := NewDsdt();
    SmallField(data, LENGTH, 4);
    Word(data[0..4]);
  }

  /** The memory and the context before the DSDT is inserted. */
  method LoadSample() returns (context: Context)
    ensures fresh(context) && fresh(context.mem) && fresh(context.tables) && context.Valid()
    ensures context.mem.Length == SIZE && context.mem[..] == Sample() && context.rsdp == ROOT_PTR
    ensures context.List() == [FADT] && context.fadt == FADT && context.dsdt == OLD_DSDT
  {
    var mem := new byte[SIZE](k => SampleAt(k));
    ghost var m := mem[..];
    assert m == Sample();
    SampleLoads(m);
    Powers();
    hide Sample, Loadable, LoadedTables, ReadInt, FadtsReadable, LastFadt;
    hide ContextOk, HasFadt, Tracks, Headed, InitStatus, DsdtOf;
    context := new Context(mem);
    var status := context.InitContext(ROOT_PTR);
    assert context.mem[..] == m;
  }

  /** Bytes 40 to 43 from the FADT on, all of them behind its end. */
  function Behind(m: seq<byte>): seq<byte>
    requires |m| == SIZE
  {
    m[FADT + FADT_DSDT..FADT + FADT_DSDT + 4]
  }

  lemma RepointedSpills(placed: seq<byte>, after: seq<byte>)
    requires |placed| == SIZE && HasTable(placed, FADT) && HasFadt(placed, FADT)
    requires TableLength(placed, FADT) == FADT_DSDT
    requires Behind(placed) == Behind(Sample()) && Repointed(placed, after, FADT, AREA)
    ensures |after| == SIZE && Behind(after) == [0, 0x10, 0, 0] != Behind(placed)
    ensures !Edits(placed, after, FADT)
  {
    RepointedBytes(placed, after, FADT, AREA);
    AreaBytes();
    assert Behind(placed)[0] == Sample()[FADT + FADT_DSDT] == OLD_DSDT;
    assert Behind(after)[0] == after[FADT + FADT_DSDT] && Behind(placed)[0] == placed[FADT + FADT_DSDT];
  }

  lemma AreaBytes()
    ensures Encode(AREA, 4) == [0, 0x10, 0, 0]
  {
    assert Encode(0x10, 3) == [0x10] + Encode(0, 2);
    assert Encode(0, 2) == [0, 0];
  }

  lemma SamePlaced(m: seq<byte>, placed: seq<byte>)
    requires m == Sample() && SameOutside(m, placed, AREA, AREA + PagesSize(HEADER_SIZE))
    ensures |placed| == SIZE && Behind(placed) == Behind(m)
    ensures HasTable(placed, FADT) && HasFadt(placed, FADT) && TableLength(placed, FADT) == FADT_DSDT
  {
    SampleFadt(m);
    ReadSame(m, placed, FADT + LENGTH, 4);
  }

  lemma ReplacedSpills(m: seq<byte>, placed: seq<byte>, after: seq<byte>)
    requires m == Sample() && Replaced(m, placed, after, AREA, NewDsdt(), FADT)
    ensures |after| == SIZE && TableLength(after, FADT) == FADT_DSDT && Behind(after) != Behind(m)
    ensures !Edits(placed, after, FADT)
  {
    SamePlaced(m, placed);
    hide Sample;
    RepointedSpills(placed, after);
    RepointedReads(placed, after, FADT, AREA);
  }

  /** Inserting the DSDT succeeds, and four bytes behind the FADT are no longer what they were. */
  method InsertSample() returns (mem: array<byte>, status: Status, ghost placed: seq<byte>)
    ensures status == Success && mem.Length == SIZE && TableLength(mem[..], FADT) == FADT_DSDT
    ensures Behind(mem[..]) != Behind(Sample()) && !Edits(placed, mem[..], FADT)
  {
    NewDsdtAccepted();
    SamplePages(Sample());
    hide Sample, NewDsdt, FreePages, FadtAlone, Replaced, ContextOk, HasFadt, Tracks, Edits, InsertStatus, ReadInt;
    var context := LoadSample();
    mem := context.mem;
    status, placed := context.InsertTable(NewDsdt(), AREA);
    ReplacedSpills(Sample(), placed, mem[..]);
  }
}
