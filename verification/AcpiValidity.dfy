/** What an ACPI context guarantees, as predicates on memory. */
module AcpiValidity {
  import opened LittleEndian
  import opened AcpiMemory
  import opened AcpiTables
  import opened AcpiContext
  import opened AcpiApply

  ghost predicate AllListable(m: seq<byte>, tables: seq<nat>, wide: bool) {
    forall i :: 0 <= i < |tables| ==> Listable(m, tables[i], wide)
  }

  /** The root tables are those of the root pointer and every table in the list can stay there. */
  ghost predicate ContextOk(m: seq<byte>, rsdp: nat, rsdt: nat, xsdt: nat, tables: seq<nat>) {
    && HasRsdp(m, rsdp) && rsdt == RsdtOf(m, rsdp) && xsdt == XsdtOf(m, rsdp) && BaseOf(m, rsdp) != 0
    && AllListable(m, tables, xsdt != 0) && FadtsReadable(m, tables)
  }

  /** Reading the memory again gives this list. */
  ghost predicate Persistent(m: seq<byte>, rsdp: nat, tables: seq<nat>) {
    && Loadable(m, rsdp) && BaseOf(m, rsdp) != 0
    && Entries(m, BaseOf(m, rsdp), RootOf(m, rsdp)) == tables && LoadedTables(m, rsdp) == tables
    && FadtsReadable(m, tables)
  }

  lemma FadtsKept(before: seq<byte>, after: seq<byte>, tables: seq<nat>)
    requires FadtsReadable(before, tables)
    requires forall i :: 0 <= i < |tables| ==> SameAt(before, after, tables[i], 8)
    ensures FadtsReadable(after, tables)
  {
    forall i | 0 <= i < |tables| && tables[i] + 8 <= |after| && ReadInt(after, tables[i], 4) == FADT_SIGNATURE
      ensures HasFadt(after, tables[i])
    {
      ReadSame(before, after, tables[i], 4);
      ReadSame(before, after, tables[i] + LENGTH, 4);
    }
  }

  /** Writes away from the heads of the tables keep the list valid. */
  lemma ListKept(before: seq<byte>, after: seq<byte>, tables: seq<nat>, wide: bool)
    requires AllListable(before, tables, wide) && FadtsReadable(before, tables)
    requires forall i :: 0 <= i < |tables| ==> SameAt(before, after, tables[i], 8)
    ensures AllListable(after, tables, wide) && FadtsReadable(after, tables)
  {
    FadtsKept(before, after, tables);
    forall i | 0 <= i < |tables|
      ensures Listable(after, tables[i], wide)
    {
      ListableSame(before, after, tables[i], wide);
    }
  }

  lemma AppliedKeepsHeads(before: seq<byte>, after: seq<byte>, rsdp: nat, tables: seq<nat>, area: nat)
    requires HasRsdp(before, rsdp) && FreeArea(before, rsdp, tables, area) && Applied(before, after, rsdp, tables, area)
    requires forall i :: 0 <= i < |tables| ==> tables[i] + 8 <= |before|
    ensures forall i :: 0 <= i < |tables| ==> SameAt(before, after, tables[i], 8)
  {
  }

  /**
    What AcpiApplyContext writes is what AcpiInitContext reads back: the same tables in the same order, whichever of
    the two root tables is used.
  */
  lemma AppliedIsPersistent(
    before: seq<byte>, after: seq<byte>, rsdp: nat, rsdt: nat, xsdt: nat, tables: seq<nat>, area: nat)
    requires ContextOk(before, rsdp, rsdt, xsdt, tables)
    requires FreeArea(before, rsdp, tables, area) && Applied(before, after, rsdp, tables, area)
    ensures ContextOk(after, rsdp, RsdtOf(after, rsdp), XsdtOf(after, rsdp), tables)
    ensures Persistent(after, rsdp, tables)
  {
    AppliedKeepsHeads(before, after, rsdp, tables, area);
    ListKept(before, after, tables, xsdt != 0);
    AppliedIsLoaded(before, after, rsdp, tables, area);
    ExposedEntries(after, RootOf(after, rsdp), BaseOf(after, rsdp), tables);
  }

  /** Entries of an RSDT are below 4 GB, so truncating them again loses nothing. */
  lemma SelectedListable(m: seq<byte>, base: nat, root: Root)
    requires HasRoot(m, base, root) && Readable(m, Entries(m, base, root)) && FadtsReadable(m, Entries(m, base, root))
    ensures AllListable(m, Selected(m, Entries(m, base, root)), root.Xsdt?)
    ensures FadtsReadable(m, Selected(m, Entries(m, base, root)))
  {
  }

  /** The status AcpiInitContext returns for the root pointer found at `found`, 0 if there is none. */
  function InitStatus(m: seq<byte>, found: nat): Status
    requires found != 0 ==> Loadable(m, found)
  {
    if found == 0 || BaseOf(m, found) == 0 then NotFound
    else if Entries(m, BaseOf(m, found), RootOf(m, found)) == [] then InvalidParameter
    else Success
  }

  /** A non-empty list that was applied initialises successfully, an empty one is an error. */
  lemma PersistentStatus(m: seq<byte>, rsdp: nat, tables: seq<nat>)
    requires Persistent(m, rsdp, tables)
    ensures rsdp != 0 ==> InitStatus(m, rsdp) == if tables == [] then InvalidParameter else Success
  {
  }

  /** With an XSDT the checksum covers the whole root pointer, so its first 20 bytes add up only if the rest does. */
  lemma RootPointerFirstBytes(m: seq<byte>, rsdp: nat)
    requires HasRsdp(m, rsdp) && RsdpLength(m, rsdp) >= RSDP_V1_SIZE
    requires rsdp + RsdpLength(m, rsdp) <= |m| && SumsToZero(m, rsdp, RsdpLength(m, rsdp))
    ensures SumsToZero(m, rsdp, RSDP_V1_SIZE)
            <==> SumsToZero(m, rsdp + RSDP_V1_SIZE, RsdpLength(m, rsdp) - RSDP_V1_SIZE)
  {
    var n := RsdpLength(m, rsdp);
    var first, rest := m[rsdp..rsdp + RSDP_V1_SIZE], m[rsdp + RSDP_V1_SIZE..rsdp + n];
    SumAppend(first, rest);
    assert m[rsdp..rsdp + n] == first + rest;
  }

  /** The root pointer behind its first 20 bytes, with the address of the new XSDT among the old bytes. */
  function NewBytes(before: seq<byte>, rsdp: nat, area: nat): seq<byte>
    requires HasRsdp(before, rsdp) && XsdtOf(before, rsdp) != 0 && rsdp + RsdpSpan(before, rsdp) <= |before|
  {
    before[rsdp + RSDP_LENGTH..rsdp + RSDP_XSDT] + Encode(area, 8)
    + before[rsdp + RSDP_XSDT + 8..rsdp + RsdpSpan(before, rsdp)]
  }

  /** As much of it as the root pointer says it has. */
  function NewTail(before: seq<byte>, rsdp: nat, area: nat): seq<byte>
    requires HasRsdp(before, rsdp) && XsdtOf(before, rsdp) != 0 && rsdp + RsdpSpan(before, rsdp) <= |before|
    requires RsdpLength(before, rsdp) >= RSDP_V1_SIZE
  {
    NewBytes(before, rsdp, area)[..RsdpLength(before, rsdp) - RSDP_V1_SIZE]
  }

  lemma Spliced(m: seq<byte>, a: nat, b: nat, c: nat, d: nat)
    requires a <= b <= c <= d <= |m|
    ensures m[a..d] == m[a..b] + m[b..c] + m[c..d]
  {
  }

  lemma PartSame(before: seq<byte>, after: seq<byte>, a: nat, b: nat)
    requires a <= b <= |before| == |after| && forall k :: a <= k < b ==> after[k] == before[k]
    ensures after[a..b] == before[a..b]
  {
  }

  lemma NewBytesAre(before: seq<byte>, after: seq<byte>, rsdp: nat, tables: seq<nat>, area: nat)
    requires HasRsdp(before, rsdp) && XsdtOf(before, rsdp) != 0 && FreeArea(before, rsdp, tables, area)
    requires Applied(before, after, rsdp, tables, area)
    ensures RsdpLength(after, rsdp) == RsdpLength(before, rsdp)
    ensures after[rsdp + RSDP_V1_SIZE..rsdp + RsdpSpan(before, rsdp)] == NewBytes(before, rsdp, area)
  {
    assert RsdpKept(before, after, rsdp) && XsdtOf(after, rsdp) == ReadInt(after, rsdp + RSDP_XSDT, 8) == area;
    hide Encode, Decode, Applied, FreeArea;
    var end := rsdp + RsdpSpan(before, rsdp);
    ReadSame(before, after, rsdp + RSDP_LENGTH, 4);
    PartSame(before, after, rsdp + RSDP_LENGTH, rsdp + RSDP_XSDT);
    PartSame(before, after, rsdp + RSDP_XSDT + 8, end);
    EncodeDecode(after[rsdp + RSDP_XSDT..rsdp + RSDP_XSDT + 8]);
    Spliced(after, rsdp + RSDP_LENGTH, rsdp + RSDP_XSDT, rsdp + RSDP_XSDT + 8, end);
  }

  /**
    After AcpiApplyContext the first 20 bytes of the root pointer, which ACPI 1.0 readers sum up, sum to zero if and
    only if there is no XSDT, or the old bytes behind them do with the address of the new XSDT put in.
  */
  lemma RootPointerExactly(before: seq<byte>, after: seq<byte>, rsdp: nat, tables: seq<nat>, area: nat)
    requires HasRsdp(before, rsdp) && FreeArea(before, rsdp, tables, area)
    requires Applied(before, after, rsdp, tables, area) && RsdpLength(before, rsdp) >= RSDP_V1_SIZE
    ensures SumsToZero(after, rsdp, RSDP_V1_SIZE) <==>
            XsdtOf(before, rsdp) == 0 || Sum(NewTail(before, rsdp, area)) % 256 == 0
  {
    if XsdtOf(before, rsdp) != 0 {
      NewBytesAre(before, after, rsdp, tables, area);
      TailOfBytes(after, rsdp + RSDP_V1_SIZE, rsdp + RsdpSpan(before, rsdp), RsdpLength(before, rsdp) - RSDP_V1_SIZE);
      RootPointerFirstBytes(after, rsdp);
    }
  }

  lemma TailOfBytes(m: seq<byte>, from: nat, end: nat, size: nat)
    requires from + size <= end <= |m|
    ensures m[from..end][..size] == m[from..from + size]
  {
  }
}

/** One memory, end to end: initialise, apply, and look at the first 20 bytes of the root pointer. */
module AcpiSample {
  import opened LittleEndian
  import opened AcpiMemory
  import opened AcpiTables
  import opened AcpiContext
  import opened AcpiApply
  import opened AcpiValidity
  import opened AcpiTracking
  import opened AcpiLib

  const RSDP: int := 64
  const XSDT: int := 128
  const TABLE: int := 200
  const AREA: int := 0x1000
  const SIZE: int := 0x2000

  /** An ACPI 2.0 root pointer without an RSDT, an XSDT with one entry, and a table of zeros. */
  function SampleAt(k: int): byte {
    if k == RSDP + RSDP_REVISION then 2
    else if k == RSDP + RSDP_LENGTH then RSDP_SIZE
    else if k == RSDP + RSDP_XSDT then XSDT
    else if k == XSDT + LENGTH then HEADER_SIZE + 8
    else if k == XSDT + HEADER_SIZE then TABLE
    else 0
  }

  function Sample(): (m: seq<byte>)
    ensures |m| == SIZE
  {
    seq(SIZE, k => SampleAt(k))
  }

  lemma SamplePointer(m: seq<byte>)
    requires m == Sample()
    ensures HasRsdp(m, RSDP) && RsdtOf(m, RSDP) == 0 && XsdtOf(m, RSDP) == XSDT
    ensures BaseOf(m, RSDP) == XSDT && RootOf(m, RSDP) == Xsdt && RsdpLength(m, RSDP) == RSDP_SIZE
  {
    SmallField(m, RSDP + RSDP_RSDT, 4);
    SmallField(m, RSDP + RSDP_LENGTH, 4);
    SmallField(m, RSDP + RSDP_XSDT, 8);
  }

  lemma SampleTables(m: seq<byte>)
    requires m == Sample()
    ensures HasRoot(m, XSDT, Xsdt) && Entries(m, XSDT, Xsdt) == [TABLE]
    ensures Headed(m, TABLE) && !Skipped(m, TABLE) && ReadInt(m, TABLE, 4) != FADT_SIGNATURE
  {
    SmallField(m, XSDT + LENGTH, 4);
    SmallField(m, XSDT + HEADER_SIZE, 8);
    SmallField(m, TABLE, 4);
    SmallField(m, TABLE, 8);
    SmallField(m, TABLE + LENGTH, 4);
    assert EntryAt(m, XSDT, Xsdt, 0) == TABLE;
  }

  lemma SampleLoads(m: seq<byte>)
    requires m == Sample()
    ensures Loadable(m, RSDP) && BaseOf(m, RSDP) == XSDT && RootOf(m, RSDP) == Xsdt
    ensures FadtsReadable(m, Entries(m, BaseOf(m, RSDP), RootOf(m, RSDP)))
    ensures InitStatus(m, RSDP) == Success && LoadedTables(m, RSDP) == [TABLE]
  {
    SamplePointer(m);
    SampleTables(m);
    hide Sample, ReadInt, Headed;
    NothingSkipped(m, [TABLE]);
  }

  lemma SampleArea(m: seq<byte>)
    requires m == Sample()
    ensures HasRsdp(m, RSDP) && FreeArea(m, RSDP, [TABLE], AREA)
  {
    SamplePointer(m);
  }

  lemma SampleTail(m: seq<byte>)
    requires m == Sample()
    ensures HasRsdp(m, RSDP) && XsdtOf(m, RSDP) == XSDT && RsdpLength(m, RSDP) == RSDP_SIZE
    ensures Sum(NewTail(m, RSDP, AREA)) == 0x34
  {
    SamplePointer(m);
    var first, last := m[RSDP + RSDP_LENGTH..RSDP + RSDP_XSDT], m[RSDP + RSDP_XSDT + 8..RSDP + RSDP_SIZE];
    assert first == [RSDP_SIZE, 0, 0, 0] && last == [0, 0, 0, 0];
    assert NewTail(m, RSDP, AREA) == first + Encode(AREA, 8) + last;
    AreaBytes();
    SumAppend(first + Encode(AREA, 8), last);
    SumAppend(first, Encode(AREA, 8));
    ShortSums();
  }

  lemma AreaBytes()
    ensures Encode(AREA, 8) == [0, 0x10, 0, 0, 0, 0, 0, 0]
  {
    assert Encode(0x10, 7) == [0x10] + Encode(0, 6);
    assert Encode(0, 6) == [0, 0, 0, 0, 0, 0];
  }

  lemma ShortSums()
    ensures Sum([RSDP_SIZE, 0, 0, 0]) == RSDP_SIZE && Sum([0, 0, 0, 0]) == 0
    ensures Sum([0, 0x10, 0, 0, 0, 0, 0, 0]) == 0x10
  {
    ZerosSum([0, 0, 0]);
    SumAppend([RSDP_SIZE], [0, 0, 0]);
    assert [RSDP_SIZE] + [0, 0, 0] == [RSDP_SIZE, 0, 0, 0];
    ZerosSum([0, 0, 0, 0]);
    ZerosSum([0, 0, 0, 0, 0, 0]);
    SumAppend([0, 0x10], [0, 0, 0, 0, 0, 0]);
    assert [0, 0x10] + [0, 0, 0, 0, 0, 0] == [0, 0x10, 0, 0, 0, 0, 0, 0];
    assert [0, 0x10][..1] == [0];
  }

  lemma {:induction false} ZerosSum(bytes: seq<byte>)
    requires forall i :: 0 <= i < |bytes| ==> bytes[i] == 0
    ensures Sum(bytes) == 0
  {
    if bytes != [] {
      ZerosSum(bytes[..|bytes| - 1]);
    }
  }

  /** Whatever applying leaves in this memory, the first 20 bytes of the root pointer do not sum to zero. */
  lemma FirstBytesNeedNotSum(after: seq<byte>)
    requires HasRsdp(Sample(), RSDP) && Applied(Sample(), after, RSDP, [TABLE], AREA)
    ensures !SumsToZero(after, RSDP, RSDP_V1_SIZE)
  {
    var m := Sample();
    SampleArea(m);
    SampleTail(m);
    hide Sample, FreeArea, Applied, NewTail, Sum;
    RootPointerExactly(m, after, RSDP, [TABLE], AREA);
  }

  /** First half of the run: the context after initialising. */
  method LoadSample() returns (context: Context)
    ensures fresh(context) && fresh(context.mem) && context.Valid() && context.mem.Length == SIZE
    ensures context.mem[..] == Sample() && context.rsdp == RSDP && context.List() == [TABLE] && context.fadt == 0
  {
    var mem := new byte[SIZE](k => SampleAt(k));
    ghost var m := mem[..];
    assert m == Sample();
    SampleLoads(m);
    NoFadt(m);
    Powers();
    hide Sample, Loadable, LoadedTables, ReadInt, FadtsReadable, LastFadt;
    hide ContextOk, HasFadt, Tracks, Headed, InitStatus;
    context := new Context(mem);
    var status := context.InitContext(RSDP);
    assert context.mem[..] == m;
  }

  /** The run itself. */
  method ApplySample() returns (mem: array<byte>)
    ensures |mem[..]| == SIZE && HasRsdp(Sample(), RSDP)
    ensures Applied(Sample(), mem[..], RSDP, [TABLE], AREA)
    ensures !SumsToZero(mem[..], RSDP, RSDP_V1_SIZE)
  {
    hide Sample, FreeArea, Applied, SumsToZero, ContextOk, HasFadt, Tracks, Persistent, HasRsdp, FadtClear;
    SampleArea(Sample());
    var context := LoadSample();
    mem := context.mem;
    var status := context.ApplyContext(AREA);
    FirstBytesNeedNotSum(mem[..]);
  }

  lemma NoFadt(m: seq<byte>)
    requires m == Sample()
    ensures Headed(m, TABLE) && LastFadt(m, [TABLE]) == 0
  {
  }
}
