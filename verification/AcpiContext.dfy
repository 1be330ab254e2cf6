/** Root tables and the root pointer in memory: reading fields and writing new root tables. */
module AcpiContext {
  import opened LittleEndian
  import opened AcpiMemory
  import opened AcpiTables

  datatype Status = Success | NotFound | InvalidParameter | BufferTooSmall

  function Align8(x: nat): nat {
    (x + 7) / 8 * 8
  }

  /** The address as a root entry stores it: the RSDT keeps the low 32 bits. */
  function Stored(root: Root, table: nat): nat {
    if root.Rsdt? then table % BASE_4GB else table
  }

  predicate Apart(a: nat, aSize: nat, b: nat, bSize: nat) {
    a + aSize <= b || b + bSize <= a
  }

  /** The table can be kept in the list: there, of a kept kind, and below 4 GB if the RSDT is all there is. */
  predicate Listable(m: seq<byte>, table: nat, wide: bool) {
    && table != 0 && Headed(m, table) && !Skipped(m, table)
    && (!wide ==> table < BASE_4GB)
  }

  method Read(mem: array<byte>, address: nat, size: nat) returns (x: nat)
    requires address + size <= mem.Length
    ensures x == ReadInt(mem[..], address, size)
  {
    assert mem[address..address + size] == mem[..][address..address + size];
    x := Decode(mem[address..address + size]);
  }

  function HeaderOf(m: seq<byte>, table: nat): (header: seq<byte>)
    requires table + HEADER_SIZE <= |m|
    ensures |header| == HEADER_SIZE
  {
    m[table..table + HEADER_SIZE]
  }

  method CopyHeader(mem: array<byte>, from: nat, base: nat)
    requires from + HEADER_SIZE <= mem.Length && base + HEADER_SIZE <= mem.Length
    modifies mem
    ensures SameOutside(old(mem[..]), mem[..], base, base + HEADER_SIZE)
    ensures HeaderOf(mem[..], base) == HeaderOf(old(mem[..]), from)
  {
    var header := mem[from..from + HEADER_SIZE];
    for i := 0 to HEADER_SIZE
      invariant forall k :: 0 <= k < mem.Length && !(base <= k < base + i) ==> mem[k] == old(mem[k])
      invariant forall k :: 0 <= k < i ==> mem[base + k] == header[k]
    {
      mem[base + i] := header[i];
    }
    assert HeaderOf(mem[..], base) == header;
  }

  /** Writes behind an entry leave it alone. */
  lemma EntrySame(before: seq<byte>, after: seq<byte>, root: Root, base: nat, lo: int, hi: int, i: nat)
    requires SameOutside(before, after, lo, hi) && base + root.Offset(i + 1) <= |before|
    requires base + root.Offset(i + 1) <= lo || hi <= base + HEADER_SIZE
    ensures EntryAt(after, base, root, i) == EntryAt(before, base, root, i)
  {
    ReadSame(before, after, base + root.Offset(i), root.width);
  }

  /** The entry loop of AcpiApplyContext. */
  method WriteEntries(mem: array<byte>, root: Root, base: nat, tables: seq<nat>)
    requires base + root.Offset(|tables|) <= mem.Length
    requires forall i :: 0 <= i < |tables| ==> tables[i] < Power(8)
    modifies mem
    ensures SameOutside(old(mem[..]), mem[..], base + HEADER_SIZE, base + root.Offset(|tables|))
    ensures forall i :: 0 <= i < |tables| ==> EntryAt(mem[..], base, root, i) == Stored(root, tables[i])
  {
    Powers();
    ghost var before := mem[..];
    for index := 0 to |tables|
      invariant SameOutside(before, mem[..], base + HEADER_SIZE, base + root.Offset(index))
      invariant forall i :: 0 <= i < index ==> EntryAt(mem[..], base, root, i) == Stored(root, tables[i])
    {
      ghost var earlier := mem[..];
      var address := base + root.Offset(index);
      WriteInt(mem, address, root.width, Stored(root, tables[index]));
      forall i | 0 <= i < index
        ensures EntryAt(mem[..], base, root, i) == EntryAt(earlier, base, root, i)
      {
        EntrySame(earlier, mem[..], root, base, address, address + root.width, i);
      }
    }
  }

  /** Header bytes that are taken over from the old root table: all but the length and the checksum. */
  predicate KeepsHeader(before: seq<byte>, from: nat, after: seq<byte>, base: nat)
    requires from + HEADER_SIZE <= |before| && base + HEADER_SIZE <= |after|
  {
    forall k :: 0 <= k < HEADER_SIZE && !(LENGTH <= k < LENGTH + 4) && k != CHECKSUM ==>
      HeaderOf(after, base)[k] == HeaderOf(before, from)[k]
  }

  /** The new root table as far as the length field. */
  method WriteHeader(mem: array<byte>, from: nat, base: nat, size: nat)
    requires from + HEADER_SIZE <= mem.Length && base + HEADER_SIZE <= mem.Length && size < BASE_4GB
    modifies mem
    ensures SameOutside(old(mem[..]), mem[..], base, base + HEADER_SIZE)
    ensures KeepsHeader(old(mem[..]), from, mem[..], base)
    ensures TableLength(mem[..], base) == size
  {
    Powers();
    CopyHeader(mem, from, base);
    ghost var copied := mem[..];
    WriteInt(mem, base + LENGTH, 4, size);
    forall k | 0 <= k < HEADER_SIZE && !(LENGTH <= k < LENGTH + 4)
      ensures HeaderOf(mem[..], base)[k] == HeaderOf(copied, base)[k]
    {
      assert HeaderOf(mem[..], base)[k] == mem[..][base + k] && HeaderOf(copied, base)[k] == copied[base + k];
    }
  }

  /** Later writes behind the header, or to the checksum, keep the header. */
  lemma HeaderKept(start: seq<byte>, from: nat, before: seq<byte>, after: seq<byte>, base: nat, lo: int, hi: int)
    requires from + HEADER_SIZE <= |start| && base + HEADER_SIZE <= |before|
    requires KeepsHeader(start, from, before, base) && SameOutside(before, after, lo, hi)
    requires lo >= base + HEADER_SIZE || (lo == base + CHECKSUM && hi == lo + 1)
    ensures KeepsHeader(start, from, after, base)
    ensures TableLength(after, base) == TableLength(before, base)
  {
    ReadSame(before, after, base + LENGTH, 4);
    forall k | 0 <= k < HEADER_SIZE && k != CHECKSUM
      ensures HeaderOf(after, base)[k] == HeaderOf(before, base)[k]
    {
      assert HeaderOf(after, base)[k] == after[base + k] && HeaderOf(before, base)[k] == before[base + k];
    }
  }

  /** Writes a complete root table at `base` with the header of the old one at `from`. */
  method WriteRoot(mem: array<byte>, root: Root, from: nat, base: nat, tables: seq<nat>)
    requires from + HEADER_SIZE <= mem.Length && base + root.Offset(|tables|) <= mem.Length
    requires root.Offset(|tables|) < BASE_4GB
    requires forall i :: 0 <= i < |tables| ==> tables[i] < Power(8)
    modifies mem
    ensures SameOutside(old(mem[..]), mem[..], base, base + root.Offset(|tables|))
    ensures KeepsHeader(old(mem[..]), from, mem[..], base)
    ensures TableLength(mem[..], base) == root.Offset(|tables|)
    ensures forall i :: 0 <= i < |tables| ==> EntryAt(mem[..], base, root, i) == Stored(root, tables[i])
    ensures SumsToZero(mem[..], base, root.Offset(|tables|))
  {
    var size := root.Offset(|tables|);
    ghost var start := mem[..];
    WriteHeader(mem, from, base, size);
    ghost var headed := mem[..];
    WriteEntries(mem, root, base, tables);
    ghost var filled := mem[..];
    HeaderKept(start, from, headed, filled, base, base + HEADER_SIZE, base + size);
    RefreshChecksum(mem, base, size, CHECKSUM);
    HeaderKept(start, from, filled, mem[..], base, base + CHECKSUM, base + CHECKSUM + 1);
    forall i | 0 <= i < |tables|
      ensures EntryAt(mem[..], base, root, i) == EntryAt(filled, base, root, i)
    {
      EntrySame(filled, mem[..], root, base, base + CHECKSUM, base + CHECKSUM + 1, i);
    }
  }

  /** A complete root table at `base` that lists `tables` and sums to zero. */
  ghost predicate Exposed(m: seq<byte>, root: Root, base: nat, tables: seq<nat>) {
    && base + root.Offset(|tables|) <= |m|
    && TableLength(m, base) == root.Offset(|tables|)
    && (forall i :: 0 <= i < |tables| ==> EntryAt(m, base, root, i) == Stored(root, tables[i]))
    && SumsToZero(m, base, root.Offset(|tables|))
  }

  lemma ExposedKept(before: seq<byte>, after: seq<byte>, root: Root, base: nat, tables: seq<nat>)
    requires Exposed(before, root, base, tables) && SameAt(before, after, base, root.Offset(|tables|))
    ensures Exposed(after, root, base, tables)
    ensures HeaderOf(after, base) == HeaderOf(before, base)
  {
    ReadSame(before, after, base + LENGTH, 4);
    ReadSame(before, after, base, root.Offset(|tables|));
    forall i | 0 <= i < |tables|
      ensures EntryAt(after, base, root, i) == EntryAt(before, base, root, i)
    {
      ReadSame(before, after, base + root.Offset(i), root.width);
    }
  }

  /** What is exposed is what initialisation reads back, as long as no address loses bits. */
  lemma ExposedEntries(m: seq<byte>, root: Root, base: nat, tables: seq<nat>)
    requires Exposed(m, root, base, tables)
    requires root.Rsdt? ==> forall i :: 0 <= i < |tables| ==> tables[i] < BASE_4GB
    ensures HasRoot(m, base, root) && Entries(m, base, root) == tables
  {
    Powers();
    root.CountOfOffset(|tables|);
    hide ReadInt, SumsToZero;
    assert |Entries(m, base, root)| == |tables|;
    forall i | 0 <= i < |tables|
      ensures Entries(m, base, root)[i] == tables[i]
    {
      assert EntryAt(m, base, root, i) == Stored(root, tables[i]);
    }
  }

  /** Nothing but bytes of the two ranges differs. */
  ghost predicate SameBut(before: seq<byte>, after: seq<byte>, a: nat, aSize: nat, b: nat, bSize: nat) {
    && |after| == |before|
    && forall k :: 0 <= k < |before| && !(a <= k < a + aSize) && !(b <= k < b + bSize) ==> after[k] == before[k]
  }

  /** Writes one root table and enters its address into the root pointer at `field`. */
  method ExposeRoot(mem: array<byte>, root: Root, from: nat, base: nat, tables: seq<nat>, field: nat)
    requires from + HEADER_SIZE <= mem.Length && base + root.Offset(|tables|) <= mem.Length
    requires base + root.Offset(|tables|) <= BASE_4GB && root.Offset(|tables|) < BASE_4GB && base < BASE_4GB
    requires field + root.width <= mem.Length && Apart(base, root.Offset(|tables|), field, root.width)
    requires forall i :: 0 <= i < |tables| ==> tables[i] < Power(8)
    modifies mem
    ensures SameBut(old(mem[..]), mem[..], base, root.Offset(|tables|), field, root.width)
    ensures KeepsHeader(old(mem[..]), from, mem[..], base)
    ensures Exposed(mem[..], root, base, tables)
    ensures ReadInt(mem[..], field, root.width) == base
  {
    Powers();
    WriteRoot(mem, root, from, base, tables);
    ghost var written := mem[..];
    assert Exposed(written, root, base, tables);
    WriteInt(mem, field, root.width, base);
    ExposedKept(written, mem[..], root, base, tables);
  }

  // The root pointer.

  /** Bytes of the root pointer that matter: 20 in ACPI 1.0, later as many as it says. */
  function RsdpLength(m: seq<byte>, rsdp: nat): nat
    requires HasRsdp(m, rsdp)
  {
    if XsdtOf(m, rsdp) != 0 then ReadInt(m, rsdp + RSDP_LENGTH, 4) else RSDP_V1_SIZE
  }

  /** The root pointer fields the code reads survive writes that stay away from them. */
  lemma RsdpSame(before: seq<byte>, after: seq<byte>, rsdp: nat)
    requires HasRsdp(before, rsdp) && |after| == |before|
    requires after[rsdp + RSDP_REVISION] == before[rsdp + RSDP_REVISION]
    requires
      var end := rsdp + if before[rsdp + RSDP_REVISION] > 0 then RSDP_SIZE - 4 else RSDP_V1_SIZE;
      forall k :: rsdp + RSDP_RSDT <= k < end ==> after[k] == before[k]
    ensures HasRsdp(after, rsdp)
    ensures RsdtOf(after, rsdp) == RsdtOf(before, rsdp) && XsdtOf(after, rsdp) == XsdtOf(before, rsdp)
    ensures RsdpLength(after, rsdp) == RsdpLength(before, rsdp)
  {
    ReadSame(before, after, rsdp + RSDP_RSDT, 4);
    if before[rsdp + RSDP_REVISION] > 0 {
      ReadSame(before, after, rsdp + RSDP_XSDT, 8);
      ReadSame(before, after, rsdp + RSDP_LENGTH, 4);
    }
  }

  /** Tables stay listable when their heads stay untouched. */
  lemma ListableSame(before: seq<byte>, after: seq<byte>, table: nat, wide: bool)
    requires Listable(before, table, wide) && SameAt(before, after, table, 8)
    ensures Listable(after, table, wide)
  {
    ReadSame(before, after, table, 4);
    ReadSame(before, after, table + LENGTH, 4);
    ReadSame(before, after, table, 8);
  }

  lemma ExposedIsLoaded(m: seq<byte>, rsdp: nat, tables: seq<nat>)
    requires HasRsdp(m, rsdp) && BaseOf(m, rsdp) != 0
    requires Exposed(m, RootOf(m, rsdp), BaseOf(m, rsdp), tables)
    requires forall i :: 0 <= i < |tables| ==> Listable(m, tables[i], RootOf(m, rsdp).Xsdt?)
    ensures Loadable(m, rsdp) && LoadedTables(m, rsdp) == tables
  {
    ExposedEntries(m, RootOf(m, rsdp), BaseOf(m, rsdp), tables);
    NothingSkipped(m, tables);
  }
}
