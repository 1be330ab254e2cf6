/** The ACPI library context: the table list and the operations on it. */
module AcpiLib {
  import opened LittleEndian
  import opened AcpiMemory
  import opened AcpiTables
  import opened AcpiContext
  import opened AcpiApply
  import opened AcpiValidity
  import opened AcpiEdit
  import opened AcpiInsert
  import opened AcpiTracking
  import AcpiLoad
  import AcpiDrop

  /** The roots have been read and name a complete root table. */
  ghost predicate RootsRead(m: seq<byte>, rsdp: nat, rsdt: nat, xsdt: nat, root: Root, base: nat) {
    && Loadable(m, rsdp) && rsdt == RsdtOf(m, rsdp) && xsdt == XsdtOf(m, rsdp)
    && base == BaseOf(m, rsdp) && base != 0 && root == RootOf(m, rsdp)
    && FadtsReadable(m, Entries(m, base, root))
  }

  /** The context after a successful initialisation. */
  ghost predicate Filled(
    m: seq<byte>, rsdp: nat, rsdt: nat, xsdt: nat, tables: seq<nat>, fadt: nat, dsdt: nat)
  {
    && ContextOk(m, rsdp, rsdt, xsdt, tables)
    && Loadable(m, rsdp) && tables == LoadedTables(m, rsdp)
    && fadt == LastFadt(m, tables) && (fadt != 0 ==> HasFadt(m, fadt)) && dsdt == DsdtOf(m, fadt)
  }

  lemma ProgressFills(
    m: seq<byte>, rsdp: nat, rsdt: nat, xsdt: nat, root: Root, base: nat, tables: seq<nat>, fadt: nat, dsdt: nat)
    requires RootsRead(m, rsdp, rsdt, xsdt, root, base)
    requires AcpiLoad.Progress(m, Entries(m, base, root), EntryCount(m, base, root), tables, fadt, dsdt)
    ensures Filled(m, rsdp, rsdt, xsdt, tables, fadt, dsdt)
  {
    var entries := Entries(m, base, root);
    assert entries[..EntryCount(m, base, root)] == entries;
    SelectedListable(m, base, root);
  }

  /** The address of the DSDT, read from the FADT in memory. */
  ghost predicate HasDsdt(m: seq<byte>, fadt: nat, dsdt: nat) {
    if fadt == 0 then dsdt == 0
    else
      && fadt + 44 <= |m|
      && if ReadInt(m, fadt + 4, 4) >= 148 then fadt + 148 <= |m| && dsdt == ReadInt(m, fadt + 140, 8)
         else dsdt == ReadInt(m, fadt + 40, 4)
  }

  lemma TracksHasDsdt(m: seq<byte>, tables: seq<nat>, fadt: nat, dsdt: nat)
    requires Tracks(m, tables, fadt, dsdt)
    ensures HasDsdt(m, fadt, dsdt)
  {
    if fadt != 0 {
      DsdtExactly(m, fadt);
    }
  }

  lemma FilledTracks(
    m: seq<byte>, rsdp: nat, rsdt: nat, xsdt: nat, tables: seq<nat>, fadt: nat, dsdt: nat)
    requires Filled(m, rsdp, rsdt, xsdt, tables, fadt, dsdt)
    ensures Tracks(m, tables, fadt, dsdt)
  {
  }

  method ReadCount(mem: array<byte>, root: Root, base: nat) returns (count: nat)
    requires HasRoot(mem[..], base, root)
    ensures count == EntryCount(mem[..], base, root) == |Entries(mem[..], base, root)|
  {
    var length := AcpiContext.Read(mem, base + LENGTH, 4);
    count := root.Count(length);
  }

  method LoadAll(
    mem: array<byte>, ghost rsdp: nat, ghost rsdt: nat, ghost xsdt: nat, root: Root, base: nat, count: nat)
    returns (list: array<nat>, kept: nat, fadt: nat, dsdt: nat)
    requires RootsRead(mem[..], rsdp, rsdt, xsdt, root, base) && count == EntryCount(mem[..], base, root)
    ensures fresh(list) && kept <= list.Length
    ensures Filled(mem[..], rsdp, rsdt, xsdt, list[..kept], fadt, dsdt)
  {
    ghost var m := mem[..];
    list, kept, fadt, dsdt := AcpiLoad.LoadTables(mem, root, base, count);
    assert mem[..] == m;
    ProgressFills(m, rsdp, rsdt, xsdt, root, base, list[..kept], fadt, dsdt);
  }

  method ApplyAll(
    mem: array<byte>, rsdp: nat, rsdt: nat, xsdt: nat, tables: seq<nat>, area: nat, ghost fadt: nat, ghost dsdt: nat)
    returns (newRsdt: nat, newXsdt: nat)
    requires mem.Length <= Power(8) && ContextOk(mem[..], rsdp, rsdt, xsdt, tables)
    requires FreeArea(mem[..], rsdp, tables, area)
    requires fadt != 0 ==> FadtClear(mem[..], rsdp, |tables|, area, fadt)
    modifies mem
    ensures ContextOk(mem[..], rsdp, newRsdt, newXsdt, tables) && Persistent(mem[..], rsdp, tables)
    ensures Applied(old(mem[..]), mem[..], rsdp, tables, area)
    ensures fadt != 0 ==> HasFadt(mem[..], fadt)
    ensures Tracks(mem[..], tables, fadt, dsdt) <==> Tracks(old(mem[..]), tables, fadt, dsdt)
    ensures Rereads(mem[..], rsdp, fadt, dsdt) <==> Tracks(old(mem[..]), tables, fadt, dsdt)
    ensures rsdp != 0 ==> InitStatus(mem[..], rsdp) == if tables == [] then InvalidParameter else Success
  {
    ghost var m0 := mem[..];
    ListHeaded(m0, rsdp, rsdt, xsdt, tables);
    RootsKnown(m0, rsdp, rsdt, xsdt, tables);
    hide Rereads, InitStatus, LoadedTables, Entries, ContextOk, ReadInt, Listable, Applied, Persistent;
    hide FreeArea, FadtsReadable, FadtClear, HasFadt, Tracks, AllHeaded, AllListable;
    WriteAll(mem, rsdp, xsdt, rsdt, tables, area);
    AppliedIsPersistent(m0, mem[..], rsdp, rsdt, xsdt, tables, area);
    AppliedTracksExactly(m0, mem[..], rsdp, tables, area, fadt, dsdt);
    newRsdt := AcpiContext.Read(mem, rsdp + RSDP_RSDT, 4);
    newXsdt := ReadXsdt(mem, rsdp);
    AppliedRereads(mem[..], rsdp, newRsdt, newXsdt, tables, fadt, dsdt);
  }

  lemma ContextWithout(
    m: seq<byte>, rsdp: nat, rsdt: nat, xsdt: nat, tables: seq<nat>, p: Pattern, all: bool)
    requires ContextOk(m, rsdp, rsdt, xsdt, tables) && AllHeaded(m, tables)
    ensures ContextOk(m, rsdp, rsdt, xsdt, Without(m, tables, p, all))
  {
  }

  lemma ListHeaded(m: seq<byte>, rsdp: nat, rsdt: nat, xsdt: nat, tables: seq<nat>)
    requires ContextOk(m, rsdp, rsdt, xsdt, tables)
    ensures AllHeaded(m, tables)
    ensures |m| <= Power(8) ==> forall i :: 0 <= i < |tables| ==> tables[i] < Power(8)
  {
  }

  /** What initialising from the applied memory returns and finds. */
  lemma AppliedRereads(
    m: seq<byte>, rsdp: nat, rsdt: nat, xsdt: nat, tables: seq<nat>, fadt: nat, dsdt: nat)
    requires Persistent(m, rsdp, tables) && ContextOk(m, rsdp, rsdt, xsdt, tables)
    ensures Rereads(m, rsdp, fadt, dsdt) <==> Tracks(m, tables, fadt, dsdt)
    ensures rsdp != 0 ==> InitStatus(m, rsdp) == if tables == [] then InvalidParameter else Success
  {
    hide ContextOk, Persistent, AllHeaded, Rereads, Tracks, InitStatus;
    ListHeaded(m, rsdp, rsdt, xsdt, tables);
    PersistentRereads(m, rsdp, tables, fadt, dsdt);
    PersistentStatus(m, rsdp, tables);
  }

  lemma RootsKnown(m: seq<byte>, rsdp: nat, rsdt: nat, xsdt: nat, tables: seq<nat>)
    requires ContextOk(m, rsdp, rsdt, xsdt, tables)
    ensures HasRsdp(m, rsdp) && rsdt == RsdtOf(m, rsdp) && xsdt == XsdtOf(m, rsdp) && BaseOf(m, rsdp) != 0
  {
  }

  /** Everything about the context after dropping tables. */
  lemma DropFacts(
    m: seq<byte>, rsdp: nat, rsdt: nat, xsdt: nat, tables: seq<nat>, p: Pattern, all: bool, fadt: nat, dsdt: nat)
    requires ContextOk(m, rsdp, rsdt, xsdt, tables)
    ensures AllHeaded(m, tables) && ContextOk(m, rsdp, rsdt, xsdt, Without(m, tables, p, all))
    ensures Tracks(m, tables, fadt, dsdt) ==>
              (Tracks(m, Without(m, tables, p, all), fadt, dsdt) <==> fadt == 0 || fadt in Without(m, tables, p, all))
  {
    hide ContextOk, Tracks, Without;
    ListHeaded(m, rsdp, rsdt, xsdt, tables);
    ContextWithout(m, rsdp, rsdt, xsdt, tables, p, all);
    if Tracks(m, tables, fadt, dsdt) {
      DropTracksExactly(m, tables, p, all, fadt, dsdt);
    }
  }

  /** The FADT is complete and shares no bytes with the root pointer or the head of another table. */
  ghost predicate FadtAlone(m: seq<byte>, rsdp: nat, tables: seq<nat>, fadt: nat) {
    && HasTable(m, fadt) && Apart(fadt, FADT_XDSDT_END, rsdp, RSDP_SIZE)
    && forall i :: 0 <= i < |tables| && tables[i] != fadt ==> Apart(fadt, FADT_XDSDT_END, tables[i], 8)
  }

  /** Bytes 8 to 147 of the FADT are read by no part of the context but the DSDT pointer. */
  lemma ContextRepointed(
    before: seq<byte>, after: seq<byte>, rsdp: nat, rsdt: nat, xsdt: nat, tables: seq<nat>, fadt: nat)
    requires ContextOk(before, rsdp, rsdt, xsdt, tables) && FadtAlone(before, rsdp, tables, fadt)
    requires SameOutside(before, after, fadt + 8, fadt + FADT_XDSDT_END)
    ensures ContextOk(after, rsdp, rsdt, xsdt, tables)
    ensures forall i :: 0 <= i < |tables| ==> SameAt(before, after, tables[i], 8)
  {
    RsdpSame(before, after, rsdp);
    ListKept(before, after, tables, xsdt != 0);
  }

  /** The memory side of inserting a DSDT: `placed` is the memory after the first step. */
  method InsertDsdtAt(
    mem: array<byte>, data: seq<byte>, area: nat, fadt: nat,
    ghost rsdp: nat, ghost rsdt: nat, ghost xsdt: nat, ghost tables: seq<nat>, ghost dsdt: nat)
    returns (ghost placed: seq<byte>)
    requires ContextOk(mem[..], rsdp, rsdt, xsdt, tables)
    requires fadt != 0 && HasFadt(mem[..], fadt) && FadtAlone(mem[..], rsdp, tables, fadt)
    requires FreePages(mem[..], rsdp, tables, fadt, area, PagesSize(|data|)) && |data| >= 8
    modifies mem
    ensures ContextOk(mem[..], rsdp, rsdt, xsdt, tables) && HasFadt(mem[..], fadt)
    ensures Replaced(old(mem[..]), placed, mem[..], area, data, fadt)
    ensures Tracks(old(mem[..]), tables, fadt, dsdt) ==> Tracks(mem[..], tables, fadt, area)
  {
    hide ContextOk, FreePages, Repointed, Placed, Tracks, Sums;
    ghost var m0 := mem[..];
    PagesLow(m0, rsdp, tables, fadt, area, PagesSize(|data|));
    PlaceTable(mem, area, data);
    placed := mem[..];
    ContextKept(m0, placed, rsdp, rsdt, xsdt, tables, fadt, area, PagesSize(|data|));
    FadtUntouched(m0, placed, rsdp, tables, fadt, area, PagesSize(|data|));
    ReplaceDsdt(mem, fadt, area);
    RepointedReads(placed, mem[..], fadt, area);
    ContextRepointed(placed, mem[..], rsdp, rsdt, xsdt, tables, fadt);
    PlacedStays(placed, mem[..], area, data, fadt, m0, rsdp, tables);
    if Tracks(m0, tables, fadt, dsdt) {
      HeadsStay(m0, placed, mem[..], rsdp, rsdt, xsdt, tables, fadt, area, PagesSize(|data|));
      ReplaceTracks(m0, mem[..], tables, fadt, dsdt, area);
    }
  }

  /** The DSDT is placed and the FADT points to it; nothing else differs. */
  ghost predicate Replaced(
    before: seq<byte>, placed: seq<byte>, after: seq<byte>, area: nat, data: seq<byte>, fadt: nat)
  {
    && SameOutside(before, placed, area, area + PagesSize(|data|)) && Placed(after, area, data)
    && HasTable(placed, fadt) && HasFadt(placed, fadt) && Repointed(placed, after, fadt, area)
    && HasFadt(after, fadt) && fadt != 0 && DsdtOf(after, fadt) == area && Sums(after, fadt)
  }

  lemma ReplacedPlaces(
    before: seq<byte>, placed: seq<byte>, after: seq<byte>, area: nat, data: seq<byte>, fadt: nat)
    requires Replaced(before, placed, after, area, data, fadt)
    ensures Placed(after, area, data)
  {
  }

  lemma FadtUntouched(
    before: seq<byte>, after: seq<byte>, rsdp: nat, tables: seq<nat>, fadt: nat, area: nat, size: nat)
    requires fadt != 0 && HasFadt(before, fadt) && FadtAlone(before, rsdp, tables, fadt)
    requires FreePages(before, rsdp, tables, fadt, area, size) && SameOutside(before, after, area, area + size)
    ensures HasFadt(after, fadt) && FadtAlone(after, rsdp, tables, fadt)
  {
    ReadSame(before, after, fadt + LENGTH, 4);
  }

  lemma PlacedStays(
    placed: seq<byte>, after: seq<byte>, area: nat, data: seq<byte>, fadt: nat,
    before: seq<byte>, rsdp: nat, tables: seq<nat>)
    requires Placed(placed, area, data) && SameOutside(placed, after, fadt + 8, fadt + FADT_XDSDT_END)
    requires fadt != 0 && FreePages(before, rsdp, tables, fadt, area, PagesSize(|data|))
    ensures Placed(after, area, data)
  {
  }

  lemma HeadsStay(
    m0: seq<byte>, m1: seq<byte>, m2: seq<byte>, rsdp: nat, rsdt: nat, xsdt: nat, tables: seq<nat>, fadt: nat,
    area: nat, size: nat)
    requires ContextOk(m0, rsdp, rsdt, xsdt, tables) && FreePages(m0, rsdp, tables, fadt, area, size)
    requires SameOutside(m0, m1, area, area + size)
    requires forall i :: 0 <= i < |tables| ==> SameAt(m1, m2, tables[i], 8)
    ensures forall i :: 0 <= i < |tables| ==> SameAt(m0, m2, tables[i], 8)
  {
  }

  /** The memory side of inserting any other table. */
  method AppendAt(
    mem: array<byte>, data: seq<byte>, area: nat,
    ghost rsdp: nat, ghost rsdt: nat, ghost xsdt: nat, ghost tables: seq<nat>, ghost fadt: nat, ghost dsdt: nat)
    requires ContextOk(mem[..], rsdp, rsdt, xsdt, tables) && (fadt != 0 ==> HasFadt(mem[..], fadt))
    requires FreePages(mem[..], rsdp, tables, fadt, area, PagesSize(|data|))
    requires |data| >= 8 && ReadInt(data, 0, 4) != DSDT_SIGNATURE
    modifies mem
    ensures Placed(mem[..], area, data) && (fadt != 0 ==> HasFadt(mem[..], fadt))
    ensures SameOutside(old(mem[..]), mem[..], area, area + PagesSize(|data|))
    ensures ReadInt(data, 0, 8) != RSDP_SIGNATURE ==> ContextOk(mem[..], rsdp, rsdt, xsdt, tables + [area])
    ensures Tracks(old(mem[..]), tables, fadt, dsdt) ==>
              (Tracks(mem[..], tables + [area], fadt, dsdt) <==> ReadInt(data, 0, 4) != FADT_SIGNATURE)
  {
    hide ContextOk, FreePages, Placed, Tracks, HasFadt;
    ghost var m0 := mem[..];
    PagesLow(m0, rsdp, tables, fadt, area, PagesSize(|data|));
    PlaceTable(mem, area, data);
    ContextKept(m0, mem[..], rsdp, rsdt, xsdt, tables, fadt, area, PagesSize(|data|));
    if ReadInt(data, 0, 8) != RSDP_SIGNATURE {
      ContextAppended(mem[..], rsdp, rsdt, xsdt, tables, area, data);
    }
    if Tracks(m0, tables, fadt, dsdt) {
      AppendTracksExactly(m0, mem[..], rsdp, tables, area, data, fadt, dsdt);
    }
  }

  lemma PagesLow(m: seq<byte>, rsdp: nat, tables: seq<nat>, fadt: nat, area: nat, size: nat)
    requires FreePages(m, rsdp, tables, fadt, area, size) && size > 0
    ensures 0 < area < BASE_4GB && area + size <= |m|
  {
  }

  class Context {
    const mem: array<byte>
    var rsdp: nat
    var rsdt: nat
    var xsdt: nat
    var fadt: nat
    var dsdt: nat
    var tables: array<nat>
    var numberOfTables: nat

    constructor (mem: array<byte>)
      ensures this.mem == mem && fresh(tables)
      ensures rsdp == rsdt == xsdt == fadt == dsdt == numberOfTables == 0 == tables.Length
    {
      this.mem := mem;
      rsdp, rsdt, xsdt, fadt, dsdt, numberOfTables := 0, 0, 0, 0, 0, 0;
      tables := new nat[0];
    }

    ghost predicate Shape()
      reads this
    {
      mem as object != tables as object && mem.Length <= Power(8) && numberOfTables <= tables.Length
    }

    ghost predicate Valid()
      reads this, mem, tables
    {
      Shape() && ContextOk(mem[..], rsdp, rsdt, xsdt, List()) && (fadt != 0 ==> HasFadt(mem[..], fadt))
    }

    ghost function List(): seq<nat>
      requires Shape()
      reads this, tables
    {
      tables[..numberOfTables]
    }

    /** Initialising again would remember the same FADT and DSDT. */
    ghost predicate TracksFadt()
      requires Shape()
      reads this, mem, tables
    {
      Tracks(mem[..], List(), fadt, dsdt)
    }

    /** The root tables, if the root pointer names any. */
    method ReadRoots(found: nat)
      requires HasRsdp(mem[..], found)
      modifies this`rsdt, this`xsdt
      ensures rsdt == RsdtOf(mem[..], found) && xsdt == XsdtOf(mem[..], found)
    {
      rsdt := AcpiContext.Read(mem, found + RSDP_RSDT, 4);
      xsdt := ReadXsdt(mem, found);
    }

    /** AcpiInitContext for the root pointer found at `found`, 0 if there is none. */
    method InitContext(found: nat) returns (status: Status)
      requires mem.Length <= Power(8)
      requires found != 0 ==> Loadable(mem[..], found)
      requires found != 0 && BaseOf(mem[..], found) != 0 ==>
                 FadtsReadable(mem[..], Entries(mem[..], BaseOf(mem[..], found), RootOf(mem[..], found)))
      modifies this
      ensures status == InitStatus(mem[..], found) && (status == Success ==> fresh(tables))
      ensures status == NotFound <==> found == 0 || BaseOf(mem[..], found) == 0
      ensures status == InvalidParameter <==>
              && found != 0 && BaseOf(mem[..], found) != 0
              && Entries(mem[..], BaseOf(mem[..], found), RootOf(mem[..], found)) == []
      ensures status == Success ==>
                && Valid() && rsdp == found && List() == LoadedTables(mem[..], found)
                && fadt == LastFadt(mem[..], List()) && dsdt == DsdtOf(mem[..], fadt) && TracksFadt()
                && HasDsdt(mem[..], fadt, dsdt)
    {
      hide ContextOk, HasFadt, FadtsReadable, Entries, Selected, LastFadt, ReadInt, HasDsdt;
      rsdp, rsdt, xsdt, fadt, dsdt, numberOfTables := found, 0, 0, 0, 0, 0;
      if found == 0 {
        return NotFound;
      }
      ReadRoots(found);
      if rsdt == 0 && xsdt == 0 {
        return NotFound;
      }
      var root, base := if xsdt != 0 then Xsdt else Rsdt, if xsdt != 0 then xsdt else rsdt;
      var count := ReadCount(mem, root, base);
      if count == 0 {
        return InvalidParameter;
      }
      FillTables(root, base, count);
      FilledTracks(mem[..], rsdp, rsdt, xsdt, List(), fadt, dsdt);
      TracksHasDsdt(mem[..], List(), fadt, dsdt);
      status := Success;
    }

    method FillTables(root: Root, base: nat, count: nat)
      requires mem.Length <= Power(8)
      requires RootsRead(mem[..], rsdp, rsdt, xsdt, root, base) && count == EntryCount(mem[..], base, root)
      modifies this`tables, this`numberOfTables, this`fadt, this`dsdt
      ensures Shape() && fresh(tables) && Filled(mem[..], rsdp, rsdt, xsdt, List(), fadt, dsdt)
    {
      hide Filled, RootsRead;
      ghost var m := mem[..];
      var list, kept, lastFadt, itsDsdt := LoadAll(mem, rsdp, rsdt, xsdt, root, base, count);
      tables, numberOfTables, fadt, dsdt := list, kept, lastFadt, itsDsdt;
      assert mem[..] == m && List() == list[..kept];
    }

    /**
      AcpiApplyContext with the pages at `area`: writes new root tables, both 8-byte aligned and apart. Initialising
      from the written memory gives back exactly this list, and the same FADT and DSDT if it would have before.
    */
    method ApplyContext(area: nat) returns (status: Status)
      requires Valid() && FreeArea(mem[..], rsdp, List(), area)
      requires fadt != 0 ==> FadtClear(mem[..], rsdp, numberOfTables, area, fadt)
      modifies this`rsdt, this`xsdt, mem
      ensures status == Success && Valid() && List() == old(List())
      ensures Applied(old(mem[..]), mem[..], rsdp, List(), area)
      ensures Persistent(mem[..], rsdp, List())
      ensures TracksFadt() <==> old(TracksFadt())
      ensures Rereads(mem[..], rsdp, fadt, dsdt) <==> old(TracksFadt())
      ensures rsdp != 0 ==> InitStatus(mem[..], rsdp) == if List() == [] then InvalidParameter else Success
    {
      hide ContextOk, FreeArea, Applied, Persistent, HasFadt, FadtClear, Tracks, Rereads, InitStatus;
      var list := tables[..numberOfTables];
      var newRsdt, newXsdt := ApplyAll(mem, rsdp, rsdt, xsdt, list, area, fadt, dsdt);
      ghost var m := mem[..];
      rsdt, xsdt := newRsdt, newXsdt;
      assert mem[..] == m && List() == list;
      status := Success;
    }

    /** AcpiDropTable: all tables that match, or the first of them, leave the list. */
    method DropTable(p: Pattern, all: bool) returns (status: Status)
      requires Valid()
      modifies this`numberOfTables, tables
      ensures Valid() && tables == old(tables)
      ensures List() == Without(mem[..], old(List()), p, all)
      ensures status == if |List()| < |old(List())| then Success else NotFound
      ensures old(TracksFadt()) ==> (TracksFadt() <==> fadt == 0 || fadt in List())
    {
      hide ContextOk, HasFadt, Tracks, AllHeaded, Without;
      ghost var m, list := mem[..], List();
      DropFacts(m, rsdp, rsdt, xsdt, list, p, all, fadt, dsdt);
      var count;
      count, status := AcpiDrop.Drop(mem, tables, numberOfTables, p, all);
      numberOfTables := count;
      assert mem[..] == m;
    }

    /** AcpiInsertTable with the pages at `area`; `placed` is the memory with the table but without a repointed FADT. */
    method InsertTable(data: seq<byte>, area: nat) returns (status: Status, ghost placed: seq<byte>)
      requires Valid() && |data| < BASE_4GB
      requires InsertStatus(data, fadt, dsdt) == Success ==>
                 && FreePages(mem[..], rsdp, List(), fadt, area, PagesSize(|data|))
                 && (ReadInt(data, 0, 4) == DSDT_SIGNATURE ==> FadtAlone(mem[..], rsdp, List(), fadt))
      modifies this`tables, this`numberOfTables, this`dsdt, tables, mem
      ensures status == InsertStatus(data, fadt, old(dsdt)) && Shape()
      ensures status == InvalidParameter <==>
              || |data| < 8 || ReadInt(data, 4, 4) != |data|
              || (ReadInt(data, 0, 4) == 0x54445344 && (old(dsdt) == 0 || fadt == 0))
      ensures status != Success ==> Valid() && List() == old(List()) && mem[..] == old(mem[..]) && dsdt == old(dsdt)
      ensures status == Success ==> Placed(mem[..], area, data)
      ensures status == Success && ReadInt(data, 0, 4) == DSDT_SIGNATURE ==>
                && Valid() && List() == old(List()) && dsdt == area
                && Replaced(old(mem[..]), placed, mem[..], area, data, fadt)
                && (old(TracksFadt()) ==> TracksFadt())
      ensures status == Success && ReadInt(data, 0, 4) != DSDT_SIGNATURE ==>
                && List() == old(List()) + [area] && dsdt == old(dsdt)
                && SameOutside(old(mem[..]), mem[..], area, area + PagesSize(|data|))
                && (ReadInt(data, 0, 8) != RSDP_SIGNATURE ==> Valid())
                && (old(TracksFadt()) ==> (TracksFadt() <==> ReadInt(data, 0, 4) != FADT_SIGNATURE))
    {
      hide ContextOk, HasFadt, FreePages, Tracks, Placed, Replaced, FadtAlone;
      placed := mem[..];
      if |data| < 8 {
        return InvalidParameter, placed;
      }
      if Decode(data[LENGTH..LENGTH + 4]) != |data| {
        return InvalidParameter, placed;
      }
      var replace := Decode(data[0..4]) == DSDT_SIGNATURE;
      if replace && (dsdt == 0 || fadt == 0) {
        return InvalidParameter, placed;
      }
      if replace {
        placed := InsertDsdt(data, area);
        ReplacedPlaces(old(mem[..]), placed, mem[..], area, data, fadt);
      } else {
        AppendTable(data, area);
      }
      status := Success;
    }

    method InsertDsdt(data: seq<byte>, area: nat) returns (ghost placed: seq<byte>)
      requires Valid() && 8 <= |data| < BASE_4GB && fadt != 0 && FadtAlone(mem[..], rsdp, List(), fadt)
      requires FreePages(mem[..], rsdp, List(), fadt, area, PagesSize(|data|))
      modifies this`dsdt, mem
      ensures Valid() && List() == old(List()) && dsdt == area
      ensures Replaced(old(mem[..]), placed, mem[..], area, data, fadt)
      ensures old(TracksFadt()) ==> TracksFadt()
    {
      hide ContextOk, HasFadt, FreePages, Tracks, Replaced, FadtAlone;
      ghost var list := List();
      placed := InsertDsdtAt(mem, data, area, fadt, rsdp, rsdt, xsdt, list, dsdt);
      ghost var m := mem[..];
      dsdt := area;
      assert mem[..] == m && List() == list;
    }

    /** Two more entries as soon as the array is full. */
    method Grow()
      requires Shape()
      modifies this`tables
      ensures Shape() && List() == old(List()) && numberOfTables < tables.Length
      ensures tables == old(tables) || fresh(tables)
    {
      if numberOfTables == tables.Length {
        var list := new nat[numberOfTables + 2];
        for i := 0 to numberOfTables
          invariant tables == old(tables) && forall k :: 0 <= k < i ==> list[k] == tables[k]
        {
          list[i] := tables[i];
        }
        tables := list;
      }
    }

    method AppendTable(data: seq<byte>, area: nat)
      requires Valid() && 8 <= |data| < BASE_4GB && ReadInt(data, 0, 4) != DSDT_SIGNATURE
      requires FreePages(mem[..], rsdp, List(), fadt, area, PagesSize(|data|))
      modifies this`tables, this`numberOfTables, tables, mem
      ensures Shape() && List() == old(List()) + [area] && Placed(mem[..], area, data)
      ensures SameOutside(old(mem[..]), mem[..], area, area + PagesSize(|data|))
      ensures ReadInt(data, 0, 8) != RSDP_SIGNATURE ==> Valid()
      ensures old(TracksFadt()) ==> (TracksFadt() <==> ReadInt(data, 0, 4) != FADT_SIGNATURE)
    {
      hide ContextOk, HasFadt, FreePages, Tracks, Placed, SameOutside, ReadInt;
      ghost var list := List();
      Grow();
      AppendAt(mem, data, area, rsdp, rsdt, xsdt, list, fadt, dsdt);
      ghost var m := mem[..];
      tables[numberOfTables] := area;
      numberOfTables := numberOfTables + 1;
      assert mem[..] == m && List() == list + [area];
    }
  }
}
