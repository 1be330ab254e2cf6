/** Reading the table list out of memory, as AcpiInitContext does. */
module AcpiLoad {
  import opened LittleEndian
  import opened AcpiMemory
  import opened AcpiTables
  import opened AcpiContext

  method IsSkipped(mem: array<byte>, table: nat) returns (skipped: bool)
    requires table == 0 || table + 8 <= mem.Length
    ensures skipped == Skipped(mem[..], table)
  {
    if table == 0 {
      return true;
    }
    var signature := Read(mem, table, 4);
    var wide := Read(mem, table, 8);
    skipped := signature == DSDT_SIGNATURE || wide == RSDP_SIGNATURE;
  }

  method ReadEntry(mem: array<byte>, base: nat, root: Root, i: nat) returns (table: nat)
    requires HasRoot(mem[..], base, root) && i < EntryCount(mem[..], base, root)
    ensures table == Entries(mem[..], base, root)[i]
  {
    table := Read(mem, base + root.Offset(i), root.width);
  }

  method ReadDsdt(mem: array<byte>, fadt: nat) returns (dsdt: nat)
    requires fadt != 0 && HasFadt(mem[..], fadt)
    ensures dsdt == DsdtOf(mem[..], fadt)
  {
    var length := Read(mem, fadt + LENGTH, 4);
    if length >= FADT_XDSDT_END {
      dsdt := Read(mem, fadt + FADT_XDSDT, 8);
    } else {
      dsdt := Read(mem, fadt + FADT_DSDT, 4);
    }
  }

  /** The FADT and DSDT after one more table has been kept. */
  method TrackFadt(mem: array<byte>, ghost kept: seq<nat>, table: nat, fadt: nat, dsdt: nat)
    returns (newFadt: nat, newDsdt: nat)
    requires forall i :: 0 <= i < |kept| ==> kept[i] + 8 <= mem.Length
    requires table != 0 && table + 8 <= mem.Length
    requires ReadInt(mem[..], table, 4) == FADT_SIGNATURE ==> HasFadt(mem[..], table)
    requires fadt == LastFadt(mem[..], kept)
    requires fadt != 0 ==> HasFadt(mem[..], fadt)
    requires dsdt == DsdtOf(mem[..], fadt)
    ensures newFadt == LastFadt(mem[..], kept + [table])
    ensures newFadt != 0 ==> HasFadt(mem[..], newFadt)
    ensures newDsdt == DsdtOf(mem[..], newFadt)
  {
    newFadt, newDsdt := fadt, dsdt;
    LastFadtNext(mem[..], kept, table);
    var signature := Read(mem, table, 4);
    if signature == FADT_SIGNATURE {
      newFadt := table;
      newDsdt := ReadDsdt(mem, table);
    }
  }

  /** Where the selection loop stands after `index` entries. */
  ghost predicate Progress(m: seq<byte>, entries: seq<nat>, index: nat, kept: seq<nat>, fadt: nat, dsdt: nat) {
    && index <= |entries| && Readable(m, entries) && FadtsReadable(m, entries)
    && kept == Selected(m, entries[..index])
    && fadt == LastFadt(m, kept) && (fadt != 0 ==> HasFadt(m, fadt)) && dsdt == DsdtOf(m, fadt)
  }

  lemma ProgressStarts(m: seq<byte>, entries: seq<nat>)
    requires Readable(m, entries) && FadtsReadable(m, entries)
    ensures Progress(m, entries, 0, [], 0, 0)
  {
  }

  lemma ProgressSkips(m: seq<byte>, entries: seq<nat>, index: nat, kept: seq<nat>, fadt: nat, dsdt: nat)
    requires Progress(m, entries, index, kept, fadt, dsdt) && index < |entries| && Skipped(m, entries[index])
    ensures Progress(m, entries, index + 1, kept, fadt, dsdt)
  {
    SelectedNext(m, entries, index);
  }

  lemma ProgressKeeps(
    m: seq<byte>, entries: seq<nat>, index: nat, kept: seq<nat>, fadt: nat, dsdt: nat, newFadt: nat, newDsdt: nat)
    requires Progress(m, entries, index, kept, fadt, dsdt) && index < |entries| && !Skipped(m, entries[index])
    requires newFadt == LastFadt(m, kept + [entries[index]])
    requires (newFadt != 0 ==> HasFadt(m, newFadt)) && newDsdt == DsdtOf(m, newFadt)
    ensures Progress(m, entries, index + 1, kept + [entries[index]], newFadt, newDsdt)
  {
    SelectedNext(m, entries, index);
  }

  method ExamineEntry(
    mem: array<byte>, ghost m: seq<byte>, ghost entries: seq<nat>, ghost index: nat, ghost kept: seq<nat>,
    table: nat, fadt: nat, dsdt: nat)
    returns (skipped: bool, newFadt: nat, newDsdt: nat)
    requires m == mem[..] && Progress(m, entries, index, kept, fadt, dsdt)
    requires index < |entries| && table == entries[index]
    ensures !skipped ==> Progress(m, entries, index + 1, kept + [table], newFadt, newDsdt)
    ensures skipped ==> Progress(m, entries, index + 1, kept, newFadt, newDsdt)
  {
    newFadt, newDsdt := fadt, dsdt;
    skipped := IsSkipped(mem, table);
    if skipped {
      ProgressSkips(m, entries, index, kept, fadt, dsdt);
    } else {
      newFadt, newDsdt := TrackFadt(mem, kept, table, fadt, dsdt);
      ProgressKeeps(m, entries, index, kept, fadt, dsdt, newFadt, newDsdt);
    }
  }

  /** One turn of the selection loop: the entry goes to list[kept] and stays there if it is kept. */
  method LoadEntry(
    mem: array<byte>, ghost m: seq<byte>, ghost entries: seq<nat>, ghost index: nat,
    table: nat, list: array<nat>, kept: nat, fadt: nat, dsdt: nat)
    returns (newKept: nat, newFadt: nat, newDsdt: nat)
    requires m == mem[..] && index < |entries| && table == entries[index]
    requires kept < list.Length && Progress(m, entries, index, list[..kept], fadt, dsdt)
    modifies list
    ensures kept <= newKept <= kept + 1 <= list.Length
    ensures Progress(m, entries, index + 1, list[..newKept], newFadt, newDsdt)
  {
    hide Progress;
    var skipped;
    skipped, newFadt, newDsdt := ExamineEntry(mem, m, entries, index, list[..kept], table, fadt, dsdt);
    list[kept] := table;
    newKept := if skipped then kept else kept + 1;
    assert list[..kept + 1] == list[..kept] + [table];
  }

  /** The selection loop of AcpiInitContext. */
  method LoadTables(mem: array<byte>, root: Root, base: nat, count: nat)
    returns (list: array<nat>, kept: nat, fadt: nat, dsdt: nat)
    requires HasRoot(mem[..], base, root) && count == EntryCount(mem[..], base, root)
    requires Readable(mem[..], Entries(mem[..], base, root))
    requires FadtsReadable(mem[..], Entries(mem[..], base, root))
    ensures fresh(list) && list.Length == count && kept <= count
    ensures Progress(mem[..], Entries(mem[..], base, root), count, list[..kept], fadt, dsdt)
  {
    ghost var m := mem[..];
    ghost var entries := Entries(m, base, root);
    ProgressStarts(m, entries);
    hide Progress, Readable, FadtsReadable;
    list := new nat[count];
    kept, fadt, dsdt := 0, 0, 0;
    assert list[..kept] == [];
    for index := 0 to count
      invariant kept <= index && mem[..] == m
      invariant Progress(m, entries, index, list[..kept], fadt, dsdt)
    {
      var table := ReadEntry(mem, base, root, index);
      kept, fadt, dsdt := LoadEntry(mem, m, entries, index, table, list, kept, fadt, dsdt);
    }
  }
}
