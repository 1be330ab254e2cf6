/**
  ACPI table lists (sections 5.2.5 to 5.2.8 of ACPI 6.2): the root pointer, the root tables and what is selected
  from them.
*/
module AcpiTables {
  import opened LittleEndian
  import opened AcpiMemory
  import opened Subsequences

  const HEADER_SIZE: int := 36
  const RSDP_SIZE: int := 36
  const RSDP_V1_SIZE: int := 20
  const BASE_4GB: int := 0x1_0000_0000

  const DSDT_SIGNATURE: int := 0x54445344
  const FADT_SIGNATURE: int := 0x50434146
  const BGRT_SIGNATURE: int := 0x54524742
  /** "RSD PTR " as a 64-bit word. */
  const RSDP_SIGNATURE: int := 0x2052545020445352

  // Field offsets.
  const LENGTH: int := 4
  const CHECKSUM: int := 9
  const OEM_TABLE_ID: int := 16
  const RSDP_CHECKSUM: int := 8
  const RSDP_REVISION: int := 15
  const RSDP_RSDT: int := 16
  const RSDP_LENGTH: int := 20
  const RSDP_XSDT: int := 24

  /** The root tables hold 4-byte (RSDT) or 8-byte (XSDT) addresses. */
  datatype Root = Rsdt | Xsdt {
    const width: nat := if Rsdt? then 4 else 8

    function Offset(i: nat): nat {
      HEADER_SIZE + if Rsdt? then 4 * i else 8 * i
    }

    /**
      Number of entries, a 64-bit difference divided and stored in 32 bits: a length below that of the header gives
      about 2^32 entries.
    */
    function Count(length: nat): nat {
      if Rsdt? then Rest(length) / 4 % BASE_4GB else Rest(length) / 8 % BASE_4GB
    }

    lemma CountOfOffset(count: nat)
      requires Offset(count) < BASE_4GB
      ensures Count(Offset(count)) == count
    {
    }
  }

  /** Bytes behind the header, in 64 bits. */
  function Rest(length: nat): nat {
    (length - HEADER_SIZE) % 0x1_0000_0000_0000_0000
  }

  function TableLength(m: seq<byte>, table: nat): nat
    requires table + 8 <= |m|
  {
    ReadInt(m, table + LENGTH, 4)
  }

  predicate HasTable(m: seq<byte>, table: nat) {
    && table + HEADER_SIZE <= |m|
    && TableLength(m, table) >= HEADER_SIZE
    && table + TableLength(m, table) <= |m|
  }

  /** The root table and everything its length says it lists. */
  predicate HasRoot(m: seq<byte>, base: nat, root: Root) {
    base + 8 <= |m| && base + root.Offset(EntryCount(m, base, root)) <= |m|
  }

  function EntryCount(m: seq<byte>, base: nat, root: Root): nat
    requires base + 8 <= |m|
  {
    root.Count(TableLength(m, base))
  }

  function EntryAt(m: seq<byte>, base: nat, root: Root, i: nat): nat
    requires base + root.Offset(i) + root.width <= |m|
  {
    ReadInt(m, base + root.Offset(i), root.width)
  }

  /** The addresses a root table lists. */
  function Entries(m: seq<byte>, base: nat, root: Root): (entries: seq<nat>)
    requires HasRoot(m, base, root)
    ensures |entries| == EntryCount(m, base, root)
  {
    seq(EntryCount(m, base, root), i requires 0 <= i < EntryCount(m, base, root) => EntryAt(m, base, root, i))
  }

  /** NULL entries, the DSDT and the RSDP are not kept in the list. */
  predicate Skipped(m: seq<byte>, table: nat)
    requires table == 0 || table + 8 <= |m|
  {
    table == 0 || ReadInt(m, table, 4) == DSDT_SIGNATURE || ReadInt(m, table, 8) == RSDP_SIGNATURE
  }

  /** The common header can be read, and the long one where the length says there is one. */
  predicate Headed(m: seq<byte>, table: nat) {
    table + 8 <= |m| && (TableLength(m, table) >= HEADER_SIZE ==> table + HEADER_SIZE <= |m|)
  }

  predicate Readable(m: seq<byte>, tables: seq<nat>) {
    forall i :: 0 <= i < |tables| ==> tables[i] == 0 || Headed(m, tables[i])
  }

  function Selected(m: seq<byte>, tables: seq<nat>): (kept: seq<nat>)
    requires Readable(m, tables)
    ensures |kept| <= |tables|
    ensures forall i :: 0 <= i < |kept| ==> kept[i] in tables && Headed(m, kept[i]) && !Skipped(m, kept[i])
  {
    if tables == [] then []
    else
      var n := |tables| - 1;
      Selected(m, tables[..n]) + if Skipped(m, tables[n]) then [] else [tables[n]]
  }

  lemma SelectedNext(m: seq<byte>, tables: seq<nat>, n: nat)
    requires Readable(m, tables) && n < |tables|
    ensures Readable(m, tables[..n]) && Readable(m, tables[..n + 1])
    ensures Selected(m, tables[..n + 1])
            == Selected(m, tables[..n]) + if Skipped(m, tables[n]) then [] else [tables[n]]
  {
    assert tables[..n + 1][..n] == tables[..n];
  }

  lemma {:induction false} SelectedPlaces(m: seq<byte>, tables: seq<nat>) returns (at: seq<nat>)
    requires Readable(m, tables)
    ensures Places(tables, Selected(m, tables), at)
    ensures forall k :: 0 <= k < |tables| ==> (k in at <==> !Skipped(m, tables[k]))
  {
    hide Skipped, ReadInt, Places;
    if tables == [] {
      at := [];
      NoPlaces(tables, Selected(m, tables));
    } else {
      var n := |tables| - 1;
      var earlier := SelectedPlaces(m, tables[..n]);
      at := PlacesNext(tables, Selected(m, tables[..n]), earlier, !Skipped(m, tables[n]));
    }
  }

  /**
    The list is exactly the entries that are not NULL and whose table is neither a DSDT nor a root pointer, in their
    order: signatures "DSDT" and "RSD PTR ".
  */
  lemma SelectedExactly(m: seq<byte>, tables: seq<nat>) returns (at: seq<nat>)
    requires Readable(m, tables)
    ensures Places(tables, Selected(m, tables), at)
    ensures forall k :: 0 <= k < |tables| ==>
              (k in at <==> tables[k] != 0 && ReadInt(m, tables[k], 4) != 0x54445344
                            && ReadInt(m, tables[k], 8) != 0x2052545020445352)
  {
    hide ReadInt, Places, Selected;
    at := SelectedPlaces(m, tables);
  }

  lemma {:induction false} NothingSkipped(m: seq<byte>, tables: seq<nat>)
    requires Readable(m, tables) && forall i :: 0 <= i < |tables| ==> !Skipped(m, tables[i])
    ensures Selected(m, tables) == tables
  {
    if tables != [] {
      NothingSkipped(m, tables[..|tables| - 1]);
    }
  }

  // The root pointer.

  predicate HasRsdp(m: seq<byte>, rsdp: nat) {
    rsdp + RSDP_V1_SIZE <= |m| && (m[rsdp + RSDP_REVISION] > 0 ==> rsdp + RSDP_SIZE <= |m|)
  }

  function RsdtOf(m: seq<byte>, rsdp: nat): nat
    requires HasRsdp(m, rsdp)
  {
    ReadInt(m, rsdp + RSDP_RSDT, 4)
  }

  /** ACPI 2.0 and newer have an XSDT as well. */
  function XsdtOf(m: seq<byte>, rsdp: nat): nat
    requires HasRsdp(m, rsdp)
  {
    if m[rsdp + RSDP_REVISION] > 0 then ReadInt(m, rsdp + RSDP_XSDT, 8) else 0
  }

  function RootOf(m: seq<byte>, rsdp: nat): Root
    requires HasRsdp(m, rsdp)
  {
    if XsdtOf(m, rsdp) != 0 then Xsdt else Rsdt
  }

  function BaseOf(m: seq<byte>, rsdp: nat): nat
    requires HasRsdp(m, rsdp)
  {
    if XsdtOf(m, rsdp) != 0 then XsdtOf(m, rsdp) else RsdtOf(m, rsdp)
  }

  /** Everything initialisation dereferences is there. */
  predicate Loadable(m: seq<byte>, rsdp: nat) {
    && HasRsdp(m, rsdp)
    && (BaseOf(m, rsdp) != 0 ==>
          && HasRoot(m, BaseOf(m, rsdp), RootOf(m, rsdp))
          && Readable(m, Entries(m, BaseOf(m, rsdp), RootOf(m, rsdp))))
  }

  /** The table list initialisation makes of the memory. */
  function LoadedTables(m: seq<byte>, rsdp: nat): seq<nat>
    requires Loadable(m, rsdp) && BaseOf(m, rsdp) != 0
  {
    Selected(m, Entries(m, BaseOf(m, rsdp), RootOf(m, rsdp)))
  }

  // The FADT and the DSDT it names.

  const FADT_DSDT: int := 40
  const FADT_FLAGS: int := 112
  const FADT_RESET_REG: int := 116
  const FADT_ARM_BOOT_ARCH: int := 129
  const FADT_XDSDT: int := 140
  const FADT_XDSDT_END: int := 148

  /** The last FADT in the list, 0 if there is none. */
  function LastFadt(m: seq<byte>, tables: seq<nat>): (fadt: nat)
    requires forall i :: 0 <= i < |tables| ==> tables[i] + 8 <= |m|
    ensures fadt != 0 ==> fadt in tables && ReadInt(m, fadt, 4) == FADT_SIGNATURE
    ensures fadt == 0 ==> forall i :: 0 <= i < |tables| && tables[i] != 0 ==> ReadInt(m, tables[i], 4) != FADT_SIGNATURE
  {
    if tables == [] then 0
    else
      var n := |tables| - 1;
      if tables[n] != 0 && ReadInt(m, tables[n], 4) == FADT_SIGNATURE then tables[n] else LastFadt(m, tables[..n])
  }

  lemma LastFadtNext(m: seq<byte>, tables: seq<nat>, table: nat)
    requires forall i :: 0 <= i < |tables| ==> tables[i] + 8 <= |m|
    requires table != 0 && table + 8 <= |m|
    ensures LastFadt(m, tables + [table])
            == if ReadInt(m, table, 4) == FADT_SIGNATURE then table else LastFadt(m, tables)
  {
  }

  predicate HasFadt(m: seq<byte>, fadt: nat) {
    && fadt + FADT_DSDT + 4 <= |m|
    && (TableLength(m, fadt) >= FADT_XDSDT_END ==> fadt + FADT_XDSDT_END <= |m|)
  }

  predicate FadtsReadable(m: seq<byte>, tables: seq<nat>) {
    forall i :: 0 <= i < |tables| && tables[i] + 8 <= |m| && ReadInt(m, tables[i], 4) == FADT_SIGNATURE ==>
      HasFadt(m, tables[i])
  }

  /** The 64-bit field wins as soon as the FADT is long enough to have one. */
  function DsdtOf(m: seq<byte>, fadt: nat): nat
    requires fadt != 0 ==> HasFadt(m, fadt)
  {
    if fadt == 0 then 0
    else if TableLength(m, fadt) >= FADT_XDSDT_END then ReadInt(m, fadt + FADT_XDSDT, 8)
    else ReadInt(m, fadt + FADT_DSDT, 4)
  }

  /** From memory: a FADT of 148 bytes or more has the address in its 64-bit field, a shorter one in the other. */
  lemma DsdtExactly(m: seq<byte>, fadt: nat)
    requires fadt != 0 && HasFadt(m, fadt)
    ensures DsdtOf(m, fadt) ==
            if ReadInt(m, fadt + 4, 4) >= 148 then ReadInt(m, fadt + 140, 8) else ReadInt(m, fadt + 40, 4)
  {
  }

  /** A FADT of 148 bytes whose 32-bit field is empty still has its DSDT. */
  lemma WideFieldWins()
    ensures
      var zeros: seq<byte> := seq(256, _ => 0);
      var m := zeros[12 := 148][148 := 0x50];
      && HasFadt(m, 8) && ReadInt(m, 8 + 40, 4) == 0 && ReadInt(m, 8 + 140, 8) == 0x50 && DsdtOf(m, 8) == 0x50
  {
    var zeros: seq<byte> := seq(256, _ => 0);
    var m := zeros[12 := 148][148 := 0x50];
    SmallField(m, 12, 4);
    SmallField(m, 48, 4);
    SmallField(m, 148, 8);
    DsdtExactly(m, 8);
  }

  // Where things are (sections 5.2.5 to 5.2.8 of ACPI 6.2).

  /** The addresses of the root tables, by the bytes of the root pointer. */
  lemma RootPointerLayout(m: seq<byte>, rsdp: nat)
    requires HasRsdp(m, rsdp)
    ensures RsdtOf(m, rsdp) == ReadInt(m, rsdp + 16, 4)
    ensures XsdtOf(m, rsdp) == if m[rsdp + 15] > 0 then ReadInt(m, rsdp + 24, 8) else 0
    ensures BaseOf(m, rsdp) == if XsdtOf(m, rsdp) != 0 then XsdtOf(m, rsdp) else RsdtOf(m, rsdp)
    ensures RootOf(m, rsdp).Xsdt? <==> XsdtOf(m, rsdp) != 0
  {
  }

  /** The entries of a root table, by its bytes: 4 or 8 bytes each behind a header of 36 bytes. */
  lemma EntriesLayout(m: seq<byte>, base: nat, root: Root)
    requires HasRoot(m, base, root) && ReadInt(m, base + 4, 4) >= 36
    ensures
      var length, count := ReadInt(m, base + 4, 4), |Entries(m, base, root)|;
      count == if root.Xsdt? then (length - 36) / 8 else (length - 36) / 4
  {
    Powers();
    hide ReadInt;
  }

  lemma EntryLayout(m: seq<byte>, base: nat, root: Root, i: nat)
    requires HasRoot(m, base, root) && i < |Entries(m, base, root)|
    ensures root.Xsdt? ==>
              base + 36 + 8 * i + 8 <= |m| && Entries(m, base, root)[i] == ReadInt(m, base + 36 + 8 * i, 8)
    ensures root.Rsdt? ==>
              base + 36 + 4 * i + 4 <= |m| && Entries(m, base, root)[i] == ReadInt(m, base + 36 + 4 * i, 4)
  {
    hide ReadInt;
  }

  // Dropping tables.

  function OemTableId(m: seq<byte>, table: nat): nat
    requires Headed(m, table)
  {
    if TableLength(m, table) >= HEADER_SIZE then ReadInt(m, table + OEM_TABLE_ID, 8) else 0
  }

  datatype Pattern = Pattern(signature: nat, length: nat, oemTableId: nat)

  predicate AllHeaded(m: seq<byte>, tables: seq<nat>) {
    forall i :: 0 <= i < |tables| ==> Headed(m, tables[i])
  }

  /** Zero fields of a pattern match everything. */
  predicate Matches(m: seq<byte>, table: nat, p: Pattern)
    requires Headed(m, table)
  {
    && (p.signature == 0 || ReadInt(m, table, 4) == p.signature)
    && (p.length == 0 || TableLength(m, table) == p.length)
    && (p.oemTableId == 0 || OemTableId(m, table) == p.oemTableId)
  }

  /** What a dropped table has in common with the pattern; a table without a full header has the OEM table ID 0. */
  lemma MatchesExactly(m: seq<byte>, table: nat, p: Pattern)
    requires Headed(m, table)
    ensures
      var oemTableId := if ReadInt(m, table + 4, 4) >= 36 then ReadInt(m, table + 16, 8) else 0;
      Matches(m, table, p) <==>
        && p.signature in {0, ReadInt(m, table, 4)}
        && p.length in {0, ReadInt(m, table + 4, 4)}
        && p.oemTableId in {0, oemTableId}
  {
  }

  /** The list after dropping all matching tables, or only the first of them. */
  function Without(m: seq<byte>, tables: seq<nat>, p: Pattern, all: bool): (rest: seq<nat>)
    requires AllHeaded(m, tables)
    ensures |rest| <= |tables| && forall i :: 0 <= i < |rest| ==> rest[i] in tables
  {
    if tables == [] then []
    else if !Matches(m, tables[0], p) then [tables[0]] + Without(m, tables[1..], p, all)
    else if all then Without(m, tables[1..], p, all)
    else tables[1..]
  }

  lemma PlacesBehind(table: nat, tables: seq<nat>, rest: seq<nat>, at: seq<nat>) returns (shifted: seq<nat>)
    requires Places(tables, rest, at)
    ensures Places([table] + tables, rest, shifted)
    ensures forall k :: k in shifted <==> k >= 1 && k - 1 in at
  {
    shifted := seq(|at|, i requires 0 <= i < |at| => at[i] + 1);
    forall k | k >= 1 && k - 1 in at
      ensures k in shifted
    {
      var i :| 0 <= i < |at| && at[i] == k - 1;
      assert shifted[i] == k;
    }
  }

  lemma PlacesFrom(tables: seq<nat>, rest: seq<nat>, at: seq<nat>)
    requires tables != [] && Places(tables, rest, at) && 0 !in at
    ensures Places(tables, [tables[0]] + rest, [0] + at)
  {
    var longer, from := [tables[0]] + rest, [0] + at;
    forall i | 0 <= i < |from|
      ensures from[i] < |tables| && longer[i] == tables[from[i]] && (i > 0 ==> from[i] > 0)
    {
      if i > 0 {
        assert from[i] == at[i - 1] && at[i - 1] in at && longer[i] == rest[i - 1];
      }
    }
    forall i, j | 0 <= i < j < |from|
      ensures from[i] < from[j]
    {
      assert from[j] == at[j - 1] && (i > 0 ==> from[i] == at[i - 1]);
    }
  }

  /** Dropping all keeps exactly the tables that do not match, in their order. */
  lemma {:induction false} WithoutAllExactly(m: seq<byte>, tables: seq<nat>, p: Pattern) returns (at: seq<nat>)
    requires AllHeaded(m, tables)
    ensures Places(tables, Without(m, tables, p, true), at)
    ensures forall k :: 0 <= k < |tables| ==> (k in at <==> !Matches(m, tables[k], p))
  {
    hide Matches;
    if tables == [] {
      return [];
    }
    var later := WithoutAllExactly(m, tables[1..], p);
    var shifted := PlacesBehind(tables[0], tables[1..], Without(m, tables[1..], p, true), later);
    assert [tables[0]] + tables[1..] == tables;
    forall k | 1 <= k < |tables|
      ensures k in shifted <==> !Matches(m, tables[k], p)
    {
      assert tables[1..][k - 1] == tables[k];
    }
    if Matches(m, tables[0], p) {
      at := shifted;
    } else {
      PlacesFrom(tables, Without(m, tables[1..], p, true), shifted);
      at := [0] + shifted;
    }
  }

  /** Dropping one removes the leftmost match, or nothing if there is none. */
  lemma {:induction false} WithoutFirstExactly(m: seq<byte>, tables: seq<nat>, p: Pattern) returns (first: nat)
    requires AllHeaded(m, tables)
    ensures first <= |tables| && forall k :: 0 <= k < first ==> !Matches(m, tables[k], p)
    ensures first < |tables| ==> Matches(m, tables[first], p)
    ensures Without(m, tables, p, false)
            == if first < |tables| then tables[..first] + tables[first + 1..] else tables
  {
    hide Matches;
    if tables == [] || Matches(m, tables[0], p) {
      return 0;
    }
    var later := WithoutFirstExactly(m, tables[1..], p);
    first := later + 1;
    forall k | 0 <= k < first
      ensures !Matches(m, tables[k], p)
    {
      assert k > 0 ==> tables[1..][k - 1] == tables[k];
    }
  }
}
