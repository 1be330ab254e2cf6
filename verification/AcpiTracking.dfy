/** The FADT and DSDT a context remembers, and when they are those that initialising again would find. */
module AcpiTracking {
  import opened LittleEndian
  import opened AcpiMemory
  import opened AcpiTables
  import opened Subsequences
  import opened AcpiContext
  import opened AcpiApply
  import opened AcpiValidity
  import opened AcpiInsert

  /** Initialising from this memory with this list finds this FADT and this DSDT. */
  ghost predicate Tracks(m: seq<byte>, tables: seq<nat>, fadt: nat, dsdt: nat) {
    && AllHeaded(m, tables) && fadt == LastFadt(m, tables)
    && (fadt != 0 ==> HasFadt(m, fadt)) && dsdt == DsdtOf(m, fadt)
  }

  predicate IsFadt(m: seq<byte>, table: nat)
    requires table + 8 <= |m|
  {
    table != 0 && ReadInt(m, table, 4) == FADT_SIGNATURE
  }

  /** The addresses of the FADTs in the list. */
  ghost function Fadts(m: seq<byte>, tables: seq<nat>): set<nat>
    requires AllHeaded(m, tables)
  {
    set t | t in tables && IsFadtIn(m, t)
  }

  ghost predicate IsFadtIn(m: seq<byte>, table: nat) {
    table + 8 <= |m| && IsFadt(m, table)
  }

  /** Index `i` is the last one in the list with a marked address. */
  ghost predicate IsLast(tables: seq<nat>, marked: set<nat>, i: int) {
    0 <= i < |tables| && tables[i] in marked && forall j :: i < j < |tables| ==> tables[j] !in marked
  }

  lemma {:induction false} LastFadtAt(m: seq<byte>, tables: seq<nat>, marked: set<nat>, i: int)
    requires AllHeaded(m, tables) && IsLast(tables, marked, i)
    requires forall t <- tables :: t in marked <==> IsFadtIn(m, t)
    ensures LastFadt(m, tables) == tables[i]
  {
    var n := |tables| - 1;
    assert tables[n] in tables && Headed(m, tables[n]);
    if i < n {
      LastFadtAt(m, tables[..n], marked, i);
    }
  }

  lemma {:induction false} LastFadtPlace(m: seq<byte>, tables: seq<nat>, marked: set<nat>) returns (i: int)
    requires AllHeaded(m, tables) && LastFadt(m, tables) != 0
    requires forall t <- tables :: t in marked <==> IsFadtIn(m, t)
    ensures IsLast(tables, marked, i) && tables[i] == LastFadt(m, tables)
  {
    i := |tables| - 1;
    assert tables[i] in tables;
    if tables[i] !in marked {
      i := LastFadtPlace(m, tables[..i], marked);
    }
  }

  /** Writes away from the heads of the tables change neither the FADT nor whether it can be read. */
  lemma {:induction false} LastFadtKept(before: seq<byte>, after: seq<byte>, tables: seq<nat>)
    requires AllHeaded(before, tables) && forall i :: 0 <= i < |tables| ==> SameAt(before, after, tables[i], 8)
    ensures AllHeaded(after, tables) && LastFadt(after, tables) == LastFadt(before, tables)
  {
    forall i | 0 <= i < |tables|
      ensures Headed(after, tables[i]) && ReadInt(after, tables[i], 4) == ReadInt(before, tables[i], 4)
    {
      ReadSame(before, after, tables[i], 4);
      ReadSame(before, after, tables[i] + LENGTH, 4);
    }
    if tables != [] {
      LastFadtKept(before, after, tables[..|tables| - 1]);
    }
  }

  // Dropping.

  /** If the last marked table stays, it is the last marked one of those that stay. */
  lemma PlacesKeepLast(tables: seq<nat>, rest: seq<nat>, at: seq<nat>, marked: set<nat>, last: int) returns (j: int)
    requires Places(tables, rest, at) && IsLast(tables, marked, last) && last in at
    ensures IsLast(rest, marked, j) && rest[j] == tables[last]
  {
    j :| 0 <= j < |at| && at[j] == last;
    forall k | j < k < |rest|
      ensures rest[k] !in marked
    {
      assert at[j] < at[k];
    }
  }

  lemma GapKeepsLast(tables: seq<nat>, first: nat, marked: set<nat>, last: int) returns (j: int)
    requires first < |tables| && IsLast(tables, marked, last) && first != last
    ensures
      var rest := tables[..first] + tables[first + 1..];
      IsLast(rest, marked, j) && rest[j] == tables[last]
  {
    var rest := tables[..first] + tables[first + 1..];
    j := if first < last then last - 1 else last;
    forall k | j < k < |rest|
      ensures rest[k] !in marked
    {
      assert rest[k] == if k < first then tables[k] else tables[k + 1];
    }
  }

  lemma DropAllKeepsLast(m: seq<byte>, tables: seq<nat>, p: Pattern, marked: set<nat>, last: int) returns (j: int)
    requires AllHeaded(m, tables) && IsLast(tables, marked, last) && tables[last] in Without(m, tables, p, true)
    ensures
      var rest := Without(m, tables, p, true);
      IsLast(rest, marked, j) && rest[j] == tables[last]
  {
    hide Matches, Headed;
    var rest := Without(m, tables, p, true);
    var at := WithoutAllExactly(m, tables, p);
    var i :| 0 <= i < |rest| && rest[i] == tables[last];
    assert at[i] in at && !Matches(m, tables[at[i]], p);
    j := PlacesKeepLast(tables, rest, at, marked, last);
  }

  lemma DropFirstKeepsLast(m: seq<byte>, tables: seq<nat>, p: Pattern, marked: set<nat>, last: int) returns (j: int)
    requires AllHeaded(m, tables) && IsLast(tables, marked, last) && tables[last] in Without(m, tables, p, false)
    ensures
      var rest := Without(m, tables, p, false);
      IsLast(rest, marked, j) && rest[j] == tables[last]
  {
    hide Matches, Headed, Without;
    var first := WithoutFirstExactly(m, tables, p);
    if first == |tables| {
      j := last;
    } else {
      // A copy of the dropped table would have matched before it, or be a later marked one.
      assert forall k :: 0 <= k < first ==> tables[k] != tables[first];
      DroppedIsGone(tables, first, marked);
      j := GapKeepsLast(tables, first, marked, last);
    }
  }

  lemma DroppedIsGone(tables: seq<nat>, first: nat, marked: set<nat>)
    requires first < |tables| && forall k :: 0 <= k < first ==> tables[k] != tables[first]
    ensures IsLast(tables, marked, first) ==> tables[first] !in tables[..first] + tables[first + 1..]
  {
  }

  lemma NoFadtLeft(m: seq<byte>, tables: seq<nat>, rest: seq<nat>)
    requires AllHeaded(m, tables) && AllHeaded(m, rest) && LastFadt(m, tables) == 0
    requires forall i :: 0 <= i < |rest| ==> rest[i] in tables
    ensures LastFadt(m, rest) == 0
  {
  }

  /** A tracked FADT stays tracked if and only if it is not dropped. */
  lemma DropTracksExactly(m: seq<byte>, tables: seq<nat>, p: Pattern, all: bool, fadt: nat, dsdt: nat)
    requires Tracks(m, tables, fadt, dsdt)
    ensures
      var rest := Without(m, tables, p, all);
      Tracks(m, rest, fadt, dsdt) <==> fadt == 0 || fadt in rest
  {
    var rest := Without(m, tables, p, all);
    forall i | 0 <= i < |rest|
      ensures Headed(m, rest[i])
    {
      var j :| 0 <= j < |tables| && tables[j] == rest[i];
    }
    if fadt == 0 {
      NoFadtLeft(m, tables, rest);
    } else if fadt in rest {
      var marked := Fadts(m, tables);
      var last := LastFadtPlace(m, tables, marked);
      var j;
      if all {
        j := DropAllKeepsLast(m, tables, p, marked, last);
      } else {
        j := DropFirstKeepsLast(m, tables, p, marked, last);
      }
      LastFadtAt(m, rest, marked, j);
    }
  }

  // Inserting.

  /** Bytes of a FADT that are read. */
  function FadtSpan(m: seq<byte>, fadt: nat): nat
    requires HasFadt(m, fadt)
  {
    if TableLength(m, fadt) >= FADT_XDSDT_END then FADT_XDSDT_END else FADT_DSDT + 4
  }

  lemma DsdtKept(before: seq<byte>, after: seq<byte>, fadt: nat)
    requires fadt != 0 && HasFadt(before, fadt) && SameAt(before, after, fadt, FadtSpan(before, fadt))
    ensures HasFadt(after, fadt) && DsdtOf(after, fadt) == DsdtOf(before, fadt)
  {
    ReadSame(before, after, fadt + LENGTH, 4);
    ReadSame(before, after, fadt + FADT_DSDT, 4);
    if TableLength(before, fadt) >= FADT_XDSDT_END {
      ReadSame(before, after, fadt + FADT_XDSDT, 8);
    }
  }

  /** Writes into free pages change neither the heads of the tables nor the FADT, which are elsewhere. */
  lemma PagesElsewhere(
    before: seq<byte>, after: seq<byte>, rsdp: nat, tables: seq<nat>, area: nat, size: nat, fadt: nat)
    requires FreePages(before, rsdp, tables, fadt, area, size) && SameOutside(before, after, area, area + size)
    requires size > 0 && AllHeaded(before, tables) && (fadt != 0 ==> HasFadt(before, fadt))
    ensures 0 < area && fadt != area
    ensures forall i :: 0 <= i < |tables| ==> SameAt(before, after, tables[i], 8)
    ensures fadt != 0 ==> SameAt(before, after, fadt, FadtSpan(before, fadt))
  {
  }

  lemma AppendedFadt(m: seq<byte>, tables: seq<nat>, area: nat, fadt: nat, dsdt: nat)
    requires Tracks(m, tables, fadt, dsdt) && Headed(m, area) && area != 0 && fadt != area
    ensures Tracks(m, tables + [area], fadt, dsdt) <==> ReadInt(m, area, 4) != FADT_SIGNATURE
  {
    hide HasFadt, ReadInt, DsdtOf;
    assert forall i :: 0 <= i < |tables + [area]| ==> Headed(m, (tables + [area])[i]);
    LastFadtNext(m, tables, area);
  }

  /** Appending keeps the tracking if and only if the new table is no FADT. */
  lemma AppendTracksExactly(
    before: seq<byte>, after: seq<byte>, rsdp: nat, tables: seq<nat>, area: nat, data: seq<byte>, fadt: nat, dsdt: nat)
    requires Tracks(before, tables, fadt, dsdt) && |data| >= 8
    requires FreePages(before, rsdp, tables, fadt, area, PagesSize(|data|))
    requires SameOutside(before, after, area, area + PagesSize(|data|)) && Placed(after, area, data)
    ensures Tracks(after, tables + [area], fadt, dsdt) <==> ReadInt(data, 0, 4) != FADT_SIGNATURE
  {
    PagesElsewhere(before, after, rsdp, tables, area, PagesSize(|data|), fadt);
    PlacedRead(after, area, data, 0, 4);
    assert Headed(after, area) && area != 0 && fadt != area;
    hide FreePages, SameOutside, Placed, ReadInt, Headed;
    LastFadtKept(before, after, tables);
    if fadt != 0 {
      DsdtKept(before, after, fadt);
    }
    AppendedFadt(after, tables, area, fadt, dsdt);
  }

  /** Replacing the DSDT keeps the tracking with the new DSDT. */
  lemma ReplaceTracks(
    before: seq<byte>, after: seq<byte>, tables: seq<nat>, fadt: nat, dsdt: nat, newDsdt: nat)
    requires Tracks(before, tables, fadt, dsdt)
    requires forall i :: 0 <= i < |tables| ==> SameAt(before, after, tables[i], 8)
    requires fadt != 0 ==> HasFadt(after, fadt)
    requires newDsdt == DsdtOf(after, fadt)
    ensures Tracks(after, tables, fadt, newDsdt)
  {
    LastFadtKept(before, after, tables);
  }

  // Applying.

  /** What is read of the FADT is apart from everything AcpiApplyContext writes. */
  ghost predicate FadtClear(m: seq<byte>, rsdp: nat, count: nat, area: nat, fadt: nat)
    requires HasRsdp(m, rsdp)
  {
    && HasFadt(m, fadt)
    && Apart(fadt, FadtSpan(m, fadt), area, AreaSize(XsdtOf(m, rsdp), RsdtOf(m, rsdp), count))
    && Apart(fadt, FadtSpan(m, fadt), rsdp, RsdpSpan(m, rsdp))
  }

  /** Applying changes nothing about the tracking. */
  lemma AppliedTracksExactly(
    before: seq<byte>, after: seq<byte>, rsdp: nat, tables: seq<nat>, area: nat, fadt: nat, dsdt: nat)
    requires HasRsdp(before, rsdp) && FreeArea(before, rsdp, tables, area)
    requires Applied(before, after, rsdp, tables, area) && AllHeaded(before, tables)
    requires fadt != 0 ==> FadtClear(before, rsdp, |tables|, area, fadt)
    ensures fadt != 0 ==> HasFadt(after, fadt)
    ensures Tracks(after, tables, fadt, dsdt) <==> Tracks(before, tables, fadt, dsdt)
  {
    AppliedKeepsHeads(before, after, rsdp, tables, area);
    LastFadtKept(before, after, tables);
    if fadt != 0 {
      assert SameAt(before, after, fadt, FadtSpan(before, fadt));
      DsdtKept(before, after, fadt);
    }
  }

  /** Initialising from this memory finds this FADT and this DSDT. */
  ghost predicate Rereads(m: seq<byte>, rsdp: nat, fadt: nat, dsdt: nat) {
    && Loadable(m, rsdp) && BaseOf(m, rsdp) != 0
    && fadt == LastFadt(m, LoadedTables(m, rsdp))
    && (fadt != 0 ==> HasFadt(m, fadt)) && dsdt == DsdtOf(m, fadt)
  }

  lemma PersistentRereads(m: seq<byte>, rsdp: nat, tables: seq<nat>, fadt: nat, dsdt: nat)
    requires Persistent(m, rsdp, tables) && AllHeaded(m, tables)
    ensures Rereads(m, rsdp, fadt, dsdt) <==> Tracks(m, tables, fadt, dsdt)
  {
  }
}
