/** What AcpiApplyContext leaves in memory, step by step. */
module AcpiApply {
  import opened LittleEndian
  import opened AcpiMemory
  import opened AcpiTables
  import opened AcpiContext

  /** Size of the new root table, 0 if there is none of this kind. */
  function RootSize(root: Root, address: nat, count: nat): nat {
    if address == 0 then 0 else root.Offset(count)
  }

  function AreaSize(xsdt: nat, rsdt: nat, count: nat): nat {
    Align8(RootSize(Xsdt, xsdt, count)) + Align8(RootSize(Rsdt, rsdt, count))
  }

  /** Everything the root pointer occupies. */
  function RsdpSpan(m: seq<byte>, rsdp: nat): (span: nat)
    requires HasRsdp(m, rsdp)
    ensures span >= RsdpLength(m, rsdp)
  {
    var least := if m[rsdp + RSDP_REVISION] > 0 then RSDP_SIZE else RSDP_V1_SIZE;
    if RsdpLength(m, rsdp) < least then least else RsdpLength(m, rsdp)
  }

  /** The pages at `area` are below 4 GB and used by neither the root pointer, the old root tables nor any table. */
  ghost predicate FreeArea(m: seq<byte>, rsdp: nat, tables: seq<nat>, area: nat)
    requires HasRsdp(m, rsdp)
  {
    var xsdt, rsdt := XsdtOf(m, rsdp), RsdtOf(m, rsdp);
    var size, span := AreaSize(xsdt, rsdt, |tables|), RsdpSpan(m, rsdp);
    && 0 < area && area % 0x1000 == 0 && area + size <= BASE_4GB && area + size <= |m|
    && rsdp + span <= |m| && Apart(area, size, rsdp, span)
    && (xsdt != 0 ==> xsdt + HEADER_SIZE <= |m|)
    && (rsdt != 0 ==> rsdt + HEADER_SIZE <= |m|
                      && Apart(area, size, rsdt, HEADER_SIZE) && Apart(rsdt, HEADER_SIZE, rsdp, span))
    && forall i :: 0 <= i < |tables| ==> Apart(tables[i], 8, area, size) && Apart(tables[i], 8, rsdp, span)
  }

  /** One root table has been written and entered into the root pointer, or there was none to write. */
  ghost predicate Phase(
    before: seq<byte>, after: seq<byte>, root: Root, from: nat, base: nat, tables: seq<nat>, field: nat)
  {
    if from == 0 then after == before
    else
      && SameBut(before, after, base, root.Offset(|tables|), field, root.width)
      && Exposed(after, root, base, tables)
      && field + root.width <= |after| && ReadInt(after, field, root.width) == base
      && from + HEADER_SIZE <= |before| && KeepsHeader(before, from, after, base)
  }

  /** Of the root pointer, only the checksum and the two root table addresses differ. */
  ghost predicate RsdpKept(before: seq<byte>, after: seq<byte>, rsdp: nat)
    requires HasRsdp(before, rsdp)
  {
    && |after| == |before| && rsdp + RsdpSpan(before, rsdp) <= |before|
    && forall k :: rsdp <= k < rsdp + RsdpSpan(before, rsdp) && k != rsdp + RSDP_CHECKSUM
                   && !(rsdp + RSDP_RSDT <= k < rsdp + RSDP_RSDT + 4) && !(rsdp + RSDP_XSDT <= k < rsdp + RSDP_XSDT + 8)
                   ==> after[k] == before[k]
  }

  /** The final memory, seen from the root pointer. */
  ghost predicate Applied(before: seq<byte>, after: seq<byte>, rsdp: nat, tables: seq<nat>, area: nat)
    requires HasRsdp(before, rsdp)
  {
    var oldXsdt, oldRsdt := XsdtOf(before, rsdp), RsdtOf(before, rsdp);
    var xsdt := area;
    var rsdt := area + Align8(RootSize(Xsdt, oldXsdt, |tables|));
    && HasRsdp(after, rsdp) && RsdpKept(before, after, rsdp)
    && SameBut(before, after, area, AreaSize(oldXsdt, oldRsdt, |tables|), rsdp, RsdpSpan(before, rsdp))
    && xsdt % 8 == 0 && rsdt % 8 == 0 && xsdt + RootSize(Xsdt, oldXsdt, |tables|) <= rsdt
    && XsdtOf(after, rsdp) == (if oldXsdt == 0 then 0 else xsdt)
    && RsdtOf(after, rsdp) == (if oldRsdt == 0 then 0 else rsdt)
    && (oldXsdt != 0 ==> Exposed(after, Xsdt, xsdt, tables)
                         && oldXsdt + HEADER_SIZE <= |before| && KeepsHeader(before, oldXsdt, after, xsdt))
    && (oldRsdt != 0 ==> Exposed(after, Rsdt, rsdt, tables)
                         && oldRsdt + HEADER_SIZE <= |before| && KeepsHeader(before, oldRsdt, after, rsdt))
    && rsdp + RsdpLength(after, rsdp) <= |after|
    && (RsdpLength(after, rsdp) > RSDP_CHECKSUM ==> SumsToZero(after, rsdp, RsdpLength(after, rsdp)))
  }

  lemma KeepsHeaderAcross(
    m0: seq<byte>, m1: seq<byte>, m2: seq<byte>, m3: seq<byte>, from: nat, base: nat)
    requires from + HEADER_SIZE <= |m0| && base + HEADER_SIZE <= |m2|
    requires SameAt(m0, m1, from, HEADER_SIZE) && SameAt(m2, m3, base, HEADER_SIZE)
    requires KeepsHeader(m1, from, m2, base)
    ensures KeepsHeader(m0, from, m3, base)
  {
    ReadSame(m0, m1, from, HEADER_SIZE);
    ReadSame(m2, m3, base, HEADER_SIZE);
    assert HeaderOf(m1, from) == HeaderOf(m0, from) && HeaderOf(m3, base) == HeaderOf(m2, base);
  }

  lemma XsdtPhaseKeepsRsdp(m0: seq<byte>, m1: seq<byte>, rsdp: nat, tables: seq<nat>, area: nat)
    requires HasRsdp(m0, rsdp) && FreeArea(m0, rsdp, tables, area)
    requires Phase(m0, m1, Xsdt, XsdtOf(m0, rsdp), area, tables, rsdp + RSDP_XSDT)
    ensures HasRsdp(m1, rsdp) && RsdtOf(m1, rsdp) == RsdtOf(m0, rsdp)
    ensures XsdtOf(m1, rsdp) == if XsdtOf(m0, rsdp) == 0 then 0 else area
    ensures RsdpLength(m1, rsdp) == RsdpLength(m0, rsdp)
  {
    if XsdtOf(m0, rsdp) != 0 {
      assert m1[rsdp + RSDP_REVISION] == m0[rsdp + RSDP_REVISION];
      ReadSame(m0, m1, rsdp + RSDP_RSDT, 4);
      ReadSame(m0, m1, rsdp + RSDP_LENGTH, 4);
    }
  }

  lemma RsdtPhaseKeepsRsdp(m1: seq<byte>, m2: seq<byte>, rsdp: nat, tables: seq<nat>, base: nat, span: nat)
    requires HasRsdp(m1, rsdp) && Apart(base, Rsdt.Offset(|tables|), rsdp, span)
    requires span >= if m1[rsdp + RSDP_REVISION] > 0 then RSDP_SIZE else RSDP_V1_SIZE
    requires Phase(m1, m2, Rsdt, RsdtOf(m1, rsdp), base, tables, rsdp + RSDP_RSDT)
    ensures HasRsdp(m2, rsdp) && XsdtOf(m2, rsdp) == XsdtOf(m1, rsdp)
    ensures RsdtOf(m2, rsdp) == if RsdtOf(m1, rsdp) == 0 then 0 else base
    ensures RsdpLength(m2, rsdp) == RsdpLength(m1, rsdp)
  {
    if RsdtOf(m1, rsdp) != 0 && m1[rsdp + RSDP_REVISION] > 0 {
      ReadSame(m1, m2, rsdp + RSDP_XSDT, 8);
      ReadSame(m1, m2, rsdp + RSDP_LENGTH, 4);
    }
  }

  /** After both phases and the checksum, the list loaded from the new memory is the list that was applied. */
  lemma AppliedIsLoaded(before: seq<byte>, after: seq<byte>, rsdp: nat, tables: seq<nat>, area: nat)
    requires HasRsdp(before, rsdp) && BaseOf(before, rsdp) != 0
    requires FreeArea(before, rsdp, tables, area) && Applied(before, after, rsdp, tables, area)
    requires forall i :: 0 <= i < |tables| ==> Listable(before, tables[i], XsdtOf(before, rsdp) != 0)
    ensures BaseOf(after, rsdp) != 0 && Loadable(after, rsdp) && LoadedTables(after, rsdp) == tables
    ensures forall i :: 0 <= i < |tables| ==> Listable(after, tables[i], XsdtOf(after, rsdp) != 0)
  {
    forall i | 0 <= i < |tables|
      ensures Listable(after, tables[i], XsdtOf(after, rsdp) != 0)
    {
      ListableSame(before, after, tables[i], XsdtOf(before, rsdp) != 0);
    }
    ExposedIsLoaded(after, rsdp, tables);
  }

  /** The XSDT written first survives the rest. */
  lemma XsdtSurvives(
    m0: seq<byte>, m1: seq<byte>, m3: seq<byte>, from: nat, base: nat, tables: seq<nat>, field: nat)
    requires from != 0 && Phase(m0, m1, Xsdt, from, base, tables, field)
    requires SameAt(m1, m3, base, Xsdt.Offset(|tables|))
    ensures Exposed(m3, Xsdt, base, tables) && KeepsHeader(m0, from, m3, base)
  {
    ExposedKept(m1, m3, Xsdt, base, tables);
    KeepsHeaderAcross(m0, m0, m1, m3, from, base);
  }

  /** The RSDT written second survives the checksum, and its header comes from the original memory. */
  lemma RsdtSurvives(
    m0: seq<byte>, m1: seq<byte>, m2: seq<byte>, m3: seq<byte>, from: nat, base: nat, tables: seq<nat>, field: nat)
    requires from != 0 && Phase(m1, m2, Rsdt, from, base, tables, field)
    requires SameAt(m0, m1, from, HEADER_SIZE)
    requires SameAt(m2, m3, base, Rsdt.Offset(|tables|))
    ensures Exposed(m3, Rsdt, base, tables) && KeepsHeader(m0, from, m3, base)
  {
    ExposedKept(m2, m3, Rsdt, base, tables);
    KeepsHeaderAcross(m0, m1, m2, m3, from, base);
  }

  /** The memory states while applying: original, XSDT written, RSDT written, root pointer checksum refreshed. */
  ghost predicate Stages(
    m0: seq<byte>, m1: seq<byte>, m2: seq<byte>, m3: seq<byte>, rsdp: nat, tables: seq<nat>, area: nat)
    requires HasRsdp(m0, rsdp)
  {
    var xsdt, rsdt := XsdtOf(m0, rsdp), RsdtOf(m0, rsdp);
    && Phase(m0, m1, Xsdt, xsdt, area, tables, rsdp + RSDP_XSDT)
    && Phase(m1, m2, Rsdt, rsdt, area + Align8(RootSize(Xsdt, xsdt, |tables|)), tables, rsdp + RSDP_RSDT)
    && SameOutside(m2, m3, rsdp + RSDP_CHECKSUM, rsdp + RSDP_CHECKSUM + 1)
  }

  lemma StagesKeepRsdp(
    m0: seq<byte>, m1: seq<byte>, m2: seq<byte>, m3: seq<byte>, rsdp: nat, tables: seq<nat>, area: nat)
    requires HasRsdp(m0, rsdp) && FreeArea(m0, rsdp, tables, area) && Stages(m0, m1, m2, m3, rsdp, tables, area)
    ensures HasRsdp(m1, rsdp) && HasRsdp(m2, rsdp) && HasRsdp(m3, rsdp)
    ensures RsdtOf(m1, rsdp) == RsdtOf(m0, rsdp)
    ensures XsdtOf(m3, rsdp) == if XsdtOf(m0, rsdp) == 0 then 0 else area
    ensures RsdtOf(m3, rsdp)
            == if RsdtOf(m0, rsdp) == 0 then 0 else area + Align8(RootSize(Xsdt, XsdtOf(m0, rsdp), |tables|))
    ensures RsdpLength(m3, rsdp) == RsdpLength(m2, rsdp) == RsdpLength(m0, rsdp)
  {
    XsdtPhaseKeepsRsdp(m0, m1, rsdp, tables, area);
    assert m1[rsdp + RSDP_REVISION] == m0[rsdp + RSDP_REVISION];
    var base := area + Align8(RootSize(Xsdt, XsdtOf(m0, rsdp), |tables|));
    if RsdtOf(m0, rsdp) != 0 {
      RsdtPhaseKeepsRsdp(m1, m2, rsdp, tables, base, RsdpSpan(m0, rsdp));
    }
    assert m2[rsdp + RSDP_REVISION] == m0[rsdp + RSDP_REVISION];
    RsdpSame(m2, m3, rsdp);
  }

  lemma StagesKeepXsdt(
    m0: seq<byte>, m1: seq<byte>, m2: seq<byte>, m3: seq<byte>, rsdp: nat, tables: seq<nat>, area: nat)
    requires HasRsdp(m0, rsdp) && FreeArea(m0, rsdp, tables, area) && Stages(m0, m1, m2, m3, rsdp, tables, area)
    requires XsdtOf(m0, rsdp) != 0
    ensures Exposed(m3, Xsdt, area, tables)
    ensures KeepsHeader(m0, XsdtOf(m0, rsdp), m3, area)
  {
    var size := Xsdt.Offset(|tables|);
    assert SameAt(m1, m2, area, size);
    assert SameAt(m2, m3, area, size);
    XsdtSurvives(m0, m1, m3, XsdtOf(m0, rsdp), area, tables, rsdp + RSDP_XSDT);
  }

  lemma StagesKeepRsdt(
    m0: seq<byte>, m1: seq<byte>, m2: seq<byte>, m3: seq<byte>, rsdp: nat, tables: seq<nat>, area: nat)
    requires HasRsdp(m0, rsdp) && FreeArea(m0, rsdp, tables, area) && Stages(m0, m1, m2, m3, rsdp, tables, area)
    requires RsdtOf(m0, rsdp) != 0
    ensures
      var base := area + Align8(RootSize(Xsdt, XsdtOf(m0, rsdp), |tables|));
      Exposed(m3, Rsdt, base, tables) && KeepsHeader(m0, RsdtOf(m0, rsdp), m3, base)
  {
    hide Exposed, KeepsHeader, ReadInt, SumsToZero;
    var base := area + Align8(RootSize(Xsdt, XsdtOf(m0, rsdp), |tables|));
    assert SameAt(m0, m1, RsdtOf(m0, rsdp), HEADER_SIZE);
    assert SameAt(m2, m3, base, Rsdt.Offset(|tables|));
    RsdtSurvives(m0, m1, m2, m3, RsdtOf(m0, rsdp), base, tables, rsdp + RSDP_RSDT);
  }

  lemma StagesFrame(
    m0: seq<byte>, m1: seq<byte>, m2: seq<byte>, m3: seq<byte>, rsdp: nat, tables: seq<nat>, area: nat)
    requires HasRsdp(m0, rsdp) && FreeArea(m0, rsdp, tables, area) && Stages(m0, m1, m2, m3, rsdp, tables, area)
    ensures SameBut(m0, m3, area, AreaSize(XsdtOf(m0, rsdp), RsdtOf(m0, rsdp), |tables|), rsdp, RsdpSpan(m0, rsdp))
  {
    var size, span := AreaSize(XsdtOf(m0, rsdp), RsdtOf(m0, rsdp), |tables|), RsdpSpan(m0, rsdp);
    assert SameBut(m0, m1, area, size, rsdp, span);
    assert SameBut(m1, m2, area, size, rsdp, span);
    assert SameBut(m2, m3, area, size, rsdp, span);
  }

  lemma StagesKeepPointer(
    m0: seq<byte>, m1: seq<byte>, m2: seq<byte>, m3: seq<byte>, rsdp: nat, tables: seq<nat>, area: nat)
    requires HasRsdp(m0, rsdp) && FreeArea(m0, rsdp, tables, area) && Stages(m0, m1, m2, m3, rsdp, tables, area)
    ensures RsdpKept(m0, m3, rsdp)
  {
    hide Exposed, KeepsHeader, ReadInt;
    forall k | rsdp <= k < rsdp + RsdpSpan(m0, rsdp) && k != rsdp + RSDP_CHECKSUM
               && !(rsdp + RSDP_RSDT <= k < rsdp + RSDP_RSDT + 4) && !(rsdp + RSDP_XSDT <= k < rsdp + RSDP_XSDT + 8)
      ensures m3[k] == m0[k]
    {
      assert m1[k] == m0[k] && m2[k] == m1[k];
    }
  }

  /** The second root table starts on the next multiple of 8 behind the first. */
  lemma Alignment(area: nat, size: nat)
    requires area % 0x1000 == 0
    ensures area % 8 == 0 && (area + Align8(size)) % 8 == 0 && size <= Align8(size)
  {
  }

  lemma StagesApply(
    m0: seq<byte>, m1: seq<byte>, m2: seq<byte>, m3: seq<byte>, rsdp: nat, tables: seq<nat>, area: nat)
    requires HasRsdp(m0, rsdp) && FreeArea(m0, rsdp, tables, area) && Stages(m0, m1, m2, m3, rsdp, tables, area)
    requires rsdp + RsdpLength(m0, rsdp) <= |m3|
    requires RsdpLength(m0, rsdp) > RSDP_CHECKSUM ==> SumsToZero(m3, rsdp, RsdpLength(m0, rsdp))
    ensures Applied(m0, m3, rsdp, tables, area)
  {
    StagesKeepRsdp(m0, m1, m2, m3, rsdp, tables, area);
    StagesFrame(m0, m1, m2, m3, rsdp, tables, area);
    StagesKeepPointer(m0, m1, m2, m3, rsdp, tables, area);
    Alignment(area, RootSize(Xsdt, XsdtOf(m0, rsdp), |tables|));
    if XsdtOf(m0, rsdp) != 0 {
      StagesKeepXsdt(m0, m1, m2, m3, rsdp, tables, area);
    }
    if RsdtOf(m0, rsdp) != 0 {
      StagesKeepRsdt(m0, m1, m2, m3, rsdp, tables, area);
    }
  }

  /** What writing one root table needs. */
  predicate PhaseReady(size: nat, root: Root, from: nat, base: nat, count: nat, field: nat) {
    from != 0 ==>
      && from + HEADER_SIZE <= size && base + root.Offset(count) <= size
      && base + root.Offset(count) <= BASE_4GB && root.Offset(count) < BASE_4GB
      && field + root.width <= size && Apart(base, root.Offset(count), field, root.width)
  }

  lemma ReadyForXsdt(m: seq<byte>, rsdp: nat, tables: seq<nat>, area: nat)
    requires HasRsdp(m, rsdp) && FreeArea(m, rsdp, tables, area)
    ensures PhaseReady(|m|, Xsdt, XsdtOf(m, rsdp), area, |tables|, rsdp + RSDP_XSDT)
  {
  }

  lemma ReadyForRsdt(m: seq<byte>, rsdp: nat, tables: seq<nat>, area: nat)
    requires HasRsdp(m, rsdp) && FreeArea(m, rsdp, tables, area)
    ensures PhaseReady(|m|, Rsdt, RsdtOf(m, rsdp), area + Align8(RootSize(Xsdt, XsdtOf(m, rsdp), |tables|)),
                       |tables|, rsdp + RSDP_RSDT)
  {
  }

  method WritePhase(mem: array<byte>, root: Root, from: nat, base: nat, tables: seq<nat>, field: nat)
    requires PhaseReady(mem.Length, root, from, base, |tables|, field)
    requires forall i :: 0 <= i < |tables| ==> tables[i] < Power(8)
    modifies mem
    ensures Phase(old(mem[..]), mem[..], root, from, base, tables, field)
  {
    if from != 0 {
      ExposeRoot(mem, root, from, base, tables, field);
    }
  }

  /** Both root tables, at `xsdtBase` and `rsdtBase`. */
  method WriteBoth(
    mem: array<byte>, rsdp: nat, xsdt: nat, rsdt: nat, tables: seq<nat>, xsdtBase: nat, rsdtBase: nat)
    returns (ghost m1: seq<byte>)
    requires PhaseReady(mem.Length, Xsdt, xsdt, xsdtBase, |tables|, rsdp + RSDP_XSDT)
    requires PhaseReady(mem.Length, Rsdt, rsdt, rsdtBase, |tables|, rsdp + RSDP_RSDT)
    requires forall i :: 0 <= i < |tables| ==> tables[i] < Power(8)
    modifies mem
    ensures Phase(old(mem[..]), m1, Xsdt, xsdt, xsdtBase, tables, rsdp + RSDP_XSDT)
    ensures Phase(m1, mem[..], Rsdt, rsdt, rsdtBase, tables, rsdp + RSDP_RSDT)
  {
    WritePhase(mem, Xsdt, xsdt, xsdtBase, tables, rsdp + RSDP_XSDT);
    m1 := mem[..];
    WritePhase(mem, Rsdt, rsdt, rsdtBase, tables, rsdp + RSDP_RSDT);
  }

  method WriteRoots(mem: array<byte>, rsdp: nat, xsdt: nat, rsdt: nat, tables: seq<nat>, area: nat, ghost m0: seq<byte>)
    returns (ghost m1: seq<byte>)
    requires m0 == mem[..] && HasRsdp(m0, rsdp) && xsdt == XsdtOf(m0, rsdp) && rsdt == RsdtOf(m0, rsdp)
    requires FreeArea(m0, rsdp, tables, area)
    requires forall i :: 0 <= i < |tables| ==> tables[i] < Power(8)
    modifies mem
    ensures Stages(m0, m1, mem[..], mem[..], rsdp, tables, area)
  {
    hide FreeArea, Phase, PhaseReady, Align8, RootSize, ReadInt;
    ReadyForXsdt(m0, rsdp, tables, area);
    ReadyForRsdt(m0, rsdp, tables, area);
    var rsdtBase := area + Align8(RootSize(Xsdt, xsdt, |tables|));
    m1 := WriteBoth(mem, rsdp, xsdt, rsdt, tables, area, rsdtBase);
  }

  lemma StagesFinish(
    m0: seq<byte>, m1: seq<byte>, m2: seq<byte>, m3: seq<byte>, rsdp: nat, tables: seq<nat>, area: nat)
    requires HasRsdp(m0, rsdp) && FreeArea(m0, rsdp, tables, area) && Stages(m0, m1, m2, m2, rsdp, tables, area)
    requires SameOutside(m2, m3, rsdp + RSDP_CHECKSUM, rsdp + RSDP_CHECKSUM + 1)
    requires rsdp + RsdpLength(m0, rsdp) <= |m3|
    requires RsdpLength(m0, rsdp) > RSDP_CHECKSUM ==> SumsToZero(m3, rsdp, RsdpLength(m0, rsdp))
    ensures Applied(m0, m3, rsdp, tables, area)
  {
    StagesApply(m0, m1, m2, m3, rsdp, tables, area);
  }

  lemma ChecksumStage(m0: seq<byte>, m1: seq<byte>, m2: seq<byte>, rsdp: nat, tables: seq<nat>, area: nat)
    requires HasRsdp(m0, rsdp) && FreeArea(m0, rsdp, tables, area) && Stages(m0, m1, m2, m2, rsdp, tables, area)
    ensures |m2| == |m0| && HasRsdp(m2, rsdp) && RsdpLength(m2, rsdp) == RsdpLength(m0, rsdp)
    ensures rsdp + RsdpLength(m0, rsdp) <= |m2|
    ensures XsdtOf(m2, rsdp) != 0 <==> XsdtOf(m0, rsdp) != 0
  {
    StagesKeepRsdp(m0, m1, m2, m2, rsdp, tables, area);
  }

  /** The root pointer checksum. */
  method RefreshRsdp(mem: array<byte>, rsdp: nat)
    requires HasRsdp(mem[..], rsdp)
    requires rsdp + RsdpLength(mem[..], rsdp) <= mem.Length
    modifies mem
    ensures SameOutside(old(mem[..]), mem[..], rsdp + RSDP_CHECKSUM, rsdp + RSDP_CHECKSUM + 1)
    ensures RsdpLength(old(mem[..]), rsdp) > RSDP_CHECKSUM ==>
              SumsToZero(mem[..], rsdp, RsdpLength(old(mem[..]), rsdp))
  {
    var xsdt := ReadXsdt(mem, rsdp);
    var length := RSDP_V1_SIZE;
    if xsdt != 0 {
      length := Read(mem, rsdp + RSDP_LENGTH, 4);
    }
    RefreshChecksum(mem, rsdp, length, RSDP_CHECKSUM);
  }

  method ReadXsdt(mem: array<byte>, rsdp: nat) returns (xsdt: nat)
    requires HasRsdp(mem[..], rsdp)
    ensures xsdt == XsdtOf(mem[..], rsdp)
  {
    xsdt := 0;
    if mem[rsdp + RSDP_REVISION] > 0 {
      xsdt := Read(mem, rsdp + RSDP_XSDT, 8);
    }
  }

  /** Everything AcpiApplyContext writes. */
  method WriteAll(mem: array<byte>, rsdp: nat, xsdt: nat, rsdt: nat, tables: seq<nat>, area: nat)
    requires HasRsdp(mem[..], rsdp) && xsdt == XsdtOf(mem[..], rsdp) && rsdt == RsdtOf(mem[..], rsdp)
    requires FreeArea(mem[..], rsdp, tables, area)
    requires forall i :: 0 <= i < |tables| ==> tables[i] < Power(8)
    modifies mem
    ensures Applied(old(mem[..]), mem[..], rsdp, tables, area)
  {
    ghost var m0 := mem[..];
    ghost var m1 := WriteRoots(mem, rsdp, xsdt, rsdt, tables, area, m0);
    ghost var m2 := mem[..];
    ChecksumStage(m0, m1, m2, rsdp, tables, area);
    RefreshRsdp(mem, rsdp);
    StagesFinish(m0, m1, m2, mem[..], rsdp, tables, area);
  }
}
