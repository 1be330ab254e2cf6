/** The editors of single tables: each changes bytes of one table in place and refreshes its checksum. */
module AcpiEdit {
  import opened LittleEndian
  import opened AcpiMemory
  import opened AcpiTables
  import opened AcpiContext

  /** Bytes of one table may differ, its length field does not, and if anything differs the table sums to zero. */
  ghost predicate Edits(before: seq<byte>, after: seq<byte>, table: nat) {
    && HasTable(before, table)
    && SameOutside(before, after, table, table + TableLength(before, table))
    && TableLength(after, table) == TableLength(before, table)
    && (after == before || SumsToZero(after, table, TableLength(before, table)))
  }

  /** The table is there and its bytes add up to zero. */
  ghost predicate Sums(m: seq<byte>, table: nat) {
    HasTable(m, table) && SumsToZero(m, table, TableLength(m, table))
  }

  /** The tables do not overlap. */
  ghost predicate AllApart(m: seq<byte>, tables: set<nat>) {
    && (forall t :: t in tables ==> HasTable(m, t))
    && (forall t, u :: t in tables && u in tables && t != u ==> Apart(t, TableLength(m, t), u, TableLength(m, u)))
  }

  /** Editing one table leaves the length and the bytes of the others alone. */
  lemma EditKeepsOthers(before: seq<byte>, after: seq<byte>, tables: set<nat>, edited: nat, table: nat)
    requires AllApart(before, tables) && edited in tables && table in tables && Edits(before, after, edited)
    ensures HasTable(after, table) && TableLength(after, table) == TableLength(before, table)
    ensures table != edited || after == before ==> (Sums(before, table) <==> Sums(after, table))
  {
    if table != edited {
      ReadSame(before, after, table + LENGTH, 4);
      ReadSame(before, after, table, TableLength(before, table));
    }
  }

  /** What happens to memory in a run: a table is edited, or something is written into pages apart from all tables. */
  datatype Step = Edit(table: nat) | Place(area: nat, size: nat)

  ghost predicate Stepped(before: seq<byte>, after: seq<byte>, tables: set<nat>, step: Step)
    requires AllApart(before, tables)
  {
    match step
    case Edit(table) => table in tables && Edits(before, after, table)
    case Place(area, size) =>
      && SameOutside(before, after, area, area + size)
      && forall t :: t in tables ==> Apart(t, TableLength(before, t), area, size)
  }

  lemma StepKeepsTable(before: seq<byte>, after: seq<byte>, tables: set<nat>, step: Step, table: nat)
    requires AllApart(before, tables) && table in tables && Stepped(before, after, tables, step)
    ensures HasTable(after, table) && TableLength(after, table) == TableLength(before, table)
    ensures step != Edit(table) || after == before ==> (Sums(before, table) <==> Sums(after, table))
    ensures step == Edit(table) && after != before ==> Sums(after, table)
  {
    match step
    case Edit(edited) => EditKeepsOthers(before, after, tables, edited, table);
    case Place(area, size) =>
      ReadSame(before, after, table + LENGTH, 4);
      ReadSame(before, after, table, TableLength(before, table));
  }

  lemma StepKeepsApart(before: seq<byte>, after: seq<byte>, tables: set<nat>, step: Step)
    requires AllApart(before, tables) && Stepped(before, after, tables, step)
    ensures AllApart(after, tables)
  {
    forall t | t in tables
      ensures HasTable(after, t) && TableLength(after, t) == TableLength(before, t)
    {
      StepKeepsTable(before, after, tables, step, t);
    }
  }

  /** A run: states[i + 1] comes from states[i] by steps[i], and the tables stay apart. */
  ghost predicate EditRun(states: seq<seq<byte>>, steps: seq<Step>, tables: set<nat>) {
    && |states| == |steps| + 1
    && AllApart(states[0], tables)
    && (steps != [] ==>
          var n := |steps| - 1;
          && EditRun(states[..n + 1], steps[..n], tables)
          && AllApart(states[n], tables) && Stepped(states[n], states[n + 1], tables, steps[n]))
  }

  /** The table summed to zero at the start, or an edit has changed it. */
  ghost predicate Settled(states: seq<seq<byte>>, steps: seq<Step>, table: nat)
    requires |states| == |steps| + 1
  {
    Sums(states[0], table) || exists i :: 0 <= i < |steps| && steps[i] == Edit(table) && states[i + 1] != states[i]
  }

  /** Over every run, every table that summed to zero or was changed by an edit sums to zero in the end. */
  lemma {:induction false} EditRunKeepsSums(states: seq<seq<byte>>, steps: seq<Step>, tables: set<nat>, table: nat)
    requires EditRun(states, steps, tables) && table in tables && Settled(states, steps, table)
    ensures AllApart(states[|steps|], tables) && Sums(states[|steps|], table)
  {
    var n := |steps| - 1;
    if n >= 0 {
      StepKeepsApart(states[n], states[n + 1], tables, steps[n]);
      StepKeepsTable(states[n], states[n + 1], tables, steps[n], table);
      if steps[n] != Edit(table) || states[n + 1] == states[n] {
        SettledBefore(states, steps, table);
        EditRunKeepsSums(states[..n + 1], steps[..n], tables, table);
      }
    }
  }

  lemma SettledBefore(states: seq<seq<byte>>, steps: seq<Step>, table: nat)
    requires |states| == |steps| + 1 && |steps| > 0 && Settled(states, steps, table)
    requires steps[|steps| - 1] != Edit(table) || states[|steps|] == states[|steps| - 1]
    ensures Settled(states[..|steps|], steps[..|steps| - 1], table)
  {
  }

  // AcpiNormalizeTableHeaders.

  const QUESTION_MARK: byte := 0x3F

  function Normal(b: byte): byte {
    if b >= 0x80 then QUESTION_MARK else b
  }

  /** Signature, OEM ID, OEM table ID and creator ID. */
  predicate IsText(k: int) {
    0 <= k < 4 || 10 <= k < 24 || 28 <= k < 32
  }

  method NormalizeField(mem: array<byte>, address: nat, size: nat) returns (modified: bool)
    requires address + size <= mem.Length
    modifies mem
    ensures forall k :: 0 <= k < mem.Length ==>
              mem[k] == if address <= k < address + size then Normal(old(mem[k])) else old(mem[k])
    ensures modified <==> exists k :: address <= k < address + size && old(mem[k]) >= 0x80
  {
    modified := false;
    for i := 0 to size
      invariant forall k :: 0 <= k < mem.Length ==>
                  mem[k] == if address <= k < address + i then Normal(old(mem[k])) else old(mem[k])
      invariant modified <==> exists k :: address <= k < address + i && old(mem[k]) >= 0x80
    {
      if mem[address + i] >= 0x80 {
        mem[address + i] := QUESTION_MARK;
        modified := true;
      }
    }
  }

  /** The text bytes of the header are printable at the 7-bit level, the others are as before. */
  ghost predicate TextNormalized(before: seq<byte>, after: seq<byte>, table: nat) {
    && |after| == |before|
    && forall k :: 0 <= k < |before| ==> after[k] == if IsText(k - table) then Normal(before[k]) else before[k]
  }

  ghost predicate HasForeignText(m: seq<byte>, table: nat)
    requires table + HEADER_SIZE <= |m|
  {
    exists k :: table <= k < table + HEADER_SIZE && IsText(k - table) && m[k] >= 0x80
  }

  method NormalizeText(mem: array<byte>, table: nat) returns (modified: bool)
    requires table + HEADER_SIZE <= mem.Length
    modifies mem
    ensures TextNormalized(old(mem[..]), mem[..], table)
    ensures modified <==> HasForeignText(old(mem[..]), table)
  {
    var signature := NormalizeField(mem, table, 4);
    var oemId := NormalizeField(mem, table + 10, 6);
    var oemTableId := NormalizeField(mem, table + OEM_TABLE_ID, 8);
    var creatorId := NormalizeField(mem, table + 28, 4);
    modified := signature || oemId || oemTableId || creatorId;
  }

  /** No text byte of the header has its top bit set; nothing else changed but the checksum, and only with the text. */
  method NormalizeTableHeaders(mem: array<byte>, table: nat) returns (modified: bool)
    requires table + 8 <= mem.Length
    requires TableLength(mem[..], table) >= HEADER_SIZE ==> HasTable(mem[..], table)
    modifies mem
    ensures modified <==> HasTable(old(mem[..]), table) && HasForeignText(old(mem[..]), table)
    ensures !modified ==> mem[..] == old(mem[..])
    ensures HasTable(old(mem[..]), table) ==>
              Edits(old(mem[..]), mem[..], table) && !HasForeignText(mem[..], table)
    ensures forall k :: 0 <= k < mem.Length && k != table + CHECKSUM ==>
              mem[k] == old(mem[k]) || (modified && IsText(k - table) && mem[k] == Normal(old(mem[k])))
  {
    var length := Read(mem, table + LENGTH, 4);
    if length < HEADER_SIZE {
      return false;
    }
    ghost var before := mem[..];
    modified := NormalizeText(mem, table);
    ghost var normalized := mem[..];
    if modified {
      RefreshChecksum(mem, table, length, CHECKSUM);
    }
    ReadSame(before, mem[..], table + LENGTH, 4);
  }

  // AcpiFadtEnableReset.

  /** EFI_ACPI_6_2_RESET_REG_SUP, bit 10. */
  const RESET_REG_SUP: nat := 1024

  predicate SupportsReset(flags: nat) {
    flags / RESET_REG_SUP % 2 == 1
  }

  /** Byte-wide I/O port 0xCF9 as a generic address structure. */
  const RESET_REGISTER: seq<byte> := [1, 8, 0, 1, 0xF9, 0x0C, 0, 0, 0, 0, 0, 0]

  method WriteBytes(mem: array<byte>, address: nat, bytes: seq<byte>)
    requires address + |bytes| <= mem.Length
    modifies mem
    ensures SameOutside(old(mem[..]), mem[..], address, address + |bytes|)
    ensures mem[..][address..address + |bytes|] == bytes
  {
    for i := 0 to |bytes|
      invariant forall k :: 0 <= k < mem.Length && !(address <= k < address + i) ==> mem[k] == old(mem[k])
      invariant forall k :: 0 <= k < i ==> mem[address + k] == bytes[k]
    {
      mem[address + i] := bytes[i];
    }
  }

  function FadtFlags(m: seq<byte>, fadt: nat): nat
    requires fadt + FADT_ARM_BOOT_ARCH <= |m|
  {
    ReadInt(m, fadt + FADT_FLAGS, 4)
  }

  function FadtResetRegister(m: seq<byte>, fadt: nat): seq<byte>
    requires fadt + FADT_ARM_BOOT_ARCH <= |m|
  {
    m[fadt + FADT_RESET_REG..fadt + FADT_RESET_REG + 12]
  }

  /** Setting a clear bit 10 stays within 32 bits and sets exactly that bit. */
  lemma ResetBit(flags: nat)
    requires flags < BASE_4GB && !SupportsReset(flags)
    ensures flags + RESET_REG_SUP < BASE_4GB && SupportsReset(flags + RESET_REG_SUP)
  {
  }

  method EnableReset(mem: array<byte>, fadt: nat) returns (status: Status)
    requires fadt != 0 ==> HasTable(mem[..], fadt)
    modifies mem
    ensures status == if fadt == 0 then NotFound
                      else if TableLength(old(mem[..]), fadt) < FADT_ARM_BOOT_ARCH then BufferTooSmall else Success
    ensures status != Success ==> mem[..] == old(mem[..])
    ensures status == Success ==>
              && Edits(old(mem[..]), mem[..], fadt) && SupportsReset(FadtFlags(mem[..], fadt))
              && (SupportsReset(FadtFlags(old(mem[..]), fadt)) ==> mem[..] == old(mem[..]))
              && (!SupportsReset(FadtFlags(old(mem[..]), fadt)) ==>
                    && FadtFlags(mem[..], fadt) == FadtFlags(old(mem[..]), fadt) + RESET_REG_SUP
                    && FadtResetRegister(mem[..], fadt) == RESET_REGISTER)
  {
    if fadt == 0 {
      return NotFound;
    }
    var length := Read(mem, fadt + LENGTH, 4);
    if length < FADT_ARM_BOOT_ARCH {
      return BufferTooSmall;
    }
    status := Success;
    var flags := Read(mem, fadt + FADT_FLAGS, 4);
    if !SupportsReset(flags) {
      SetReset(mem, fadt, length, flags);
    }
  }

  method SetReset(mem: array<byte>, fadt: nat, length: nat, flags: nat)
    requires HasTable(mem[..], fadt) && length == TableLength(mem[..], fadt) && length >= FADT_ARM_BOOT_ARCH
    requires flags == FadtFlags(mem[..], fadt) && !SupportsReset(flags)
    modifies mem
    ensures Edits(old(mem[..]), mem[..], fadt)
    ensures FadtFlags(mem[..], fadt) == flags + RESET_REG_SUP && SupportsReset(FadtFlags(mem[..], fadt))
    ensures FadtResetRegister(mem[..], fadt) == RESET_REGISTER
  {
    hide ReadInt, SumsToZero, SupportsReset;
    Powers();
    ResetBit(flags);
    ghost var m0 := mem[..];
    WriteInt(mem, fadt + FADT_FLAGS, 4, flags + RESET_REG_SUP);
    ghost var m1 := mem[..];
    WriteBytes(mem, fadt + FADT_RESET_REG, RESET_REGISTER);
    ghost var m2 := mem[..];
    RefreshChecksum(mem, fadt, length, CHECKSUM);
    ResetWritten(m0, m1, m2, mem[..], fadt);
  }

  /** Flags, reset register and checksum do not overlap, so all three writes stay visible. */
  lemma ResetWritten(m0: seq<byte>, m1: seq<byte>, m2: seq<byte>, m3: seq<byte>, fadt: nat)
    requires HasTable(m0, fadt) && TableLength(m0, fadt) >= FADT_ARM_BOOT_ARCH
    requires SameOutside(m0, m1, fadt + FADT_FLAGS, fadt + FADT_FLAGS + 4)
    requires SameOutside(m1, m2, fadt + FADT_RESET_REG, fadt + FADT_RESET_REG + 12)
    requires SameOutside(m2, m3, fadt + CHECKSUM, fadt + CHECKSUM + 1)
    ensures SameOutside(m0, m3, fadt, fadt + TableLength(m0, fadt))
    ensures TableLength(m3, fadt) == TableLength(m0, fadt)
    ensures FadtFlags(m3, fadt) == FadtFlags(m1, fadt) && FadtResetRegister(m3, fadt) == FadtResetRegister(m2, fadt)
  {
    ReadSame(m0, m3, fadt + LENGTH, 4);
    ReadSame(m1, m3, fadt + FADT_FLAGS, 4);
    ReadSame(m2, m3, fadt + FADT_RESET_REG, 12);
  }

  // AcpiResetLogoStatus.

  const BGRT_SIZE: int := 56
  const BGRT_STATUS: int := 38

  /** The first BGRT of the list, |tables| if there is none. */
  ghost predicate FirstBgrt(m: seq<byte>, tables: seq<nat>, i: nat)
    requires forall k :: 0 <= k < |tables| ==> tables[k] + 8 <= |m|
  {
    && i <= |tables| && (forall k :: 0 <= k < i ==> ReadInt(m, tables[k], 4) != BGRT_SIGNATURE)
    && (i < |tables| ==> ReadInt(m, tables[i], 4) == BGRT_SIGNATURE)
  }

  /** Clears the displayed bit of one BGRT. */
  method ClearDisplayed(mem: array<byte>, bgrt: nat)
    requires HasTable(mem[..], bgrt) && TableLength(mem[..], bgrt) >= BGRT_SIZE
    modifies mem
    ensures Edits(old(mem[..]), mem[..], bgrt) && SumsToZero(mem[..], bgrt, TableLength(mem[..], bgrt))
    ensures mem[bgrt + BGRT_STATUS] == old(mem[bgrt + BGRT_STATUS]) - old(mem[bgrt + BGRT_STATUS]) % 2
    ensures forall k :: 0 <= k < mem.Length && k != bgrt + BGRT_STATUS && k != bgrt + CHECKSUM ==> mem[k] == old(mem[k])
  {
    ghost var before := mem[..];
    var length := Read(mem, bgrt + LENGTH, 4);
    mem[bgrt + BGRT_STATUS] := mem[bgrt + BGRT_STATUS] - mem[bgrt + BGRT_STATUS] % 2;
    RefreshChecksum(mem, bgrt, length, CHECKSUM);
    ReadSame(before, mem[..], bgrt + LENGTH, 4);
  }

  method ResetLogoStatus(mem: array<byte>, tables: seq<nat>) returns (ghost first: nat)
    requires forall k :: 0 <= k < |tables| ==> tables[k] + 8 <= mem.Length
    requires forall k :: 0 <= k < |tables| && TableLength(mem[..], tables[k]) >= HEADER_SIZE ==>
               HasTable(mem[..], tables[k])
    modifies mem
    ensures FirstBgrt(old(mem[..]), tables, first)
    ensures if first < |tables| && TableLength(old(mem[..]), tables[first]) >= BGRT_SIZE
            then Edits(old(mem[..]), mem[..], tables[first]) && mem[tables[first] + BGRT_STATUS] % 2 == 0
                 && Sums(mem[..], tables[first])
            else mem[..] == old(mem[..])
  {
    ghost var m := mem[..];
    for index := 0 to |tables|
      invariant mem[..] == m
      invariant forall k :: 0 <= k < index ==> ReadInt(m, tables[k], 4) != BGRT_SIGNATURE
    {
      var signature := Read(mem, tables[index], 4);
      if signature == BGRT_SIGNATURE {
        var length := Read(mem, tables[index] + LENGTH, 4);
        if length >= BGRT_SIZE {
          ClearDisplayed(mem, tables[index]);
        }
        return index;
      }
    }
    first := |tables|;
  }
}
