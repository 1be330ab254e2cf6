/** AcpiDropTable: removing tables by moving the rest of the array up. */
module AcpiDrop {
  import opened LittleEndian
  import opened AcpiMemory
  import opened AcpiTables
  import opened AcpiContext

  /** CopyMem of the tail onto the entry at `index`. */
  method RemoveAt(list: array<nat>, index: nat, count: nat)
    requires index < count <= list.Length
    modifies list
    ensures list[..count - 1] == old(list[..index]) + old(list[index + 1..count])
  {
    ghost var was := list[..count];
    ghost var target := was[..index] + was[index + 1..];
    for k := index to count - 1
      invariant forall j :: index <= j < k ==> list[j] == target[j]
      invariant forall j :: 0 <= j < index || k <= j < count ==> list[j] == was[j]
    {
      list[k] := list[k + 1];
    }
    assert list[..count - 1] == target;
    assert was[..index] == old(list[..index]) && was[index + 1..] == old(list[index + 1..count]);
  }

  method MatchesTable(mem: array<byte>, table: nat, p: Pattern) returns (matches: bool)
    requires Headed(mem[..], table)
    ensures matches == Matches(mem[..], table, p)
  {
    var signature := Read(mem, table, 4);
    var length := Read(mem, table + LENGTH, 4);
    if (p.signature == 0 || signature == p.signature) && (p.length == 0 || length == p.length) {
      var current := 0;
      if length >= HEADER_SIZE {
        current := Read(mem, table + OEM_TABLE_ID, 8);
      }
      return p.oemTableId == 0 || current == p.oemTableId;
    }
    return false;
  }

  /** Where the loop stands: the list from `index` on has still to be looked at. */
  ghost predicate Progress(m: seq<byte>, before: seq<nat>, now: seq<nat>, index: nat, p: Pattern, all: bool) {
    && index <= |now| <= |before| && AllHeaded(m, before) && AllHeaded(m, now)
    && now[..index] + Without(m, now[index..], p, all) == Without(m, before, p, all)
    && (|now| < |before| ==> all)
  }

  lemma ProgressHeaded(m: seq<byte>, before: seq<nat>, now: seq<nat>, index: nat, p: Pattern, all: bool)
    requires Progress(m, before, now, index, p, all) && index < |now|
    ensures Headed(m, now[index])
  {
  }

  lemma ProgressKeeps(m: seq<byte>, before: seq<nat>, now: seq<nat>, index: nat, p: Pattern, all: bool)
    requires Progress(m, before, now, index, p, all) && index < |now| && !Matches(m, now[index], p)
    ensures Progress(m, before, now, index + 1, p, all)
  {
    hide Matches, Headed;
    assert now[index..][1..] == now[index + 1..];
  }

  lemma ProgressDrops(m: seq<byte>, before: seq<nat>, now: seq<nat>, index: nat, p: Pattern, all: bool)
    requires Progress(m, before, now, index, p, all) && index < |now| && Matches(m, now[index], p)
    ensures
      var moved := now[..index] + now[index + 1..];
      if all then Progress(m, before, moved, index, p, all) else moved == Without(m, before, p, all)
  {
    hide Matches, Headed;
    var moved := now[..index] + now[index + 1..];
    assert now[index..][1..] == now[index + 1..] && moved[index..] == now[index + 1..];
  }

  /** One turn of the loop. */
  method DropEntry(
    mem: array<byte>, ghost m: seq<byte>, ghost before: seq<nat>, list: array<nat>, count: nat, index: nat,
    p: Pattern, all: bool)
    returns (matches: bool)
    requires m == mem[..] && mem as object != list as object
    requires index < count <= list.Length && Progress(m, before, list[..count], index, p, all)
    modifies list
    ensures !matches ==> Progress(m, before, list[..count], index + 1, p, all)
    ensures matches && all ==> Progress(m, before, list[..count - 1], index, p, all)
    ensures matches && !all ==> list[..count - 1] == Without(m, before, p, all)
  {
    hide Matches, Progress, Without, AllHeaded, Headed;
    ghost var now := list[..count];
    ProgressHeaded(m, before, now, index, p, all);
    assert now[index] == list[index];
    matches := MatchesTable(mem, list[index], p);
    if matches {
      ProgressDrops(m, before, now, index, p, all);
      RemoveAt(list, index, count);
      assert list[..count - 1] == now[..index] + now[index + 1..];
    } else {
      ProgressKeeps(m, before, now, index, p, all);
    }
  }

  /** The whole of AcpiDropTable on the array. */
  method Drop(mem: array<byte>, list: array<nat>, count: nat, p: Pattern, all: bool)
    returns (newCount: nat, status: Status)
    requires mem as object != list as object && count <= list.Length && AllHeaded(mem[..], list[..count])
    modifies list
    ensures newCount <= count
    ensures list[..newCount] == Without(mem[..], old(list[..count]), p, all)
    ensures status == if newCount < count then Success else NotFound
  {
    ghost var m, before := mem[..], list[..count];
    newCount := count;
    hide Matches, AllHeaded;
    var index, found := 0, false;
    assert before[0..] == before;
    while index < newCount
      invariant mem[..] == m && newCount <= count
      invariant Progress(m, before, list[..newCount], index, p, all)
      invariant found <==> newCount < count
      decreases newCount - index
    {
      var matches := DropEntry(mem, m, before, list, newCount, index, p, all);
      assert mem[..] == m;
      if matches {
        newCount := newCount - 1;
        if all {
          found := true;
        } else {
          return newCount, Success;
        }
      } else {
        index := index + 1;
      }
    }
    status := if found then Success else NotFound;
  }
}
