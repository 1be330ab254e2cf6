/** Physical memory as the ACPI code reads and writes it: little-endian fields and byte sums. */
module AcpiMemory {
  import opened LittleEndian

  function ReadInt(m: seq<byte>, address: nat, size: nat): (x: nat)
    requires address + size <= |m|
    ensures x < Power(size)
  {
    Decode(m[address..address + size])
  }

  /** Nothing but bytes of [lo, hi) differs. */
  ghost predicate SameOutside(before: seq<byte>, after: seq<byte>, lo: int, hi: int) {
    |after| == |before| && forall k :: 0 <= k < |before| && !(lo <= k < hi) ==> after[k] == before[k]
  }

  ghost predicate SameAt(before: seq<byte>, after: seq<byte>, address: nat, size: nat) {
    |after| == |before| && address + size <= |before|
    && forall k :: address <= k < address + size ==> after[k] == before[k]
  }

  lemma ReadSame(before: seq<byte>, after: seq<byte>, address: nat, size: nat)
    requires SameAt(before, after, address, size)
    ensures after[address..address + size] == before[address..address + size]
    ensures ReadInt(after, address, size) == ReadInt(before, address, size)
  {
  }

  lemma {:induction false} DecodeZeros(bytes: seq<byte>)
    requires forall i :: 0 <= i < |bytes| ==> bytes[i] == 0
    ensures Decode(bytes) == 0
  {
    if bytes != [] {
      DecodeZeros(bytes[1..]);
    }
  }

  /** A field of which only the first byte is set. */
  lemma SmallField(m: seq<byte>, address: nat, size: nat)
    requires 0 < size && address + size <= |m|
    requires forall k :: address < k < address + size ==> m[k] == 0
    ensures ReadInt(m, address, size) == m[address]
  {
    var bytes := m[address..address + size];
    DecodeZeros(bytes[1..]);
  }

  /** Stores the low `size` bytes of `x`. */
  method WriteInt(mem: array<byte>, address: nat, size: nat, x: nat)
    requires address + size <= mem.Length && x < Power(size)
    modifies mem
    ensures SameOutside(old(mem[..]), mem[..], address, address + size)
    ensures ReadInt(mem[..], address, size) == x
  {
    ghost var bytes := Encode(x, size);
    var rest := x;
    for i := 0 to size
      invariant forall k :: 0 <= k < mem.Length && !(address <= k < address + i) ==> mem[k] == old(mem[k])
      invariant forall k :: 0 <= k < i ==> mem[address + k] == bytes[k]
      invariant bytes[i..] == Encode(rest, size - i)
    {
      assert bytes[i..][1..] == bytes[i + 1..];
      mem[address + i] := rest % 256;
      rest := rest / 256;
    }
    assert mem[..][address..address + size] == bytes;
    DecodeEncode(x, size);
  }

  // Byte sums.

  function Sum(bytes: seq<byte>): nat {
    if bytes == [] then 0 else Sum(bytes[..|bytes| - 1]) + bytes[|bytes| - 1]
  }

  lemma {:induction false} SumAppend(a: seq<byte>, b: seq<byte>)
    ensures Sum(a + b) == Sum(a) + Sum(b)
  {
    if b == [] {
      assert a + b == a;
    } else {
      var n := |b| - 1;
      assert (a + b)[..|a + b| - 1] == a + b[..n];
      SumAppend(a, b[..n]);
    }
  }

  lemma {:induction false} SumUpdate(bytes: seq<byte>, i: nat, x: byte)
    requires i < |bytes|
    ensures Sum(bytes[i := x]) == Sum(bytes) - bytes[i] + x
  {
    var n := |bytes| - 1;
    if i == n {
      assert bytes[i := x][..n] == bytes[..n];
    } else {
      assert bytes[i := x][..n] == bytes[..n][i := x];
      SumUpdate(bytes[..n], i, x);
    }
  }

  /** All bytes of the table add up to 0 modulo 256. */
  predicate SumsToZero(m: seq<byte>, address: nat, size: nat)
    requires address + size <= |m|
  {
    Sum(m[address..address + size]) % 256 == 0
  }

  /** CalculateCheckSum8: the two's complement of the byte sum. */
  method CalculateCheckSum8(mem: array<byte>, address: nat, size: nat) returns (checksum: byte)
    requires address + size <= mem.Length
    ensures (checksum + Sum(mem[address..address + size])) % 256 == 0
  {
    var sum: int := 0;
    for i := 0 to size
      invariant 0 <= sum < 256 && sum == Sum(mem[address..address + i]) % 256
    {
      assert mem[address..address + i + 1][..i] == mem[address..address + i];
      sum := (sum + mem[address + i]) % 256;
    }
    checksum := if sum == 0 then 0 else 256 - sum;
  }

  /** Zeroes the checksum field and fills it in again; a field outside the summed bytes cannot make them sum to zero. */
  method RefreshChecksum(mem: array<byte>, address: nat, size: nat, field: nat)
    requires address + field < mem.Length && address + size <= mem.Length
    modifies mem
    ensures SameOutside(old(mem[..]), mem[..], address + field, address + field + 1)
    ensures field < size ==> SumsToZero(mem[..], address, size)
  {
    mem[address + field] := 0;
    ghost var zeroed := mem[address..address + size];
    var checksum := CalculateCheckSum8(mem, address, size);
    mem[address + field] := checksum;
    if field < size {
      SumUpdate(zeroed, field, checksum);
      assert mem[..][address..address + size] == zeroed[field := checksum];
    }
  }
}
