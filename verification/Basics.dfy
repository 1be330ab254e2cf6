/** 64-bit unsigned arithmetic, the width of UINTN and UINT64 in the firmware. */
module Words {

  const TWO_TO_THE_64: int := 0x1_0000_0000_0000_0000

  type u32 = x: int | 0 <= x < 0x1_0000_0000

  type u64 = x: int | 0 <= x < 0x1_0000_0000_0000_0000

  /** The value a 64-bit register holds after computing `x`. */
  function Wrap(x: int): u64 {
    x % TWO_TO_THE_64
  }

  lemma WrapSmall(x: int)
    requires 0 <= x < TWO_TO_THE_64
    ensures Wrap(x) == x
  {
  }

  lemma WrapAdd(x: int, y: int)
    ensures Wrap(Wrap(x) + y) == Wrap(x + y)
  {
    var q := x / TWO_TO_THE_64;
    assert x == q * TWO_TO_THE_64 + Wrap(x);
    WrapShift(Wrap(x) + y, q);
  }

  lemma WrapShift(x: int, q: int)
    ensures Wrap(x + q * TWO_TO_THE_64) == Wrap(x)
  {
    var r := x / TWO_TO_THE_64;
    var t := (x + q * TWO_TO_THE_64) / TWO_TO_THE_64;
    assert x == r * TWO_TO_THE_64 + Wrap(x);
    assert Wrap(x + q * TWO_TO_THE_64) - Wrap(x) == (r + q - t) * TWO_TO_THE_64;
  }
}

module Wrappers {

  datatype Option<+T> = None | Some(value: T)
}

/** Unsigned integers as the bytes a little-endian machine stores. */
module LittleEndian {

  type byte = x: int | 0 <= x < 256

  function Power(n: nat): (p: nat)
    ensures p > 0
  {
    if n == 0 then 1 else 256 * Power(n - 1)
  }

  lemma Powers()
    ensures Power(1) == 0x100 && Power(4) == 0x1_0000_0000 && Power(8) == 0x1_0000_0000_0000_0000
  {
    assert Power(2) == 256 * Power(1);
    assert Power(3) == 256 * Power(2);
    assert Power(4) == 256 * Power(3);
    assert Power(5) == 256 * Power(4);
    assert Power(6) == 256 * Power(5);
    assert Power(7) == 256 * Power(6);
    assert Power(8) == 256 * Power(7);
  }

  /** The `n` low bytes of `x`, lowest first. */
  function Encode(x: nat, n: nat): (bytes: seq<byte>)
    ensures |bytes| == n
  {
    if n == 0 then [] else [x % 256] + Encode(x / 256, n - 1)
  }

  function Decode(bytes: seq<byte>): (x: nat)
    ensures x < Power(|bytes|)
  {
    if bytes == [] then 0 else bytes[0] + 256 * Decode(bytes[1..])
  }

  /** What fits into `n` bytes reads back unchanged. */
  lemma {:induction false} DecodeEncode(x: nat, n: nat)
    requires x < Power(n)
    ensures Decode(Encode(x, n)) == x
    decreases n
  {
    if n > 0 {
      assert x / 256 < Power(n - 1);
      DecodeEncode(x / 256, n - 1);
      assert Encode(x, n)[1..] == Encode(x / 256, n - 1);
    }
  }

  lemma {:induction false} EncodeDecode(bytes: seq<byte>)
    ensures Encode(Decode(bytes), |bytes|) == bytes
  {
    if bytes != [] {
      EncodeDecode(bytes[1..]);
      var rest := Decode(bytes[1..]);
      assert Decode(bytes) % 256 == bytes[0] && Decode(bytes) / 256 == rest;
      assert bytes == [bytes[0]] + bytes[1..];
    }
  }

  function Reversed(bytes: seq<byte>): seq<byte> {
    seq(|bytes|, i requires 0 <= i < |bytes| => bytes[|bytes| - 1 - i])
  }

  /** SwapBytes32 and SwapBytes64 for n = 4 and n = 8: big-endian data read by a little-endian machine. */
  function Swapped(x: nat, n: nat): (y: nat)
    ensures y < Power(n)
  {
    Decode(Reversed(Encode(x, n)))
  }

  /** Swapping what a little-endian machine reads gives the big-endian value of the same bytes. */
  lemma SwappedDecode(bytes: seq<byte>)
    ensures Swapped(Decode(bytes), |bytes|) == Decode(Reversed(bytes))
  {
    EncodeDecode(bytes);
  }
}

module FiniteSets {

  lemma {:induction false} SubsetSize<T>(a: set<T>, b: set<T>)
    requires a <= b
    ensures |a| <= |b|
    ensures |a| == |b| ==> a == b
  {
    assert b == a + (b - a);
  }
}

/** Sequences that pick elements of another one and keep their order. */
module Subsequences {

  /** `kept` lists some of the elements in their order: `at` are their places. */
  ghost predicate Places<T>(all: seq<T>, kept: seq<T>, at: seq<nat>) {
    && |at| == |kept|
    && (forall i :: 0 <= i < |at| ==> at[i] < |all| && kept[i] == all[at[i]])
    && (forall i, j :: 0 <= i < j < |at| ==> at[i] < at[j])
  }

  lemma NoPlaces<T>(all: seq<T>, kept: seq<T>)
    requires kept == []
    ensures Places(all, kept, [])
  {
  }

  /** One more element at the end, left out or picked. */
  lemma PlacesNext<T>(all: seq<T>, kept: seq<T>, at: seq<nat>, picked: bool) returns (places: seq<nat>)
    requires all != [] && Places(all[..|all| - 1], kept, at)
    ensures Places(all, kept + if picked then [all[|all| - 1]] else [], places)
    ensures forall k :: 0 <= k < |all| - 1 ==> (k in places <==> k in at)
    ensures |all| - 1 in places <==> picked
  {
    var n := |all| - 1;
    places := at + if picked then [n] else [];
    forall i, j | 0 <= i < j < |places|
      ensures places[i] < places[j]
    {
      assert places[i] == at[i] < n;
    }
    assert forall k :: k in at ==> k < n;
  }
}
