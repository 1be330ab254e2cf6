/** When the chunk a read starts in also holds the following sectors. */
module DiskLayout {
  import opened Wrappers
  import opened Words
  import opened LittleEndian
  import opened DiskTable

  /** A sector found in a chunk is followed, up to the end of the chunk, by sectors found in the same chunk. */
  ghost predicate Stable(image: Image) {
    forall lba: u64, next: u64 ::
      Locate(image, lba).Some? && lba <= next
      && InChunk(Locate(image, lba).value.block, Locate(image, lba).value.chunk, next)
      ==> Locate(image, next) == Locate(image, lba)
  }

  predicate HasChunk(image: Image, i: int, j: int) {
    0 <= i < |image.blocks| && 0 <= j < |image.blocks[i].chunks|
  }

  function First(image: Image, i: int, j: int): int
    requires HasChunk(image, i, j)
  {
    image.blocks[i].sectorNumber + image.blocks[i].chunks[j].sectorNumber
  }

  function End(image: Image, i: int, j: int): int
    requires HasChunk(image, i, j)
  {
    First(image, i, j) + image.blocks[i].chunks[j].sectorCount
  }

  /** Every chunk lies inside its block, and no sector belongs to two chunks. */
  ghost predicate WellLaidOut(image: Image) {
    && (forall i, j :: HasChunk(image, i, j) ==>
          End(image, i, j) <= image.blocks[i].sectorNumber + image.blocks[i].sectorCount)
    && (forall i, j, k, l :: HasChunk(image, i, j) && HasChunk(image, k, l) && (i != k || j != l) ==>
          End(image, i, j) <= First(image, k, l) || End(image, k, l) <= First(image, i, j))
  }

  lemma ExactBounds(image: Image, i: int, j: int, lba: u64)
    requires Accepted(image) && HasChunk(image, i, j)
    ensures InChunk(image.blocks[i], image.blocks[i].chunks[j], lba) <==> First(image, i, j) <= lba < End(image, i, j)
    ensures InBlock(image.blocks[i], lba) <==>
            image.blocks[i].sectorNumber <= lba < image.blocks[i].sectorNumber + image.blocks[i].sectorCount
  {
    var block, chunk := image.blocks[i], image.blocks[i].chunks[j];
    assert block in image.blocks && chunk in block.chunks;
    assert BlockAccepted(block, image.sectorCount, |image.ram|);
    WrapSmall(block.sectorNumber + block.sectorCount);
    WrapSmall(block.sectorNumber + chunk.sectorNumber);
    WrapSmall(block.sectorNumber + chunk.sectorNumber + chunk.sectorCount);
  }

  /** Chunk j of block i holds the sector, in unbounded arithmetic. */
  predicate Holds(image: Image, i: int, j: int, lba: u64) {
    && HasChunk(image, i, j)
    && image.blocks[i].sectorNumber <= lba < image.blocks[i].sectorNumber + image.blocks[i].sectorCount
    && First(image, i, j) <= lba < End(image, i, j)
  }

  /** Place (i, j) comes before or is place (k, l). */
  predicate NotAfter(i: int, j: int, k: int, l: int) {
    i < k || (i == k && j <= l)
  }

  lemma HoldsExactly(image: Image, i: int, j: int, lba: u64)
    requires Accepted(image) && HasChunk(image, i, j)
    ensures Holds(image, i, j, lba) <==>
            InBlock(image.blocks[i], lba) && InChunk(image.blocks[i], image.blocks[i].chunks[j], lba)
  {
    ExactBounds(image, i, j, lba);
  }

  /** The lookup finds the first chunk of the first block that holds the sector, and nothing only if there is none. */
  lemma {:induction false} LocateExactly(image: Image, lba: u64, from: nat) returns (i: int, j: int)
    requires Accepted(image) && from <= |image.blocks|
    ensures
      var place := LocateFrom(image.blocks, lba, from);
      if place.None? then forall k, l :: from <= k ==> !Holds(image, k, l, lba)
      else
        && from <= i && Holds(image, i, j, lba)
        && place.value == Place(image.blocks[i], image.blocks[i].chunks[j])
        && forall k, l :: from <= k && Holds(image, k, l, lba) ==> NotAfter(i, j, k, l)
    decreases |image.blocks| - from
  {
    i, j := 0, 0;
    if from < |image.blocks| {
      var index := FindChunk(image.blocks[from], lba, 0);
      forall l | HasChunk(image, from, l)
        ensures Holds(image, from, l, lba) <==>
                InBlock(image.blocks[from], lba) && InChunk(image.blocks[from], image.blocks[from].chunks[l], lba)
      {
        HoldsExactly(image, from, l, lba);
      }
      if InBlock(image.blocks[from], lba) && index < |image.blocks[from].chunks| {
        i, j := from, index;
        assert HasChunk(image, from, index);
      } else {
        assert forall l :: !Holds(image, from, l, lba);
        i, j := LocateExactly(image, lba, from + 1);
      }
    }
  }

  /** In a well laid out image the lookup finds the only chunk that holds the sector. */
  lemma {:induction false} LocateFindsTheChunk(image: Image, lba: u64, from: nat, i: int, j: int)
    requires Accepted(image) && WellLaidOut(image) && HasChunk(image, i, j) && from <= i
    requires First(image, i, j) <= lba < End(image, i, j)
    ensures LocateFrom(image.blocks, lba, from) == Some(Place(image.blocks[i], image.blocks[i].chunks[j]))
    decreases i - from
  {
    var index := FindChunk(image.blocks[from], lba, 0);
    ExactBounds(image, i, j, lba);
    if HasChunk(image, from, index) {
      ExactBounds(image, from, index, lba);
      assert from == i && index == j;
    } else {
      assert from != i;
      LocateFindsTheChunk(image, lba, from + 1, i, j);
    }
  }

  lemma {:induction false} LocatedInTable(image: Image, lba: u64, from: nat) returns (i: int, j: int)
    requires from <= |image.blocks| && LocateFrom(image.blocks, lba, from).Some?
    ensures HasChunk(image, i, j)
    ensures LocateFrom(image.blocks, lba, from).value == Place(image.blocks[i], image.blocks[i].chunks[j])
    decreases |image.blocks| - from
  {
    var index := FindChunk(image.blocks[from], lba, 0);
    if InBlock(image.blocks[from], lba) && index < |image.blocks[from].chunks| {
      i, j := from, index;
    } else {
      i, j := LocatedInTable(image, lba, from + 1);
    }
  }

  /** Chunks that are disjoint and inside their blocks make lookups stable. */
  lemma WellLaidOutIsStable(image: Image)
    requires Accepted(image) && WellLaidOut(image)
    ensures Stable(image)
  {
    forall lba: u64, next: u64 |
      Locate(image, lba).Some? && lba <= next
      && InChunk(Locate(image, lba).value.block, Locate(image, lba).value.chunk, next)
      ensures Locate(image, next) == Locate(image, lba)
    {
      var i, j := LocatedInTable(image, lba, 0);
      ExactBounds(image, i, j, next);
      LocateFindsTheChunk(image, next, 0, i, j);
    }
  }
}

/** One piece of a read: from a sector to the end of its chunk or of the buffer. */
module DiskPieces {
  import opened Wrappers
  import opened Words
  import opened LittleEndian
  import opened DiskTable

  /** Overrun: the code would write outside the memory it has allocated, and nothing is known from there on. */
  datatype Outcome = Failed | Overrun | Done(data: seq<byte>)

  function AsOutcome(data: Option<seq<byte>>): Outcome {
    if data.Some? then Done(data.value) else Failed
  }

  /** A compressed chunk is unpacked in a buffer for both its contents, `total` bytes, and its compressed bytes. */
  predicate BufferFits(chunk: Chunk) {
    chunk.sectorCount * SECTOR_SIZE + chunk.compressedLength < TWO_TO_THE_64
  }

  /** What the reader copies for `length` bytes from byte `offset` of the chunk, with 64-bit offsets and sizes. */
  function Piece(image: Image, chunk: Chunk, offset: nat, length: nat): (outcome: Outcome)
    requires offset + length <= chunk.sectorCount * SECTOR_SIZE
    ensures outcome.Done? ==> |outcome.data| == length
  {
    if chunk.kind == CHUNK_ZERO || chunk.kind == CHUNK_IGNORE then Done(seq(length, _ => 0))
    else if chunk.kind == CHUNK_RAW then AsOutcome(RamRead(image.ram, Wrap(chunk.compressedOffset + offset), length))
    else if chunk.kind == CHUNK_ZLIB then
      if RamRead(image.ram, chunk.compressedOffset, chunk.compressedLength).None? then Failed
      else if !BufferFits(chunk) then Overrun
      else if Inflated(image, chunk).Some? then Done(Inflated(image, chunk).value[offset..offset + length])
      else Failed
    else Failed
  }

  /** Byte for byte what the chunk holds. */
  function FlatPiece(image: Image, chunk: Chunk, offset: nat, length: nat): Option<seq<byte>>
    requires offset + length <= chunk.sectorCount * SECTOR_SIZE
  {
    if forall k :: offset <= k < offset + length ==> ChunkByte(image, chunk, k).Some? then
      Some(seq(length, k requires 0 <= k < length => ChunkByte(image, chunk, offset + k).value))
    else
      None
  }

  /** A raw offset that wraps around 2^64 leads nowhere, and a compressed chunk fits its buffer. */
  predicate PieceSafe(image: Image, chunk: Chunk, offset: nat, length: nat) {
    && (chunk.kind == CHUNK_RAW && chunk.compressedOffset + offset >= TWO_TO_THE_64 ==>
          Wrap(chunk.compressedOffset + offset) + length > |image.ram|)
    && (chunk.kind == CHUNK_ZLIB && RamRead(image.ram, chunk.compressedOffset, chunk.compressedLength).Some? ==>
          BufferFits(chunk))
  }

  /** A piece is exactly what the chunk holds if and only if its offset and its buffer are safe. */
  lemma PieceExactly(image: Image, chunk: Chunk, offset: nat, length: nat)
    requires |image.ram| < TWO_TO_THE_64 && chunk.sectorCount * SECTOR_SIZE < TWO_TO_THE_64
    requires 0 < length && offset + length <= chunk.sectorCount * SECTOR_SIZE
    ensures Piece(image, chunk, offset, length) == AsOutcome(FlatPiece(image, chunk, offset, length)) <==>
            PieceSafe(image, chunk, offset, length)
  {
    var piece, flat := Piece(image, chunk, offset, length), FlatPiece(image, chunk, offset, length);
    assert ChunkByte(image, chunk, offset).None? ==> flat == None;
    if chunk.kind == CHUNK_RAW {
      assert ChunkByte(image, chunk, offset + length - 1).None? ==> flat == None;
    }
    if piece.Done? && flat.Some? {
      assert forall k :: 0 <= k < length ==> flat.value[k] == ChunkByte(image, chunk, offset + k).value;
      assert chunk.kind != CHUNK_RAW || chunk.compressedOffset + offset < TWO_TO_THE_64 ==> piece.data == flat.value;
    }
  }
}
