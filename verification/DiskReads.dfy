/** Whole reads: what the read loop returns on any accepted image, and when that is the flat disk. */
module DiskReads {
  import opened Wrappers
  import opened Words
  import opened LittleEndian
  import opened DiskTable
  import opened DiskLayout
  import opened DiskPieces

  predicate IsLocated(image: Image, lba: u64) {
    Locate(image, lba).Some?
  }

  function ChunkOf(image: Image, lba: u64): Chunk
    requires IsLocated(image, lba)
  {
    Locate(image, lba).value.chunk
  }

  /** Byte offset of the sector in its chunk. */
  function OffsetOf(image: Image, lba: u64): (offset: nat)
    requires Accepted(image) && IsLocated(image, lba)
    ensures offset < ChunkOf(image, lba).sectorCount * SECTOR_SIZE < TWO_TO_THE_64
  {
    LocatedFits(image, lba, 0);
    var place := Locate(image, lba).value;
    (lba - ChunkStart(place.block, place.chunk)) * SECTOR_SIZE
  }

  /** Bytes from the sector to the end of its chunk. */
  function RestOf(image: Image, lba: u64): (rest: nat)
    requires Accepted(image) && IsLocated(image, lba)
    ensures rest >= SECTOR_SIZE && OffsetOf(image, lba) + rest == ChunkOf(image, lba).sectorCount * SECTOR_SIZE
  {
    LocatedFits(image, lba, 0);
    ChunkOf(image, lba).sectorCount * SECTOR_SIZE - OffsetOf(image, lba)
  }

  /** First sector behind the chunk of this sector. */
  function NextOf(image: Image, lba: u64): (next: u64)
    requires Accepted(image) && IsLocated(image, lba)
    ensures next * SECTOR_SIZE == lba * SECTOR_SIZE + RestOf(image, lba)
  {
    LocatedFits(image, lba, 0);
    var place := Locate(image, lba).value;
    ChunkStart(place.block, place.chunk) + place.chunk.sectorCount
  }

  function Min(a: nat, b: nat): nat {
    if a < b then a else b
  }

  function Joined(first: seq<byte>, rest: Outcome): Outcome {
    if rest.Done? then Done(first + rest.data) else rest
  }

  /** What OcAppleDiskImageRead returns for `size` bytes from sector `lba` on. */
  function ReadFrom(image: Image, lba: u64, size: nat): Outcome
    requires Accepted(image)
    decreases size
  {
    if size == 0 then Done([])
    else if !IsLocated(image, lba) then Failed
    else
      var length := Min(size, RestOf(image, lba));
      var piece := Piece(image, ChunkOf(image, lba), OffsetOf(image, lba), length);
      if piece.Done? then Joined(piece.data, ReadFrom(image, NextOf(image, lba), size - length)) else piece
  }

  lemma JoinedTwice(first: seq<byte>, second: seq<byte>, rest: Outcome)
    ensures Joined(first, Joined(second, rest)) == Joined(first + second, rest)
  {
  }

  // When reads are reads of the flat disk.

  ghost predicate Agrees(image: Image, lba: u64, size: nat)
    requires Accepted(image)
  {
    ReadFrom(image, lba, size) == AsOutcome(FlatRead(image, lba * SECTOR_SIZE, size))
  }

  /** Byte `k` from the sector on is the same in its chunk and on the flat disk. */
  ghost predicate SameByte(image: Image, lba: u64, k: nat)
    requires Accepted(image) && IsLocated(image, lba) && k < RestOf(image, lba)
  {
    ByteAt(image, lba * SECTOR_SIZE + k) == ChunkByte(image, ChunkOf(image, lba), OffsetOf(image, lba) + k)
  }

  /** A byte of the chunk that can be reached: it is the first from the sector on, or the one before it is readable. */
  predicate Reached(image: Image, lba: u64, k: nat)
    requires Accepted(image) && IsLocated(image, lba)
  {
    k < RestOf(image, lba)
    && (k > 0 ==> ChunkByte(image, ChunkOf(image, lba), OffsetOf(image, lba) + k - 1).Some?)
  }

  /** The chunk of the sector can be read from there on, and holds what the flat disk holds. */
  ghost predicate SectorFaithful(image: Image, lba: u64)
    requires Accepted(image) && IsLocated(image, lba)
  {
    && PieceSafe(image, ChunkOf(image, lba), OffsetOf(image, lba), 1)
    && forall k: nat :: Reached(image, lba, k) ==> SameByte(image, lba, k)
  }

  ghost predicate Faithful(image: Image)
    requires Accepted(image)
  {
    forall lba: u64 :: IsLocated(image, lba) ==> SectorFaithful(image, lba)
  }

  /** What is safe for one byte is safe for more. */
  lemma SaferPiece(image: Image, chunk: Chunk, offset: nat, length: nat)
    requires PieceSafe(image, chunk, offset, 1) && length > 0
    ensures PieceSafe(image, chunk, offset, length)
  {
  }

  /** Byte `k` of the disk from `from` on is byte `k` of the chunk from `offset` on. */
  ghost predicate SameAt(image: Image, chunk: Chunk, offset: nat, from: nat, k: nat)
    requires Accepted(image) && offset + k < chunk.sectorCount * SECTOR_SIZE
  {
    ByteAt(image, from + k) == ChunkByte(image, chunk, offset + k)
  }

  lemma ReadablePiece(image: Image, chunk: Chunk, offset: nat, from: nat, length: nat)
    requires Accepted(image) && offset + length <= chunk.sectorCount * SECTOR_SIZE
    requires forall k :: offset <= k < offset + length ==> ChunkByte(image, chunk, k).Some?
    requires forall k :: 0 <= k < length ==> SameAt(image, chunk, offset, from, k)
    ensures FlatPiece(image, chunk, offset, length) == FlatRead(image, from, length)
  {
    forall p | from <= p < from + length
      ensures ByteAt(image, p) == ChunkByte(image, chunk, offset + (p - from))
    {
      assert SameAt(image, chunk, offset, from, p - from);
    }
    assert FlatPiece(image, chunk, offset, length).value == FlatRead(image, from, length).value;
  }

  lemma UnreadablePiece(image: Image, chunk: Chunk, offset: nat, from: nat, length: nat, k: nat)
    requires Accepted(image) && offset + length <= chunk.sectorCount * SECTOR_SIZE && k < length
    requires ChunkByte(image, chunk, offset + k).None? && SameAt(image, chunk, offset, from, k)
    ensures FlatPiece(image, chunk, offset, length) == FlatRead(image, from, length) == None
  {
  }

  lemma FlatPieceIsFlatRead(image: Image, lba: u64, length: nat)
    requires Accepted(image) && IsLocated(image, lba) && length <= RestOf(image, lba)
    requires forall k: nat :: Reached(image, lba, k) ==> SameByte(image, lba, k)
    ensures FlatPiece(image, ChunkOf(image, lba), OffsetOf(image, lba), length)
            == FlatRead(image, lba * SECTOR_SIZE, length)
  {
    hide FlatRead, FlatPiece, ByteAt, ChunkByte, Accepted, ChunkOf, OffsetOf, RestOf, IsLocated;
    var chunk, offset, from := ChunkOf(image, lba), OffsetOf(image, lba), lba * SECTOR_SIZE;
    if forall k :: offset <= k < offset + length ==> ChunkByte(image, chunk, k).Some? {
      forall k | 0 <= k < length
        ensures SameAt(image, chunk, offset, from, k)
      {
        assert Reached(image, lba, k) && SameByte(image, lba, k);
      }
      ReadablePiece(image, chunk, offset, from, length);
    } else {
      var k := FirstUnreadable(image, chunk, offset, length);
      assert Reached(image, lba, k) && SameByte(image, lba, k);
      UnreadablePiece(image, chunk, offset, from, length, k);
    }
  }

  lemma {:induction false} FirstUnreadable(image: Image, chunk: Chunk, offset: nat, length: nat) returns (k: nat)
    requires offset + length <= chunk.sectorCount * SECTOR_SIZE
    requires !(forall k :: offset <= k < offset + length ==> ChunkByte(image, chunk, k).Some?)
    ensures k < length && ChunkByte(image, chunk, offset + k).None?
    ensures forall j :: offset <= j < offset + k ==> ChunkByte(image, chunk, j).Some?
  {
    k := length - 1;
    if forall k :: offset <= k < offset + length - 1 ==> ChunkByte(image, chunk, k).Some? {
    } else {
      k := FirstUnreadable(image, chunk, offset, length - 1);
    }
  }

  /** A faithful image is read like the flat disk, whatever the sector and the size. */
  lemma {:induction false} FaithfulReads(image: Image, lba: u64, size: nat)
    requires Accepted(image) && Faithful(image)
    ensures Agrees(image, lba, size)
    decreases size
  {
    hide FlatRead, Piece, SectorFaithful, IsLocated, ChunkOf, OffsetOf, RestOf, NextOf, Accepted;
    var from := lba * SECTOR_SIZE;
    if size == 0 {
      NothingRead(image, from);
    } else if !IsLocated(image, lba) {
      UnlocatedFails(image, lba, size);
    } else {
      FaithfulPiece(image, lba, Min(size, RestOf(image, lba)));
      FaithfulReads(image, NextOf(image, lba), size - Min(size, RestOf(image, lba)));
      FlatReadSplits(image, from, Min(size, RestOf(image, lba)), size - Min(size, RestOf(image, lba)));
    }
  }

  lemma NothingRead(image: Image, from: nat)
    requires Accepted(image)
    ensures FlatRead(image, from, 0) == Some([])
  {
    assert FlatRead(image, from, 0).value == [];
  }

  lemma UnlocatedFails(image: Image, lba: u64, size: nat)
    requires Accepted(image) && !IsLocated(image, lba) && 0 < size
    ensures FlatRead(image, lba * SECTOR_SIZE, size) == None
  {
    assert ByteAt(image, lba * SECTOR_SIZE).None?;
  }

  lemma FaithfulPiece(image: Image, lba: u64, length: nat)
    requires Accepted(image) && IsLocated(image, lba) && SectorFaithful(image, lba)
    requires 0 < length <= RestOf(image, lba)
    ensures Piece(image, ChunkOf(image, lba), OffsetOf(image, lba), length)
            == AsOutcome(FlatRead(image, lba * SECTOR_SIZE, length))
  {
    SaferPiece(image, ChunkOf(image, lba), OffsetOf(image, lba), length);
    PieceExactly(image, ChunkOf(image, lba), OffsetOf(image, lba), length);
    FlatPieceIsFlatRead(image, lba, length);
  }

  /** A read inside one chunk is one piece. */
  lemma ReadInChunk(image: Image, lba: u64, size: nat)
    requires Accepted(image) && IsLocated(image, lba) && 0 < size <= RestOf(image, lba)
    ensures ReadFrom(image, lba, size) == Piece(image, ChunkOf(image, lba), OffsetOf(image, lba), size)
  {
  }

  lemma AgreementIsSafe(image: Image, lba: u64)
    requires Accepted(image) && IsLocated(image, lba) && Agrees(image, lba, 1)
    ensures PieceSafe(image, ChunkOf(image, lba), OffsetOf(image, lba), 1)
  {
    var chunk, offset := ChunkOf(image, lba), OffsetOf(image, lba);
    ReadInChunk(image, lba, 1);
    PieceExactly(image, chunk, offset, 1);
    assert ByteAt(image, lba * SECTOR_SIZE) == ChunkByte(image, chunk, offset);
    if FlatPiece(image, chunk, offset, 1).Some? {
      assert FlatRead(image, lba * SECTOR_SIZE, 1).value == FlatPiece(image, chunk, offset, 1).value;
    } else {
      assert ChunkByte(image, chunk, offset).None?;
      assert ByteAt(image, lba * SECTOR_SIZE).None?;
    }
  }

  lemma PrefixReadable(image: Image, lba: u64, k: nat)
    requires Accepted(image) && IsLocated(image, lba) && Reached(image, lba, k)
    ensures FlatPiece(image, ChunkOf(image, lba), OffsetOf(image, lba), k).Some?
  {
  }

  /** Inside a safe chunk, agreement means that the piece is the flat read. */
  lemma AgreementIsFlat(image: Image, lba: u64, size: nat)
    requires Accepted(image) && IsLocated(image, lba) && 0 < size <= RestOf(image, lba) && Agrees(image, lba, size)
    requires PieceSafe(image, ChunkOf(image, lba), OffsetOf(image, lba), 1)
    ensures FlatPiece(image, ChunkOf(image, lba), OffsetOf(image, lba), size)
            == FlatRead(image, lba * SECTOR_SIZE, size)
  {
    hide FlatRead, FlatPiece, Piece, ReadFrom, PieceSafe, ChunkOf, OffsetOf, RestOf, IsLocated;
    ReadInChunk(image, lba, size);
    SaferPiece(image, ChunkOf(image, lba), OffsetOf(image, lba), size);
    PieceExactly(image, ChunkOf(image, lba), OffsetOf(image, lba), size);
  }

  /** Agreement on sizes k and k + 1 is agreement on byte k. */
  lemma AgreementIsSameByte(image: Image, lba: u64, k: nat)
    requires Accepted(image) && IsLocated(image, lba) && Reached(image, lba, k)
    requires PieceSafe(image, ChunkOf(image, lba), OffsetOf(image, lba), 1)
    requires Agrees(image, lba, k) && Agrees(image, lba, k + 1)
    ensures SameByte(image, lba, k)
  {
    hide FlatRead, FlatPiece, ByteAt, ChunkByte, PieceSafe, Agrees, Accepted, ChunkOf, OffsetOf, RestOf, IsLocated;
    PrefixReadable(image, lba, k);
    AgreementIsFlat(image, lba, k + 1);
    if k > 0 {
      AgreementIsFlat(image, lba, k);
    }
    LastByte(image, ChunkOf(image, lba), OffsetOf(image, lba), lba * SECTOR_SIZE, k);
  }

  lemma LastByte(image: Image, chunk: Chunk, offset: nat, from: nat, k: nat)
    requires Accepted(image) && offset + k < chunk.sectorCount * SECTOR_SIZE
    requires FlatPiece(image, chunk, offset, k).Some? && (k > 0 ==> FlatRead(image, from, k).Some?)
    requires FlatPiece(image, chunk, offset, k + 1) == FlatRead(image, from, k + 1)
    ensures ByteAt(image, from + k) == ChunkByte(image, chunk, offset + k)
  {
    hide FlatRead, FlatPiece, ByteAt, ChunkByte, Accepted;
    LastOfPiece(image, chunk, offset, k);
    LastOfFlat(image, from, k);
  }

  lemma LastOfPiece(image: Image, chunk: Chunk, offset: nat, k: nat)
    requires offset + k < chunk.sectorCount * SECTOR_SIZE && FlatPiece(image, chunk, offset, k).Some?
    ensures
      var longer := FlatPiece(image, chunk, offset, k + 1);
      ChunkByte(image, chunk, offset + k) == if longer.Some? then Some(longer.value[k]) else None
  {
  }

  lemma LastOfFlat(image: Image, from: nat, k: nat)
    requires Accepted(image) && (k > 0 ==> FlatRead(image, from, k).Some?)
    ensures
      var longer := FlatRead(image, from, k + 1);
      ByteAt(image, from + k) == if longer.Some? then Some(longer.value[k]) else None
  {
  }

  /**
    Reads of an accepted image are reads of the flat disk, for every sector and every size, if and only if every sector
    found in a chunk is faithful: its offset does not wrap around, its buffer fits, and the rest of the chunk, as far as
    it can be read, belongs to the sectors that follow.
  */
  lemma ReadsAgreeExactly(image: Image)
    requires Accepted(image)
    ensures (forall lba: u64, size: nat :: Agrees(image, lba, size)) <==> Faithful(image)
  {
    if Faithful(image) {
      forall lba: u64, size: nat
        ensures Agrees(image, lba, size)
      {
        FaithfulReads(image, lba, size);
      }
    }
    if forall lba: u64, size: nat :: Agrees(image, lba, size) {
      forall lba: u64 | IsLocated(image, lba)
        ensures SectorFaithful(image, lba)
      {
        assert Agrees(image, lba, 1);
        AgreementIsSafe(image, lba);
        forall k: nat | Reached(image, lba, k)
          ensures SameByte(image, lba, k)
        {
          assert Agrees(image, lba, k) && Agrees(image, lba, k + 1);
          AgreementIsSameByte(image, lba, k);
        }
      }
    }
  }

  // Well laid out images.

  /** No raw chunk reaches past 2^64 and every compressed chunk fits its buffer. */
  predicate ChunksFit(image: Image) {
    forall block <- image.blocks :: forall chunk <- block.chunks ::
      && (chunk.kind == CHUNK_RAW ==> chunk.compressedOffset + chunk.sectorCount * SECTOR_SIZE <= TWO_TO_THE_64)
      && (chunk.kind == CHUNK_ZLIB ==> BufferFits(chunk))
  }

  lemma SectorOf(lba: nat, k: nat) returns (next: nat)
    ensures next == (lba * SECTOR_SIZE + k) / SECTOR_SIZE == lba + k / SECTOR_SIZE
    ensures (next - lba) * SECTOR_SIZE <= k
  {
    next := lba + k / SECTOR_SIZE;
  }

  lemma StableByte(image: Image, lba: u64, k: nat)
    requires Accepted(image) && Stable(image) && IsLocated(image, lba) && k < RestOf(image, lba)
    ensures SameByte(image, lba, k)
  {
    hide ChunkByte, Accepted;
    var place := Locate(image, lba).value;
    LocatedFits(image, lba, 0);
    var next := SectorOf(lba, k);
    assert InChunk(place.block, place.chunk, next);
    assert Locate(image, next) == Locate(image, lba);
  }

  /** Disjoint chunks inside their blocks that fit are enough. */
  lemma LaidOutIsFaithful(image: Image)
    requires Accepted(image) && WellLaidOut(image) && ChunksFit(image)
    ensures Faithful(image)
  {
    WellLaidOutIsStable(image);
    forall lba: u64 | IsLocated(image, lba)
      ensures SectorFaithful(image, lba)
    {
      LocatedFits(image, lba, 0);
      forall k: nat | Reached(image, lba, k)
        ensures SameByte(image, lba, k)
      {
        StableByte(image, lba, k);
      }
    }
  }

  /**
    What sector `s` of chunk j of block i reads as: zeros for the types 0 and 2, the bytes of the RAM disk for type 1,
    and those of the unpacked chunk for type 0x80000005.
  */
  lemma SectorReads(image: Image, i: int, j: int, s: nat)
    requires Accepted(image) && WellLaidOut(image) && HasChunk(image, i, j)
    requires s < image.blocks[i].chunks[j].sectorCount && First(image, i, j) + s < TWO_TO_THE_64
    ensures
      var chunk := image.blocks[i].chunks[j];
      var at := chunk.compressedOffset + s * 512;
      var outcome := ReadFrom(image, First(image, i, j) + s, 512);
      && (chunk.kind == 0 || chunk.kind == 2 ==> outcome == Done(seq(512, _ => 0)))
      && (chunk.kind == 1 && at + 512 <= |image.ram| ==> outcome == Done(image.ram[at..at + 512]))
      && (chunk.kind == 0x8000_0005 && BufferFits(chunk) && Inflated(image, chunk).Some? ==>
            outcome == Done(Inflated(image, chunk).value[s * 512..s * 512 + 512]))
      && (chunk.kind !in {0, 1, 2, 0x8000_0005} ==> outcome == Failed)
  {
    var lba := First(image, i, j) + s;
    LocateFindsTheChunk(image, lba, 0, i, j);
    SectorOffset(image, i, j, s);
    ReadInChunk(image, lba, 512);
    hide Accepted, WellLaidOut, ReadFrom, OffsetOf, RestOf, IsLocated;
  }

  lemma SectorOffset(image: Image, i: int, j: int, s: nat)
    requires Accepted(image) && HasChunk(image, i, j)
    requires s < image.blocks[i].chunks[j].sectorCount && First(image, i, j) + s < TWO_TO_THE_64
    requires Locate(image, First(image, i, j) + s) == Some(Place(image.blocks[i], image.blocks[i].chunks[j]))
    ensures OffsetOf(image, First(image, i, j) + s) == s * 512
  {
    LocatedFits(image, First(image, i, j) + s, 0);
  }
}

/** Images that open although they cannot be read like a flat disk. */
module DiskLimits {
  import opened Wrappers
  import opened Words
  import opened LittleEndian
  import opened DiskTable
  import opened DiskPieces
  import opened DiskReads
  import opened DiskInit

  // Writing an image: the tables whose swapped form is wanted.

  lemma ReversedTwice(bytes: seq<byte>)
    ensures |Reversed(bytes)| == |bytes| && Reversed(Reversed(bytes)) == bytes
  {
  }

  lemma SwappedTwice(x: nat, n: nat)
    requires x < Power(n)
    ensures Swapped(Swapped(x, n), n) == x
  {
    hide Encode, Decode, Power, Reversed;
    var bytes := Encode(x, n);
    EncodeDecode(Reversed(bytes));
    ReversedTwice(bytes);
    DecodeEncode(x, n);
  }

  lemma SwapTwice(x: u32, y: u64)
    ensures Swap32(Swap32(x)) == x && Swap64(Swap64(y)) == y
  {
    Powers();
    SwappedTwice(x, 4);
    SwappedTwice(y, 8);
  }

  lemma SwapChunkTwice(chunk: Chunk)
    ensures SwapChunk(SwapChunk(chunk)) == chunk
  {
    SwapTwice(chunk.kind, chunk.sectorNumber);
    SwapTwice(chunk.kind, chunk.sectorCount);
    SwapTwice(chunk.kind, chunk.compressedOffset);
    SwapTwice(chunk.kind, chunk.compressedLength);
  }

  predicate Writable(block: Block) {
    |block.chunks| < 0x1_0000_0000
  }

  function RawOf(block: Block): RawBlock
    requires Writable(block)
  {
    RawBlock(Swap32(|block.chunks|), Swap64(block.sectorNumber), Swap64(block.sectorCount), Swap64(block.dataOffset),
             Swap32(block.checksumSize),
             seq(|block.chunks|, i requires 0 <= i < |block.chunks| => SwapChunk(block.chunks[i])))
  }

  function RecordOf(block: Block): Record
    requires Writable(block)
  {
    var size := BLOCK_DATA_SIZE + CHUNK_SIZE * |block.chunks|;
    Record((size + 2) / 3 * 4, size, Some(RawOf(block)))
  }

  lemma RecordSized(block: Block)
    requires Writable(block)
    ensures RecordOf(block).Sized() && (|block.chunks| <= 30 ==> RecordOf(block).text <= 2048)
  {
  }

  lemma RawOfHost(block: Block)
    requires Writable(block)
    ensures Swap32(RawOf(block).chunkCount) == |RawOf(block).chunks| && Host(RawOf(block)) == block
  {
    hide Swap32, Swap64, SwapChunk;
    SwapTwice(|block.chunks|, block.sectorNumber);
    SwapTwice(block.checksumSize, block.sectorCount);
    SwapTwice(block.checksumSize, block.dataOffset);
    forall i | 0 <= i < |block.chunks|
      ensures Host(RawOf(block)).chunks[i] == block.chunks[i]
    {
      SwapChunkTwice(block.chunks[i]);
    }
    assert Host(RawOf(block)).chunks == block.chunks;
  }

  function RecordsOf(blocks: seq<Block>): (records: seq<Record>)
    requires forall i :: 0 <= i < |blocks| ==> Writable(blocks[i])
    ensures |records| == |blocks|
  {
    seq(|blocks|, i requires 0 <= i < |blocks| => RecordOf(blocks[i]))
  }

  /** The block passes every check. */
  predicate Passes(block: Block, trailer: Trailer) {
    && Writable(block) && trailer.dataForkOffset + trailer.dataForkLength < TWO_TO_THE_64
    && HeaderAccepted(block, trailer.sectorCount, trailer.dataForkOffset,
                      trailer.dataForkOffset + trailer.dataForkLength)
    && BlockAccepted(block, trailer.sectorCount, trailer.dataForkOffset + trailer.dataForkLength)
  }

  lemma RecordIsGood(block: Block, sectorCount: u64, dataForkOffset: u64, maxOffset: u64)
    requires Writable(block) && HeaderAccepted(block, sectorCount, dataForkOffset, maxOffset)
    requires BlockAccepted(block, sectorCount, maxOffset)
    ensures FateOf(RecordOf(block), sectorCount, dataForkOffset, maxOffset) == Good
    ensures RecordOf(block).raw.Some?
    ensures Swap32(RecordOf(block).raw.value.chunkCount) <= |RecordOf(block).raw.value.chunks|
    ensures HostOf(RecordOf(block)) == block && RecordOf(block).Sized()
  {
    RecordSized(block);
    hide Swap32, Swap64, SwapChunk, Host, RawOf, HeaderAccepted, BlockAccepted;
    RawOfHost(block);
  }

  /** The table that is parsed from written blocks is these blocks, all of them and in their order. */
  lemma ParsesAsWritten(blocks: seq<Block>, sectorCount: u64, dataForkOffset: u64, maxOffset: u64)
    requires forall i :: 0 <= i < |blocks| ==>
               && Writable(blocks[i]) && HeaderAccepted(blocks[i], sectorCount, dataForkOffset, maxOffset)
               && BlockAccepted(blocks[i], sectorCount, maxOffset)
    ensures Parse(RecordsOf(blocks), sectorCount, dataForkOffset, maxOffset) == Table(blocks)
    ensures forall i :: 0 <= i < |blocks| ==> RecordsOf(blocks)[i].Sized()
  {
    hide Swap32, RecordOf, HeaderAccepted, BlockAccepted, FateOf, HostOf, Host, Writable;
    var records := RecordsOf(blocks);
    var fates := Fates(records, sectorCount, dataForkOffset, maxOffset);
    forall i | 0 <= i < |blocks|
      ensures fates[i] == Good && records[i].Sized()
      ensures records[i].raw.Some? && Swap32(records[i].raw.value.chunkCount) <= |records[i].raw.value.chunks|
      ensures HostOf(records[i]) == blocks[i]
    {
      RecordIsGood(blocks[i], sectorCount, dataForkOffset, maxOffset);
    }
    assert FirstEnd(fates, 0) == |records|;
    assert Parse(records, sectorCount, dataForkOffset, maxOffset).blocks == blocks;
  }

  /**
    Writing blocks and opening them again gives the same blocks in the same order, for every list of blocks that pass
    the checks and every trailer whose property list has room for them.
  */
  lemma OpensAsWritten(
    ram: seq<byte>, inflate: map<(seq<byte>, nat), seq<byte>>, fileSize: u64, trailer: Trailer, blocks: seq<Block>)
    requires TrailerAccepted(trailer, fileSize) && blocks != []
    requires forall i :: 0 <= i < |blocks| ==> Passes(blocks[i], trailer) && Writable(blocks[i])
    requires TextLength(RecordsOf(blocks)) <= trailer.xmlLength
    ensures Listed(Some(RecordsOf(blocks)), trailer.xmlLength)
    ensures Open(ram, inflate, fileSize, trailer, Some(RecordsOf(blocks)))
            == Opened(Image(ram, inflate, trailer.sectorCount, blocks))
  {
    OpenTrailer(trailer, fileSize);
    var top := trailer.dataForkOffset + trailer.dataForkLength;
    AllPass(blocks, trailer, top);
    hide *;
    ParsesAsWritten(blocks, trailer.sectorCount, trailer.dataForkOffset, top);
    TableOpens(ram, inflate, fileSize, trailer, RecordsOf(blocks), blocks, top);
  }

  lemma AllPass(blocks: seq<Block>, trailer: Trailer, top: u64)
    requires top == trailer.dataForkOffset + trailer.dataForkLength
    requires forall i :: 0 <= i < |blocks| ==> Passes(blocks[i], trailer)
    ensures forall i :: 0 <= i < |blocks| ==>
              && Writable(blocks[i]) && HeaderAccepted(blocks[i], trailer.sectorCount, trailer.dataForkOffset, top)
              && BlockAccepted(blocks[i], trailer.sectorCount, top)
  {
    hide Writable, HeaderAccepted, BlockAccepted;
    assert forall i :: 0 <= i < |blocks| ==> Passes(blocks[i], trailer);
  }

  lemma TableOpens(
    ram: seq<byte>, inflate: map<(seq<byte>, nat), seq<byte>>, fileSize: u64, trailer: Trailer,
    records: seq<Record>, blocks: seq<Block>, top: u64)
    requires TrailerAccepted(trailer, fileSize) && records != []
    requires top == trailer.dataForkOffset + trailer.dataForkLength
    requires Parse(records, trailer.sectorCount, trailer.dataForkOffset, top) == Table(blocks)
    requires TextLength(records) <= trailer.xmlLength && forall i :: 0 <= i < |records| ==> records[i].Sized()
    ensures Listed(Some(records), trailer.xmlLength)
    ensures Open(ram, inflate, fileSize, trailer, Some(records))
            == Opened(Image(ram, inflate, trailer.sectorCount, blocks))
  {
    hide Parse, TrailerAccepted, Record.Sized, TextLength;
  }

  lemma TrailerForAccepted(sectorCount: u64)
    requires 0 < sectorCount && sectorCount * SECTOR_SIZE < TWO_TO_THE_64
    ensures TrailerAccepted(TrailerFor(sectorCount), 4096)
  {
  }

  /** The image with this one block opens from a file of 4096 bytes, of which 2048 are the property list. */
  ghost predicate Opens(image: Image, block: Block) {
    && |image.ram| == 4096 && Writable(block) && Listed(Some([RecordOf(block)]), 2048)
    && Open(image.ram, image.inflate, 4096, TrailerFor(block.sectorCount), Some([RecordOf(block)])) == Opened(image)
  }

  // Overlapping chunks.

  const WIDE: Chunk := Chunk(CHUNK_RAW, 0, 2, 0, 1024)
  const INNER: Chunk := Chunk(CHUNK_ZERO, 1, 1, 0, 0)
  const OVERLAP: Block := Block(0, 2, 0, 0, [INNER, WIDE])

  function OverlapImage(ram: seq<byte>): Image {
    Image(ram, map[], 2, [OVERLAP])
  }

  lemma OneBlockOpens(image: Image, block: Block)
    requires |image.ram| == 4096 && image.blocks == [block] && image.sectorCount == block.sectorCount
    requires 0 < block.sectorCount && block.sectorCount * SECTOR_SIZE < TWO_TO_THE_64
    requires |block.chunks| <= 30 && HeaderAccepted(block, block.sectorCount, 0, 1024)
    requires BlockAccepted(block, block.sectorCount, 1024)
    ensures Opens(image, block) && Accepted(image)
  {
    var trailer := TrailerFor(block.sectorCount);
    TrailerForAccepted(block.sectorCount);
    RecordSized(block);
    OneText(RecordOf(block));
    hide RecordOf, Open, HeaderAccepted;
    assert RecordsOf([block]) == [RecordOf(block)];
    assert Passes([block][0], trailer);
    OpensAsWritten(image.ram, image.inflate, 4096, trailer, [block]);
  }

  /** Overlapping chunks pass every check. */
  lemma OverlapOpens(ram: seq<byte>)
    requires |ram| == 4096
    ensures Opens(OverlapImage(ram), OVERLAP)
  {
    hide Opens;
    OneBlockOpens(OverlapImage(ram), OVERLAP);
  }

  /** On that image a read of both sectors and a read of the second one disagree about the second sector. */
  lemma OverlapsDisagree(ram: seq<byte>)
    requires |ram| == 4096 && ram[512] != 0
    ensures
      var image := OverlapImage(ram);
      && Accepted(image)
      && ReadFrom(image, 0, 1024) == Done(ram[0..1024])
      && ReadFrom(image, 1, 512) == Done(seq(512, _ => 0))
      && ram[0..1024][512..] != seq(512, _ => 0)
  {
    var image := OverlapImage(ram);
    assert forall block <- image.blocks :: block == OVERLAP;
    hide Accepted;
    OverlapsLocated(image);
    hide IsLocated, ChunkOf, OffsetOf, RestOf;
    ReadInChunk(image, 0, 1024);
    ReadInChunk(image, 1, 512);
    assert ram[0..1024][512..][0] == ram[512];
  }

  lemma OverlapsLocated(image: Image)
    requires Accepted(image) && image.blocks == [OVERLAP]
    ensures IsLocated(image, 0) && ChunkOf(image, 0) == WIDE && OffsetOf(image, 0) == 0 && RestOf(image, 0) == 1024
    ensures IsLocated(image, 1) && ChunkOf(image, 1) == INNER && OffsetOf(image, 1) == 0 && RestOf(image, 1) == 512
  {
    assert !InChunk(OVERLAP, INNER, 0) && InChunk(OVERLAP, WIDE, 0) && InChunk(OVERLAP, INNER, 1);
    assert FindChunk(OVERLAP, 0, 0) == 1 && FindChunk(OVERLAP, 1, 0) == 0;
    assert Locate(image, 0) == Some(Place(OVERLAP, WIDE)) && Locate(image, 1) == Some(Place(OVERLAP, INNER));
  }

  // Chunks of nearly 2^64 bytes.

  const MANY: u64 := 0x80_0000_0000_0000 - 1

  function Single(chunk: Chunk): Block {
    Block(0, MANY, 0, 0, [chunk])
  }

  lemma SingleLocated(image: Image, chunk: Chunk, lba: u64)
    requires Accepted(image) && image.blocks == [Single(chunk)]
    requires chunk.sectorNumber == 0 && chunk.sectorCount == MANY && lba < MANY
    ensures IsLocated(image, lba) && ChunkOf(image, lba) == chunk && OffsetOf(image, lba) == lba * SECTOR_SIZE
  {
  }

  function SingleImage(ram: seq<byte>, inflate: map<(seq<byte>, nat), seq<byte>>, chunk: Chunk): Image {
    Image(ram, inflate, MANY, [Single(chunk)])
  }

  lemma SingleOpens(ram: seq<byte>, inflate: map<(seq<byte>, nat), seq<byte>>, chunk: Chunk)
    requires |ram| == 4096 && chunk.sectorNumber == 0 && chunk.sectorCount == MANY
    requires chunk.compressedOffset + chunk.compressedLength <= 1024
    ensures Opens(SingleImage(ram, inflate, chunk), Single(chunk)) && Accepted(SingleImage(ram, inflate, chunk))
  {
    hide Opens;
    OneBlockOpens(SingleImage(ram, inflate, chunk), Single(chunk));
  }

  /** A raw chunk of nearly 2^64 bytes opens; near its end the RAM disk offset wraps around to the first byte. */
  lemma WrappedOffsetReadsTheStart(ram: seq<byte>)
    requires |ram| == 4096
    ensures
      var chunk := Chunk(CHUNK_RAW, 0, MANY, 1024, 0);
      var image := SingleImage(ram, map[], chunk);
      && Opens(image, Single(chunk)) && Accepted(image)
      && ReadFrom(image, MANY - 1, 512) == Done(ram[0..512])
      && ByteAt(image, (MANY - 1) * SECTOR_SIZE) == None
  {
    hide Opens;
    var chunk := Chunk(CHUNK_RAW, 0, MANY, 1024, 0);
    var image := SingleImage(ram, map[], chunk);
    SingleOpens(ram, map[], chunk);
    SingleLocated(image, chunk, MANY - 1);
    hide Accepted, Locate, Single;
    ReadInChunk(image, MANY - 1, 512);
  }

  /** A compressed chunk of nearly 2^64 bytes opens; the size of its buffer wraps around and reading overruns it. */
  lemma WrappedBufferOverruns(ram: seq<byte>, inflate: map<(seq<byte>, nat), seq<byte>>)
    requires |ram| == 4096
    ensures
      var chunk := Chunk(CHUNK_ZLIB, 0, MANY, 0, 1024);
      var image := SingleImage(ram, inflate, chunk);
      && Opens(image, Single(chunk)) && Accepted(image)
      && ReadFrom(image, 0, 1) == Overrun
  {
    hide Opens;
    var chunk := Chunk(CHUNK_ZLIB, 0, MANY, 0, 1024);
    var image := SingleImage(ram, inflate, chunk);
    SingleOpens(ram, inflate, chunk);
    SingleLocated(image, chunk, 0);
    hide Accepted, Locate, Single;
    ReadInChunk(image, 0, 1);
  }
}
