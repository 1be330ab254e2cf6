/** The read loop in place on the caller's buffer. */
module DiskReader {
  import opened Wrappers
  import opened Words
  import opened LittleEndian
  import opened DiskTable
  import opened DiskPieces
  import opened DiskReads

  /** CopyMem into the caller's buffer. */
  method CopyMem(buffer: array<byte>, at: nat, data: seq<byte>)
    requires at + |data| <= buffer.Length
    modifies buffer
    ensures buffer[..at] == old(buffer[..at])
    ensures buffer[at..at + |data|] == data
  {
    for i := 0 to |data|
      invariant forall k :: 0 <= k < at ==> buffer[k] == old(buffer[k])
      invariant forall k :: 0 <= k < i ==> buffer[at + k] == data[k]
    {
      buffer[at + i] := data[i];
    }
  }

  /** The chunk loop of InternalGetBlockChunk. */
  method GetChunk(block: Block, lba: u64) returns (index: nat)
    ensures index == FindChunk(block, lba, 0)
  {
    hide InChunk;
    index := 0;
    while index < |block.chunks|
      invariant index <= |block.chunks|
      invariant FindChunk(block, lba, 0) == FindChunk(block, lba, index)
    {
      var found := HoldsSector(block, block.chunks[index], lba);
      if found {
        return;
      }
      index := index + 1;
    }
  }

  method HoldsSector(block: Block, chunk: Chunk, lba: u64) returns (found: bool)
    ensures found == InChunk(block, chunk, lba)
  {
    var start := Wrap(block.sectorNumber + chunk.sectorNumber);
    found := lba >= start && lba < Wrap(start + chunk.sectorCount);
  }

  /** InternalGetBlockChunk. */
  method GetBlockChunk(image: Image, lba: u64) returns (place: Option<Place>)
    ensures place == Locate(image, lba)
  {
    for i := 0 to |image.blocks|
      invariant Locate(image, lba) == LocateFrom(image.blocks, lba, i)
    {
      var block := image.blocks[i];
      if lba >= block.sectorNumber && lba < Wrap(block.sectorNumber + block.sectorCount) {
        var chunk := GetChunk(block, lba);
        if chunk < |block.chunks| {
          return Some(Place(block, block.chunks[chunk]));
        }
      }
    }
    place := None;
  }

  /** OcOverflowMulU64. */
  method OverflowMul(a: u64, b: u64) returns (overflow: bool, product: u64)
    ensures overflow == (a * b >= TWO_TO_THE_64)
    ensures !overflow ==> product == a * b
  {
    overflow := a * b >= TWO_TO_THE_64;
    product := Wrap(a * b);
  }

  /** How a read ends: the buffer is filled, FALSE is returned, or memory outside a buffer is written. */
  datatype Ending = Filled | Fails | Overruns

  function EndingOf(outcome: Outcome): Ending {
    match outcome
    case Done(_) => Filled
    case Failed => Fails
    case Overrun => Overruns
  }

  /** A compressed chunk; its buffer size is computed in 64 bits. */
  method ReadZlib(image: Image, chunk: Chunk, offset: u64, total: u64, buffer: array<byte>, at: nat, length: nat)
    returns (ending: Ending)
    requires chunk.kind == CHUNK_ZLIB && total == chunk.sectorCount * SECTOR_SIZE
    requires offset + length <= total && at + length <= buffer.Length
    modifies buffer
    ensures ending == EndingOf(Piece(image, chunk, offset, length))
    ensures ending == Filled ==> buffer[..at] == old(buffer[..at])
    ensures ending == Filled ==> Done(buffer[at..at + length]) == Piece(image, chunk, offset, length)
  {
    var bufferSize := Wrap(total + chunk.compressedLength);
    var packed := RamRead(image.ram, chunk.compressedOffset, chunk.compressedLength);
    if packed.None? {
      return Fails;
    }
    // The compressed bytes go behind the first `total` bytes.
    if total + |packed.value| > bufferSize {
      return Overruns;
    }
    if (packed.value, total) !in image.inflate {
      return Fails;
    }
    var unpacked := image.inflate[(packed.value, total)];
    if |unpacked| != total {
      return Fails;
    }
    CopyMem(buffer, at, unpacked[offset..offset + length]);
    ending := Filled;
  }

  /** The switch over the chunk type: copies one piece, or fails. */
  method ReadPiece(image: Image, chunk: Chunk, offset: u64, total: u64, buffer: array<byte>, at: nat, length: nat)
    returns (ending: Ending)
    requires total == chunk.sectorCount * SECTOR_SIZE
    requires offset + length <= total && at + length <= buffer.Length
    modifies buffer
    ensures ending == EndingOf(Piece(image, chunk, offset, length))
    ensures ending == Filled ==> buffer[..at] == old(buffer[..at])
    ensures ending == Filled ==> Done(buffer[at..at + length]) == Piece(image, chunk, offset, length)
  {
    if chunk.kind == CHUNK_ZERO || chunk.kind == CHUNK_IGNORE {
      CopyMem(buffer, at, seq(length, _ => 0));
      ending := Filled;
    } else if chunk.kind == CHUNK_RAW {
      var data := RamRead(image.ram, Wrap(chunk.compressedOffset + offset), length);
      if data.None? {
        return Fails;
      }
      CopyMem(buffer, at, data.value);
      ending := Filled;
    } else if chunk.kind == CHUNK_ZLIB {
      ending := ReadZlib(image, chunk, offset, total, buffer, at, length);
    } else {
      ending := Fails;
    }
  }

  /**
    The arithmetic of one round: the byte offset into the chunk, the chunk size, and the sector after the chunk. For a
    chunk the lookup found, no overflow guard fires, no difference underflows, and at least one byte is left.
  */
  method Measure(place: Place, current: u64) returns (overflow: bool, offset: u64, total: u64, next: u64)
    requires place.chunk.sectorCount * SECTOR_SIZE < TWO_TO_THE_64
    requires ChunkStart(place.block, place.chunk) + place.chunk.sectorCount < TWO_TO_THE_64
    requires InChunk(place.block, place.chunk, current)
    ensures !overflow
    ensures offset == (current - ChunkStart(place.block, place.chunk)) * SECTOR_SIZE
    ensures total == place.chunk.sectorCount * SECTOR_SIZE && offset < total
    ensures next * SECTOR_SIZE == current * SECTOR_SIZE + (total - offset)
  {
    var start, count := ChunkStart(place.block, place.chunk), place.chunk.sectorCount;
    WrapSmall(start + count);
    WrapSmall(current - start);
    WrapSmall(count - (current - start));
    WrapSmall(start + count);
    var lbaOffset := Wrap(current - start);
    var lbaLength := Wrap(count - lbaOffset);
    next := Wrap(current + lbaLength);
    overflow, offset := OverflowMul(lbaOffset, SECTOR_SIZE);
    if !overflow {
      overflow, total := OverflowMul(count, SECTOR_SIZE);
    }
  }

  /** One round of the read loop: the piece at sector `current`, and the sector after its chunk. */
  method ReadRound(image: Image, current: u64, buffer: array<byte>, at: nat, remaining: nat)
    returns (ending: Ending, length: nat, next: u64)
    requires Accepted(image)
    requires 0 < remaining < TWO_TO_THE_64 && at + remaining <= buffer.Length
    modifies buffer
    ensures ending != Filled ==> ending == EndingOf(ReadFrom(image, current, remaining))
    ensures ending == Filled ==>
              && 0 < length <= remaining && buffer[..at] == old(buffer[..at])
              && ReadFrom(image, current, remaining)
                 == Joined(buffer[at..at + length], ReadFrom(image, next, remaining - length))
  {
    hide Piece, Accepted, ChunkStart;
    length, next := 0, current;
    var place := GetBlockChunk(image, current);
    if place.None? {
      return Fails, length, next;
    }
    LocatedFits(image, current, 0);
    var overflow, offset, total;
    overflow, offset, total, next := Measure(place.value, current);
    if overflow {
      return Fails, length, next;
    }
    length := if remaining < total - offset then remaining else total - offset;
    assert offset == OffsetOf(image, current) && next == NextOf(image, current);
    assert length == Min(remaining, RestOf(image, current));
    ending := ReadPiece(image, place.value.chunk, offset, total, buffer, at, length);
  }

  /**
    OcAppleDiskImageRead fills the whole buffer from sector `lba` on, or ends as the read specification says; the
    remaining size shrinks in every round.
  */
  method Read(image: Image, lba: u64, buffer: array<byte>) returns (ending: Ending)
    requires Accepted(image)
    requires lba < image.sectorCount && buffer.Length < TWO_TO_THE_64
    modifies buffer
    ensures ending == EndingOf(ReadFrom(image, lba, buffer.Length))
    ensures ending == Filled ==> Done(buffer[..]) == ReadFrom(image, lba, buffer.Length)
  {
    hide Accepted, ReadFrom;
    ghost var whole := ReadFrom(image, lba, buffer.Length);
    var current, remaining, at := lba, buffer.Length, 0;
    JoinedNothing(whole);
    while remaining > 0
      invariant 0 <= at && 0 <= remaining && at + remaining == buffer.Length
      invariant whole == Joined(buffer[..at], ReadFrom(image, current, remaining))
      decreases remaining
    {
      ghost var done := buffer[..at];
      var length, next;
      ending, length, next := ReadRound(image, current, buffer, at, remaining);
      if ending != Filled {
        return;
      }
      JoinedTwice(done, buffer[at..at + length], ReadFrom(image, next, remaining - length));
      assert buffer[..at + length] == done + buffer[at..at + length];
      remaining := remaining - length;
      at := at + length;
      current := next;
    }
    assert buffer[..at] == buffer[..];
    NothingLeft(image, current);
    JoinedEmpty(buffer[..]);
    ending := Filled;
  }

  lemma JoinedNothing(outcome: Outcome)
    ensures Joined([], outcome) == outcome
  {
  }

  lemma JoinedEmpty(data: seq<byte>)
    ensures Joined(data, Done([])) == Done(data)
  {
  }

  lemma NothingLeft(image: Image, lba: u64)
    requires Accepted(image)
    ensures ReadFrom(image, lba, 0) == Done([])
  {
  }
}
