/** Apple disk images: the block and chunk tables, and the flat disk they describe. */
module DiskTable {
  import opened Wrappers
  import opened Words
  import opened LittleEndian

  const SECTOR_SIZE: int := 512

  // Chunk types of AppleDiskImage.h, which is not part of this model.
  const CHUNK_ZERO: u32 := 0
  const CHUNK_RAW: u32 := 1
  const CHUNK_IGNORE: u32 := 2
  const CHUNK_ZLIB: u32 := 0x8000_0005

  datatype Chunk = Chunk(
    kind: u32,
    sectorNumber: u64,
    sectorCount: u64,
    compressedOffset: u64,
    compressedLength: u64)

  datatype Block = Block(sectorNumber: u64, sectorCount: u64, dataOffset: u64, checksumSize: u32, chunks: seq<Chunk>)

  /**
    An opened image: the RAM disk behind it as one byte sequence, and what DecompressZLIB writes for a compressed
    input and an output buffer size.
  */
  datatype Image = Image(
    ram: seq<byte>,
    inflate: map<(seq<byte>, nat), seq<byte>>,
    sectorCount: u64,
    blocks: seq<Block>)

  /** What initialisation has checked about a block; `maxOffset` is the end of the data fork. */
  predicate BlockAccepted(block: Block, sectorCount: u64, maxOffset: u64) {
    && block.sectorNumber + block.sectorCount <= sectorCount
    && (forall chunk <- block.chunks ::
          && chunk.sectorNumber + chunk.sectorCount <= block.sectorNumber + block.sectorCount
          && chunk.compressedOffset + chunk.compressedLength <= maxOffset)
  }

  predicate Accepted(image: Image) {
    && image.sectorCount * SECTOR_SIZE < TWO_TO_THE_64
    && |image.ram| < TWO_TO_THE_64
    && forall block <- image.blocks :: BlockAccepted(block, image.sectorCount, |image.ram|)
  }

  /** DMG_SECTOR_START_ABS, in 64 bits. */
  function ChunkStart(block: Block, chunk: Chunk): u64 {
    Wrap(block.sectorNumber + chunk.sectorNumber)
  }

  predicate InBlock(block: Block, lba: u64) {
    block.sectorNumber <= lba < Wrap(block.sectorNumber + block.sectorCount)
  }

  predicate InChunk(block: Block, chunk: Chunk, lba: u64) {
    ChunkStart(block, chunk) <= lba < Wrap(ChunkStart(block, chunk) + chunk.sectorCount)
  }

  /** Where a sector is stored. */
  datatype Place = Place(block: Block, chunk: Chunk)

  /** First chunk from `j` on that holds the sector, or the number of chunks. */
  function FindChunk(block: Block, lba: u64, j: nat): (index: nat)
    requires j <= |block.chunks|
    ensures j <= index <= |block.chunks|
    ensures forall k :: j <= k < index ==> !InChunk(block, block.chunks[k], lba)
    ensures index < |block.chunks| ==> InChunk(block, block.chunks[index], lba)
    decreases |block.chunks| - j
  {
    if j < |block.chunks| && !InChunk(block, block.chunks[j], lba) then FindChunk(block, lba, j + 1) else j
  }

  /** Where the lookup from block `i` on finds the sector. */
  function LocateFrom(blocks: seq<Block>, lba: u64, i: nat): Option<Place>
    requires i <= |blocks|
    decreases |blocks| - i
  {
    if i == |blocks| then None
    else
      var chunk := FindChunk(blocks[i], lba, 0);
      if InBlock(blocks[i], lba) && chunk < |blocks[i].chunks| then
        Some(Place(blocks[i], blocks[i].chunks[chunk]))
      else
        LocateFrom(blocks, lba, i + 1)
  }

  function Locate(image: Image, lba: u64): Option<Place> {
    LocateFrom(image.blocks, lba, 0)
  }

  // The flat disk.

  /** OcAppleRamDiskRead: fails unless the whole range exists. */
  function RamRead(ram: seq<byte>, offset: nat, size: nat): Option<seq<byte>> {
    if offset < |ram| && offset + size <= |ram| then Some(ram[offset..offset + size]) else None
  }

  /** The contents of a compressed chunk. */
  function Inflated(image: Image, chunk: Chunk): Option<seq<byte>> {
    var packed := RamRead(image.ram, chunk.compressedOffset, chunk.compressedLength);
    var total := chunk.sectorCount * SECTOR_SIZE;
    if packed.Some? && (packed.value, total) in image.inflate && |image.inflate[(packed.value, total)]| == total then
      Some(image.inflate[(packed.value, total)])
    else
      None
  }

  /** Byte `k` of a chunk, if it can be read. */
  function ChunkByte(image: Image, chunk: Chunk, k: nat): Option<byte>
    requires k < chunk.sectorCount * SECTOR_SIZE
  {
    if chunk.kind == CHUNK_ZERO || chunk.kind == CHUNK_IGNORE then Some(0)
    else if chunk.kind == CHUNK_RAW then
      if chunk.compressedOffset + k < |image.ram| then Some(image.ram[chunk.compressedOffset + k]) else None
    else if chunk.kind == CHUNK_ZLIB then
      if Inflated(image, chunk).Some? then Some(Inflated(image, chunk).value[k]) else None
    else None
  }

  lemma {:induction false} LocatedFits(image: Image, lba: u64, i: nat)
    requires Accepted(image) && i <= |image.blocks|
    requires LocateFrom(image.blocks, lba, i).Some?
    ensures
      var place := LocateFrom(image.blocks, lba, i).value;
      && place.block in image.blocks && place.chunk in place.block.chunks
      && Fits(image, place)
      && InBlock(place.block, lba) && InChunk(place.block, place.chunk, lba)
    decreases |image.blocks| - i
  {
    var block := image.blocks[i];
    assert block in image.blocks;
    var index := FindChunk(block, lba, 0);
    if InBlock(block, lba) && index < |block.chunks| {
      assert block.chunks[index] in block.chunks;
    } else {
      LocatedFits(image, lba, i + 1);
    }
  }

  /** None of the 64-bit computations about this chunk wraps around or trips an overflow guard. */
  predicate Fits(image: Image, place: Place) {
    && ChunkStart(place.block, place.chunk) == place.block.sectorNumber + place.chunk.sectorNumber
    && ChunkStart(place.block, place.chunk) + place.chunk.sectorCount < TWO_TO_THE_64
    && place.chunk.sectorCount * SECTOR_SIZE < TWO_TO_THE_64
  }

  /** Byte `position` of the disk the image describes, sector by sector. */
  function ByteAt(image: Image, position: nat): Option<byte>
    requires Accepted(image)
  {
    var lba := position / SECTOR_SIZE;
    if lba >= TWO_TO_THE_64 || Locate(image, lba).None? then None
    else
      LocatedFits(image, lba, 0);
      var place := Locate(image, lba).value;
      ChunkByte(image, place.chunk, position - ChunkStart(place.block, place.chunk) * SECTOR_SIZE)
  }

  ghost predicate Readable(image: Image, from: nat, size: nat)
    requires Accepted(image)
  {
    forall p :: from <= p < from + size ==> ByteAt(image, p).Some?
  }

  /** The bytes [from, from + size) of the disk, if all of them can be read. */
  ghost function FlatRead(image: Image, from: nat, size: nat): Option<seq<byte>>
    requires Accepted(image)
  {
    if Readable(image, from, size) then
      Some(seq(size, k requires 0 <= k < size => ByteAt(image, from + k).value))
    else
      None
  }

  lemma ReadableSplits(image: Image, from: nat, first: nat, second: nat)
    requires Accepted(image)
    ensures Readable(image, from, first + second) <==>
            Readable(image, from, first) && Readable(image, from + first, second)
  {
  }

  /** Reads can be split anywhere: both parts succeed and concatenate exactly when the whole succeeds. */
  lemma FlatReadSplits(image: Image, from: nat, first: nat, second: nat)
    requires Accepted(image)
    ensures
      var whole := FlatRead(image, from, first + second);
      var left, right := FlatRead(image, from, first), FlatRead(image, from + first, second);
      if left.Some? && right.Some? then whole == Some(left.value + right.value) else whole == None
  {
    hide ByteAt, Accepted;
    ReadableSplits(image, from, first, second);
    hide Readable;
    if Readable(image, from, first) && Readable(image, from + first, second) {
      var whole := FlatRead(image, from, first + second).value;
      assert whole[..first] == FlatRead(image, from, first).value;
      assert whole[first..] == FlatRead(image, from + first, second).value;
      assert whole == whole[..first] + whole[first..];
    }
  }
}
