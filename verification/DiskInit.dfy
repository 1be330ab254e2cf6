/** Opening a disk image: which tables are accepted, byte-swapped in place. */
module DiskInit {
  import opened Wrappers
  import opened Words
  import opened LittleEndian
  import opened DiskTable

  // Sizes of AppleDiskImage.h, which is not part of this model: the trailer, a block without chunks, a chunk, and the
  // bits of the checksum data.
  const TRAILER_SIZE: int := 512
  const BLOCK_DATA_SIZE: int := 204
  const CHUNK_SIZE: int := 40
  const CHECKSUM_BITS: int := 1024
  const MAX_UINT32: int := 0xFFFF_FFFF

  function Swap32(x: u32): u32 {
    Powers();
    Swapped(x, 4)
  }

  function Swap64(x: u64): u64 {
    Powers();
    Swapped(x, 8)
  }

  function SwapChunk(chunk: Chunk): Chunk {
    Chunk(Swap32(chunk.kind), Swap64(chunk.sectorNumber), Swap64(chunk.sectorCount),
          Swap64(chunk.compressedOffset), Swap64(chunk.compressedLength))
  }

  /** A block table entry as it lies in the property list; `chunks` is everything its data has room for. */
  datatype RawBlock = RawBlock(
    chunkCount: u32, sectorNumber: u64, sectorCount: u64, dataOffset: u64, checksumSize: u32, chunks: seq<Chunk>)

  /** The entry in host byte order. */
  function Host(raw: RawBlock): Block
    requires Swap32(raw.chunkCount) <= |raw.chunks|
  {
    Block(Swap64(raw.sectorNumber), Swap64(raw.sectorCount), Swap64(raw.dataOffset), Swap32(raw.checksumSize),
          seq(Swap32(raw.chunkCount), i requires 0 <= i < Swap32(raw.chunkCount) => SwapChunk(raw.chunks[i])))
  }

  predicate HeaderAccepted(block: Block, sectorCount: u64, dataForkOffset: u64, maxOffset: u64) {
    && block.dataOffset <= dataForkOffset
    && block.dataOffset <= maxOffset
    && block.checksumSize <= CHECKSUM_BITS
    && block.sectorNumber + block.sectorCount <= sectorCount
  }

  /** The entry passes every check of InternalSwapBlockData. */
  predicate RawAccepted(raw: RawBlock, sectorCount: u64, dataForkOffset: u64, maxOffset: u64) {
    && Swap32(raw.chunkCount) <= |raw.chunks|
    && HeaderAccepted(Host(raw), sectorCount, dataForkOffset, maxOffset)
    && BlockAccepted(Host(raw), sectorCount, maxOffset)
  }

  /** OcOverflowAddU64. */
  method OverflowAdd(a: u64, b: u64) returns (overflow: bool, sum: u64)
    ensures overflow == (a + b >= TWO_TO_THE_64)
    ensures !overflow ==> sum == a + b
  {
    overflow := a + b >= TWO_TO_THE_64;
    sum := Wrap(a + b);
  }

  class BlockData {
    var chunkCount: u32
    var sectorNumber: u64
    var sectorCount: u64
    var dataOffset: u64
    var checksumSize: u32
    const chunks: array<Chunk>

    constructor (raw: RawBlock)
      ensures Raw() == raw && fresh(chunks)
    {
      chunkCount, sectorNumber, sectorCount := raw.chunkCount, raw.sectorNumber, raw.sectorCount;
      dataOffset, checksumSize := raw.dataOffset, raw.checksumSize;
      chunks := new Chunk[|raw.chunks|](i requires 0 <= i < |raw.chunks| => raw.chunks[i]);
      new;
      assert chunks[..] == raw.chunks;
    }

    function Raw(): RawBlock
      reads this, chunks
    {
      RawBlock(chunkCount, sectorNumber, sectorCount, dataOffset, checksumSize, chunks[..])
    }

    function View(): Block
      requires chunkCount <= chunks.Length
      reads this, chunks
    {
      Block(sectorNumber, sectorCount, dataOffset, checksumSize, chunks[..chunkCount])
    }

    /** One round of the chunk loop of InternalSwapBlockData. */
    method SwapOneChunk(index: nat, blockTop: u64, maxOffset: u64) returns (ok: bool)
      requires index < chunks.Length
      modifies chunks
      ensures chunks[index] == SwapChunk(old(chunks[index]))
      ensures forall i :: 0 <= i < chunks.Length && i != index ==> chunks[i] == old(chunks[i])
      ensures ok == ChunkAccepted(chunks[index], blockTop, maxOffset)
    {
      chunks[index] := SwapChunk(chunks[index]);
      var chunk := chunks[index];
      var overflow, top := OverflowAdd(chunk.sectorNumber, chunk.sectorCount);
      if overflow || top > blockTop {
        return false;
      }
      overflow, top := OverflowAdd(chunk.compressedOffset, chunk.compressedLength);
      ok := !overflow && top <= maxOffset;
    }

    /** The chunk loop of InternalSwapBlockData. */
    method SwapChunks(blockTop: u64, maxOffset: u64, ghost host: seq<Chunk>) returns (ok: bool)
      requires chunkCount == |host| <= chunks.Length
      requires forall i :: 0 <= i < chunkCount ==> host[i] == SwapChunk(chunks[i])
      modifies chunks
      ensures ok == forall i :: 0 <= i < chunkCount ==> ChunkAccepted(host[i], blockTop, maxOffset)
      ensures ok ==> chunks[..chunkCount] == host
    {
      hide SwapChunk, ChunkAccepted;
      for index := 0 to chunkCount
        invariant forall i :: 0 <= i < index ==> chunks[i] == host[i]
        invariant forall i :: 0 <= i < index ==> ChunkAccepted(host[i], blockTop, maxOffset)
        invariant forall i :: index <= i < chunkCount ==> host[i] == SwapChunk(chunks[i])
      {
        var accepted := SwapOneChunk(index, blockTop, maxOffset);
        if !accepted {
          return false;
        }
      }
      ok := true;
    }

    method SwapHeader()
      modifies this
      ensures chunkCount == old(chunkCount)
      ensures sectorNumber == Swap64(old(sectorNumber)) && sectorCount == Swap64(old(sectorCount))
      ensures dataOffset == Swap64(old(dataOffset)) && checksumSize == Swap32(old(checksumSize))
    {
      sectorNumber := Swap64(sectorNumber);
      sectorCount := Swap64(sectorCount);
      dataOffset := Swap64(dataOffset);
      checksumSize := Swap32(checksumSize);
    }

    /** The header checks of InternalSwapBlockData, on swapped fields. */
    method CheckHeader(totalSectors: u64, dataForkOffset: u64, maxOffset: u64, ghost host: Block)
      returns (ok: bool, blockTop: u64)
      requires HasHeader(host)
      ensures ok == HeaderAccepted(host, totalSectors, dataForkOffset, maxOffset)
      ensures ok ==> blockTop == host.sectorNumber + host.sectorCount
    {
      var overflow;
      overflow, blockTop := OverflowAdd(sectorNumber, sectorCount);
      if dataOffset > dataForkOffset || checksumSize > CHECKSUM_BITS || dataOffset > maxOffset {
        return false, blockTop;
      }
      ok := !overflow && blockTop <= totalSectors;
    }

    predicate HasHeader(host: Block)
      reads this
    {
      && sectorNumber == host.sectorNumber && sectorCount == host.sectorCount
      && dataOffset == host.dataOffset && checksumSize == host.checksumSize
    }

    /** InternalSwapBlockData. */
    method SwapBlockData(totalSectors: u64, dataForkOffset: u64, dataForkSize: u64) returns (ok: bool)
      requires dataForkOffset + dataForkSize < TWO_TO_THE_64
      modifies this, chunks
      ensures ok == RawAccepted(old(Raw()), totalSectors, dataForkOffset, dataForkOffset + dataForkSize)
      ensures ok ==> chunkCount <= chunks.Length && View() == Host(old(Raw()))
    {
      hide Swap32, Swap64, SwapChunk, HeaderAccepted, BlockAccepted, ChunkAccepted;
      ghost var raw := Raw();
      chunkCount := Swap32(chunkCount);
      if chunkCount > chunks.Length {
        return false;
      }
      ghost var host := Host(raw);
      SwapHeader();
      var maxOffset := dataForkOffset + dataForkSize;
      var blockTop;
      ok, blockTop := CheckHeader(totalSectors, dataForkOffset, maxOffset, host);
      if !ok {
        return;
      }
      ChunksAccepted(host, totalSectors, dataForkOffset, maxOffset);
      ok := SwapChunks(blockTop, maxOffset, host.chunks);
    }
  }

  predicate ChunkAccepted(chunk: Chunk, blockTop: u64, maxOffset: u64) {
    && chunk.sectorNumber + chunk.sectorCount <= blockTop
    && chunk.compressedOffset + chunk.compressedLength <= maxOffset
  }

  lemma ChunksAccepted(block: Block, sectorCount: u64, dataForkOffset: u64, maxOffset: u64)
    requires HeaderAccepted(block, sectorCount, dataForkOffset, maxOffset)
    ensures BlockAccepted(block, sectorCount, maxOffset) <==>
            forall i :: 0 <= i < |block.chunks| ==>
              ChunkAccepted(block.chunks[i], block.sectorNumber + block.sectorCount, maxOffset)
  {
  }

  /** The trailer in host byte order. */
  datatype Trailer = Trailer(
    signatureOk: bool,
    headerSize: u32,
    dataForkOffset: u64,
    dataForkLength: u64,
    segmentCount: u32,
    checksumSize: u32,
    xmlOffset: u64,
    xmlLength: u64,
    sectorCount: u64)

  predicate TrailerAccepted(trailer: Trailer, fileSize: u64) {
    && fileSize > TRAILER_SIZE && trailer.signatureOk
    && trailer.headerSize == TRAILER_SIZE
    && 0 < trailer.xmlLength <= MAX_UINT32
    && trailer.checksumSize <= CHECKSUM_BITS
    && trailer.segmentCount <= 1
    && 0 < trailer.sectorCount && trailer.sectorCount * SECTOR_SIZE < TWO_TO_THE_64
    && trailer.xmlOffset + trailer.xmlLength <= fileSize - TRAILER_SIZE
    && trailer.dataForkOffset + trailer.dataForkLength <= fileSize - TRAILER_SIZE
  }

  /** The numeric checks of OcAppleDiskImageInitializeContext before the property list is parsed. */
  method CheckTrailer(trailer: Trailer, fileSize: u64) returns (ok: bool)
    ensures ok == TrailerAccepted(trailer, fileSize)
  {
    if fileSize <= TRAILER_SIZE || !trailer.signatureOk {
      return false;
    }
    var trailerOffset := fileSize - TRAILER_SIZE;
    if trailer.headerSize != TRAILER_SIZE || trailer.xmlLength == 0 || trailer.xmlLength > MAX_UINT32
       || trailer.checksumSize > CHECKSUM_BITS || trailer.sectorCount == 0 {
      return false;
    }
    if trailer.segmentCount != 0 && trailer.segmentCount != 1 {
      return false;
    }
    if trailer.sectorCount * SECTOR_SIZE >= TWO_TO_THE_64 {
      return false;
    }
    var overflow, top := OverflowAdd(trailer.xmlOffset, trailer.xmlLength);
    if overflow || top > trailerOffset {
      return false;
    }
    overflow, top := OverflowAdd(trailer.dataForkOffset, trailer.dataForkLength);
    ok := !overflow && top <= trailerOffset;
  }

  // The block table.

  /**
    A table entry: the length of its base64 text, the size of what the text decodes to, and that data, None if it does
    not decode.
  */
  datatype Record = Record(text: nat, size: nat, raw: Option<RawBlock>) {
    /** Three bytes take four characters, and the chunks are what fits behind the block header. */
    predicate Sized() {
      && size <= text * 3 / 4
      && (raw.Some? ==>
            |raw.value.chunks| == if size < BLOCK_DATA_SIZE then 0 else (size - BLOCK_DATA_SIZE) / CHUNK_SIZE)
    }
  }

  function TextLength(records: seq<Record>): nat {
    if records == [] then 0 else TextLength(records[..|records| - 1]) + records[|records| - 1].text
  }

  /** Records that a property list of this length can hold. */
  predicate Listed(entries: Option<seq<Record>>, xmlLength: nat) {
    entries.Some? ==>
      TextLength(entries.value) <= xmlLength && forall i :: 0 <= i < |entries.value| ==> entries.value[i].Sized()
  }

  /** What one turn of the block loop of InternalParsePlist makes of a record. */
  datatype Fate = Good | TooShort | Cut | Bad

  /**
    The code compares the header size with the length of the text, not of the data: text that is too short leaves the
    loop with the result of the check before, which was TRUE; data that is too short fails an assertion of
    InternalSwapBlockData.
  */
  function FateOf(record: Record, sectorCount: u64, dataForkOffset: u64, maxOffset: u64): Fate {
    if record.text < BLOCK_DATA_SIZE then TooShort
    else if record.raw.None? then Bad
    else if record.size < BLOCK_DATA_SIZE then Cut
    else if RawAccepted(record.raw.value, sectorCount, dataForkOffset, maxOffset) then Good
    else Bad
  }

  function Fates(records: seq<Record>, sectorCount: u64, dataForkOffset: u64, maxOffset: u64): (fates: seq<Fate>)
    ensures |fates| == |records|
    ensures forall k :: 0 <= k < |fates| ==> fates[k] == FateOf(records[k], sectorCount, dataForkOffset, maxOffset)
  {
    seq(|records|, k requires 0 <= k < |records| => FateOf(records[k], sectorCount, dataForkOffset, maxOffset))
  }

  /** The least index from `i` on of a record that ends the block loop, or the number of records. */
  function FirstEnd(fates: seq<Fate>, i: nat): (end: nat)
    requires i <= |fates|
    ensures i <= end <= |fates|
    ensures forall k :: i <= k < end ==> fates[k] == Good
    ensures end < |fates| ==> fates[end] != Good
    decreases |fates| - i
  {
    if i < |fates| && fates[i] == Good then FirstEnd(fates, i + 1) else i
  }

  /**
    NoTable: InternalParsePlist returns TRUE but has set neither the blocks nor their number. Asserts: an assertion
    fails, and memory that was never written is read where assertions are switched off.
  */
  datatype Parsed = Rejected | NoTable | Asserts | Table(blocks: seq<Block>)

  function HostOf(record: Record): Block
    requires record.raw.Some? && Swap32(record.raw.value.chunkCount) <= |record.raw.value.chunks|
  {
    Host(record.raw.value)
  }

  lemma GoodHasHost(record: Record, sectorCount: u64, dataForkOffset: u64, maxOffset: u64)
    ensures FateOf(record, sectorCount, dataForkOffset, maxOffset) == Good ==>
              record.raw.Some? && Swap32(record.raw.value.chunkCount) <= |record.raw.value.chunks|
  {
  }

  /** How the block loop of InternalParsePlist ends. */
  function Parse(records: seq<Record>, sectorCount: u64, dataForkOffset: u64, maxOffset: u64): Parsed {
    var fates := Fates(records, sectorCount, dataForkOffset, maxOffset);
    var end := FirstEnd(fates, 0);
    if end < |records| then
      match fates[end]
      case TooShort => NoTable
      case Cut => Asserts
      case _ => Rejected
    else
      Table(seq(|records|, i requires 0 <= i < |records| =>
        GoodHasHost(records[i], sectorCount, dataForkOffset, maxOffset); HostOf(records[i])))
  }

  /** OpenedBlind: the image opens, but its block table is whatever was in memory before. */
  datatype Opening = Refused | OpenedBlind | Asserted | Opened(image: Image)

  function Finish(ram: seq<byte>, inflate: map<(seq<byte>, nat), seq<byte>>, sectorCount: u64, parsed: Parsed): Opening
  {
    match parsed
    case Rejected => Refused
    case NoTable => OpenedBlind
    case Asserts => Asserted
    case Table(blocks) => Opened(Image(ram, inflate, sectorCount, blocks))
  }

  function Open(
    ram: seq<byte>, inflate: map<(seq<byte>, nat), seq<byte>>, fileSize: u64, trailer: Trailer,
    entries: Option<seq<Record>>): Opening
  {
    if !TrailerAccepted(trailer, fileSize) || entries.None? || entries.value == [] then Refused
    else
      Finish(ram, inflate, trailer.sectorCount,
             Parse(entries.value, trailer.sectorCount, trailer.dataForkOffset,
                   trailer.dataForkOffset + trailer.dataForkLength))
  }

  /** Only good records come before record `i`. */
  predicate GoodBefore(records: seq<Record>, sectorCount: u64, dataForkOffset: u64, maxOffset: u64, i: nat)
    requires i <= |records|
  {
    forall k :: 0 <= k < i ==> FateOf(records[k], sectorCount, dataForkOffset, maxOffset) == Good
  }

  /**
    The table is missing exactly when the text of some record is too short and every record before it is good, and the
    assertion fails exactly when such a record has enough text but too little data.
  */
  lemma NoTableExactly(records: seq<Record>, sectorCount: u64, dataForkOffset: u64, maxOffset: u64)
    ensures Parse(records, sectorCount, dataForkOffset, maxOffset).NoTable? <==>
            exists i :: 0 <= i < |records| && records[i].text < BLOCK_DATA_SIZE
                        && GoodBefore(records, sectorCount, dataForkOffset, maxOffset, i)
    ensures Parse(records, sectorCount, dataForkOffset, maxOffset).Asserts? <==>
            exists i :: 0 <= i < |records| && records[i].size < BLOCK_DATA_SIZE <= records[i].text
                        && records[i].raw.Some? && GoodBefore(records, sectorCount, dataForkOffset, maxOffset, i)
  {
    var fates := Fates(records, sectorCount, dataForkOffset, maxOffset);
    var end := FirstEnd(fates, 0);
    assert GoodBefore(records, sectorCount, dataForkOffset, maxOffset, end);
    forall i | 0 <= i < |records| && GoodBefore(records, sectorCount, dataForkOffset, maxOffset, i) && fates[i] != Good
      ensures i == end
    {
      EndIsFirst(fates, i);
    }
  }

  lemma EndIsFirst(fates: seq<Fate>, i: nat)
    requires i < |fates| && fates[i] != Good && forall k :: 0 <= k < i ==> fates[k] == Good
    ensures FirstEnd(fates, 0) == i
  {
  }

  lemma OpenTrailer(trailer: Trailer, fileSize: u64)
    requires TrailerAccepted(trailer, fileSize)
    ensures trailer.dataForkOffset + trailer.dataForkLength <= fileSize < TWO_TO_THE_64
    ensures trailer.sectorCount * SECTOR_SIZE < TWO_TO_THE_64
  {
  }

  /** An image that opens has its table if and only if no text is too short, and then reading can rely on it. */
  lemma OpenedHasTableExactly(
    ram: seq<byte>, inflate: map<(seq<byte>, nat), seq<byte>>, fileSize: u64, trailer: Trailer,
    entries: Option<seq<Record>>)
    requires fileSize <= |ram| < TWO_TO_THE_64
    ensures
      var opening := Open(ram, inflate, fileSize, trailer, entries);
      && (opening.Opened? || opening.OpenedBlind? ==>
            && entries.Some?
            && (opening.Opened? <==> forall i :: 0 <= i < |entries.value| ==> entries.value[i].text >= BLOCK_DATA_SIZE))
      && (opening.Opened? ==> Accepted(opening.image) && opening.image.ram == ram)
  {
    hide TrailerAccepted, Parse, Accepted;
    OpenedIsAccepted(ram, inflate, fileSize, trailer, entries);
    if TrailerAccepted(trailer, fileSize) && entries.Some? {
      OpenTrailer(trailer, fileSize);
      ParseShort(entries.value, trailer.sectorCount, trailer.dataForkOffset,
        trailer.dataForkOffset + trailer.dataForkLength);
    }
  }

  lemma ParseShort(records: seq<Record>, sectorCount: u64, dataForkOffset: u64, maxOffset: u64)
    ensures
      var parsed := Parse(records, sectorCount, dataForkOffset, maxOffset);
      parsed.Table? || parsed.NoTable? ==>
        (parsed.Table? <==> forall i :: 0 <= i < |records| ==> records[i].text >= BLOCK_DATA_SIZE)
  {
    var fates := Fates(records, sectorCount, dataForkOffset, maxOffset);
    assert forall i :: 0 <= i < |fates| ==> (records[i].text < BLOCK_DATA_SIZE <==> fates[i] == TooShort);
    hide FateOf, HostOf;
  }

  /** Block i of the table is record i in host byte order, for every record and nothing else. */
  ghost predicate TableOf(blocks: seq<Block>, records: seq<Record>) {
    && |blocks| == |records|
    && forall i :: 0 <= i < |records| ==>
         && records[i].raw.Some?
         && Swap32(records[i].raw.value.chunkCount) <= |records[i].raw.value.chunks|
         && blocks[i] == Host(records[i].raw.value)
  }

  lemma ParsedTable(records: seq<Record>, sectorCount: u64, dataForkOffset: u64, maxOffset: u64)
    ensures
      var parsed := Parse(records, sectorCount, dataForkOffset, maxOffset);
      parsed.Table? ==> TableOf(parsed.blocks, records)
  {
    hide Swap32, RawAccepted;
    var fates := Fates(records, sectorCount, dataForkOffset, maxOffset);
    if FirstEnd(fates, 0) == |records| {
      forall i | 0 <= i < |records|
        ensures records[i].raw.Some? && Swap32(records[i].raw.value.chunkCount) <= |records[i].raw.value.chunks|
      {
        assert fates[i] == Good;
        GoodHasHost(records[i], sectorCount, dataForkOffset, maxOffset);
      }
    }
  }

  /** An opened image has exactly the blocks of its records, in their order. */
  lemma OpenedTable(
    ram: seq<byte>, inflate: map<(seq<byte>, nat), seq<byte>>, fileSize: u64, trailer: Trailer,
    entries: Option<seq<Record>>)
    ensures
      var opening := Open(ram, inflate, fileSize, trailer, entries);
      opening.Opened? ==>
        && entries.Some? && entries.value != [] && TableOf(opening.image.blocks, entries.value)
        && opening.image.sectorCount == trailer.sectorCount
        && opening.image.ram == ram && opening.image.inflate == inflate
  {
    hide TrailerAccepted, Parse, TableOf;
    if TrailerAccepted(trailer, fileSize) && entries.Some? {
      OpenTrailer(trailer, fileSize);
      ParsedTable(entries.value, trailer.sectorCount, trailer.dataForkOffset,
        trailer.dataForkOffset + trailer.dataForkLength);
    }
  }

  lemma OpenedIsAccepted(
    ram: seq<byte>, inflate: map<(seq<byte>, nat), seq<byte>>, fileSize: u64, trailer: Trailer,
    entries: Option<seq<Record>>)
    requires fileSize <= |ram| < TWO_TO_THE_64
    ensures
      var opening := Open(ram, inflate, fileSize, trailer, entries);
      opening.Opened? ==> Accepted(opening.image)
  {
    hide TrailerAccepted, Parse, BlockAccepted;
    if TrailerAccepted(trailer, fileSize) && entries.Some? {
      OpenTrailer(trailer, fileSize);
      TableIsAccepted(entries.value, trailer.sectorCount, trailer.dataForkOffset,
        trailer.dataForkOffset + trailer.dataForkLength, |ram|);
    }
  }

  lemma TableIsAccepted(
    records: seq<Record>, sectorCount: u64, dataForkOffset: u64, maxOffset: u64, size: u64)
    requires maxOffset <= size
    ensures
      var parsed := Parse(records, sectorCount, dataForkOffset, maxOffset);
      parsed.Table? ==> forall block <- parsed.blocks :: BlockAccepted(block, sectorCount, size)
  {
    hide HeaderAccepted, Swap32;
    var parsed, fates := Parse(records, sectorCount, dataForkOffset, maxOffset),
      Fates(records, sectorCount, dataForkOffset, maxOffset);
    if parsed.Table? {
      forall i | 0 <= i < |records|
        ensures BlockAccepted(parsed.blocks[i], sectorCount, size)
      {
        assert fates[i] == Good;
        GoodIsAccepted(records[i], sectorCount, dataForkOffset, maxOffset, size);
      }
    }
  }

  lemma GoodIsAccepted(record: Record, sectorCount: u64, dataForkOffset: u64, maxOffset: u64, size: u64)
    requires maxOffset <= size && FateOf(record, sectorCount, dataForkOffset, maxOffset) == Good
    ensures record.raw.Some? && Swap32(record.raw.value.chunkCount) <= |record.raw.value.chunks|
    ensures BlockAccepted(HostOf(record), sectorCount, size)
  {
  }

  /** A trailer for 1024 bytes of data and a property list of 2048 bytes behind them. */
  function TrailerFor(sectorCount: u64): Trailer {
    Trailer(true, TRAILER_SIZE, 0, 1024, 1, 0, 1024, 2048, sectorCount)
  }

  /** A single record with 203 characters of text opens an image without a table; its data is of no interest. */
  lemma ShortRecordOpensBlind(ram: seq<byte>, size: nat, raw: Option<RawBlock>)
    requires |ram| == 4096 && Record(BLOCK_DATA_SIZE - 1, size, raw).Sized()
    ensures
      var entries := Some([Record(BLOCK_DATA_SIZE - 1, size, raw)]);
      Listed(entries, 2048) && Open(ram, map[], 4096, TrailerFor(2), entries) == OpenedBlind
  {
    OneText(Record(BLOCK_DATA_SIZE - 1, size, raw));
  }

  /** A single record of 153 bytes, in 204 characters of text, fails the assertion. */
  lemma CutRecordAsserts(ram: seq<byte>, raw: RawBlock)
    requires |ram| == 4096 && raw.chunks == []
    ensures
      var entries := Some([Record(BLOCK_DATA_SIZE, 153, Some(raw))]);
      Listed(entries, 2048) && Open(ram, map[], 4096, TrailerFor(2), entries) == Asserted
  {
    OneText(Record(BLOCK_DATA_SIZE, 153, Some(raw)));
  }

  lemma OneText(record: Record)
    ensures TextLength([record]) == record.text
  {
    assert TextLength([record]) == TextLength([record][..0]) + record.text;
  }

  /** One turn of the block loop: what to do with a record, and its block if it is good. */
  method LoadRecord(record: Record, sectorCount: u64, dataForkOffset: u64, dataForkSize: u64)
    returns (fate: Fate, block: Option<Block>)
    requires dataForkOffset + dataForkSize < TWO_TO_THE_64
    ensures fate == FateOf(record, sectorCount, dataForkOffset, dataForkOffset + dataForkSize)
    ensures fate == Good ==>
              && record.raw.Some? && Swap32(record.raw.value.chunkCount) <= |record.raw.value.chunks|
              && block == Some(HostOf(record))
  {
    hide HeaderAccepted, BlockAccepted, Host, Swap32;
    if record.text < BLOCK_DATA_SIZE {
      return TooShort, None;
    }
    if record.raw.None? {
      return Bad, None;
    }
    if record.size < BLOCK_DATA_SIZE {
      return Cut, None;
    }
    block := LoadBlock(record.raw.value, sectorCount, dataForkOffset, dataForkSize);
    fate := if block.Some? then Good else Bad;
  }

  /** The block loop of InternalParsePlist. */
  method LoadBlocks(records: seq<Record>, sectorCount: u64, dataForkOffset: u64, dataForkSize: u64)
    returns (parsed: Parsed)
    requires dataForkOffset + dataForkSize < TWO_TO_THE_64
    ensures parsed == Parse(records, sectorCount, dataForkOffset, dataForkOffset + dataForkSize)
  {
    hide FateOf, HostOf, Swap32;
    ghost var fates := Fates(records, sectorCount, dataForkOffset, dataForkOffset + dataForkSize);
    var loaded := [];
    for index := 0 to |records|
      invariant |loaded| == index
      invariant FirstEnd(fates, 0) == FirstEnd(fates, index)
      invariant forall i :: 0 <= i < index ==>
                  && records[i].raw.Some? && Swap32(records[i].raw.value.chunkCount) <= |records[i].raw.value.chunks|
                  && loaded[i] == HostOf(records[i])
    {
      var fate, block := LoadRecord(records[index], sectorCount, dataForkOffset, dataForkSize);
      match fate {
        case TooShort => return NoTable;
        case Cut => return Asserts;
        case Bad => return Rejected;
        case Good => loaded := loaded + [block.value];
      }
    }
    parsed := Table(loaded);
  }

  /** Swaps and checks a private copy of the entry. */
  method LoadBlock(raw: RawBlock, sectorCount: u64, dataForkOffset: u64, dataForkSize: u64)
    returns (block: Option<Block>)
    requires dataForkOffset + dataForkSize < TWO_TO_THE_64
    ensures block.Some? == RawAccepted(raw, sectorCount, dataForkOffset, dataForkOffset + dataForkSize)
    ensures block.Some? ==> block.value == Host(raw)
  {
    var data := new BlockData(raw);
    var ok := data.SwapBlockData(sectorCount, dataForkOffset, dataForkSize);
    if !ok {
      return None;
    }
    block := Some(data.View());
  }

  /** OcAppleDiskImageInitializeContext; `entries` is what the property list yields, None when it cannot be parsed. */
  method InitializeContext(
    ram: seq<byte>, inflate: map<(seq<byte>, nat), seq<byte>>, fileSize: u64, trailer: Trailer,
    entries: Option<seq<Record>>) returns (opening: Opening)
    requires fileSize <= |ram| < TWO_TO_THE_64 && Listed(entries, trailer.xmlLength)
    ensures opening == Open(ram, inflate, fileSize, trailer, entries)
    ensures opening.Opened? ==>
              && Accepted(opening.image) && entries.Some? && TableOf(opening.image.blocks, entries.value)
              && opening.image.sectorCount == trailer.sectorCount
              && opening.image.ram == ram && opening.image.inflate == inflate
  {
    hide TrailerAccepted, Parse, Accepted, Finish;
    opening := Refused;
    var ok := CheckTrailer(trailer, fileSize);
    if ok && entries.Some? && entries.value != [] {
      OpenTrailer(trailer, fileSize);
      var parsed := LoadBlocks(entries.value, trailer.sectorCount, trailer.dataForkOffset, trailer.dataForkLength);
      opening := Finish(ram, inflate, trailer.sectorCount, parsed);
    }
    assert opening == Open(ram, inflate, fileSize, trailer, entries);
    hide Open, TableOf;
    OpenedIsAccepted(ram, inflate, fileSize, trailer, entries);
    OpenedTable(ram, inflate, fileSize, trailer, entries);
  }
}
