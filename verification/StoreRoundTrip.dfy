/** A snapshot from the first AddBlock to the last ReaderNext: no candidate is lost, added or changed. */
module StoreRoundTrip {
  import opened Bytes
  import opened Files
  import opened Options
  import opened StoreFormat
  import opened StoreImage
  import opened StoreReader
  import opened StoreWriter
  import opened StoreRefine

  /** The arguments of one AddBlock. */
  datatype Addition = Addition(base: nat, slotCount: nat, values: seq<byte>, mask: Option<seq<byte>>)

  predicate ValidAddition(a: Addition, width: nat) {
    && a.base < U64_LIMIT
    && a.slotCount * width <= |a.values|
    && a.slotCount + 7 < U32_LIMIT
    && (a.mask.Some? ==> MaskSize(a.slotCount) <= |a.mask.value|)
  }

  /** Neither empty nor larger than the callers' chunks. */
  predicate Storable(a: Addition, width: nat) {
    0 < a.slotCount && a.slotCount * width <= BLOCK_LIMIT
  }

  ghost predicate ValidAdditions(calls: seq<Addition>, width: nat) {
    forall i :: 0 <= i < |calls| ==> ValidAddition(calls[i], width)
  }

  function AsBlock(a: Addition, width: nat): Block
    requires ValidAddition(a, width)
  {
    BlockOf(a.base, a.slotCount, a.values, a.mask, width)
  }

  /** The blocks of the first n calls; one without a candidate is not stored. */
  ghost function Stored(calls: seq<Addition>, n: nat, width: nat): seq<Block>
    requires n <= |calls| && ValidAdditions(calls, width)
  {
    if n == 0 then [] else Stored(calls, n - 1, width) + Added(AsBlock(calls[n - 1], width))
  }

  /** Address and value of every slot the first n calls mark as a candidate. */
  ghost function Marked(calls: seq<Addition>, n: nat, alignment: nat, width: nat): seq<Candidate>
    requires n <= |calls| && ValidAdditions(calls, width)
  {
    if n == 0 then []
    else
      Marked(calls, n - 1, alignment, width)
      + BlockCandidates(AsBlock(calls[n - 1], width), calls[n - 1].slotCount, alignment, width)
  }

  lemma {:induction false} StoredKeepsMarked(calls: seq<Addition>, n: nat, alignment: nat, width: nat)
    requires n <= |calls| && ValidAdditions(calls, width)
    ensures Candidates(Stored(calls, n, width), |Stored(calls, n, width)|, alignment, width)
         == Marked(calls, n, alignment, width)
  {
    hide BlockCandidates, Added, BlockOf;
    if n == 0 {
    } else {
      StoredKeepsMarked(calls, n - 1, alignment, width);
      CandidatesAdded(Stored(calls, n - 1, width), AsBlock(calls[n - 1], width), alignment, width);
      assert AsBlock(calls[n - 1], width).slots == calls[n - 1].slotCount by { SlotsOfBlock(calls[n - 1], width); }
    }
  }

  lemma SlotsOfBlock(a: Addition, width: nat)
    requires ValidAddition(a, width)
    ensures AsBlock(a, width).slots == a.slotCount
  {
  }

  lemma CandidatesAdded(before: seq<Block>, b: Block, alignment: nat, width: nat)
    ensures Candidates(before + Added(b), |before + Added(b)|, alignment, width)
         == Candidates(before, |before|, alignment, width) + BlockCandidates(b, b.slots, alignment, width)
  {
    hide BlockCandidates, Slots, SlotAddresses;
    if Count(b) == 0 {
      BlockCandidateAddresses(b, b.slots, alignment, width);
      NoAddresses(b.base, alignment);
      assert |BlockCandidates(b, b.slots, alignment, width)| == 0;
      assert before + Added(b) == before;
    } else {
      CandidatesPrefix(before, [b], |before|, alignment, width);
    }
  }

  lemma NoAddresses(base: nat, alignment: nat)
    ensures SlotAddresses([], base, alignment) == []
  {
  }

  /** What a reader returned for a list of blocks: the same slots, marks and candidate values. */
  ghost predicate SameBlocks(blocks: seq<Block>, read: seq<Block>, width: nat) {
    && |read| == |blocks|
    && forall i :: 0 <= i < |blocks| ==> SameBlock(blocks[i], read[i], width)
  }

  ghost predicate SameBlock(b: Block, c: Block, width: nat) {
    c.base == b.base && c.slots == b.slots && Holds(b, width, c.values, c.mask)
  }

  lemma {:induction false} SameBlockCandidates(b: Block, c: Block, n: nat, alignment: nat, width: nat)
    requires SameBlock(b, c, width) && n <= b.slots
    ensures BlockCandidates(c, n, alignment, width) == BlockCandidates(b, n, alignment, width)
  {
    hide MaskBit, Value, AddressOf;
    if n == 0 {
    } else {
      SameBlockCandidates(b, c, n - 1, alignment, width);
    }
  }

  lemma {:induction false} SameCandidates(blocks: seq<Block>, read: seq<Block>, n: nat, alignment: nat, width: nat)
    requires SameBlocks(blocks, read, width) && n <= |blocks|
    ensures Candidates(read, n, alignment, width) == Candidates(blocks, n, alignment, width)
  {
    hide BlockCandidates, Holds;
    if n == 0 {
    } else {
      SameCandidates(blocks, read, n - 1, alignment, width);
      assert SameBlock(blocks[n - 1], read[n - 1], width);
      SameBlockCandidates(blocks[n - 1], read[n - 1], blocks[n - 1].slots, alignment, width);
    }
  }

  /** The blocks of storable calls are read back. */
  lemma {:induction false} StorableReadBack(calls: seq<Addition>, n: nat, width: nat)
    requires n <= |calls| && ValidAdditions(calls, width) && 1 <= width <= 8
    requires forall i :: 0 <= i < n ==> Storable(calls[i], width)
    ensures forall b <- Stored(calls, n, width) :: ReadBack(b, width)
  {
    hide ReadBack, Added, BlockOf;
    if n == 0 {
    } else {
      StorableReadBack(calls, n - 1, width);
      OneReadBack(calls[n - 1], width);
    }
  }

  lemma OneReadBack(a: Addition, width: nat)
    requires ValidAddition(a, width) && 1 <= width <= 8 && Storable(a, width)
    ensures forall b <- Added(AsBlock(a, width)) :: ReadBack(b, width)
  {
    hide Slots, Readable;
    var b := AsBlock(a, width);
    if Count(b) > 0 {
      PayloadSize(b, width);
      AtLeastOnce(b.slots, width);
    }
  }

  /** WriterOpen, the AddBlock calls in order, Finish. */
  method WriteStore(meta: Metadata, calls: seq<Addition>, created: File?) returns (ok: bool)
    requires ValidMetadata(meta) && ValidAdditions(calls, meta.width)
    requires created != null ==> created.content == [] && created.pos == 0
    modifies created
    ensures ok ==> created != null && ValidStore(meta, Stored(calls, |calls|, meta.width))
    ensures ok ==> created.content == StoreFile(meta, Stored(calls, |calls|, meta.width))
    ensures ok ==> created.faulted == old(created.faulted)
    ensures !ok ==> created == null || created.faulted || exists call <- calls :: !Storable(call, meta.width)
  {
    hide ValidMetadata, ValidStore, StoreFile, InitialHeader, Writer.Valid, Stored, Slots, PayloadBytes;
    NoneStored(calls, meta.width);
    WidthIs(meta);
    var writer := new Writer();
    ok := writer.Open(meta, created);
    if !ok {
      return;
    }
    assert writer.header.metadata == meta by { FirstHeader(meta); }
    for i := 0 to |calls|
      invariant writer.Valid() && writer.file == created && !writer.failed && created.faulted == old(created.faulted)
      invariant writer.header.metadata == meta
      invariant writer.blocks == Stored(calls, i, meta.width)
    {
      var call := calls[i];
      OneStored(calls, i, meta.width);
      SmallAddition(call, meta.width);
      ok := writer.AddBlock(call.base, call.slotCount, call.values, call.mask);
      if !ok {
        assert created.faulted || (call in calls && !Storable(call, meta.width));
        writer.Abort();
        return;
      }
    }
    ok := writer.Finish();
  }

  lemma SmallAddition(a: Addition, width: nat)
    requires ValidAddition(a, width) && width >= 1
    ensures Storable(a, width) ==> PayloadBytes(AsBlock(a, width), width) < U32_LIMIT
  {
    SmallPayload(AsBlock(a, width), width);
  }

  lemma WidthIs(meta: Metadata)
    requires ValidMetadata(meta)
    ensures 1 <= meta.width <= 8
  {
  }

  lemma NoneStored(calls: seq<Addition>, width: nat)
    requires ValidAdditions(calls, width)
    ensures Stored(calls, 0, width) == []
  {
  }

  lemma OneStored(calls: seq<Addition>, i: nat, width: nat)
    requires i < |calls| && ValidAdditions(calls, width)
    ensures ValidAddition(calls[i], width)
    ensures Stored(calls, i + 1, width) == Stored(calls, i, width) + Added(AsBlock(calls[i], width))
  {
  }

  lemma FirstHeader(meta: Metadata)
    ensures InitialHeader(meta).metadata == meta
  {
  }

  lemma OneMore(blocks: seq<Block>, read: seq<Block>, next: Block, width: nat)
    requires |read| < |blocks| && SameBlocks(blocks[..|read|], read, width) && SameBlock(blocks[|read|], next, width)
    ensures SameBlocks(blocks[..|read| + 1], read + [next], width)
  {
    hide SameBlock;
  }

  /** The reader accepts the block and the buffers have room for it. */
  predicate ReadBack(b: Block, width: nat) {
    Readable(b, width) && Buffered(b, width)
  }

  /** One ReaderNext with the buffers of the refinement pass. */
  method ReadOne(reader: Reader, values: array<byte>, mask: array<byte>, ghost meta: Metadata, ghost blocks: seq<Block>)
    returns (ok: bool, next: Block)
    requires values != mask && values.Length == CHUNK_SIZE + 8 && mask.Length == CHUNK_SIZE / 8 + 8
    requires reader.nextBlock < |blocks| && reader.Reads(meta, blocks, reader.nextBlock)
    modifies reader, reader.file, values, mask
    ensures reader.file == old(reader.file) && reader.file.content == old(reader.file.content)
    ensures reader.header == old(reader.header)
    ensures ok ==> && reader.nextBlock == old(reader.nextBlock) + 1
                   && reader.Reads(meta, blocks, reader.nextBlock)
                   && SameBlock(blocks[old(reader.nextBlock)], next, meta.width)
                   && reader.file.faulted == old(reader.file.faulted)
    ensures !ok ==> reader.file.faulted || !ReadBack(blocks[old(reader.nextBlock)], meta.width)
  {
    hide ValidStore, StoreFile, Holds, FinalHeader, OffsetOf, Total, BlockAccepted, DecodeBlockHeader, ValidBlock;
    hide Slots, Payload, Representation, Count, Readable;
    HeaderShape(blocks[reader.nextBlock], Total(blocks, reader.nextBlock), meta.width);
    var block;
    ok, block := reader.Next(values, mask, meta, blocks);
    next := if ok then BlockData(block.base, block.slotCount, values[..], mask[..]) else BlockData(0, 0, [], []);
  }

  /** ReaderOpen, then ReaderNext for every block the header announces. */
  method ReadStore(stream: File, ghost meta: Metadata, ghost blocks: seq<Block>) returns (ok: bool, read: seq<Block>)
    requires ValidStore(meta, blocks) && stream.content == StoreFile(meta, blocks)
    modifies stream
    ensures stream.content == old(stream.content)
    ensures ok ==> SameBlocks(blocks, read, meta.width) && stream.faulted == old(stream.faulted)
    ensures !ok ==> stream.faulted || exists b <- blocks :: !ReadBack(b, meta.width)
  {
    hide ValidStore, StoreFile, Holds, FinalHeader, OffsetOf, Total, BlockAccepted, FileAccepted, DecodeHeader;
    hide DecodeBlockHeader, ValidBlock;
    read := [];
    var reader := new Reader();
    FinishedFileAccepted(meta, blocks);
    ok := reader.Open(stream);
    if !ok {
      return;
    }
    OpenedAtStart(reader, meta, blocks);
    FinalCounts(meta, blocks);
    var values, mask := new byte[CHUNK_SIZE + 8], new byte[CHUNK_SIZE / 8 + 8];
    while reader.nextBlock < reader.header.blockCount
      invariant reader.file == stream && stream.content == old(stream.content) && stream.faulted == old(stream.faulted)
      invariant reader.nextBlock <= |blocks| && reader.Reads(meta, blocks, reader.nextBlock)
      invariant SameBlocks(blocks[..reader.nextBlock], read, meta.width)
      decreases |blocks| - reader.nextBlock
    {
      var next;
      ok, next := ReadOne(reader, values, mask, meta, blocks);
      if !ok {
        return;
      }
      OneMore(blocks, read, next, meta.width);
      read := read + [next];
    }
    assert blocks[..|blocks|] == blocks;
  }

  /** The whole way: what comes back denotes exactly the candidates that were handed in, in order; only a
      failing call or an empty block stops it. */
  method RoundTrip(meta: Metadata, calls: seq<Addition>, file: File) returns (ok: bool, read: seq<Block>)
    requires ValidMetadata(meta) && ValidAdditions(calls, meta.width)
    requires file.content == [] && file.pos == 0
    modifies file
    ensures ok ==> SameBlocks(Stored(calls, |calls|, meta.width), read, meta.width) && file.faulted == old(file.faulted)
    ensures ok ==>
      Candidates(read, |read|, meta.alignment, meta.width) == Marked(calls, |calls|, meta.alignment, meta.width)
    ensures !ok ==> file.faulted || exists call <- calls :: !Storable(call, meta.width)
  {
    hide ValidMetadata, ValidStore, StoreFile, Candidates, Marked, Stored, SameBlock, ValidAdditions;
    read := [];
    WidthIs(meta);
    if forall i :: 0 <= i < |calls| ==> Storable(calls[i], meta.width) {
      StorableReadBack(calls, |calls|, meta.width);
    }
    ok := WriteStore(meta, calls, file);
    if ok {
      ghost var blocks := Stored(calls, |calls|, meta.width);
      ok, read := ReadStore(file, meta, blocks);
      if ok {
        SameCandidates(blocks, read, |blocks|, meta.alignment, meta.width);
        StoredKeepsMarked(calls, |calls|, meta.alignment, meta.width);
      }
    }
  }
}
