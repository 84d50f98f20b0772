/** searchStoreWriterOpen, AddBlock, Finish and Abort. */
module StoreWriter {
  import opened Bytes
  import Crc
  import opened Files
  import opened StoreFormat
  import opened StoreImage
  import opened Options

  function FullMask(slots: nat): (m: seq<byte>)
    ensures |m| == MaskSize(slots)
  {
    seq(MaskSize(slots), _ => 255)
  }

  lemma FullMaskTest(slots: nat, slot: nat)
    requires slot < slots
    ensures MaskBit(FullMask(slots), slot)
  {
    LowBitsTest(8, slot % 8);
    assert Pow2(8) == 256;
  }

  /** The arguments of AddBlock as a block; without a mask every slot is a candidate. */
  function BlockOf(base: nat, slots: nat, values: seq<byte>, mask: Option<seq<byte>>, width: nat): Block
    requires slots * width <= |values|
    requires mask.Some? ==> MaskSize(slots) <= |mask.value|
  {
    BlockData(base, slots, values[..slots * width],
              if mask.Some? then mask.value[..MaskSize(slots)] else FullMask(slots))
  }

  lemma SlotsOfFullMask(slots: nat)
    ensures |Slots(FullMask(slots), slots)| == slots
  {
    forall s: nat | s < slots
      ensures MaskBit(FullMask(slots), s)
    {
      FullMaskTest(slots, s);
    }
    SlotsAll(FullMask(slots), slots);
  }

  method CountCandidates(mask: seq<byte>, slotCount: nat) returns (count: nat)
    requires slotCount <= 8 * |mask|
    ensures count == |Slots(mask, slotCount)|
  {
    count := 0;
    for slot := 0 to slotCount
      invariant count == |Slots(mask, slot)|
    {
      if MaskBit(mask, slot) {
        count := count + 1;
      }
    }
  }

  /** One sparse entry appended at the cursor. */
  method PutEntry(payload: array<byte>, cursor: nat, slot: nat, value: seq<byte>) returns (next: nat)
    requires cursor + 4 + |value| <= payload.Length
    modifies payload
    ensures next == cursor + 4 + |value|
    ensures payload[..next] == old(payload[..cursor]) + EncodeLe(slot, 4) + value
  {
    CopyInto(payload, cursor, EncodeLe(slot, 4));
    CopyInto(payload, cursor + 4, value);
    next := cursor + 4 + |value|;
  }

  lemma {:induction false} SlotsMonotone(mask: seq<byte>, m: nat, n: nat)
    requires m <= n <= 8 * |mask|
    ensures |Slots(mask, m)| <= |Slots(mask, n)|
    decreases n - m
  {
    if m == n {
    } else {
      SlotsMonotone(mask, m + 1, n);
    }
  }

  lemma SparseStep(b: Block, width: nat, slot: nat)
    requires ValidBlock(b, width) && slot < b.slots && MaskBit(b.mask, slot)
    ensures Inside(slot, b.values, width)
    ensures |Slots(b.mask, slot + 1)| * (4 + width) == |Slots(b.mask, slot)| * (4 + width) + 4 + width
    ensures |Slots(b.mask, slot + 1)| * (4 + width) <= Count(b) * (4 + width)
    ensures SparsePayload(Slots(b.mask, slot + 1), b.values, width)
         == SparsePayload(Slots(b.mask, slot), b.values, width) + EncodeLe(slot, 4) + Value(b.values, slot, width)
  {
    var before := Slots(b.mask, slot);
    assert Slots(b.mask, slot + 1) == before + [slot];
    assert (before + [slot])[..|before|] == before;
    SlotsMonotone(b.mask, slot + 1, b.slots);
    NextMultiple(|before|, Count(b), 4 + width);
    MulSuccessor(|before|, 4 + width);
    NextMultiple(slot, b.slots, width);
  }

  lemma SparseEmpty(values: seq<byte>, width: nat)
    ensures SparsePayload([], values, width) == []
  {
  }

  method FillSparse(b: Block, width: nat, payload: array<byte>)
    requires ValidBlock(b, width) && payload.Length == Count(b) * (4 + width)
    modifies payload
    ensures payload[..] == SparsePayload(Slots(b.mask, b.slots), b.values, width)
  {
    hide EncodeLe, Value, ValidBlock, SparsePayload, MaskBit;
    var cursor := 0;
    assert Slots(b.mask, 0) == [];
    SparseEmpty(b.values, width);
    for slot := 0 to b.slots
      invariant cursor == |Slots(b.mask, slot)| * (4 + width) <= payload.Length
      invariant payload[..cursor] == SparsePayload(Slots(b.mask, slot), b.values, width)
    {
      if MaskBit(b.mask, slot) {
        SparseStep(b, width, slot);
        cursor := PutEntry(payload, cursor, slot, Value(b.values, slot, width));
      } else {
        assert Slots(b.mask, slot + 1) == Slots(b.mask, slot);
      }
    }
    assert payload[..payload.Length] == payload[..];
  }

  method BuildPayload(b: Block, width: nat, representation: nat, payloadSize: nat) returns (payload: array<byte>)
    requires ValidBlock(b, width) && representation == Representation(b, width)
    requires payloadSize == |Payload(b, width)|
    ensures fresh(payload) && payload[..] == Payload(b, width)
  {
    payload := new byte[payloadSize];
    PayloadLength(b, width);
    if representation == ALL {
      CopyInto(payload, 0, b.values);
    } else if representation == BITMAP {
      CopyInto(payload, 0, b.mask);
      CopyInto(payload, |b.mask|, b.values);
    } else {
      FillSparse(b, width, payload);
    }
  }

  /** What AddBlock adds to the snapshot: nothing when no slot is a candidate. */
  function Added(b: Block): seq<Block> {
    if Count(b) == 0 then [] else [b]
  }

  /** The file of a writer that has not failed: first header, then the blocks so far. */
  function PartialFile(meta: Metadata, blocks: seq<Block>): seq<byte> {
    EncodeHeader(InitialHeader(meta)) + BlocksImage(blocks, |blocks|, meta.width)
  }

  lemma PartialFileGrows(meta: Metadata, blocks: seq<Block>, b: Block)
    ensures Total(blocks + [b], |blocks| + 1) == Total(blocks, |blocks|) + Count(b)
    ensures BlocksImage(blocks + [b], |blocks| + 1, meta.width)
         == BlocksImage(blocks, |blocks|, meta.width) + BlockImage(b, Total(blocks, |blocks|), meta.width)
  {
    hide BlockImage, Count;
    PrefixStable(blocks, [b], |blocks|, meta.width);
  }

  /** Appending to a file whose position is its end. */
  lemma AppendIsConcat(content: seq<byte>, data: seq<byte>)
    ensures Overwrite(content, |content|, data) == content + data
  {
  }

  method ChooseEncoding(b: Block, candidateCount: nat, width: nat) returns (representation: nat, payloadSize: nat)
    requires Shaped(b, width) && candidateCount == Count(b)
    ensures representation == Representation(b, width) && payloadSize == |Payload(b, width)|
  {
    hide Slots, SparsePayload;
    ShapedLength(b, width);
    var allSize := b.slots * width;
    var bitmapSize := MaskSize(b.slots) + allSize;
    var sparseSize := candidateCount * (4 + width);
    representation, payloadSize := ALL, allSize;
    if candidateCount != b.slots {
      representation := if sparseSize < bitmapSize then SPARSE else BITMAP;
      payloadSize := if representation == SPARSE then sparseSize else bitmapSize;
    }
  }

  class Writer {
    var file: File?
    var header: Header
    var failed: bool
    var removed: bool
    ghost var blocks: seq<Block>

    constructor ()
      ensures file == null && !failed && !removed && blocks == []
    {
      file := null;
      header := InitialHeader(Metadata(0, 0, 0, 0, 0, 0, 0, 0, 0, 0, 0, 0, 0));
      failed := false;
      removed := false;
      blocks := [];
    }

    /** Until Finish rewrites it, the file keeps the header it was opened with. */
    ghost predicate Valid()
      reads this, file
    {
      file != null ==>
        && ValidMetadata(header.metadata)
        && ValidBlocks(blocks, header.metadata.width)
        && HEADER_SIZE <= |file.content|
        && file.content[..HEADER_SIZE] == EncodeHeader(InitialHeader(header.metadata))
        && (!failed ==>
              && file.pos == |file.content| <= LONG_MAX
              && header == CountedHeader(header.metadata, blocks)
              && file.content == PartialFile(header.metadata, blocks))
    }

    method Open(meta: Metadata, created: File?) returns (ok: bool)
      requires ValidMetadata(meta)
      requires created != null ==> created.content == [] && created.pos == 0
      modifies this, created
      ensures Valid()
      ensures ok ==> file == created && created != null && !failed && blocks == [] && header == InitialHeader(meta)
      ensures ok ==> created.faulted == old(created.faulted)
      ensures !ok ==> file == null && (created == null || (created.faulted && removed))
    {
      hide EncodeHeader, ValidMetadata, ValidBlock, HeaderFits;
      file := created;
      failed, removed, blocks := false, false, [];
      header := InitialHeader(meta);
      if file == null {
        return false;
      }
      var wrote := file.Write(EncodeHeader(header));
      if !wrote {
        Abort();
        return false;
      }
      assert file.content == EncodeHeader(header);
      ok := true;
    }

    method AddBlock(base: nat, slotCount: nat, values: seq<byte>, candidateMask: Option<seq<byte>>)
      returns (ok: bool)
      requires Valid()
      requires base < U64_LIMIT && slotCount * header.metadata.width <= |values|
      requires slotCount + 7 < U32_LIMIT
      requires candidateMask.Some? ==> MaskSize(slotCount) <= |candidateMask.value|
      modifies this, file
      ensures Valid() && file == old(file) && header.metadata == old(header.metadata) && removed == old(removed)
      ensures ok ==> old(file) != null && !failed && !old(failed) && slotCount > 0
      ensures ok ==> blocks == old(blocks) + Added(BlockOf(base, slotCount, values, candidateMask, header.metadata.width))
      ensures ok ==> file.faulted == old(file.faulted)
      ensures !ok ==> blocks == old(blocks)
      ensures !ok ==>
        || old(file) == null || old(failed) || slotCount == 0
        || (failed && (file.faulted
                       || PayloadBytes(BlockOf(base, slotCount, values, candidateMask, header.metadata.width),
                                       header.metadata.width) >= U32_LIMIT))
      ensures old(failed) ==> failed
    {
      hide EncodeHeader, CountedHeader, PartialFile, MetadataFields, Fits, ValidBlocks, InitialHeader, MaskBit;
      if file == null || failed || slotCount == 0 {
        return false;
      }
      var width := header.metadata.width;
      ghost var b := BlockOf(base, slotCount, values, candidateMask, width);
      var candidateCount := slotCount;
      if candidateMask.Some? {
        candidateCount := CountCandidates(candidateMask.value, slotCount);
        SlotsOfPrefix(candidateMask.value, MaskSize(slotCount), slotCount);
      } else {
        SlotsOfFullMask(slotCount);
      }
      assert candidateCount == Count(b);
      if candidateCount == 0 {
        return true;
      }
      ok := WriteBlock(BlockOf(base, slotCount, values, candidateMask, width), candidateCount);
    }

    /** AddBlock from the choice of an encoding on. */
    method WriteBlock(b: Block, candidateCount: nat) returns (ok: bool)
      requires Valid() && file != null && !failed
      requires Shaped(b, header.metadata.width) && candidateCount == Count(b)
      modifies this, file
      ensures Valid() && file == old(file) && header.metadata == old(header.metadata) && removed == old(removed)
      ensures ok ==> !failed && blocks == old(blocks) + [b] && file.faulted == old(file.faulted)
      ensures !ok ==> failed && blocks == old(blocks)
      ensures !ok ==> file.faulted || PayloadBytes(b, header.metadata.width) >= U32_LIMIT
    {
      hide Slots, EncodeHeader, SparsePayload, BlocksImage, Total, MetadataFields;
      var width := header.metadata.width;
      ShapedLength(b, width);
      var representation, payloadSize := ChooseEncoding(b, candidateCount, width);
      if payloadSize >= U32_LIMIT {
        failed := true;
        return false;
      }
      var granted: bool := *;
      if !granted {
        failed, file.faulted := true, true;
        return false;
      }
      var payload := BuildPayload(b, width, representation, payloadSize);
      var crc := Crc.ComputeCrc32(payload[..]);
      var block := BlockHeader(BLOCK_MAGIC, representation, width, 0, b.base, header.candidateCount,
                               b.slots, candidateCount, payloadSize, crc);
      ok := AppendBlock(b, block, payload[..]);
    }

    method AppendBlock(ghost b: Block, block: BlockHeader, payload: seq<byte>) returns (ok: bool)
      requires Valid() && file != null && !failed
      requires ValidBlock(b, header.metadata.width) && payload == Payload(b, header.metadata.width)
      requires block == HeaderOf(b, header.candidateCount, header.metadata.width)
      modifies this, file
      ensures Valid() && file == old(file) && header.metadata == old(header.metadata) && removed == old(removed)
      ensures ok ==> !failed && blocks == old(blocks) + [b] && file.faulted == old(file.faulted)
      ensures !ok ==> failed && file.faulted && blocks == old(blocks)
    {
      hide EncodeHeader, EncodeBlockHeader, Payload, Representation, Slots, BlocksImage, Total, ValidMetadata;
      hide ValidBlock, Crc.Checksum;
      ghost var before := file.content;
      AppendIsConcat(before, EncodeBlockHeader(block));
      ok := file.Write(EncodeBlockHeader(block));
      if ok {
        AppendIsConcat(file.content, payload);
        ok := file.Write(payload);
      }
      assert file.content[..HEADER_SIZE] == before[..HEADER_SIZE];
      if !ok {
        failed := true;
        return false;
      }
      PartialFileGrows(header.metadata, blocks, b);
      header := header.(candidateCount := header.candidateCount + block.candidateCount,
                        blockCount := header.blockCount + 1,
                        dataBytes := header.dataBytes + BLOCK_SIZE + |payload|);
      blocks := blocks + [b];
    }

    method Abort()
      modifies this
      ensures file == null && removed && blocks == old(blocks) && header == old(header) && failed == old(failed)
    {
      file := null;
      removed := true;
    }

    method WriteIndex() returns (ok: bool)
      requires Valid() && file != null && !failed
      modifies this, file
      ensures file == old(file) && blocks == old(blocks) && failed == old(failed) && removed == old(removed)
      ensures HEADER_SIZE <= |file.content|
      ensures file.content[..HEADER_SIZE] == EncodeHeader(InitialHeader(header.metadata))
      ensures header == old(header).(indexOffset := OffsetOf(blocks, |blocks|, header.metadata.width))
      ensures ok ==> file.faulted == old(file.faulted)
      ensures ok ==> file.content == PartialFile(header.metadata, blocks)
                                   + IndexImage(blocks, |blocks|, header.metadata.width)
      ensures ok ==> |file.content| <= LONG_MAX
      ensures !ok ==> file.faulted
    {
      hide EncodeHeader, ValidMetadata, ValidBlocks, BlocksImage, IndexImage, Total, EntryOf;
      header := header.(indexOffset := HEADER_SIZE + header.dataBytes);
      ghost var meta := header.metadata;
      var offset := HEADER_SIZE;
      EmptyPrefix(blocks, meta.width);
      var index := 0;
      ok := true;
      while index < header.blockCount
        invariant index <= header.blockCount == |blocks|
        invariant file == old(file) && blocks == old(blocks) && failed == old(failed) && removed == old(removed)
        invariant header == old(header).(indexOffset := OffsetOf(blocks, |blocks|, meta.width))
        invariant file.content == PartialFile(meta, blocks) + IndexImage(blocks, index, meta.width)
        invariant |file.content| <= LONG_MAX && file.faulted == old(file.faulted)
        invariant offset == OffsetOf(blocks, index, meta.width)
      {
        ghost var was := file.content;
        ok, offset := IndexBlock(file, meta, blocks, index, offset);
        if !ok {
          SamePrefix(was, file.content, HEADER_SIZE);
          return;
        }
        index := index + 1;
      }
    }

    method RewriteHeader() returns (ok: bool)
      requires file != null && HEADER_SIZE <= |file.content|
      modifies file
      ensures ok ==> file.content == EncodeHeader(header) + old(file.content)[HEADER_SIZE..]
      ensures ok ==> file.faulted == old(file.faulted)
      ensures !ok ==> file.faulted
    {
      hide EncodeHeader;
      ok := file.Seek(0);
      if ok {
        ok := file.Write(EncodeHeader(header));
      }
      if ok {
        var flushed: bool := *;
        if !flushed {
          file.faulted := true;
          ok := false;
        }
      }
    }

    method Finish() returns (ok: bool)
      requires Valid()
      modifies this, file
      ensures file == null
      ensures ok ==> old(file) != null && !old(failed) && removed == old(removed)
      ensures ok ==> ValidStore(header.metadata, blocks)
      ensures ok ==> old(file).content == StoreFile(header.metadata, blocks)
      ensures ok ==> old(file).faulted == old(file.faulted)
      ensures !ok ==> removed && (old(file) == null || old(failed) || old(file).faulted)
      ensures blocks == old(blocks) && header.metadata == old(header.metadata)
    {
      hide EncodeHeader, ValidMetadata, ValidBlocks, BlocksImage, IndexImage, Total, EntryOf, HeaderCrc;
      ok := file != null && !failed;
      if ok {
        ok := WriteIndex();
      }
      if !ok {
        Abort();
        return false;
      }
      header := header.(headerCrc := HeaderCrc(header));
      assert header == FinalHeader(header.metadata, blocks) by { HeaderCrcIgnoresItself(header, header.headerCrc); }
      ok := RewriteHeader();
      file := null;
      if !ok {
        removed := true;
      }
    }
  }

  lemma HeaderCrcIgnoresItself(h: Header, crc: nat)
    ensures HeaderCrc(h.(headerCrc := crc)) == HeaderCrc(h)
  {
  }

  lemma EmptyPrefix(blocks: seq<Block>, width: nat)
    ensures BlocksImage(blocks, 0, width) == [] && IndexImage(blocks, 0, width) == []
    ensures OffsetOf(blocks, 0, width) == HEADER_SIZE
  {
  }

  lemma SamePrefix(before: seq<byte>, after: seq<byte>, n: nat)
    requires n <= |before| <= |after| && after[..|before|] == before
    ensures after[..n] == before[..n]
  {
    assert after[..n] == after[..|before|][..n];
  }

  lemma Associates(a: seq<byte>, b: seq<byte>, c: seq<byte>)
    ensures (a + b) + c == a + (b + c)
  {
  }

  /** The header of a block, read back from the file. */
  method ReadBack(file: File, offset: nat) returns (ok: bool, block: BlockHeader)
    requires offset + BLOCK_SIZE <= |file.content|
    modifies file`pos, file`faulted
    ensures ok ==> block == DecodeBlockHeader(file.content[offset..offset + BLOCK_SIZE])
    ensures ok ==> file.faulted == old(file.faulted)
    ensures !ok ==> file.faulted
  {
    hide DecodeBlockHeader;
    var data := [];
    block := BlockHeader(0, 0, 0, 0, 0, 0, 0, 0, 0, 0);
    ok := file.Seek(offset);
    if ok {
      ok, data := file.Read(BLOCK_SIZE);
      if ok {
        block := DecodeBlockHeader(data);
      }
    }
  }

  /** Appends to the file; a failure may leave part of the entry behind, but nothing before it changes. */
  method AppendEntry(file: File, entry: seq<byte>) returns (ok: bool)
    modifies file
    ensures ok ==> file.content == old(file.content) + entry
    ensures ok ==> |file.content| <= LONG_MAX && file.faulted == old(file.faulted)
    ensures |old(file.content)| <= |file.content| && file.content[..|old(file.content)|] == old(file.content)
    ensures !ok ==> file.faulted
  {
    ghost var before := file.content;
    assert before[..|before|] == before;
    ok := file.Seek(|file.content|);
    if ok {
      AppendIsConcat(before, entry);
      ok := file.Write(entry);
      if !ok {
        ghost var part :| 0 <= part <= |entry| && file.content == Overwrite(before, |before|, entry[..part]);
        AppendIsConcat(before, entry[..part]);
      }
    }
  }

  /** One index entry, built from the block header read back from the file. */
  method IndexBlock(file: File, ghost meta: Metadata, ghost blocks: seq<Block>, ghost index: nat, offset: nat)
    returns (ok: bool, next: nat)
    requires index < |blocks| && ValidBlocks(blocks, meta.width) && |file.content| <= LONG_MAX
    requires file.content == PartialFile(meta, blocks) + IndexImage(blocks, index, meta.width)
    requires offset == OffsetOf(blocks, index, meta.width)
    modifies file
    ensures ok ==> file.content == PartialFile(meta, blocks) + IndexImage(blocks, index + 1, meta.width)
    ensures ok ==> next == OffsetOf(blocks, index + 1, meta.width)
    ensures ok ==> |file.content| <= LONG_MAX && file.faulted == old(file.faulted)
    ensures |old(file.content)| <= |file.content| && file.content[..|old(file.content)|] == old(file.content)
    ensures !ok ==> file.faulted
  {
    hide EncodeHeader, ValidBlocks, BlocksImage, IndexImage, Total, EntryOf, OffsetOf, DecodeBlockHeader, EncodeEntry,
         PartialFile, Payload, HeaderOf, Count;
    ghost var before := file.content;
    assert before[..|before|] == before;
    next := offset;
    EntryReadBack(meta, blocks, index);
    var block;
    ok, block := ReadBack(file, offset);
    if ok && block.magic == BLOCK_MAGIC {
      var entry := IndexEntry(offset, block.cumulativeCandidates, block.base, block.slotCount, block.candidateCount);
      IndexGrows(blocks, index, meta.width);
      ok := AppendEntry(file, EncodeEntry(entry));
      Associates(PartialFile(meta, blocks), IndexImage(blocks, index, meta.width), EncodeEntry(entry));
      next := offset + BLOCK_SIZE + block.payloadSize;
    } else {
      ok := false;
    }
  }

  lemma EntryUnfolds(blocks: seq<Block>, i: nat, width: nat)
    requires i < |blocks|
    ensures EntryOf(blocks, i, width)
         == IndexEntry(OffsetOf(blocks, i, width), Total(blocks, i), blocks[i].base, blocks[i].slots, Count(blocks[i]))
  {
  }

  lemma IndexGrows(blocks: seq<Block>, i: nat, width: nat)
    requires i < |blocks|
    ensures IndexImage(blocks, i + 1, width) == IndexImage(blocks, i, width) + EncodeEntry(EntryOf(blocks, i, width))
  {
  }

  /** While the index is being written, block i reads back as it was written. */
  lemma ReadBackBlock(meta: Metadata, blocks: seq<Block>, i: nat)
    requires i < |blocks| && ValidBlocks(blocks, meta.width)
    requires |PartialFile(meta, blocks)| <= LONG_MAX
    ensures var content := PartialFile(meta, blocks) + IndexImage(blocks, i, meta.width);
            var at := OffsetOf(blocks, i, meta.width);
            && at + BLOCK_SIZE <= |content|
            && DecodeBlockHeader(content[at..at + BLOCK_SIZE]) == HeaderOf(blocks[i], Total(blocks, i), meta.width)
    ensures OffsetOf(blocks, i + 1, meta.width)
         == OffsetOf(blocks, i, meta.width) + BLOCK_SIZE + |Payload(blocks[i], meta.width)|
  {
    hide EncodeHeader, BlocksImage, IndexImage, DecodeBlockHeader, HeaderOf, Payload;
    var w, n := meta.width, |blocks|;
    BlockEnds(blocks, n, w, i);
    TotalBound(blocks, i, w);
    var h, tail := EncodeHeader(InitialHeader(meta)), IndexImage(blocks, i, w);
    BlockInFile(h, blocks, n, w, tail, i);
    var content := h + BlocksImage(blocks, n, w) + tail;
    var at, image := OffsetOf(blocks, i, w), BlockImage(blocks[i], Total(blocks, i), w);
    PrefixOfSlice(content, at, OffsetOf(blocks, i + 1, w), BLOCK_SIZE);
  }

  lemma PrefixOfSlice(s: seq<byte>, i: nat, j: nat, n: nat)
    requires i + n <= j <= |s|
    ensures s[i..i + n] == s[i..j][..n]
  {
  }

  /** The entry made from a block header read back is the one the index needs. */
  lemma EntryReadBack(meta: Metadata, blocks: seq<Block>, i: nat)
    requires i < |blocks| && ValidBlocks(blocks, meta.width)
    requires |PartialFile(meta, blocks)| <= LONG_MAX
    ensures var content := PartialFile(meta, blocks) + IndexImage(blocks, i, meta.width);
            var at := OffsetOf(blocks, i, meta.width);
            && at + BLOCK_SIZE <= |content|
            && var b := DecodeBlockHeader(content[at..at + BLOCK_SIZE]);
            && b.magic == BLOCK_MAGIC
            && IndexEntry(at, b.cumulativeCandidates, b.base, b.slotCount, b.candidateCount)
               == EntryOf(blocks, i, meta.width)
            && OffsetOf(blocks, i + 1, meta.width) == at + BLOCK_SIZE + b.payloadSize
  {
    hide EncodeHeader, BlocksImage, IndexImage, DecodeBlockHeader, Payload, OffsetOf, PartialFile, Total, Count;
    ReadBackBlock(meta, blocks, i);
    EntryUnfolds(blocks, i, meta.width);
  }

  lemma BlockEnds(blocks: seq<Block>, n: nat, width: nat, i: nat)
    requires i < n <= |blocks|
    ensures OffsetOf(blocks, i, width) <= OffsetOf(blocks, i + 1, width) <= OffsetOf(blocks, n, width)
  {
    hide BlockImage;
    BlockAt(blocks, n, width, i);
  }
}
