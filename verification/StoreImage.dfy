/** A whole snapshot file, where each of its records lies, and the candidate list it denotes.
    Functions of `blocks` and n speak of the first n blocks. */
module StoreImage {
  import opened Bytes
  import Crc
  import opened StoreFormat

  // ----- the file -----

  function Total(blocks: seq<Block>, n: nat): nat
    requires n <= |blocks|
  {
    if n == 0 then 0 else Total(blocks, n - 1) + Count(blocks[n - 1])
  }

  function BlocksImage(blocks: seq<Block>, n: nat, width: nat): seq<byte>
    requires n <= |blocks|
  {
    if n == 0 then []
    else BlocksImage(blocks, n - 1, width) + BlockImage(blocks[n - 1], Total(blocks, n - 1), width)
  }

  function OffsetOf(blocks: seq<Block>, n: nat, width: nat): (r: nat)
    requires n <= |blocks|
    ensures r >= HEADER_SIZE
  {
    HEADER_SIZE + |BlocksImage(blocks, n, width)|
  }

  function EntryOf(blocks: seq<Block>, i: nat, width: nat): IndexEntry
    requires i < |blocks|
  {
    IndexEntry(OffsetOf(blocks, i, width), Total(blocks, i), blocks[i].base, blocks[i].slots, Count(blocks[i]))
  }

  function IndexImage(blocks: seq<Block>, n: nat, width: nat): (s: seq<byte>)
    requires n <= |blocks|
    ensures |s| == ENTRY_SIZE * n
  {
    if n == 0 then [] else IndexImage(blocks, n - 1, width) + EncodeEntry(EntryOf(blocks, n - 1, width))
  }

  function InitialHeader(meta: Metadata): Header {
    Header(STORE_MAGIC, STORE_VERSION, HEADER_SIZE, meta, 0, 0, 0, 0, 0, 0)
  }

  /** The header's own checksum is taken with its field zero. */
  function HeaderCrc(h: Header): nat {
    Crc.Checksum(EncodeHeader(h.(headerCrc := 0)))
  }

  function CountedHeader(meta: Metadata, blocks: seq<Block>): Header {
    InitialHeader(meta).(candidateCount := Total(blocks, |blocks|), blockCount := |blocks|,
                         dataBytes := |BlocksImage(blocks, |blocks|, meta.width)|)
  }

  function FinalHeader(meta: Metadata, blocks: seq<Block>): Header {
    var h := CountedHeader(meta, blocks).(indexOffset := OffsetOf(blocks, |blocks|, meta.width));
    h.(headerCrc := HeaderCrc(h))
  }

  function StoreFile(meta: Metadata, blocks: seq<Block>): seq<byte> {
    EncodeHeader(FinalHeader(meta, blocks)) + BlocksImage(blocks, |blocks|, meta.width)
    + IndexImage(blocks, |blocks|, meta.width)
  }

  ghost predicate ValidMetadata(m: Metadata) {
    1 <= m.width <= 8 && Fits(MetadataFields(m), METADATA_WIDTHS)
  }

  ghost predicate ValidBlocks(blocks: seq<Block>, width: nat) {
    forall i :: 0 <= i < |blocks| ==> ValidBlock(blocks[i], width)
  }

  ghost predicate AllReadable(blocks: seq<Block>, width: nat) {
    forall i :: 0 <= i < |blocks| ==> Readable(blocks[i], width)
  }

  /** The snapshots a writer can produce: the file is no longer than a `long` can seek. */
  ghost predicate ValidStore(meta: Metadata, blocks: seq<Block>) {
    && ValidMetadata(meta)
    && ValidBlocks(blocks, meta.width)
    && OffsetOf(blocks, |blocks|, meta.width) + ENTRY_SIZE * |blocks| <= LONG_MAX
  }

  // ----- a block appended -----

  lemma {:induction false} PrefixStable(a: seq<Block>, b: seq<Block>, n: nat, width: nat)
    requires n <= |a|
    ensures Total(a + b, n) == Total(a, n)
    ensures BlocksImage(a + b, n, width) == BlocksImage(a, n, width)
  {
    hide BlockImage, Count;
    if n == 0 {
    } else {
      PrefixStable(a, b, n - 1, width);
    }
  }

  // ----- where the records lie -----

  lemma ImageBound(b: Block, cumulative: nat, width: nat)
    requires ValidBlock(b, width)
    ensures Count(b) + BLOCK_SIZE <= |BlockImage(b, cumulative, width)|
  {
    hide Payload, Count;
    PayloadFits(b, width);
  }

  lemma {:induction false} TotalBound(blocks: seq<Block>, n: nat, width: nat)
    requires n <= |blocks| && ValidBlocks(blocks, width)
    ensures Total(blocks, n) + BLOCK_SIZE * n <= |BlocksImage(blocks, n, width)|
  {
    hide BlockImage, Count;
    if n == 0 {
    } else {
      TotalBound(blocks, n - 1, width);
      ImageBound(blocks[n - 1], Total(blocks, n - 1), width);
    }
  }

  lemma {:induction false} BlockAt(blocks: seq<Block>, n: nat, width: nat, i: nat)
    requires i < n <= |blocks|
    ensures |BlocksImage(blocks, i + 1, width)|
         == |BlocksImage(blocks, i, width)| + |BlockImage(blocks[i], Total(blocks, i), width)|
    ensures |BlocksImage(blocks, i + 1, width)| <= |BlocksImage(blocks, n, width)|
    ensures BlocksImage(blocks, n, width)[|BlocksImage(blocks, i, width)|..|BlocksImage(blocks, i + 1, width)|]
         == BlockImage(blocks[i], Total(blocks, i), width)
  {
    hide BlockImage, Count;
    if i == n - 1 {
    } else {
      BlockAt(blocks, n - 1, width, i);
    }
  }

  lemma {:induction false} EntryAt(blocks: seq<Block>, n: nat, width: nat, i: nat)
    requires i < n <= |blocks|
    ensures IndexImage(blocks, n, width)[ENTRY_SIZE * i..ENTRY_SIZE * i + ENTRY_SIZE]
         == EncodeEntry(EntryOf(blocks, i, width))
  {
    hide EncodeEntry, EntryOf;
    if i == n - 1 {
    } else {
      EntryAt(blocks, n - 1, width, i);
    }
  }

  lemma MiddleSlice(a: seq<byte>, b: seq<byte>, c: seq<byte>, from: nat, to: nat)
    requires from <= to <= |b|
    ensures (a + b + c)[|a| + from..|a| + to] == b[from..to]
  {
  }

  /** Block i in any file that starts with a header and the first n blocks. */
  lemma BlockInFile(h: seq<byte>, blocks: seq<Block>, n: nat, width: nat, tail: seq<byte>, i: nat)
    requires |h| == HEADER_SIZE && i < n <= |blocks| && ValidBlocks(blocks, width) && Total(blocks, i) < U64_LIMIT
    ensures OffsetOf(blocks, i + 1, width) == OffsetOf(blocks, i, width) + BLOCK_SIZE + |Payload(blocks[i], width)|
    ensures OffsetOf(blocks, i + 1, width) <= OffsetOf(blocks, n, width)
    ensures (h + BlocksImage(blocks, n, width) + tail)[OffsetOf(blocks, i, width)..OffsetOf(blocks, i + 1, width)]
         == BlockImage(blocks[i], Total(blocks, i), width)
    ensures DecodeBlockHeader(BlockImage(blocks[i], Total(blocks, i), width)[..BLOCK_SIZE])
         == HeaderOf(blocks[i], Total(blocks, i), width)
    ensures BlockImage(blocks[i], Total(blocks, i), width)[BLOCK_SIZE..] == Payload(blocks[i], width)
  {
    hide BlocksImage, EncodeBlockHeader, DecodeBlockHeader, HeaderOf, Payload;
    BlockAt(blocks, n, width, i);
    MiddleSlice(h, BlocksImage(blocks, n, width), tail,
                |BlocksImage(blocks, i, width)|, |BlocksImage(blocks, i + 1, width)|);
    BlockHeaderFits(blocks[i], Total(blocks, i), width);
    BlockHeaderRoundTrip(HeaderOf(blocks[i], Total(blocks, i), width));
  }

  lemma {:induction false} TotalFits(meta: Metadata, blocks: seq<Block>, n: nat)
    requires ValidStore(meta, blocks) && n <= |blocks|
    ensures Total(blocks, n) <= Total(blocks, |blocks|) <= LONG_MAX
    ensures OffsetOf(blocks, n, meta.width) <= OffsetOf(blocks, |blocks|, meta.width) <= LONG_MAX
    decreases |blocks| - n
  {
    hide Payload, BlockImage, Count, ValidBlock, ValidMetadata, Representation, Slots;
    TotalBound(blocks, |blocks|, meta.width);
    if n == |blocks| {
    } else {
      TotalFits(meta, blocks, n + 1);
    }
  }

  lemma EntryFits(meta: Metadata, blocks: seq<Block>, i: nat)
    requires ValidStore(meta, blocks) && i < |blocks|
    ensures Fits(EntryFields(EntryOf(blocks, i, meta.width)), ENTRY_WIDTHS)
  {
    hide BlocksImage, Total, Slots;
    TotalFits(meta, blocks, i);
    PayloadFits(blocks[i], meta.width);
    WidthLimits();
  }

  lemma EntryInFile(meta: Metadata, blocks: seq<Block>, i: nat)
    requires ValidStore(meta, blocks) && i < |blocks|
    ensures |StoreFile(meta, blocks)| == OffsetOf(blocks, |blocks|, meta.width) + ENTRY_SIZE * |blocks|
    ensures var at := OffsetOf(blocks, |blocks|, meta.width) + ENTRY_SIZE * i;
            DecodeEntry(StoreFile(meta, blocks)[at..at + ENTRY_SIZE]) == EntryOf(blocks, i, meta.width)
  {
    hide BlocksImage, EncodeEntry, DecodeEntry, EntryOf, EncodeHeader, FinalHeader, ValidStore, IndexImage;
    var w, n := meta.width, |blocks|;
    EntryAt(blocks, n, w, i);
    EntryFits(meta, blocks, i);
    EntryRoundTrip(EntryOf(blocks, i, w));
    var front := EncodeHeader(FinalHeader(meta, blocks)) + BlocksImage(blocks, n, w);
    MiddleSlice(front, IndexImage(blocks, n, w), [], ENTRY_SIZE * i, ENTRY_SIZE * i + ENTRY_SIZE);
    assert front + IndexImage(blocks, n, w) + [] == StoreFile(meta, blocks);
  }

  lemma FinalHeaderFits(meta: Metadata, blocks: seq<Block>)
    requires ValidStore(meta, blocks)
    ensures HeaderFits(FinalHeader(meta, blocks))
  {
    hide BlocksImage, Total, Crc.Checksum, EncodeHeader, ValidBlocks;
    var h := FinalHeader(meta, blocks);
    TotalFits(meta, blocks, 0);
    BlockCountFits(meta, blocks);
    Crc.ChecksumBound(EncodeHeader(h.(headerCrc := 0)));
    TotalsFit(h);
    WidthLimits();
    assert h.metadata == meta;
  }

  lemma BlockCountFits(meta: Metadata, blocks: seq<Block>)
    requires ValidStore(meta, blocks)
    ensures |blocks| <= LONG_MAX
  {
    TotalBound(blocks, |blocks|, meta.width);
  }

  lemma TotalsFit(h: Header)
    requires h.candidateCount < U64_LIMIT && h.blockCount < U64_LIMIT && h.indexOffset < U64_LIMIT
    requires h.dataBytes < U64_LIMIT && h.headerCrc < U32_LIMIT && h.reserved < U32_LIMIT
    ensures Fits(TotalsFields(h), TOTALS_WIDTHS)
  {
    WidthLimits();
  }

  lemma HeaderInFile(meta: Metadata, blocks: seq<Block>)
    requires ValidStore(meta, blocks)
    ensures |StoreFile(meta, blocks)| == OffsetOf(blocks, |blocks|, meta.width) + ENTRY_SIZE * |blocks|
    ensures DecodeHeader(StoreFile(meta, blocks)[..HEADER_SIZE]) == FinalHeader(meta, blocks)
  {
    hide FinalHeader, EncodeHeader, DecodeHeader, HeaderFits, BlocksImage, IndexImage;
    FinalHeaderFits(meta, blocks);
    HeaderRoundTrip(FinalHeader(meta, blocks));
    assert StoreFile(meta, blocks)[..HEADER_SIZE] == EncodeHeader(FinalHeader(meta, blocks));
  }

  lemma FinalCounts(meta: Metadata, blocks: seq<Block>)
    ensures FinalHeader(meta, blocks).indexOffset == OffsetOf(blocks, |blocks|, meta.width)
    ensures FinalHeader(meta, blocks).candidateCount == Total(blocks, |blocks|)
    ensures FinalHeader(meta, blocks).blockCount == |blocks|
    ensures FinalHeader(meta, blocks).metadata == meta
  {
  }

  // ----- the candidate list -----

  function AddressOf(base: nat, slot: nat, alignment: nat): nat {
    (base + slot * alignment) % U64_LIMIT
  }

  /** The addresses of the listed slots. */
  function SlotAddresses(slots: seq<nat>, base: nat, alignment: nat): (r: seq<nat>)
    ensures |r| == |slots|
  {
    seq(|slots|, i requires 0 <= i < |slots| => AddressOf(base, slots[i], alignment))
  }

  lemma SlotAddressesConcat(a: seq<nat>, b: seq<nat>, base: nat, alignment: nat)
    ensures SlotAddresses(a + b, base, alignment) == SlotAddresses(a, base, alignment) + SlotAddresses(b, base, alignment)
  {
  }

  function BlockAddresses(b: Block, alignment: nat): (r: seq<nat>)
    ensures |r| == Count(b)
  {
    SlotAddresses(Slots(b.mask, b.slots), b.base, alignment)
  }

  /** The plain enumeration: every candidate slot of every block, in order. */
  function Addresses(blocks: seq<Block>, n: nat, alignment: nat): (r: seq<nat>)
    requires n <= |blocks|
    ensures |r| == Total(blocks, n)
  {
    if n == 0 then [] else Addresses(blocks, n - 1, alignment) + BlockAddresses(blocks[n - 1], alignment)
  }
}
