/** The bytes of a search snapshot: header, blocks, index (search_store.h and search_store.c).
    A snapshot is described by its metadata and the blocks that had candidates. */
module StoreFormat {
  import opened Bytes
  import Crc

  const HEADER_SIZE := 160
  const CRC_OFFSET := 152
  const BLOCK_SIZE := 40
  const ENTRY_SIZE := 32
  const STORE_MAGIC := 0x5342_5343
  const STORE_VERSION := 1
  const BLOCK_MAGIC := 0x4B4C_4243
  const ALL := 1
  const BITMAP := 2
  const SPARSE := 3
  const MAXIMUM_PAYLOAD := 0x50000
  const BLOCK_LIMIT := 0x40000

  // ----- the records -----

  datatype Metadata = Metadata(
    processId: nat, titleId: nat, start: nat, end: nat, regionBase: nat, regionOffset: nat,
    alignment: nat, generation: nat, kind: nat, region: nat, backend: nat, width: nat, buildId: nat)

  datatype Header = Header(
    magic: nat, version: nat, headerSize: nat, metadata: Metadata,
    candidateCount: nat, blockCount: nat, indexOffset: nat, dataBytes: nat, headerCrc: nat, reserved: nat)

  datatype BlockHeader = BlockHeader(
    magic: nat, representation: nat, width: nat, reserved: nat, base: nat, cumulativeCandidates: nat,
    slotCount: nat, candidateCount: nat, payloadSize: nat, payloadCrc: nat)

  datatype IndexEntry = IndexEntry(
    fileOffset: nat, cumulativeCandidates: nat, base: nat, slotCount: nat, candidateCount: nat)

  const PREFIX_WIDTHS: seq<nat> := [4, 2, 2]
  const METADATA_WIDTHS: seq<nat> := [8, 8, 8, 8, 8, 8, 8, 8, 4, 4, 4, 4, 32]
  const TOTALS_WIDTHS: seq<nat> := [8, 8, 8, 8, 4, 4]
  const BLOCK_WIDTHS: seq<nat> := [4, 1, 1, 2, 8, 8, 4, 4, 4, 4]
  const ENTRY_WIDTHS: seq<nat> := [8, 8, 8, 4, 4]

  function MetadataFields(m: Metadata): (r: seq<nat>)
    ensures |r| == 13
  {
    [m.processId, m.titleId, m.start, m.end, m.regionBase, m.regionOffset, m.alignment, m.generation,
     m.kind, m.region, m.backend, m.width, m.buildId]
  }

  function TotalsFields(h: Header): (r: seq<nat>)
    ensures |r| == 6
  {
    [h.candidateCount, h.blockCount, h.indexOffset, h.dataBytes, h.headerCrc, h.reserved]
  }

  function BlockFields(b: BlockHeader): seq<nat> {
    [b.magic, b.representation, b.width, b.reserved, b.base, b.cumulativeCandidates,
     b.slotCount, b.candidateCount, b.payloadSize, b.payloadCrc]
  }

  function EntryFields(e: IndexEntry): seq<nat> {
    [e.fileOffset, e.cumulativeCandidates, e.base, e.slotCount, e.candidateCount]
  }

  lemma {:induction false} SizeOfConcat(a: seq<nat>, b: seq<nat>)
    ensures SizeOf(a + b) == SizeOf(a) + SizeOf(b)
  {
    if a == [] {
      assert a + b == b;
    } else {
      assert (a + b)[1..] == a[1..] + b;
      SizeOfConcat(a[1..], b);
    }
  }

  lemma Sizes()
    ensures SizeOf(PREFIX_WIDTHS) == 8 && SizeOf(METADATA_WIDTHS) == 112 && SizeOf(TOTALS_WIDTHS) == 40
    ensures SizeOf(BLOCK_WIDTHS) == BLOCK_SIZE && SizeOf(ENTRY_WIDTHS) == ENTRY_SIZE
  {
    MetadataSize();
    BlockHeaderSize();
  }

  lemma MetadataSize()
    ensures SizeOf(METADATA_WIDTHS) == 112
  {
    var four := [8, 8, 8, 8];
    assert SizeOf(four) == 32;
    SizeOfConcat(four, four);
    SizeOfConcat(four + four, [4, 4, 4, 4, 32]);
    assert METADATA_WIDTHS == four + four + [4, 4, 4, 4, 32];
  }

  lemma BlockHeaderSize()
    ensures SizeOf(BLOCK_WIDTHS) == BLOCK_SIZE
  {
    SizeOfConcat([4, 1, 1, 2], [8, 8, 4, 4, 4, 4]);
    assert BLOCK_WIDTHS == [4, 1, 1, 2] + [8, 8, 4, 4, 4, 4];
  }

  // ----- records as bytes -----

  function EncodeHeader(h: Header): (s: seq<byte>)
    ensures |s| == HEADER_SIZE
  {
    Sizes();
    EncodeFields([h.magic, h.version, h.headerSize], PREFIX_WIDTHS)
    + EncodeFields(MetadataFields(h.metadata), METADATA_WIDTHS)
    + EncodeFields(TotalsFields(h), TOTALS_WIDTHS)
  }

  function DecodePrefix(s: seq<byte>): (f: seq<nat>)
    requires |s| == 8
    ensures |f| == 3
  {
    Sizes();
    DecodeFields(s, PREFIX_WIDTHS)
  }

  function DecodeTotals(s: seq<byte>): (f: seq<nat>)
    requires |s| == 40
    ensures |f| == 6
  {
    Sizes();
    DecodeFields(s, TOTALS_WIDTHS)
  }

  function DecodeMetadata(s: seq<byte>): Metadata
    requires |s| == 112
  {
    Sizes();
    MetadataOf(DecodeFields(s, METADATA_WIDTHS))
  }

  function MetadataOf(m: seq<nat>): Metadata
    requires |m| == 13
  {
    Metadata(m[0], m[1], m[2], m[3], m[4], m[5], m[6], m[7], m[8], m[9], m[10], m[11], m[12])
  }

  lemma MetadataFieldsOf(m: seq<nat>)
    requires |m| == 13
    ensures MetadataFields(MetadataOf(m)) == m
  {
  }

  function DecodeHeader(s: seq<byte>): Header
    requires |s| == HEADER_SIZE
  {
    var p, t := DecodePrefix(s[..8]), DecodeTotals(s[120..]);
    Header(p[0], p[1], p[2], DecodeMetadata(s[8..120]), t[0], t[1], t[2], t[3], t[4], t[5])
  }

  function EncodeBlockHeader(b: BlockHeader): (s: seq<byte>)
    ensures |s| == BLOCK_SIZE
  {
    Sizes();
    EncodeFields(BlockFields(b), BLOCK_WIDTHS)
  }

  function DecodeBlockHeader(s: seq<byte>): (b: BlockHeader)
    requires |s| == BLOCK_SIZE
  {
    Sizes();
    var f := DecodeFields(s, BLOCK_WIDTHS);
    BlockHeader(f[0], f[1], f[2], f[3], f[4], f[5], f[6], f[7], f[8], f[9])
  }

  function EncodeEntry(e: IndexEntry): (s: seq<byte>)
    ensures |s| == ENTRY_SIZE
  {
    Sizes();
    EncodeFields(EntryFields(e), ENTRY_WIDTHS)
  }

  function DecodeEntry(s: seq<byte>): IndexEntry
    requires |s| == ENTRY_SIZE
  {
    Sizes();
    var f := DecodeFields(s, ENTRY_WIDTHS);
    IndexEntry(f[0], f[1], f[2], f[3], f[4])
  }

  ghost predicate HeaderFits(h: Header) {
    && Fits([h.magic, h.version, h.headerSize], PREFIX_WIDTHS)
    && Fits(MetadataFields(h.metadata), METADATA_WIDTHS)
    && Fits(TotalsFields(h), TOTALS_WIDTHS)
  }

  lemma HeaderParts(h: Header)
    ensures SizeOf(PREFIX_WIDTHS) == 8 && SizeOf(METADATA_WIDTHS) == 112 && SizeOf(TOTALS_WIDTHS) == 40
    ensures EncodeHeader(h)[..8] == EncodeFields([h.magic, h.version, h.headerSize], PREFIX_WIDTHS)
    ensures EncodeHeader(h)[8..120] == EncodeFields(MetadataFields(h.metadata), METADATA_WIDTHS)
    ensures EncodeHeader(h)[120..] == EncodeFields(TotalsFields(h), TOTALS_WIDTHS)
  {
    hide SizeOf, EncodeFields, MetadataFields, TotalsFields;
    Sizes();
  }

  lemma HeaderRoundTrip(h: Header)
    requires HeaderFits(h)
    ensures DecodeHeader(EncodeHeader(h)) == h
  {
    HeaderParts(h);
    DecodeEncodeFields([h.magic, h.version, h.headerSize], PREFIX_WIDTHS);
    DecodeEncodeFields(MetadataFields(h.metadata), METADATA_WIDTHS);
    DecodeEncodeFields(TotalsFields(h), TOTALS_WIDTHS);
  }

  /** Every header on disk is the encoding of what it decodes to. */
  lemma HeaderBytes(s: seq<byte>)
    requires |s| == HEADER_SIZE
    ensures EncodeHeader(DecodeHeader(s)) == s
  {
    hide EncodeFields, DecodeFields, DecodeMetadata, MetadataFields, SizeOf, DecodePrefix, DecodeTotals;
    Sizes();
    var h := DecodeHeader(s);
    PrefixBytes(s[..8], h);
    MetadataBytes(s[8..120]);
    TotalsBytes(s[120..], h);
    assert s == s[..8] + s[8..120] + s[120..];
  }

  lemma PrefixBytes(s: seq<byte>, h: Header)
    requires |s| == 8 && [h.magic, h.version, h.headerSize] == DecodePrefix(s)
    ensures EncodeFields([h.magic, h.version, h.headerSize], PREFIX_WIDTHS) == s
  {
    hide EncodeFields, DecodeFields;
    Sizes();
    EncodeDecodeFields(s, PREFIX_WIDTHS);
  }

  lemma MetadataBytes(s: seq<byte>)
    requires |s| == 112
    ensures EncodeFields(MetadataFields(DecodeMetadata(s)), METADATA_WIDTHS) == s
  {
    hide EncodeFields, DecodeFields, MetadataFields, MetadataOf, SizeOf;
    Sizes();
    EncodeDecodeFields(s, METADATA_WIDTHS);
    MetadataFieldsOf(DecodeFields(s, METADATA_WIDTHS));
  }

  lemma TotalsBytes(s: seq<byte>, h: Header)
    requires |s| == 40 && TotalsFields(h) == DecodeTotals(s)
    ensures EncodeFields(TotalsFields(h), TOTALS_WIDTHS) == s
  {
    hide EncodeFields, DecodeFields;
    Sizes();
    EncodeDecodeFields(s, TOTALS_WIDTHS);
  }

  /** The header's own checksum lies at 152; setting it changes those four bytes and nothing else. */
  lemma HeaderWithCrc(h: Header, crc: nat)
    ensures EncodeHeader(h.(headerCrc := crc))
         == EncodeHeader(h)[..CRC_OFFSET] + EncodeLe(crc, 4) + EncodeHeader(h)[CRC_OFFSET + 4..]
  {
    hide EncodeFields, EncodeLe, MetadataFields, TotalsFields, SizeOf;
    Sizes();
    SizeOfCounts();
    TotalsWithCrc(h);
    TotalsWithCrc(h.(headerCrc := crc));
    var front := EncodeFields([h.magic, h.version, h.headerSize], PREFIX_WIDTHS)
                 + EncodeFields(MetadataFields(h.metadata), METADATA_WIDTHS);
    var counts := EncodeFields([h.candidateCount, h.blockCount, h.indexOffset, h.dataBytes], [8, 8, 8, 8]);
    Spliced(front, counts, EncodeLe(h.headerCrc, 4), EncodeLe(h.reserved, 4));
    Spliced(front, counts, EncodeLe(crc, 4), EncodeLe(h.reserved, 4));
  }

  lemma Spliced(front: seq<byte>, counts: seq<byte>, crc: seq<byte>, rest: seq<byte>)
    ensures var s := front + (counts + crc + rest);
            && s[..|front| + |counts|] == front + counts
            && s[|front| + |counts| + |crc|..] == rest
            && s == (front + counts) + crc + rest
  {
  }

  lemma TotalsWithCrc(h: Header)
    ensures EncodeFields(TotalsFields(h), TOTALS_WIDTHS)
         == EncodeFields([h.candidateCount, h.blockCount, h.indexOffset, h.dataBytes], [8, 8, 8, 8])
            + EncodeLe(h.headerCrc, 4) + EncodeLe(h.reserved, 4)
  {
    hide EncodeFields, EncodeLe;
    var a, b := [h.candidateCount, h.blockCount, h.indexOffset, h.dataBytes], [h.headerCrc, h.reserved];
    assert TotalsFields(h) == a + b && TOTALS_WIDTHS == [8, 8, 8, 8] + [4, 4];
    EncodeFieldsConcat(a, b, [8, 8, 8, 8], [4, 4]);
    TwoFields(h.headerCrc, h.reserved);
  }

  lemma TwoFields(x: nat, y: nat)
    ensures EncodeFields([x, y], [4, 4]) == EncodeLe(x, 4) + EncodeLe(y, 4)
  {
    hide EncodeLe;
    assert [x, y][1..] == [y] && [4, 4][1..] == [4] && [y][1..] == [] && [4][1..] == [];
    assert EncodeFields([y], [4]) == EncodeLe(y, 4) + [] == EncodeLe(y, 4);
  }

  lemma SizeOfCounts()
    ensures SizeOf([8, 8, 8, 8]) == 32
  {
    assert [8, 8, 8, 8][1..] == [8, 8, 8] && [8, 8, 8][1..] == [8, 8] && [8, 8][1..] == [8];
  }

  lemma BlockHeaderRoundTrip(b: BlockHeader)
    requires Fits(BlockFields(b), BLOCK_WIDTHS)
    ensures DecodeBlockHeader(EncodeBlockHeader(b)) == b
  {
    Sizes();
    DecodeEncodeFields(BlockFields(b), BLOCK_WIDTHS);
  }

  lemma EntryRoundTrip(e: IndexEntry)
    requires Fits(EntryFields(e), ENTRY_WIDTHS)
    ensures DecodeEntry(EncodeEntry(e)) == e
  {
    Sizes();
    DecodeEncodeFields(EntryFields(e), ENTRY_WIDTHS);
  }

  // ----- one block -----

  /** What a caller hands to the writer: the values of all slots, `width` bytes each, and the mask
      of the slots that are candidates. */
  datatype BlockData = BlockData(base: nat, slots: nat, values: seq<byte>, mask: seq<byte>)

  type Block = b: BlockData | b.slots <= 8 * |b.mask| witness BlockData(0, 0, [], [])

  /** The candidate slots below n, ascending. */
  function Slots(mask: seq<byte>, n: nat): seq<nat>
    requires n <= 8 * |mask|
  {
    if n == 0 then [] else Slots(mask, n - 1) + (if MaskBit(mask, n - 1) then [n - 1] else [])
  }

  predicate Inside(slot: nat, values: seq<byte>, width: nat) {
    slot * width + width <= |values|
  }

  ghost predicate AllInside(slots: seq<nat>, values: seq<byte>, width: nat) {
    forall i :: 0 <= i < |slots| ==> Inside(slots[i], values, width)
  }

  /** The bytes of one slot. */
  function Value(values: seq<byte>, slot: nat, width: nat): (v: seq<byte>)
    ensures Inside(slot, values, width) ==> |v| == width
  {
    if Inside(slot, values, width) then values[slot * width..slot * width + width] else []
  }

  ghost predicate Shaped(b: Block, width: nat) {
    && 1 <= width <= 8
    && b.base < U64_LIMIT
    && 0 < b.slots && b.slots + 7 < U32_LIMIT
    && |b.values| == b.slots * width
    && |b.mask| == MaskSize(b.slots)
    && Slots(b.mask, b.slots) != []
  }

  /** A block the writer can store: the size of its payload fits into 32 bits. */
  ghost predicate ValidBlock(b: Block, width: nat) {
    Shaped(b, width) && PayloadBytes(b, width) < U32_LIMIT
  }

  /** A block the reader accepts. */
  predicate Readable(b: Block, width: nat) {
    |Payload(b, width)| <= MAXIMUM_PAYLOAD
  }

  function PayloadBytes(b: Block, width: nat): nat {
    if Count(b) == b.slots then b.slots * width
    else if Count(b) * (4 + width) < MaskSize(b.slots) + b.slots * width then Count(b) * (4 + width)
    else MaskSize(b.slots) + b.slots * width
  }

  function Count(b: Block): nat {
    |Slots(b.mask, b.slots)|
  }

  /** Slot number and value of each listed slot. */
  function SparsePayload(slots: seq<nat>, values: seq<byte>, width: nat): seq<byte> {
    if slots == [] then []
    else
      var last := slots[|slots| - 1];
      SparsePayload(slots[..|slots| - 1], values, width) + EncodeLe(last, 4) + Value(values, last, width)
  }

  /** The cheapest of the three encodings; "all" whenever nothing has been filtered out. */
  function Representation(b: Block, width: nat): nat {
    if Count(b) == b.slots then ALL
    else if Count(b) * (4 + width) < MaskSize(b.slots) + b.slots * width then SPARSE
    else BITMAP
  }

  function Payload(b: Block, width: nat): seq<byte> {
    if Representation(b, width) == ALL then b.values
    else if Representation(b, width) == SPARSE then SparsePayload(Slots(b.mask, b.slots), b.values, width)
    else b.mask + b.values
  }

  function HeaderOf(b: Block, cumulative: nat, width: nat): BlockHeader {
    BlockHeader(BLOCK_MAGIC, Representation(b, width), width, 0, b.base, cumulative, b.slots, Count(b),
                |Payload(b, width)|, Crc.Checksum(Payload(b, width)))
  }

  function BlockImage(b: Block, cumulative: nat, width: nat): seq<byte> {
    EncodeBlockHeader(HeaderOf(b, cumulative, width)) + Payload(b, width)
  }

  // ----- facts about one block -----

  lemma MulSuccessor(n: nat, e: nat)
    ensures (n + 1) * e == n * e + e
  {
  }

  lemma {:induction false} SlotsAscend(mask: seq<byte>, n: nat)
    requires n <= 8 * |mask|
    ensures |Slots(mask, n)| <= n
    ensures forall i :: 0 <= i < |Slots(mask, n)| ==> Slots(mask, n)[i] < n
    ensures forall i, j :: 0 <= i < j < |Slots(mask, n)| ==> Slots(mask, n)[i] < Slots(mask, n)[j]
  {
    if n == 0 {
    } else {
      SlotsAscend(mask, n - 1);
    }
  }

  lemma {:induction false} SlotsAreCandidates(mask: seq<byte>, n: nat, slot: nat)
    requires n <= 8 * |mask|
    ensures slot in Slots(mask, n) <==> slot < n && MaskBit(mask, slot)
  {
    if n == 0 {
    } else {
      SlotsAreCandidates(mask, n - 1, slot);
    }
  }

  /** A mask with a clear bit lists fewer slots than it has; a full one lists them all. */
  lemma {:induction false} SlotsAll(mask: seq<byte>, n: nat)
    requires n <= 8 * |mask|
    ensures |Slots(mask, n)| == n <==> forall s: nat :: s < n ==> MaskBit(mask, s)
    ensures |Slots(mask, n)| <= n
  {
    if n == 0 {
    } else {
      SlotsAll(mask, n - 1);
    }
  }

  lemma {:induction false} SlotsOfPrefix(mask: seq<byte>, size: nat, n: nat)
    requires size <= |mask| && n <= 8 * size
    ensures Slots(mask[..size], n) == Slots(mask, n)
  {
    if n == 0 {
    } else {
      SlotsOfPrefix(mask, size, n - 1);
    }
  }

  lemma {:induction false} SparseSize(slots: seq<nat>, values: seq<byte>, width: nat)
    requires AllInside(slots, values, width)
    ensures |SparsePayload(slots, values, width)| == |slots| * (4 + width)
  {
    if slots == [] {
    } else {
      var n := |slots| - 1;
      var front, last := slots[..n], slots[n];
      assert AllInside(front, values, width) && Inside(last, values, width);
      SparseSize(front, values, width);
      assert |Value(values, last, width)| == width;
      MulSuccessor(n, 4 + width);
    }
  }

  lemma BlockSlotsInValues(b: Block, width: nat)
    requires ValidBlock(b, width)
    ensures AllInside(Slots(b.mask, b.slots), b.values, width)
  {
    ShapedSlotsInValues(b, width);
  }

  lemma ShapedSlotsInValues(b: Block, width: nat)
    requires Shaped(b, width)
    ensures AllInside(Slots(b.mask, b.slots), b.values, width)
  {
    var slots := Slots(b.mask, b.slots);
    SlotsAscend(b.mask, b.slots);
    forall i | 0 <= i < |slots|
      ensures Inside(slots[i], b.values, width)
    {
      NextMultiple(slots[i], b.slots, width);
    }
  }

  lemma PayloadLength(b: Block, width: nat)
    requires ValidBlock(b, width)
    ensures |Payload(b, width)| ==
            (if Representation(b, width) == ALL then b.slots * width
             else if Representation(b, width) == SPARSE then Count(b) * (4 + width)
             else MaskSize(b.slots) + b.slots * width)
  {
    hide Slots, SparsePayload;
    ShapedLength(b, width);
  }

  lemma ShapedLength(b: Block, width: nat)
    requires Shaped(b, width)
    ensures |Payload(b, width)| == PayloadBytes(b, width)
  {
    ShapedSlotsInValues(b, width);
    SparseSize(Slots(b.mask, b.slots), b.values, width);
  }

  /** No encoding that could hold the block is shorter than the one chosen, and the bare values are chosen exactly
      when no slot has been filtered out. */
  lemma CheapestEncoding(b: Block, width: nat)
    requires ValidBlock(b, width)
    ensures |Payload(b, width)| <= |SparsePayload(Slots(b.mask, b.slots), b.values, width)|
    ensures |Payload(b, width)| <= |b.mask + b.values|
    ensures (forall slot: nat | slot < b.slots :: MaskBit(b.mask, slot)) <==> Representation(b, width) == ALL
    ensures Representation(b, width) == ALL ==> Payload(b, width) == b.values
  {
    hide MaskBit, Slots, SparsePayload;
    PayloadLength(b, width);
    BlockSlotsInValues(b, width);
    SparseSize(Slots(b.mask, b.slots), b.values, width);
    SlotsAll(b.mask, b.slots);
    if Count(b) == b.slots {
      WiderEntries(b.slots, width);
    }
  }

  lemma WiderEntries(n: nat, width: nat)
    ensures n * width <= n * (4 + width)
  {
    assert n * (4 + width) == 4 * n + n * width;
  }

  lemma AtLeastOnce(n: nat, e: nat)
    requires e >= 1
    ensures n <= n * e
  {
  }

  /** Whichever encoding was chosen, the payload is within the limit the reader enforces. */
  lemma PayloadFits(b: Block, width: nat)
    requires ValidBlock(b, width)
    ensures Count(b) <= |Payload(b, width)| < U32_LIMIT
    ensures 0 < Count(b) <= b.slots < U32_LIMIT
  {
    hide SparsePayload, Payload;
    SlotsAscend(b.mask, b.slots);
    ShapedLength(b, width);
    AtLeastOnce(b.slots, width);
    AtLeastOnce(Count(b), 4 + width);
  }

  /** A block of at most 0x40000 value bytes can always be stored and read. */
  lemma PayloadSize(b: Block, width: nat)
    requires Shaped(b, width) && b.slots * width <= BLOCK_LIMIT
    ensures ValidBlock(b, width) && Readable(b, width)
  {
    hide Payload, Slots;
    ShapedLength(b, width);
    SmallPayload(b, width);
  }

  lemma SmallPayload(b: Block, width: nat)
    requires width >= 1
    ensures b.slots * width <= BLOCK_LIMIT ==> PayloadBytes(b, width) <= MAXIMUM_PAYLOAD
    ensures b.slots * width <= BLOCK_LIMIT + 8 ==> PayloadBytes(b, width) < U32_LIMIT
  {
    hide Slots;
    AtLeastOnce(b.slots, width);
  }

  lemma WidthLimits()
    ensures Pow256(1) == 256 && Pow256(2) == 0x1_0000 && Pow256(4) == U32_LIMIT && Pow256(8) == U64_LIMIT
  {
    assert Pow256(4) == 256 * Pow256(3);
    assert Pow256(8) == 256 * Pow256(7) == 0x1_0000 * Pow256(6) == 0x100_0000 * Pow256(5);
  }

  lemma BlockHeaderFits(b: Block, cumulative: nat, width: nat)
    requires ValidBlock(b, width) && cumulative < U64_LIMIT
    ensures Fits(BlockFields(HeaderOf(b, cumulative, width)), BLOCK_WIDTHS)
  {
    WidthLimits();
    PayloadFits(b, width);
    Crc.ChecksumBound(Payload(b, width));
  }
}
