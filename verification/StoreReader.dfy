/** searchStoreReaderOpen and searchStoreReaderNext. */
module StoreReader {
  import opened Bytes
  import Crc
  import opened Files
  import opened StoreFormat
  import opened StoreImage

  // ----- what the reader accepts -----

  /** The checks of ReaderOpen on a whole file. */
  ghost predicate FileAccepted(content: seq<byte>) {
    HEADER_SIZE <= |content| && HeaderAccepted(DecodeHeader(content[..HEADER_SIZE]), |content|)
  }

  ghost predicate HeaderAccepted(h: Header, fileSize: nat) {
    && h.magic == STORE_MAGIC && h.version == STORE_VERSION && h.headerSize == HEADER_SIZE
    && h.headerCrc == HeaderCrc(h)
    && 1 <= h.metadata.width <= 8
    && h.indexOffset == (HEADER_SIZE + h.dataBytes) % U64_LIMIT
    && fileSize == h.indexOffset + h.blockCount * ENTRY_SIZE < U64_LIMIT
  }

  /** The checks of ReaderNext on the block at `at`, up to its checksum. */
  ghost predicate BlockAccepted(content: seq<byte>, h: Header, at: nat) {
    && at + BLOCK_SIZE <= |content|
    && var b := DecodeBlockHeader(content[at..at + BLOCK_SIZE]);
       && b.magic == BLOCK_MAGIC && b.width == h.metadata.width
       && 0 < b.candidateCount <= b.slotCount
       && 0 < b.payloadSize <= MAXIMUM_PAYLOAD
       && at + BLOCK_SIZE + b.payloadSize <= h.indexOffset
       && at + BLOCK_SIZE + b.payloadSize <= |content|
       && Crc.Checksum(content[at + BLOCK_SIZE..at + BLOCK_SIZE + b.payloadSize]) == b.payloadCrc
  }

  /** The payload behind a block header at `at`. */
  function BlockPayload(content: seq<byte>, at: nat, block: BlockHeader): seq<byte> {
    if at + BLOCK_SIZE + block.payloadSize <= |content|
    then content[at + BLOCK_SIZE..at + BLOCK_SIZE + block.payloadSize] else []
  }

  // ----- what a writer leaves behind -----

  /** A finished snapshot is accepted. */
  lemma FinishedFileAccepted(meta: Metadata, blocks: seq<Block>)
    requires ValidStore(meta, blocks)
    ensures FileAccepted(StoreFile(meta, blocks))
  {
    hide EncodeHeader, DecodeHeader, StoreFile, BlocksImage;
    HeaderInFile(meta, blocks);
    HeaderCrcIgnored(CountedHeader(meta, blocks).(indexOffset := OffsetOf(blocks, |blocks|, meta.width)));
  }

  lemma HeaderCrcIgnored(h: Header)
    ensures HeaderCrc(h.(headerCrc := HeaderCrc(h))) == HeaderCrc(h)
  {
    assert h.(headerCrc := HeaderCrc(h)).(headerCrc := 0) == h.(headerCrc := 0);
  }

  /** A file that still has the header it was created with is rejected, whatever follows it: its
      index offset is zero. */
  lemma AbandonedFileRejected(meta: Metadata, content: seq<byte>)
    requires ValidMetadata(meta)
    requires HEADER_SIZE <= |content| && content[..HEADER_SIZE] == EncodeHeader(InitialHeader(meta))
    ensures !FileAccepted(content)
  {
    hide EncodeHeader, DecodeHeader, HeaderCrc;
    WidthLimits();
    TotalsZero(meta);
    assert HeaderFits(InitialHeader(meta));
    HeaderRoundTrip(InitialHeader(meta));
  }

  /** Damage within four consecutive bytes of the header, either in its checksum or beside it, is noticed by ReaderOpen. */
  lemma DamagedHeaderRejected(content: seq<byte>, damaged: seq<byte>, from: nat, until: nat)
    requires FileAccepted(content) && |damaged| == |content|
    requires from <= until <= HEADER_SIZE && until - from <= 4
    requires until <= CRC_OFFSET || (CRC_OFFSET <= from && until <= CRC_OFFSET + 4) || CRC_OFFSET + 4 <= from
    requires damaged[..from] == content[..from] && damaged[until..] == content[until..]
    ensures FileAccepted(damaged) <==> damaged == content
  {
    hide DecodeHeader, EncodeHeader, Crc.Checksum;
    var s, t := content[..HEADER_SIZE], damaged[..HEADER_SIZE];
    if FileAccepted(damaged) {
      assert t[..from] == damaged[..from] && s[..from] == content[..from];
      AgreeOutside(content, damaged, 0, HEADER_SIZE, from, until);
      assert content[0..HEADER_SIZE] == s && damaged[0..HEADER_SIZE] == t;
      CrcField(s);
      CrcField(t);
      if CRC_OFFSET <= from && until <= CRC_OFFSET + 4 {
        BlankedAlike(s, t, from, until);
        EncodeDecodeLe(s[CRC_OFFSET..CRC_OFFSET + 4]);
        EncodeDecodeLe(t[CRC_OFFSET..CRC_OFFSET + 4]);
      } else {
        BlankedApart(s, t, from, until);
        Crc.DamageIsDetected(Blanked(s), Blanked(t), from, until);
      }
      assert t == s;
      AgreeEverywhere(content, damaged, 0, HEADER_SIZE, from, until);
    }
  }

  /** The header with its checksum set to zero. */
  function Blanked(s: seq<byte>): seq<byte>
    requires |s| == HEADER_SIZE
  {
    s[..CRC_OFFSET] + [0, 0, 0, 0] + s[CRC_OFFSET + 4..]
  }

  lemma CrcField(s: seq<byte>)
    requires |s| == HEADER_SIZE
    ensures HeaderCrc(DecodeHeader(s)) == Crc.Checksum(Blanked(s))
    ensures DecodeHeader(s).headerCrc == DecodeLe(s[CRC_OFFSET..CRC_OFFSET + 4])
  {
    hide DecodeHeader, EncodeHeader, Crc.Checksum, EncodeLe, DecodeLe;
    var h := DecodeHeader(s);
    CrcFits(s);
    DecodeEncodeLe(h.headerCrc, 4);
    HeaderBytes(s);
    HeaderWithCrc(h, 0);
    ZeroBytes();
    HeaderWithCrc(h, h.headerCrc);
    assert h.(headerCrc := h.headerCrc) == h;
  }

  lemma CrcFits(s: seq<byte>)
    requires |s| == HEADER_SIZE
    ensures DecodeHeader(s).headerCrc < Pow256(4)
  {
    hide DecodeFields;
    var t := DecodeTotals(s[120..]);
    assert t[4] < Pow256(TOTALS_WIDTHS[4]);
  }

  lemma ZeroBytes()
    ensures EncodeLe(0, 4) == [0, 0, 0, 0]
  {
    assert EncodeLe(0, 1) == [0] && EncodeLe(0, 2) == [0, 0] && EncodeLe(0, 3) == [0, 0, 0];
  }

  lemma BlankedAlike(s: seq<byte>, t: seq<byte>, from: nat, until: nat)
    requires |s| == |t| == HEADER_SIZE && CRC_OFFSET <= from <= until <= CRC_OFFSET + 4
    requires t[..from] == s[..from] && t[until..] == s[until..]
    ensures Blanked(t) == Blanked(s)
    ensures t[CRC_OFFSET..CRC_OFFSET + 4] == s[CRC_OFFSET..CRC_OFFSET + 4] ==> t == s
  {
    forall i | 0 <= i < CRC_OFFSET ensures t[i] == s[i] {
      assert t[..from][i] == s[..from][i];
    }
    forall i | CRC_OFFSET + 4 <= i < HEADER_SIZE ensures t[i] == s[i] {
      assert t[until..][i - until] == s[until..][i - until];
    }
    assert s == s[..CRC_OFFSET] + s[CRC_OFFSET..CRC_OFFSET + 4] + s[CRC_OFFSET + 4..];
    assert t == t[..CRC_OFFSET] + t[CRC_OFFSET..CRC_OFFSET + 4] + t[CRC_OFFSET + 4..];
  }

  lemma BlankedApart(s: seq<byte>, t: seq<byte>, from: nat, until: nat)
    requires |s| == |t| == HEADER_SIZE && from <= until <= HEADER_SIZE
    requires until <= CRC_OFFSET || CRC_OFFSET + 4 <= from
    requires t[..from] == s[..from] && t[until..] == s[until..]
    ensures Blanked(t)[..from] == Blanked(s)[..from] && Blanked(t)[until..] == Blanked(s)[until..]
    ensures Blanked(t) == Blanked(s) ==> t == s
    ensures t[CRC_OFFSET..CRC_OFFSET + 4] == s[CRC_OFFSET..CRC_OFFSET + 4]
  {
    forall i | 0 <= i < HEADER_SIZE && (i < from || i >= until) ensures t[i] == s[i] && Blanked(t)[i] == Blanked(s)[i] {
      if i < from {
        assert t[..from][i] == s[..from][i];
      } else {
        assert t[until..][i - until] == s[until..][i - until];
      }
    }
    if Blanked(t) == Blanked(s) {
      forall i | from <= i < until ensures t[i] == s[i] {
        assert t[i] == Blanked(t)[i] && s[i] == Blanked(s)[i];
      }
    }
  }

  lemma TotalsZero(meta: Metadata)
    ensures Fits(TotalsFields(InitialHeader(meta)), TOTALS_WIDTHS)
  {
  }

  // ----- decoding a payload -----

  /** The caller's buffers hold the block: the same mask below the slot count, and the value of
      every candidate. */
  ghost predicate Holds(b: Block, width: nat, values: seq<byte>, mask: seq<byte>) {
    && b.slots <= 8 * |mask|
    && forall slot: nat | slot < b.slots ::
         && MaskBit(mask, slot) == MaskBit(b.mask, slot)
         && (MaskBit(b.mask, slot) ==> Value(values, slot, width) == Value(b.values, slot, width))
  }

  /** memset(buffer, value, size) */
  method Fill(buffer: array<byte>, size: nat, value: byte)
    requires size <= buffer.Length
    modifies buffer
    ensures forall i :: 0 <= i < size ==> buffer[i] == value
    ensures buffer[size..] == old(buffer[size..])
  {
    forall i | 0 <= i < size {
      buffer[i] := value;
    }
  }

  lemma ValuePrefix(values: seq<byte>, longer: seq<byte>, slot: nat, width: nat)
    requires |values| <= |longer| && longer[..|values|] == values && Inside(slot, values, width)
    ensures Value(longer, slot, width) == Value(values, slot, width)
  {
  }

  lemma MaskPrefix(mask: seq<byte>, longer: seq<byte>, slot: nat)
    requires |mask| <= |longer| && longer[..|mask|] == mask && slot < 8 * |mask|
    ensures MaskBit(longer, slot) == MaskBit(mask, slot)
  {
    assert longer[slot / 8] == mask[slot / 8];
  }

  /** A dense copy of the values holds every slot. */
  lemma DenseHolds(b: Block, width: nat, values: seq<byte>, mask: seq<byte>)
    requires ValidBlock(b, width)
    requires |b.values| <= |values| && values[..|b.values|] == b.values
    requires b.slots <= 8 * |mask|
    requires forall slot: nat | slot < b.slots :: MaskBit(mask, slot) == MaskBit(b.mask, slot)
    ensures Holds(b, width, values, mask)
  {
    hide MaskBit;
    forall slot: nat | slot < b.slots
      ensures Value(values, slot, width) == Value(b.values, slot, width)
    {
      NextMultiple(slot, b.slots, width);
      ValuePrefix(b.values, values, slot, width);
    }
  }

  /** The last byte of an "all" mask keeps only the bits below the slot count. */
  method FillAllMask(mask: array<byte>, slotCount: nat)
    requires 0 < slotCount && MaskSize(slotCount) <= mask.Length
    modifies mask
    ensures forall slot: nat | slot < 8 * MaskSize(slotCount) :: MaskBit(mask[..], slot) <==> slot < slotCount
  {
    var maskBytes := MaskSize(slotCount);
    Fill(mask, maskBytes, 0xFF);
    var rest := slotCount % 8;
    assert Pow2(8) == 256;
    if rest != 0 {
      LowByte(rest);
      mask[maskBytes - 1] := Pow2(rest) - 1;
    }
    forall slot: nat | slot < 8 * maskBytes
      ensures MaskBit(mask[..], slot) <==> slot < slotCount
    {
      if rest != 0 && slot / 8 == maskBytes - 1 {
        LowBitsTest(rest, slot % 8);
      } else {
        assert mask[slot / 8] == 0xFF;
        LowBitsTest(8, slot % 8);
      }
    }
  }

  lemma LowByte(n: nat)
    requires n <= 8
    ensures Pow2(n) <= 256
    decreases 8 - n
  {
    if n < 8 {
      LowByte(n + 1);
    } else {
      assert Pow2(8) == 256;
    }
  }

  lemma {:induction false} SparseEntryAt(slots: seq<nat>, values: seq<byte>, width: nat, i: nat)
    requires AllInside(slots, values, width) && i < |slots|
    ensures var at := i * (4 + width);
            && at + 4 + width <= |SparsePayload(slots, values, width)|
            && SparsePayload(slots, values, width)[at..at + 4] == EncodeLe(slots[i], 4)
            && SparsePayload(slots, values, width)[at + 4..at + 4 + width] == Value(values, slots[i], width)
  {
    hide EncodeLe, Value, SparsePayload;
    var n := |slots| - 1;
    var front, last := slots[..n], slots[n];
    assert AllInside(front, values, width) && Inside(last, values, width);
    SparseSize(front, values, width);
    SparseGrows(slots, values, width);
    var p, tail := SparsePayload(front, values, width), EncodeLe(last, 4) + Value(values, last, width);
    if i < n {
      SparseEntryAt(front, values, width, i);
      PrefixSlices(p, tail, i * (4 + width), width);
    } else {
      TailSlices(p, EncodeLe(last, 4), Value(values, last, width), width);
    }
  }

  lemma SparseGrows(slots: seq<nat>, values: seq<byte>, width: nat)
    requires AllInside(slots, values, width) && slots != []
    ensures var n := |slots| - 1;
            SparsePayload(slots, values, width)
            == SparsePayload(slots[..n], values, width) + (EncodeLe(slots[n], 4) + Value(values, slots[n], width))
  {
    hide EncodeLe, Value;
  }

  lemma PrefixSlices(p: seq<byte>, tail: seq<byte>, at: nat, width: nat)
    requires at + 4 + width <= |p|
    ensures (p + tail)[at..at + 4] == p[at..at + 4]
    ensures (p + tail)[at + 4..at + 4 + width] == p[at + 4..at + 4 + width]
  {
  }

  lemma TailSlices(p: seq<byte>, number: seq<byte>, value: seq<byte>, width: nat)
    requires |number| == 4 && |value| == width
    ensures (p + (number + value))[|p|..|p| + 4] == number
    ensures (p + (number + value))[|p| + 4..|p| + 4 + width] == value
  {
  }

  lemma PartReplaced(s: seq<byte>, at: nat, part: seq<byte>, i: nat, n: nat)
    requires |part| == n && at + n <= |s| && i + n <= |s|
    requires i == at || i + n <= at || at + n <= i
    ensures |Overwrite(s, at, part)| == |s|
    ensures Overwrite(s, at, part)[i..i + n] == if i == at then part else s[i..i + n]
  {
  }

  /** The value of one slot replaced; the other slots keep theirs. */
  lemma ValueReplaced(values: seq<byte>, slot: nat, value: seq<byte>, width: nat, other: nat)
    requires Inside(slot, values, width) && Inside(other, values, width) && |value| == width
    ensures Value(Overwrite(values, slot * width, value), other, width)
         == (if other == slot then value else Value(values, other, width))
  {
    hide Overwrite, Value, Inside;
    var at, from := slot * width, other * width;
    ValueAt(values, slot, width, at);
    ValueAt(values, other, width, from);
    if other != slot {
      Apart(slot, other, width);
    }
    PartReplaced(values, at, value, from, width);
    ValueAt(Overwrite(values, at, value), other, width, from);
    if from == at && other != slot {
      assert |Value(values, other, width)| == |value| == 0;
    }
  }

  lemma ValueAt(values: seq<byte>, slot: nat, width: nat, at: nat)
    requires at == slot * width
    ensures Inside(slot, values, width) <==> at + width <= |values|
    ensures Inside(slot, values, width) ==> Value(values, slot, width) == values[at..at + width]
  {
  }

  /** Different slots do not overlap; only slots without a width begin at the same place. */
  lemma Apart(slot: nat, other: nat, width: nat)
    requires other != slot
    ensures other * width + width <= slot * width || slot * width + width <= other * width
    ensures other * width == slot * width ==> width == 0
  {
    if other < slot {
      NextMultiple(other, slot, width);
    } else {
      NextMultiple(slot, other, width);
    }
  }

  /** After `done` entries: exactly the listed slots are set, with their values. */
  ghost predicate Decoded(slots: seq<nat>, done: nat, from: seq<byte>, width: nat, slotCount: nat,
                          values: seq<byte>, mask: seq<byte>)
    requires done <= |slots|
  {
    && slotCount <= 8 * |mask|
    && (forall s: nat | s < slotCount :: MaskBit(mask, s) <==> s in slots[..done])
    && (forall i | 0 <= i < done :: Value(values, slots[i], width) == Value(from, slots[i], width))
  }

  lemma DecodedStep(slots: seq<nat>, done: nat, from: seq<byte>, width: nat, slotCount: nat,
                    values: seq<byte>, mask: seq<byte>)
    requires done < |slots| && Decoded(slots, done, from, width, slotCount, values, mask)
    requires forall i, j :: 0 <= i < j < |slots| ==> slots[i] < slots[j]
    requires slots[|slots| - 1] < slotCount
    requires AllInside(slots, values, width) && AllInside(slots, from, width)
    ensures slots[done] < slotCount && Inside(slots[done], values, width)
    ensures Decoded(slots, done + 1, from, width, slotCount,
                    Overwrite(values, slots[done] * width, Value(from, slots[done], width)),
                    MaskSet(mask, slots[done]))
  {
    hide Value, MaskBit, MaskSet;
    var slot := slots[done];
    assert Inside(slot, values, width) && Inside(slot, from, width);
    assert slot < slotCount;
    var v' := Overwrite(values, slot * width, Value(from, slot, width));
    forall s: nat | s < slotCount
      ensures MaskBit(MaskSet(mask, slot), s) <==> s in slots[..done + 1]
    {
      MaskSetTest(mask, slot, s);
      assert slots[..done + 1] == slots[..done] + [slot];
    }
    forall i | 0 <= i < done + 1
      ensures Value(v', slots[i], width) == Value(from, slots[i], width)
    {
      assert Inside(slots[i], values, width);
      ValueReplaced(values, slot, Value(from, slot, width), width, slots[i]);
    }
  }

  /** bitSet(mask, slot) */
  method MaskSetAt(mask: array<byte>, slot: nat)
    requires slot < 8 * mask.Length
    modifies mask
    ensures mask[..] == MaskSet(old(mask[..]), slot)
  {
    mask[slot / 8] := OrBitInByte(mask[slot / 8], slot % 8);
  }

  lemma EmptyMask(mask: seq<byte>, slotCount: nat)
    requires MaskSize(slotCount) <= |mask|
    requires forall i :: 0 <= i < MaskSize(slotCount) ==> mask[i] == 0
    ensures forall slot: nat | slot < slotCount :: !MaskBit(mask, slot)
  {
    forall slot: nat | slot < slotCount
      ensures !MaskBit(mask, slot)
    {
      ZeroTest(slot % 8);
    }
  }

  lemma SlotFitsWord(b: Block, width: nat, slot: nat)
    requires ValidBlock(b, width) && slot in Slots(b.mask, b.slots)
    ensures slot < Pow256(4)
  {
    SlotsAscend(b.mask, b.slots);
    PayloadFits(b, width);
    WidthLimits();
  }

  lemma InsideLonger(slots: seq<nat>, values: seq<byte>, longer: seq<byte>, width: nat)
    requires AllInside(slots, values, width) && |values| <= |longer|
    ensures AllInside(slots, longer, width)
  {
    forall i | 0 <= i < |slots|
      ensures Inside(slots[i], longer, width)
    {
      assert Inside(slots[i], values, width);
    }
  }

  lemma DecodedHolds(b: Block, width: nat, values: seq<byte>, mask: seq<byte>)
    requires ValidBlock(b, width)
    requires Decoded(Slots(b.mask, b.slots), Count(b), b.values, width, b.slots, values, mask)
    ensures Holds(b, width, values, mask)
  {
    hide Value, MaskBit, Slots;
    var slots := Slots(b.mask, b.slots);
    assert slots[..Count(b)] == slots;
    forall slot: nat | slot < b.slots
      ensures MaskBit(mask, slot) == MaskBit(b.mask, slot)
      ensures MaskBit(b.mask, slot) ==> Value(values, slot, width) == Value(b.values, slot, width)
    {
      SlotsAreCandidates(b.mask, b.slots, slot);
    }
  }

  predicate EntryInside(payload: seq<byte>, width: nat, i: nat) {
    i * (4 + width) + 4 <= |payload|
  }

  /** The slot number in entry i of a sparse payload. */
  function EntrySlot(payload: seq<byte>, width: nat, i: nat): nat {
    if EntryInside(payload, width, i) then DecodeLe(payload[i * (4 + width)..i * (4 + width) + 4]) else 0
  }

  /** Entry i names a slot of the block behind that of the entry before it. */
  predicate NamesNextSlot(block: BlockHeader, payload: seq<byte>, i: nat) {
    && EntrySlot(payload, block.width, i) < block.slotCount
    && (i > 0 ==> EntrySlot(payload, block.width, i - 1) < EntrySlot(payload, block.width, i))
  }

  predicate GoodEntry(block: BlockHeader, payload: seq<byte>, i: nat) {
    EntryInside(payload, block.width, i) && NamesNextSlot(block, payload, i)
  }

  predicate GoodEntries(block: BlockHeader, payload: seq<byte>, n: nat) {
    forall i: nat :: i < n ==> GoodEntry(block, payload, i)
  }

  /** A payload as ReaderNext wants it: of the length its counts ask for, its entries in order. */
  predicate PayloadAccepted(block: BlockHeader, payload: seq<byte>) {
    if block.representation == ALL then |payload| == block.slotCount * block.width
    else if block.representation == BITMAP then
      |payload| == MaskSize(block.slotCount) + block.slotCount * block.width
    else
      && block.representation == SPARSE && |payload| == block.candidateCount * (4 + block.width)
      && GoodEntries(block, payload, block.candidateCount)
  }

  lemma EntryDecides(block: BlockHeader, payload: seq<byte>, i: nat, entry: seq<byte>)
    requires i < block.candidateCount && GoodEntries(block, payload, i)
    requires |payload| == block.candidateCount * (4 + block.width) && IsEntry(payload, block.width, i, entry)
    ensures EntrySlot(payload, block.width, i) == DecodeLe(entry[..4])
    ensures var previous: int := if i > 0 then EntrySlot(payload, block.width, i - 1) else -1;
            if previous < EntrySlot(payload, block.width, i) < block.slotCount then GoodEntries(block, payload, i + 1)
            else !GoodEntries(block, payload, block.candidateCount)
  {
    hide DecodeLe;
    var at := i * (4 + block.width);
    assert entry[..4] == payload[at..at + 4];
    assert EntryInside(payload, block.width, i);
    assert GoodEntries(block, payload, block.candidateCount) ==> GoodEntry(block, payload, i);
  }

  /** One sparse entry; `previous` is the slot before it, if any. */
  method TakeEntry(entry: seq<byte>, slotCount: nat, width: nat, previous: int, values: array<byte>, mask: array<byte>)
    returns (ok: bool, slot: nat)
    requires values != mask && |entry| == 4 + width
    requires slotCount * width <= values.Length && slotCount <= 8 * mask.Length
    modifies values, mask
    ensures slot == DecodeLe(entry[..4])
    ensures ok <==> previous < slot < slotCount
    ensures ok ==> Inside(slot, old(values[..]), width)
                   && values[..] == Overwrite(old(values[..]), slot * width, entry[4..])
                   && mask[..] == MaskSet(old(mask[..]), slot)
  {
    hide MaskSet, DecodeLe;
    slot := DecodeLe(entry[..4]);
    ok := previous < slot < slotCount;
    if ok {
      NextMultiple(slot, slotCount, width);
      MaskSetAt(mask, slot);
      CopyInto(values, slot * width, entry[4..]);
    }
  }

  predicate IsEntry(payload: seq<byte>, width: nat, index: nat, entry: seq<byte>) {
    var at := index * (4 + width);
    at + 4 + width <= |payload| && entry == payload[at..at + 4 + width]
  }

  function WithValue(values: seq<byte>, slot: nat, width: nat, value: seq<byte>): seq<byte> {
    if Inside(slot, values, width) then Overwrite(values, slot * width, value) else values
  }

  lemma EntryParts(slots: seq<nat>, values: seq<byte>, width: nat, index: nat, entry: seq<byte>)
    requires AllInside(slots, values, width) && index < |slots|
    requires IsEntry(SparsePayload(slots, values, width), width, index, entry)
    ensures |entry| == 4 + width
    ensures entry[..4] == EncodeLe(slots[index], 4) && entry[4..] == Value(values, slots[index], width)
  {
    hide EncodeLe, Value, SparsePayload, AllInside;
    SparseEntryAt(slots, values, width, index);
    var p, at := SparsePayload(slots, values, width), index * (4 + width);
    assert entry[..4] == p[at..at + 4] && entry[4..] == p[at + 4..at + 4 + width];
  }

  /** Entry `index` of a genuine payload, taken into buffers that hold the entries before it. */
  lemma GenuineEntry(b: Block, width: nat, index: nat, entry: seq<byte>, values: seq<byte>, mask: seq<byte>)
    requires ValidBlock(b, width) && index < Count(b) && |b.values| <= |values|
    requires |entry| == 4 + width
    requires IsEntry(SparsePayload(Slots(b.mask, b.slots), b.values, width), width, index, entry)
    requires Decoded(Slots(b.mask, b.slots), index, b.values, width, b.slots, values, mask)
    ensures var slot := Slots(b.mask, b.slots)[index];
            && DecodeLe(entry[..4]) == slot < b.slots
            && (index > 0 ==> Slots(b.mask, b.slots)[index - 1] < slot)
            && Inside(slot, values, width)
            && Decoded(Slots(b.mask, b.slots), index + 1, b.values, width, b.slots,
                       WithValue(values, slot, width, entry[4..]), MaskSet(mask, slot))
  {
    hide Value, MaskBit, MaskSet, EncodeLe, DecodeLe, SparsePayload, Slots, Overwrite, Decoded, Inside, AllInside,
         IsEntry;
    var slots := Slots(b.mask, b.slots);
    SlotsAscend(b.mask, b.slots);
    BlockSlotsInValues(b, width);
    InsideLonger(slots, b.values, values, width);
    EntryParts(slots, b.values, width, index, entry);
    SlotFitsWord(b, width, slots[index]);
    DecodeEncodeLe(slots[index], 4);
    DecodedStep(slots, index, b.values, width, b.slots, values, mask);
  }

  lemma NoEntries(block: BlockHeader, payload: seq<byte>)
    ensures GoodEntries(block, payload, 0)
  {
  }

  lemma NothingDecoded(slots: seq<nat>, from: seq<byte>, width: nat, slotCount: nat, values: seq<byte>, mask: seq<byte>)
    requires slotCount <= 8 * |mask| && forall s: nat | s < slotCount :: !MaskBit(mask, s)
    ensures Decoded(slots, 0, from, width, slotCount, values, mask)
  {
    hide MaskBit, Value;
  }

  // ----- what any accepted payload leaves in the buffers -----

  /** The value bytes of entry i of a sparse payload. */
  function EntryValue(payload: seq<byte>, width: nat, i: nat): seq<byte> {
    var at := i * (4 + width) + 4;
    if at + width <= |payload| then payload[at..at + width] else []
  }

  function Zeros(n: nat): seq<byte> {
    seq(n, _ => 0)
  }

  /** One of the first n entries names the slot. */
  ghost predicate Named(payload: seq<byte>, width: nat, n: nat, slot: nat) {
    exists i: nat :: i < n && EntrySlot(payload, width, i) == slot
  }

  /** After n entries: exactly the slots they name are marked and hold their values; all else is zero. */
  ghost predicate Taken(block: BlockHeader, payload: seq<byte>, n: nat, values: seq<byte>, mask: seq<byte>) {
    && MaskSize(block.slotCount) <= |mask|
    && (forall s: nat | s < 8 * MaskSize(block.slotCount) :: MaskBit(mask, s) <==> Named(payload, block.width, n, s))
    && (forall i: nat | i < n ::
          Value(values, EntrySlot(payload, block.width, i), block.width) == EntryValue(payload, block.width, i))
    && (forall s: nat | s < block.slotCount && !MaskBit(mask, s) :: Value(values, s, block.width) == Zeros(block.width))
  }

  /** The buffers hold what the payload says, whoever wrote it. */
  ghost predicate Restored(block: BlockHeader, payload: seq<byte>, values: seq<byte>, mask: seq<byte>) {
    var valueBytes, maskBytes := block.slotCount * block.width, MaskSize(block.slotCount);
    && valueBytes <= |values| && maskBytes <= |mask|
    && if block.representation == ALL then
         && values[..valueBytes] == payload
         && forall s: nat | s < 8 * maskBytes :: MaskBit(mask, s) <==> s < block.slotCount
       else if block.representation == BITMAP then mask[..maskBytes] + values[..valueBytes] == payload
       else Taken(block, payload, block.candidateCount, values, mask)
  }

  lemma NothingTaken(block: BlockHeader, payload: seq<byte>, values: seq<byte>, mask: seq<byte>)
    requires block.slotCount * block.width <= |values| && MaskSize(block.slotCount) <= |mask|
    requires forall i :: 0 <= i < block.slotCount * block.width ==> values[i] == 0
    requires forall i :: 0 <= i < MaskSize(block.slotCount) ==> mask[i] == 0
    ensures Taken(block, payload, 0, values, mask)
  {
    hide EntrySlot, EntryValue;
    forall s: nat | s < 8 * MaskSize(block.slotCount)
      ensures !MaskBit(mask, s)
    {
      ZeroTest(s % 8);
    }
    forall s: nat | s < block.slotCount
      ensures Value(values, s, block.width) == Zeros(block.width)
    {
      NextMultiple(s, block.slotCount, block.width);
    }
  }

  lemma {:induction false} EntriesAscend(block: BlockHeader, payload: seq<byte>, i: nat, n: nat)
    requires i < n && GoodEntries(block, payload, n + 1)
    ensures EntrySlot(payload, block.width, i) < EntrySlot(payload, block.width, n) < block.slotCount
    decreases n
  {
    hide EntrySlot;
    assert GoodEntry(block, payload, n);
    if i < n - 1 {
      EntriesAscend(block, payload, i, n - 1);
    }
  }

  lemma NamedStep(payload: seq<byte>, width: nat, n: nat, slot: nat)
    ensures Named(payload, width, n + 1, slot) <==> EntrySlot(payload, width, n) == slot || Named(payload, width, n, slot)
  {
    hide EntrySlot;
  }

  lemma EntryIs(payload: seq<byte>, width: nat, n: nat, entry: seq<byte>)
    requires IsEntry(payload, width, n, entry)
    ensures |entry| == 4 + width && EntryValue(payload, width, n) == entry[4..]
  {
  }

  lemma TakenStep(block: BlockHeader, payload: seq<byte>, n: nat, entry: seq<byte>, values: seq<byte>, mask: seq<byte>)
    requires GoodEntries(block, payload, n + 1) && IsEntry(payload, block.width, n, entry)
    requires block.slotCount * block.width <= |values| && Taken(block, payload, n, values, mask)
    ensures var slot := EntrySlot(payload, block.width, n);
            && slot < block.slotCount && Inside(slot, values, block.width)
            && Taken(block, payload, n + 1, WithValue(values, slot, block.width, entry[4..]), MaskSet(mask, slot))
  {
    hide EntrySlot, EntryValue, Value, MaskBit, MaskSet, IsEntry, Named, Inside, Overwrite;
    var w, slot := block.width, EntrySlot(payload, block.width, n);
    assert GoodEntry(block, payload, n);
    EntryIs(payload, w, n, entry);
    forall s: nat | s < block.slotCount
      ensures Inside(s, values, w)
      ensures Value(WithValue(values, slot, w, entry[4..]), s, w) == if s == slot then entry[4..] else Value(values, s, w)
    {
      SlotInside(s, block.slotCount, values, w);
      SlotInside(slot, block.slotCount, values, w);
      OneValue(values, slot, entry[4..], w, s);
    }
    forall s: nat | s < 8 * MaskSize(block.slotCount)
      ensures MaskBit(MaskSet(mask, slot), s) <==> Named(payload, w, n + 1, s)
    {
      MaskSetTest(mask, slot, s);
      NamedStep(payload, w, n, s);
    }
    forall i: nat | i < n
      ensures EntrySlot(payload, w, i) < slot
    {
      EntriesAscend(block, payload, i, n);
    }
    forall s: nat | s < block.slotCount && !MaskBit(MaskSet(mask, slot), s)
      ensures s != slot && !MaskBit(mask, s)
    {
      MaskSetTest(mask, slot, s);
    }
  }

  lemma SlotInside(slot: nat, slotCount: nat, values: seq<byte>, width: nat)
    requires slot < slotCount && slotCount * width <= |values|
    ensures Inside(slot, values, width)
  {
    NextMultiple(slot, slotCount, width);
  }

  lemma OneValue(values: seq<byte>, slot: nat, value: seq<byte>, width: nat, other: nat)
    requires Inside(slot, values, width) && Inside(other, values, width) && |value| == width
    ensures Value(WithValue(values, slot, width, value), other, width)
         == (if other == slot then value else Value(values, other, width))
  {
    ValueReplaced(values, slot, value, width, other);
  }

  ghost predicate GenuineSparse(block: BlockHeader, payload: seq<byte>, b: Block, width: nat) {
    && ValidBlock(b, width) && block.width == width && block.slotCount == b.slots
    && block.candidateCount == Count(b)
    && payload == SparsePayload(Slots(b.mask, b.slots), b.values, width)
  }

  /** The sparse branch of ReaderNext. `b` is the block a genuine payload came from. */
  method DecodeSparse(block: BlockHeader, payload: seq<byte>, values: array<byte>, mask: array<byte>,
                      ghost b: Block, ghost width: nat)
    returns (ok: bool)
    requires values != mask
    requires |payload| == block.candidateCount * (4 + block.width)
    requires block.slotCount * block.width <= values.Length && MaskSize(block.slotCount) <= mask.Length
    requires forall i :: 0 <= i < block.slotCount * block.width ==> values[i] == 0
    requires forall i :: 0 <= i < MaskSize(block.slotCount) ==> mask[i] == 0
    modifies values, mask
    ensures ok <==> GoodEntries(block, payload, block.candidateCount)
    ensures ok ==> Taken(block, payload, block.candidateCount, values[..], mask[..])
    ensures GenuineSparse(block, payload, b, width) ==> ok && Holds(b, width, values[..], mask[..])
  {
    hide Value, MaskBit, MaskSet, DecodeLe, SparsePayload, Slots, Overwrite, GoodEntries, EntrySlot, Decoded, Holds,
         Taken;
    NoEntries(block, payload);
    NothingTaken(block, payload, values[..], mask[..]);
    ghost var genuine := GenuineSparse(block, payload, b, width);
    ghost var slots := Slots(b.mask, b.slots);
    if genuine {
      EmptyMask(mask[..], block.slotCount);
      NothingDecoded(slots, b.values, width, block.slotCount, values[..], mask[..]);
    }
    var cursor, previousSlot: int := 0, -1;
    for index := 0 to block.candidateCount
      invariant cursor == index * (4 + block.width)
      invariant genuine ==> Decoded(slots, index, b.values, width, block.slotCount, values[..], mask[..])
      invariant GoodEntries(block, payload, index)
      invariant Taken(block, payload, index, values[..], mask[..])
      invariant previousSlot == if index > 0 then EntrySlot(payload, block.width, index - 1) else -1
      invariant genuine ==> previousSlot == if index > 0 then slots[index - 1] else -1
    {
      MulSuccessor(index, 4 + block.width);
      NextMultiple(index, block.candidateCount, 4 + block.width);
      var entry := payload[cursor..cursor + 4 + block.width];
      if genuine {
        GenuineEntry(b, width, index, entry, values[..], mask[..]);
      }
      EntryDecides(block, payload, index, entry);
      ghost var valuesBefore, maskBefore := values[..], mask[..];
      var taken, slot := TakeEntry(entry, block.slotCount, block.width, previousSlot, values, mask);
      if !taken {
        return false;
      }
      TakenStep(block, payload, index, entry, valuesBefore, maskBefore);
      previousSlot := slot;
      cursor := cursor + 4 + block.width;
    }
    ok := true;
    if genuine {
      DecodedHolds(b, width, values[..], mask[..]);
    }
  }

  ghost predicate Genuine(block: BlockHeader, payload: seq<byte>, b: Block, width: nat) {
    ValidBlock(b, width) && block == HeaderOf(b, block.cumulativeCandidates, width) && payload == Payload(b, width)
  }

  /** ReaderNext after the checksum: clear the buffers, then decode by representation. */
  method DecodePayload(block: BlockHeader, payload: seq<byte>, values: array<byte>, mask: array<byte>,
                       ghost b: Block, ghost width: nat)
    returns (ok: bool)
    requires values != mask
    requires block.slotCount > 0 && |payload| == block.payloadSize
    requires block.slotCount * block.width <= values.Length && MaskSize(block.slotCount) <= mask.Length
    modifies values, mask
    ensures ok <==> PayloadAccepted(block, payload)
    ensures ok ==> Restored(block, payload, values[..], mask[..])
    ensures Genuine(block, payload, b, width) ==> ok && Holds(b, width, values[..], mask[..])
  {
    hide Value, MaskBit, SparsePayload, Slots, ValidBlock, Holds, Crc.Checksum, GoodEntries, Taken;
    ghost var genuine := Genuine(block, payload, b, width);
    if genuine {
      PayloadLength(b, width);
      ShapeOf(b, width);
    }
    var valueBytes := block.slotCount * block.width;
    var maskBytes := MaskSize(block.slotCount);
    Fill(values, valueBytes, 0);
    Fill(mask, maskBytes, 0);
    ok := true;
    if block.representation == ALL && block.payloadSize == valueBytes {
      CopyInto(values, 0, payload);
      FillAllMask(mask, block.slotCount);
      if genuine {
        AllHolds(b, width, values[..], mask[..]);
      }
    } else if block.representation == BITMAP && block.payloadSize == maskBytes + valueBytes {
      CopyInto(mask, 0, payload[..maskBytes]);
      CopyInto(values, 0, payload[maskBytes..]);
      if genuine {
        BitmapHolds(b, width, values[..], mask[..]);
      }
    } else if block.representation == SPARSE && block.payloadSize == block.candidateCount * (4 + block.width) {
      ok := DecodeSparse(block, payload, values, mask, b, width);
    } else {
      ok := false;
    }
  }

  lemma ShapeOf(b: Block, width: nat)
    requires ValidBlock(b, width)
    ensures |b.values| == b.slots * width && |b.mask| == MaskSize(b.slots)
    ensures Representation(b, width) in {ALL, BITMAP, SPARSE}
  {
  }

  lemma AllHolds(b: Block, width: nat, values: seq<byte>, mask: seq<byte>)
    requires ValidBlock(b, width) && Representation(b, width) == ALL
    requires |b.values| <= |values| && values[..|b.values|] == b.values
    requires b.slots <= 8 * |mask|
    requires forall slot: nat | slot < b.slots :: MaskBit(mask, slot)
    ensures Holds(b, width, values, mask)
  {
    SlotsAll(b.mask, b.slots);
    DenseHolds(b, width, values, mask);
  }

  lemma BitmapHolds(b: Block, width: nat, values: seq<byte>, mask: seq<byte>)
    requires ValidBlock(b, width)
    requires |b.values| <= |values| && values[..|b.values|] == b.values
    requires |b.mask| <= |mask| && mask[..|b.mask|] == b.mask
    ensures Holds(b, width, values, mask)
  {
    forall slot: nat | slot < b.slots
      ensures MaskBit(mask, slot) == MaskBit(b.mask, slot)
    {
      MaskPrefix(b.mask, mask, slot);
    }
    DenseHolds(b, width, values, mask);
  }

  class Reader {
    var file: File?
    var header: Header
    var nextBlock: nat
    var nextOffset: nat

    constructor ()
      ensures file == null
    {
      file := null;
      header := InitialHeader(Metadata(0, 0, 0, 0, 0, 0, 0, 0, 0, 0, 0, 0, 0));
      nextBlock, nextOffset := 0, 0;
    }

    /** The reader stands before block `next` of a finished snapshot. */
    ghost predicate Reads(meta: Metadata, blocks: seq<Block>, next: nat)
      reads this, file
    {
      && file != null
      && ValidStore(meta, blocks) && file.content == StoreFile(meta, blocks)
      && header == FinalHeader(meta, blocks)
      && next <= |blocks| && nextBlock == next && nextOffset == OffsetOf(blocks, next, meta.width)
    }

    /** `stream` is what fopen returned. */
    method Open(stream: File?) returns (ok: bool)
      modifies this, stream
      ensures stream != null ==> stream.content == old(stream.content)
      ensures ok ==> stream != null && file == stream && FileAccepted(stream.content)
      ensures ok ==> header == DecodeHeader(stream.content[..HEADER_SIZE]) && nextBlock == 0 && nextOffset == HEADER_SIZE
      ensures ok ==> stream.faulted == old(stream.faulted)
      ensures !ok ==> file == null && (stream == null || stream.faulted || !FileAccepted(stream.content))
    {
      hide EncodeHeader, DecodeHeader, HeaderCrc;
      file := null;
      nextBlock, nextOffset := 0, 0;
      if stream == null {
        return false;
      }
      stream.pos := 0;
      var data;
      ok, data := stream.Read(HEADER_SIZE);
      if !ok {
        return;
      }
      header := DecodeHeader(data);
      if header.magic != STORE_MAGIC || header.version != STORE_VERSION || header.headerSize != HEADER_SIZE
         || header.headerCrc != HeaderCrc(header) || header.metadata.width == 0 || header.metadata.width > 8 {
        return false;
      }
      ok := stream.Seek(|stream.content|);
      if !ok {
        return;
      }
      var fileSize := stream.pos;
      if header.indexOffset != (HEADER_SIZE + header.dataBytes) % U64_LIMIT
         || header.blockCount > (U64_LIMIT - 1) / ENTRY_SIZE
         || header.indexOffset > U64_LIMIT - 1 - header.blockCount * ENTRY_SIZE
         || fileSize != header.indexOffset + header.blockCount * ENTRY_SIZE {
        return false;
      }
      file := stream;
      nextOffset := HEADER_SIZE;
    }

    method Next(values: array<byte>, mask: array<byte>, ghost meta: Metadata, ghost blocks: seq<Block>)
      returns (ok: bool, block: BlockHeader)
      requires values != mask
      modifies this, file, values, mask
      ensures file == old(file) && header == old(header)
      ensures file != null ==> file.content == old(file.content) && (old(file.faulted) ==> file.faulted)
      ensures ok ==> file != null && BlockAccepted(file.content, header, old(nextOffset))
      ensures ok ==> block == DecodeBlockHeader(file.content[old(nextOffset)..old(nextOffset) + BLOCK_SIZE])
      ensures ok ==> PayloadAccepted(block, BlockPayload(file.content, old(nextOffset), block))
      ensures ok ==> Restored(block, BlockPayload(file.content, old(nextOffset), block), values[..], mask[..])
      ensures ok ==> file.faulted == old(file.faulted)
      ensures ok ==> block.slotCount * block.width <= values.Length && MaskSize(block.slotCount) <= mask.Length
      ensures ok ==> nextBlock == old(nextBlock) + 1 && nextOffset == old(nextOffset) + BLOCK_SIZE + block.payloadSize
      ensures !ok ==> nextBlock == old(nextBlock) && nextOffset == old(nextOffset)
      ensures !ok && file != null ==>
        || file.faulted || nextBlock >= header.blockCount || !BlockAccepted(file.content, header, nextOffset)
        || block.slotCount * block.width > values.Length || MaskSize(block.slotCount) > mask.Length
        || !PayloadAccepted(block, BlockPayload(file.content, nextOffset, block))
      // the round trip: from a finished snapshot, the next block comes back whole
      ensures old(Reads(meta, blocks, nextBlock)) && old(nextBlock) < |blocks|
              && Readable(blocks[old(nextBlock)], meta.width)
              && blocks[old(nextBlock)].slots * meta.width <= values.Length
              && MaskSize(blocks[old(nextBlock)].slots) <= mask.Length
              ==> ok || file.faulted
      ensures old(Reads(meta, blocks, nextBlock)) && ok
              ==> && old(nextBlock) < |blocks| && Readable(blocks[old(nextBlock)], meta.width)
                  && Reads(meta, blocks, nextBlock)
                  && block == HeaderOf(blocks[old(nextBlock)], Total(blocks, old(nextBlock)), meta.width)
                  && Holds(blocks[old(nextBlock)], meta.width, values[..], mask[..])
    {
      hide Holds, BlockAccepted, HeaderOf, Total, OffsetOf, StoreFile, FinalHeader, ValidStore, DecodeBlockHeader;
      hide PayloadAccepted, BlockPayload, Readable, Restored;
      block := NO_BLOCK;
      FinalCounts(meta, blocks);
      if file == null || nextBlock >= header.blockCount {
        return false, block;
      }
      ghost var k := nextBlock;
      ghost var genuine := Reads(meta, blocks, k);
      ghost var b: Block := if k < |blocks| then blocks[k] else BlockData(0, 0, [], []);
      if genuine {
        BlockInStore(meta, blocks, k);
        HeaderShape(b, Total(blocks, k), meta.width);
      }
      var payload;
      ok, block, payload := ReadBlock(nextOffset);
      if !ok {
        return;
      }
      if block.slotCount * block.width > values.Length || MaskSize(block.slotCount) > mask.Length {
        ok := false;
        return;
      }
      ok := DecodePayload(block, payload, values, mask, b, meta.width);
      if ok {
        nextOffset := nextOffset + BLOCK_SIZE + block.payloadSize;
        nextBlock := nextBlock + 1;
      }
    }

    /** The block at `at`: header, checks, payload, checksum. */
    method ReadBlock(at: nat) returns (ok: bool, block: BlockHeader, payload: seq<byte>)
      requires file != null
      modifies file
      ensures file.content == old(file.content)
      ensures ok ==> BlockAccepted(file.content, header, at) && file.faulted == old(file.faulted)
      ensures ok ==> block == DecodeBlockHeader(file.content[at..at + BLOCK_SIZE])
      ensures ok ==> payload == BlockPayload(file.content, at, block)
      ensures ok ==> |payload| == block.payloadSize && block.slotCount > 0
                     && payload == file.content[at + BLOCK_SIZE..at + BLOCK_SIZE + block.payloadSize]
      ensures !ok ==> file.faulted || !BlockAccepted(file.content, header, at)
      ensures old(file.faulted) ==> file.faulted
    {
      hide DecodeBlockHeader, Crc.Checksum;
      block, payload := NO_BLOCK, [];
      var data := [];
      ok := file.Seek(at);
      if ok {
        ok, data := file.Read(BLOCK_SIZE);
      }
      if !ok {
        return;
      }
      block := DecodeBlockHeader(data);
      if block.magic != BLOCK_MAGIC || block.width != header.metadata.width
         || block.slotCount == 0 || block.candidateCount == 0 || block.candidateCount > block.slotCount
         || block.payloadSize == 0 || block.payloadSize > MAXIMUM_PAYLOAD
         || at > header.indexOffset
         || BLOCK_SIZE + block.payloadSize > header.indexOffset - at {
        ok := false;
        return;
      }
      var granted: bool := *;
      if !granted {
        file.faulted, ok := true, false;
        return;
      }
      ok, payload := file.Read(block.payloadSize);
      if ok {
        var crc := Crc.ComputeCrc32(payload);
        ok := crc == block.payloadCrc;
      }
    }
  }

  /** A reader just opened on a finished snapshot stands before its first block. */
  lemma OpenedAtStart(r: Reader, meta: Metadata, blocks: seq<Block>)
    requires r.file != null && ValidStore(meta, blocks) && r.file.content == StoreFile(meta, blocks)
    requires r.header == DecodeHeader(r.file.content[..HEADER_SIZE]) && r.nextBlock == 0 && r.nextOffset == HEADER_SIZE
    ensures r.Reads(meta, blocks, 0)
  {
    hide StoreFile, DecodeHeader, FinalHeader, ValidStore;
    HeaderInFile(meta, blocks);
    FirstOffset(blocks, meta.width);
  }

  lemma FirstOffset(blocks: seq<Block>, width: nat)
    ensures OffsetOf(blocks, 0, width) == HEADER_SIZE
  {
  }

  const NO_BLOCK := BlockHeader(0, 0, 0, 0, 0, 0, 0, 0, 0, 0)

  lemma HeaderShape(b: Block, cumulative: nat, width: nat)
    ensures HeaderOf(b, cumulative, width).slotCount == b.slots && HeaderOf(b, cumulative, width).width == width
    ensures HeaderOf(b, cumulative, width).cumulativeCandidates == cumulative
    ensures HeaderOf(b, cumulative, width).payloadSize == |Payload(b, width)|
  {
  }

  /** The file holds a block, header and payload, at `at`. */
  ghost predicate HasBlock(file: seq<byte>, at: nat, b: Block, cumulative: nat, width: nat) {
    var size := |Payload(b, width)|;
    && at + BLOCK_SIZE + size <= |file|
    && DecodeBlockHeader(file[at..at + BLOCK_SIZE]) == HeaderOf(b, cumulative, width)
    && file[at + BLOCK_SIZE..at + BLOCK_SIZE + size] == Payload(b, width)
  }

  /** Where block k lies in a finished snapshot. */
  lemma BlockBytes(meta: Metadata, blocks: seq<Block>, k: nat)
    requires ValidStore(meta, blocks) && k < |blocks|
    ensures HasBlock(StoreFile(meta, blocks), OffsetOf(blocks, k, meta.width), blocks[k], Total(blocks, k), meta.width)
    ensures OffsetOf(blocks, k + 1, meta.width)
         == OffsetOf(blocks, k, meta.width) + BLOCK_SIZE + |Payload(blocks[k], meta.width)|
    ensures OffsetOf(blocks, k + 1, meta.width) <= OffsetOf(blocks, |blocks|, meta.width)
  {
    hide EncodeHeader, DecodeBlockHeader, BlocksImage, IndexImage, Payload, HeaderOf, FinalHeader, Total;
    var w, n := meta.width, |blocks|;
    TotalFits(meta, blocks, k);
    var h, tail := EncodeHeader(FinalHeader(meta, blocks)), IndexImage(blocks, n, w);
    BlockInFile(h, blocks, n, w, tail, k);
    ImageIsBlock(StoreFile(meta, blocks), OffsetOf(blocks, k, w), BlockImage(blocks[k], Total(blocks, k), w),
                 blocks[k], Total(blocks, k), w);
  }

  lemma ImageIsBlock(file: seq<byte>, at: nat, image: seq<byte>, b: Block, cumulative: nat, width: nat)
    requires |image| >= BLOCK_SIZE && at + |image| <= |file| && file[at..at + |image|] == image
    requires DecodeBlockHeader(image[..BLOCK_SIZE]) == HeaderOf(b, cumulative, width)
    requires image[BLOCK_SIZE..] == Payload(b, width)
    ensures HasBlock(file, at, b, cumulative, width)
  {
    hide DecodeBlockHeader, Payload, HeaderOf;
    assert file[at..at + BLOCK_SIZE] == image[..BLOCK_SIZE];
    assert file[at + BLOCK_SIZE..at + |image|] == image[BLOCK_SIZE..];
  }

  lemma HeaderPasses(b: Block, cumulative: nat, width: nat)
    requires ValidBlock(b, width)
    ensures var h := HeaderOf(b, cumulative, width);
            && h.magic == BLOCK_MAGIC && 0 < h.candidateCount <= h.slotCount && 0 < h.payloadSize
            && (h.payloadSize <= MAXIMUM_PAYLOAD <==> Readable(b, width))
            && h.payloadCrc == Crc.Checksum(Payload(b, width))
  {
    hide Payload, Crc.Checksum, Count;
    PayloadFits(b, width);
  }

  /** Every block of a finished snapshot is what the writer wrote, and passes the reader's checks unless its payload is
      over the reader's limit. */
  lemma BlockInStore(meta: Metadata, blocks: seq<Block>, k: nat)
    requires ValidStore(meta, blocks) && k < |blocks|
    ensures ValidBlock(blocks[k], meta.width)
    ensures BlockAccepted(StoreFile(meta, blocks), FinalHeader(meta, blocks), OffsetOf(blocks, k, meta.width))
            <==> Readable(blocks[k], meta.width)
    ensures HasBlock(StoreFile(meta, blocks), OffsetOf(blocks, k, meta.width), blocks[k], Total(blocks, k), meta.width)
    ensures OffsetOf(blocks, k + 1, meta.width)
         == OffsetOf(blocks, k, meta.width) + BLOCK_SIZE + |Payload(blocks[k], meta.width)|
  {
    hide DecodeBlockHeader, Payload, Crc.Checksum, HeaderOf, FinalHeader, StoreFile, OffsetOf, Total, Readable;
    BlockBytes(meta, blocks, k);
    FinalCounts(meta, blocks);
    HeaderShape(blocks[k], Total(blocks, k), meta.width);
    HeaderPasses(blocks[k], Total(blocks, k), meta.width);
  }

  /** Damage within four consecutive bytes of a payload makes ReaderNext reject that block. */
  lemma DamagedPayloadRejected(meta: Metadata, blocks: seq<Block>, k: nat, damaged: seq<byte>,
                                 from: nat, until: nat)
    requires ValidStore(meta, blocks) && k < |blocks| && Readable(blocks[k], meta.width)
    requires OffsetOf(blocks, k, meta.width) + BLOCK_SIZE <= from <= until <= OffsetOf(blocks, k + 1, meta.width)
    requires until - from <= 4 && until <= |StoreFile(meta, blocks)| == |damaged|
    requires damaged[..from] == StoreFile(meta, blocks)[..from] && damaged[until..] == StoreFile(meta, blocks)[until..]
    ensures BlockAccepted(damaged, FinalHeader(meta, blocks), OffsetOf(blocks, k, meta.width))
            <==> damaged == StoreFile(meta, blocks)
  {
    hide StoreFile, FinalHeader, Payload, DecodeBlockHeader, Crc.Checksum, OffsetOf, ValidStore;
    var file, at := StoreFile(meta, blocks), OffsetOf(blocks, k, meta.width);
    BlockInStore(meta, blocks, k);
    HeaderShape(blocks[k], Total(blocks, k), meta.width);
    SamePart(damaged, file, from, at, at + BLOCK_SIZE);
    DamagedPart(file, damaged, at + BLOCK_SIZE, OffsetOf(blocks, k + 1, meta.width), from, until);
  }

  /** The checksum of a part sees every change within four consecutive bytes of it. */
  lemma DamagedPart(file: seq<byte>, damaged: seq<byte>, low: nat, high: nat, from: nat, until: nat)
    requires low <= from <= until <= high <= |file| == |damaged| && until - from <= 4
    requires damaged[..from] == file[..from] && damaged[until..] == file[until..]
    ensures Crc.Checksum(damaged[low..high]) == Crc.Checksum(file[low..high]) <==> damaged == file
  {
    hide Crc.Checksum;
    AgreeOutside(file, damaged, low, high, from, until);
    Crc.DamageIsDetected(damaged[low..high], file[low..high], from - low, until - low);
    if damaged[low..high] == file[low..high] {
      AgreeEverywhere(file, damaged, low, high, from, until);
    }
  }

  lemma AgreeOutside(a: seq<byte>, b: seq<byte>, low: nat, high: nat, from: nat, until: nat)
    requires low <= from <= until <= high <= |a| == |b|
    requires b[..from] == a[..from] && b[until..] == a[until..]
    ensures b[low..high][..from - low] == a[low..high][..from - low]
    ensures b[low..high][until - low..] == a[low..high][until - low..]
  {
    forall i | low <= i < from ensures b[i] == a[i] {
      assert b[..from][i] == a[..from][i];
    }
    forall i | until <= i < high ensures b[i] == a[i] {
      assert b[until..][i - until] == a[until..][i - until];
    }
  }

  lemma AgreeEverywhere(a: seq<byte>, b: seq<byte>, low: nat, high: nat, from: nat, until: nat)
    requires low <= from <= until <= high <= |a| == |b|
    requires b[..from] == a[..from] && b[until..] == a[until..] && b[low..high] == a[low..high]
    ensures b == a
  {
    forall i | 0 <= i < |a| ensures b[i] == a[i] {
      if i < from {
        assert b[..from][i] == a[..from][i];
      } else if i < until {
        assert b[low..high][i - low] == a[low..high][i - low];
      } else {
        assert b[until..][i - until] == a[until..][i - until];
      }
    }
  }

  lemma SamePart(a: seq<byte>, b: seq<byte>, n: nat, i: nat, j: nat)
    requires n <= |a| && n <= |b| && a[..n] == b[..n] && i <= j <= n
    ensures a[i..j] == b[i..j]
  {
    assert a[i..j] == a[..n][i..j] && b[i..j] == b[..n][i..j];
  }
}
