/** One refinement pass over a snapshot (runRefine in unknown_search.c): read a block, filter its
    mask against fresh values, write the block with the new mask. On the candidate lists the two
    snapshots denote, the pass is a plain list filter. */
module StoreRefine {
  import opened Bytes
  import opened Files
  import opened StoreFormat
  import opened StoreImage
  import opened StoreReader
  import opened StoreWriter
  import opened SearchCompare
  import opened Options

  const CHUNK_SIZE := 0x40000

  type Memory = nat -> byte

  /** The `width` bytes of memory at an address. */
  function Fresh(memory: Memory, address: nat, width: nat): (s: seq<byte>)
    ensures |s| == width
  {
    seq(width, k requires 0 <= k => memory((address + k) % U64_LIMIT))
  }

  // ----- what a snapshot denotes -----

  datatype Candidate = Candidate(address: nat, value: seq<byte>)

  function BlockCandidates(b: Block, n: nat, alignment: nat, width: nat): seq<Candidate>
    requires n <= b.slots
  {
    if n == 0 then []
    else
      BlockCandidates(b, n - 1, alignment, width)
      + (if MaskBit(b.mask, n - 1)
         then [Candidate(AddressOf(b.base, n - 1, alignment), Value(b.values, n - 1, width))] else [])
  }

  function Candidates(blocks: seq<Block>, n: nat, alignment: nat, width: nat): seq<Candidate>
    requires n <= |blocks|
  {
    if n == 0 then []
    else Candidates(blocks, n - 1, alignment, width) + BlockCandidates(blocks[n - 1], blocks[n - 1].slots, alignment, width)
  }

  function AddressList(list: seq<Candidate>): (r: seq<nat>)
    ensures |r| == |list|
  {
    seq(|list|, i requires 0 <= i < |list| => list[i].address)
  }

  lemma AddressListConcat(a: seq<Candidate>, b: seq<Candidate>)
    ensures AddressList(a + b) == AddressList(a) + AddressList(b)
  {
  }

  lemma {:induction false} BlockCandidateAddresses(b: Block, n: nat, alignment: nat, width: nat)
    requires n <= b.slots
    ensures AddressList(BlockCandidates(b, n, alignment, width)) == SlotAddresses(Slots(b.mask, n), b.base, alignment)
  {
    hide MaskBit, Value, AddressOf;
    if n == 0 {
    } else {
      BlockCandidateAddresses(b, n - 1, alignment, width);
      var before, slots := BlockCandidates(b, n - 1, alignment, width), Slots(b.mask, n - 1);
      if MaskBit(b.mask, n - 1) {
        var last := Candidate(AddressOf(b.base, n - 1, alignment), Value(b.values, n - 1, width));
        assert Slots(b.mask, n) == slots + [n - 1];
        AddressListConcat(before, [last]);
        SlotAddressesConcat(slots, [n - 1], b.base, alignment);
        assert AddressList([last]) == [last.address] == SlotAddresses([n - 1], b.base, alignment);
      } else {
        assert Slots(b.mask, n) == slots;
        assert BlockCandidates(b, n, alignment, width) == before;
      }
    }
  }

  /** The addresses of the candidate list are the list the pager serves. */
  lemma {:induction false} CandidateAddresses(blocks: seq<Block>, n: nat, alignment: nat, width: nat)
    requires n <= |blocks|
    ensures AddressList(Candidates(blocks, n, alignment, width)) == Addresses(blocks, n, alignment)
  {
    if n == 0 {
    } else {
      var b := blocks[n - 1];
      CandidateAddresses(blocks, n - 1, alignment, width);
      BlockCandidateAddresses(b, b.slots, alignment, width);
      AddressListConcat(Candidates(blocks, n - 1, alignment, width), BlockCandidates(b, b.slots, alignment, width));
    }
  }

  // ----- refinement as a list filter -----

  ghost predicate Keeps(c: Candidate, mode: Mode, exactValue: nat, memory: Memory, width: nat) {
    Compare(mode, DecodeLe(c.value), DecodeLe(Fresh(memory, c.address, width)), exactValue)
  }

  /** The candidates that satisfy the mode, each with its current value as the next baseline. */
  ghost function Refined(list: seq<Candidate>, mode: Mode, exactValue: nat, memory: Memory, width: nat): seq<Candidate> {
    if list == [] then []
    else
      var c := list[|list| - 1];
      Refined(list[..|list| - 1], mode, exactValue, memory, width)
      + (if Keeps(c, mode, exactValue, memory, width) then [Candidate(c.address, Fresh(memory, c.address, width))] else [])
  }

  lemma {:induction false} RefinedConcat(a: seq<Candidate>, b: seq<Candidate>, mode: Mode, exactValue: nat, memory: Memory,
                                         width: nat)
    ensures Refined(a + b, mode, exactValue, memory, width)
         == Refined(a, mode, exactValue, memory, width) + Refined(b, mode, exactValue, memory, width)
  {
    hide Keeps, Fresh;
    if b == [] {
      assert a + b == a;
    } else {
      assert (a + b)[..|a + b| - 1] == a + b[..|b| - 1];
      RefinedConcat(a, b[..|b| - 1], mode, exactValue, memory, width);
    }
  }

  lemma RefinedGrows(list: seq<Candidate>, c: Candidate, mode: Mode, exactValue: nat, memory: Memory, width: nat)
    ensures Refined(list + [c], mode, exactValue, memory, width)
         == Refined(list, mode, exactValue, memory, width)
            + (if Keeps(c, mode, exactValue, memory, width) then [Candidate(c.address, Fresh(memory, c.address, width))]
               else [])
  {
    hide Keeps, Fresh;
    assert (list + [c])[..|list|] == list;
  }

  ghost predicate FreshAt(v: seq<byte>, memory: Memory, address: nat, width: nat) {
    |v| == width && forall k :: 0 <= k < width ==> v[k] == memory((address + k) % U64_LIMIT)
  }

  /** What a refinement means: an address stays, with the value now in memory, if and only if it was a candidate whose
      old and new values are in the relation the mode names. */
  lemma {:induction false} RefinedExactly(list: seq<Candidate>, mode: Mode, exactValue: nat, memory: Memory, width: nat)
    ensures forall address, v :: Candidate(address, v) in Refined(list, mode, exactValue, memory, width) <==>
      && FreshAt(v, memory, address, width)
      && exists u :: Candidate(address, u) in list
           && (mode == Exact ==> DecodeLe(v) == exactValue)
           && (mode == Changed ==> DecodeLe(v) != DecodeLe(u))
           && (mode == Unchanged ==> DecodeLe(v) == DecodeLe(u))
           && (mode == Increased ==> DecodeLe(v) > DecodeLe(u))
           && (mode == Decreased ==> DecodeLe(v) < DecodeLe(u))
  {
    hide DecodeLe, Fresh, FreshAt, Compare;
    if list == [] {
    } else {
      var front, c := list[..|list| - 1], list[|list| - 1];
      assert list == front + [c];
      RefinedExactly(front, mode, exactValue, memory, width);
      var f := Fresh(memory, c.address, width);
      CompareMeans(mode, DecodeLe(c.value), DecodeLe(f), exactValue);
      forall v ensures FreshAt(v, memory, c.address, width) <==> v == f {
        FreshIs(v, memory, c.address, width);
      }
    }
  }

  lemma FreshIs(v: seq<byte>, memory: Memory, address: nat, width: nat)
    ensures FreshAt(v, memory, address, width) <==> v == Fresh(memory, address, width)
  {
    if FreshAt(v, memory, address, width) {
      assert v == Fresh(memory, address, width);
    }
  }

  /** The survivors keep their order, and every candidate is judged once: those that stay are the list at ascending
      positions. */
  lemma {:induction false} RefinedInOrder(list: seq<Candidate>, mode: Mode, exactValue: nat, memory: Memory, width: nat)
    returns (positions: seq<nat>)
    ensures var kept := Refined(list, mode, exactValue, memory, width);
            && |positions| == |kept|
            && (forall i :: 0 <= i < |kept| ==> positions[i] < |list| && kept[i].address == list[positions[i]].address)
            && (forall i, j :: 0 <= i < j < |kept| ==> positions[i] < positions[j])
  {
    hide Keeps, Fresh, Refined;
    if list == [] {
      NothingKept(mode, exactValue, memory, width);
      positions := [];
    } else {
      var n := |list| - 1;
      var before := RefinedInOrder(list[..n], mode, exactValue, memory, width);
      assert list == list[..n] + [list[n]];
      RefinedGrows(list[..n], list[n], mode, exactValue, memory, width);
      positions := if Keeps(list[n], mode, exactValue, memory, width) then before + [n] else before;
    }
  }

  /** Unchanged, increased and decreased keep every candidate exactly once between them. */
  lemma {:induction false} RefinementsPartition(list: seq<Candidate>, memory: Memory, width: nat)
    ensures |Refined(list, Unchanged, 0, memory, width)| + |Refined(list, Increased, 0, memory, width)|
            + |Refined(list, Decreased, 0, memory, width)| == |list|
    ensures |Refined(list, Changed, 0, memory, width)|
         == |Refined(list, Increased, 0, memory, width)| + |Refined(list, Decreased, 0, memory, width)|
  {
    hide Fresh, DecodeLe;
    if list == [] {
    } else {
      var c := list[|list| - 1];
      RefinementsPartition(list[..|list| - 1], memory, width);
      ModesPartition(DecodeLe(c.value), DecodeLe(Fresh(memory, c.address, width)), 0);
    }
  }

  // ----- one block -----

  /** `current` holds the memory behind every slot. */
  ghost predicate Sampled(b: Block, alignment: nat, width: nat, memory: Memory, current: seq<byte>) {
    forall slot: nat | slot < b.slots ::
      Value(current, slot, width) == Fresh(memory, AddressOf(b.base, slot, alignment), width)
  }

  lemma {:induction false} BlockRefined(b: Block, c: Block, n: nat, alignment: nat, width: nat, mode: Mode, exactValue: nat,
                                        memory: Memory)
    requires n <= b.slots == c.slots && b.base == c.base
    requires Sampled(b, alignment, width, memory, c.values)
    requires forall slot: nat | slot < b.slots ::
      MaskBit(c.mask, slot) <==> Survives(mode, exactValue, b.values, c.values, b.mask, width, slot)
    ensures BlockCandidates(c, n, alignment, width)
         == Refined(BlockCandidates(b, n, alignment, width), mode, exactValue, memory, width)
  {
    hide MaskBit, Value, Fresh, AddressOf, Compare, DecodeLe, Slots, Refined;
    NothingKept(mode, exactValue, memory, width);
    if n == 0 {
    } else {
      BlockRefined(b, c, n - 1, alignment, width, mode, exactValue, memory);
      var before := BlockCandidates(b, n - 1, alignment, width);
      if MaskBit(b.mask, n - 1) {
        var last := Candidate(AddressOf(b.base, n - 1, alignment), Value(b.values, n - 1, width));
        assert BlockCandidates(b, n, alignment, width) == before + [last];
        RefinedGrows(before, last, mode, exactValue, memory, width);
        if !MaskBit(c.mask, n - 1) {
          assert BlockCandidates(c, n, alignment, width) == BlockCandidates(c, n - 1, alignment, width);
        }
      } else {
        assert BlockCandidates(b, n, alignment, width) == before;
        assert BlockCandidates(c, n, alignment, width) == BlockCandidates(c, n - 1, alignment, width);
      }
    }
  }

  lemma NothingKept(mode: Mode, exactValue: nat, memory: Memory, width: nat)
    ensures Refined([], mode, exactValue, memory, width) == []
  {
  }

  /** The reader's copy of a block refines like the block itself. */
  lemma SurvivesInCopy(b: Block, width: nat, values: seq<byte>, mask: seq<byte>, current: seq<byte>, mode: Mode,
                       exactValue: nat, slot: nat)
    requires Holds(b, width, values, mask) && slot < b.slots
    ensures Survives(mode, exactValue, values, current, mask, width, slot)
            <==> Survives(mode, exactValue, b.values, current, b.mask, width, slot)
  {
    hide MaskBit, Value, Compare, DecodeLe;
  }

  lemma RawSample(memory: Memory, base: nat, slot: nat, alignment: nat, width: nat, span: nat)
    requires slot * alignment + width <= span
    ensures Fresh(memory, base, span)[slot * alignment..slot * alignment + width]
         == Fresh(memory, AddressOf(base, slot, alignment), width)
  {
    var at := slot * alignment;
    forall k | 0 <= k < width
      ensures Fresh(memory, base, span)[at..at + width][k] == Fresh(memory, AddressOf(base, slot, alignment), width)[k]
    {
      ModAdd(base + at, k);
    }
  }

  lemma ModAdd(x: nat, k: nat)
    ensures (x % U64_LIMIT + k) % U64_LIMIT == (x + k) % U64_LIMIT
  {
  }

  /** The values behind every slot, packed from one raw read of the block's span. */
  method Sample(base: nat, slotCount: nat, alignment: nat, width: nat, raw: seq<byte>, current: array<byte>,
                ghost memory: Memory)
    requires slotCount > 0 && |raw| == (slotCount - 1) * alignment + width && raw == Fresh(memory, base, |raw|)
    requires slotCount * width <= current.Length
    modifies current
    ensures forall slot: nat | slot < slotCount ::
      Value(current[..], slot, width) == Fresh(memory, AddressOf(base, slot, alignment), width)
  {
    hide Value, AddressOf, Fresh;
    for slot := 0 to slotCount
      invariant forall s: nat | s < slot ::
        Value(current[..], s, width) == Fresh(memory, AddressOf(base, s, alignment), width)
    {
      NextMultiple(slot, slotCount, width);
      MulMonotone(alignment, slot, slotCount - 1);
      RawSample(memory, base, slot, alignment, width, |raw|);
      ghost var before := current[..];
      var value := raw[slot * alignment..slot * alignment + width];
      CopyInto(current, slot * width, value);
      forall s: nat | s <= slot
        ensures Value(current[..], s, width) == Fresh(memory, AddressOf(base, s, alignment), width)
      {
        NextMultiple(s, slotCount, width);
        ValueReplaced(before, slot, value, width, s);
        assert current[..] == Overwrite(before, slot * width, value);
      }
    }
  }

  /** Block i of the old snapshot turned into what it adds to the new one. */
  lemma BlockStep(meta: Metadata, blocks: seq<Block>, i: nat, added: seq<Block>, c: Block, mode: Mode, exactValue: nat,
                  memory: Memory)
    requires i < |blocks| && blocks[i].slots == c.slots && blocks[i].base == c.base
    requires Sampled(blocks[i], meta.alignment, meta.width, memory, c.values)
    requires forall slot: nat | slot < c.slots ::
      MaskBit(c.mask, slot) <==> Survives(mode, exactValue, blocks[i].values, c.values, blocks[i].mask, meta.width, slot)
    requires Candidates(added, |added|, meta.alignment, meta.width)
          == Refined(Candidates(blocks, i, meta.alignment, meta.width), mode, exactValue, memory, meta.width)
    ensures Candidates(added + Added(c), |added + Added(c)|, meta.alignment, meta.width)
         == Refined(Candidates(blocks, i + 1, meta.alignment, meta.width), mode, exactValue, memory, meta.width)
  {
    hide MaskBit, Value, Survives, Refined, Sampled, BlockCandidates;
    var b, al, w := blocks[i], meta.alignment, meta.width;
    BlockRefined(b, c, b.slots, al, w, mode, exactValue, memory);
    RefinedConcat(Candidates(blocks, i, al, w), BlockCandidates(b, b.slots, al, w), mode, exactValue, memory, w);
    if Count(c) == 0 {
      BlockCandidateAddresses(c, c.slots, al, w);
      assert BlockCandidates(c, c.slots, al, w) == [];
      assert added + Added(c) == added;
    } else {
      CandidatesPrefix(added, [c], |added|, al, w);
    }
  }

  lemma {:induction false} CandidatesPrefix(a: seq<Block>, b: seq<Block>, n: nat, alignment: nat, width: nat)
    requires n <= |a|
    ensures Candidates(a + b, n, alignment, width) == Candidates(a, n, alignment, width)
  {
    hide BlockCandidates;
    if n == 0 {
    } else {
      CandidatesPrefix(a, b, n - 1, alignment, width);
    }
  }

  // ----- the pass -----

  /** The new blocks denote the refinement of the first n old ones. */
  ghost predicate RefinesFirst(added: seq<Block>, meta: Metadata, blocks: seq<Block>, n: nat, mode: Mode,
                               exactValue: nat, memory: Memory)
    requires n <= |blocks|
  {
    Candidates(added, |added|, meta.alignment, meta.width)
    == Refined(Candidates(blocks, n, meta.alignment, meta.width), mode, exactValue, memory, meta.width)
  }

  /** The caller's buffers, cut to the size of the block, are what AddBlock stores. */
  lemma StoredBlock(b: Block, c: Block, width: nat, alignment: nat, memory: Memory, mode: Mode, exactValue: nat,
                    values: seq<byte>, mask: seq<byte>, current: seq<byte>, newMask: seq<byte>)
    requires ValidBlock(b, width) && Holds(b, width, values, mask)
    requires b.slots * width <= |current| && MaskSize(b.slots) <= |newMask|
    requires c == BlockOf(b.base, b.slots, current, Some(newMask), width)
    requires forall slot: nat | slot < b.slots ::
      Value(current, slot, width) == Fresh(memory, AddressOf(b.base, slot, alignment), width)
    requires forall slot: nat | slot < b.slots ::
      MaskBit(newMask, slot) <==> Survives(mode, exactValue, values, current, mask, width, slot)
    ensures Sampled(b, alignment, width, memory, c.values)
    ensures forall slot: nat | slot < b.slots ::
      MaskBit(c.mask, slot) <==> Survives(mode, exactValue, b.values, c.values, b.mask, width, slot)
  {
    hide MaskBit, Value, Fresh, AddressOf, Slots, DecodeLe, Compare;
    forall slot: nat | slot < b.slots
      ensures Value(c.values, slot, width) == Value(current, slot, width)
      ensures MaskBit(c.mask, slot) == MaskBit(newMask, slot)
      ensures MaskBit(c.mask, slot) <==> Survives(mode, exactValue, b.values, c.values, b.mask, width, slot)
    {
      NextMultiple(slot, b.slots, width);
      ValuePrefix(c.values, current, slot, width);
      MaskPrefix(c.mask, newMask, slot);
      SurvivesInCopy(b, width, values, mask, current, mode, exactValue, slot);
    }
  }

  /** The four work buffers of the pass. */
  class Buffers {
    const previous: array<byte>
    const oldMask: array<byte>
    const current: array<byte>
    const newMask: array<byte>

    ghost predicate Valid() {
      && previous != oldMask && previous != current && previous != newMask
      && oldMask != current && oldMask != newMask && current != newMask
      && previous.Length == current.Length == CHUNK_SIZE + 8
      && oldMask.Length == newMask.Length == CHUNK_SIZE / 8 + 8
    }

    constructor ()
      ensures Valid() && fresh(previous) && fresh(oldMask) && fresh(current) && fresh(newMask)
    {
      previous := new byte[CHUNK_SIZE + 8];
      oldMask := new byte[CHUNK_SIZE / 8 + 8];
      current := new byte[CHUNK_SIZE + 8];
      newMask := new byte[CHUNK_SIZE / 8 + 8];
    }
  }

  /** How the pass, or one block of it, ends. */
  datatype Pass = Finished | Cancelled | CorruptSession | IoError

  /** The raw read behind the slots of a block. */
  function Span(slots: nat, alignment: nat, width: nat): nat
    requires slots > 0
  {
    (slots - 1) * alignment + width
  }

  /** The buffers have room for the block. */
  predicate Buffered(b: Block, width: nat) {
    b.slots * width <= CHUNK_SIZE + 8 && MaskSize(b.slots) <= CHUNK_SIZE / 8 + 8
  }

  /** The block can be read and fits into the buffers. */
  predicate Intact(b: Block, alignment: nat, width: nat) {
    && b.slots > 0 && Readable(b, width) && Buffered(b, width)
    && Span(b.slots, alignment, width) <= CHUNK_SIZE + 8
  }

  /** And so can the memory behind it. */
  predicate Sampleable(b: Block, alignment: nat, width: nat, readable: (nat, nat) -> bool) {
    Intact(b, alignment, width) && readable(b.base, Span(b.slots, alignment, width))
  }

  /** Sampling and filtering: the buffers come to hold the next generation of the block. */
  method FilterBlock(block: BlockHeader, buffers: Buffers, meta: Metadata, mode: Mode, exactValue: nat, memory: Memory,
                     readable: (nat, nat) -> bool)
    returns (r: Pass)
    requires buffers.Valid() && block.slotCount > 0
    requires block.slotCount * meta.width <= CHUNK_SIZE + 8 && MaskSize(block.slotCount) <= CHUNK_SIZE / 8 + 8
    modifies buffers.current, buffers.newMask
    ensures var span := Span(block.slotCount, meta.alignment, meta.width);
            r == if span > CHUNK_SIZE + 8 then CorruptSession
                 else if !readable(block.base, span) then IoError else Finished
    ensures r.Finished? ==> forall slot: nat | slot < block.slotCount ::
      Value(buffers.current[..], slot, meta.width) == Fresh(memory, AddressOf(block.base, slot, meta.alignment), meta.width)
    ensures r.Finished? ==> forall slot: nat | slot < block.slotCount ::
      MaskBit(buffers.newMask[..], slot)
      <==> Survives(mode, exactValue, buffers.previous[..], buffers.current[..], buffers.oldMask[..], meta.width, slot)
  {
    hide MaskBit, Value, Fresh, AddressOf, Survives, Slots;
    var span := Span(block.slotCount, meta.alignment, meta.width);
    if span > CHUNK_SIZE + 8 {
      return CorruptSession;
    }
    if !readable(block.base, span) {
      return IoError;
    }
    var raw := Fresh(memory, block.base, span);
    Sample(block.base, block.slotCount, meta.alignment, meta.width, raw, buffers.current, memory);
    var matches := FilterUnsigned(mode, buffers.previous[..], buffers.current[..], buffers.oldMask[..], buffers.newMask,
                                  block.slotCount, meta.width, exactValue);
    r := Finished;
  }

  lemma ShapeInStore(meta: Metadata, blocks: seq<Block>, i: nat)
    requires ValidStore(meta, blocks) && i < |blocks|
    ensures ValidBlock(blocks[i], meta.width) && 1 <= meta.width <= 8 && 0 < blocks[i].slots < U32_LIMIT - 7
  {
  }

  /** One block of the pass: read, filter, append. */
  method RefineBlock(reader: Reader, writer: Writer, buffers: Buffers, mode: Mode, exactValue: nat, memory: Memory,
                     readable: (nat, nat) -> bool, ghost meta: Metadata, ghost blocks: seq<Block>, ghost i: nat)
    returns (r: Pass)
    requires reader.Reads(meta, blocks, i) && i < |blocks| && buffers.Valid()
    requires writer.Valid() && writer.file != null && !writer.failed && writer.file != reader.file
    requires writer.header.metadata == meta.(generation := meta.generation + 1)
    requires RefinesFirst(writer.blocks, meta, blocks, i, mode, exactValue, memory)
    modifies reader, reader.file, writer, writer.file
    modifies buffers.previous, buffers.oldMask, buffers.current, buffers.newMask
    ensures reader.file == old(reader.file) && writer.file == old(writer.file)
    ensures writer.Valid() && writer.header.metadata == old(writer.header.metadata)
    ensures r.Finished? ==> reader.Reads(meta, blocks, i + 1) && !writer.failed
    ensures r.Finished? ==> RefinesFirst(writer.blocks, meta, blocks, i + 1, mode, exactValue, memory)
    ensures r.Finished? ==> Sampleable(blocks[i], meta.alignment, meta.width, readable)
    ensures r.Finished? ==> reader.file.faulted == old(reader.file.faulted) && writer.file.faulted == old(writer.file.faulted)
    ensures r.CorruptSession? ==> reader.file.faulted || !Intact(blocks[i], meta.alignment, meta.width)
    ensures r.IoError? ==>
      || writer.file.faulted
      || (Intact(blocks[i], meta.alignment, meta.width) && !Sampleable(blocks[i], meta.alignment, meta.width, readable))
    ensures !r.Finished? ==>
      reader.file.faulted || writer.file.faulted || !Sampleable(blocks[i], meta.alignment, meta.width, readable)
    ensures !r.Cancelled?
  {
    hide Holds, Total, Candidates, Refined, BlockAccepted, Survives, ValidStore, StoreFile, FinalHeader, AddressOf;
    hide ValidMetadata, ValidBlocks, PartialFile, CountedHeader, MaskBit, Value, OffsetOf, Slots, EncodeHeader, Fresh;
    hide Payload, Representation, Sampled, EncodeBlockHeader, DecodeBlockHeader, Readable, PayloadBytes;
    ghost var b := blocks[i];
    ShapeInStore(meta, blocks, i);
    var ok, block := reader.Next(buffers.previous, buffers.oldMask, meta, blocks);
    if !ok {
      return CorruptSession;
    }
    HeaderShape(b, Total(blocks, i), meta.width);
    r := FilterBlock(block, buffers, writer.header.metadata, mode, exactValue, memory, readable);
    if !r.Finished? {
      return;
    }
    ghost var before := writer.blocks;
    ghost var c := BlockOf(b.base, b.slots, buffers.current[..], Some(buffers.newMask[..]), meta.width);
    StoredBlock(b, c, meta.width, meta.alignment, memory, mode, exactValue, buffers.previous[..], buffers.oldMask[..],
                buffers.current[..], buffers.newMask[..]);
    BlockStep(meta, blocks, i, before, c, mode, exactValue, memory);
    SmallPayload(c, meta.width);
    ok := writer.AddBlock(block.base, block.slotCount, buffers.current[..], Some(buffers.newMask[..]));
    if !ok {
      r := IoError;
    }
  }

  /** The session's cancel flag: a request may arrive at any moment, and is not withdrawn during a pass. */
  class Cancellation {
    var requested: bool

    constructor ()
      ensures !requested
    {
      requested := false;
    }

    method Poll() returns (cancelled: bool)
      modifies this
      ensures cancelled == requested && (old(requested) ==> requested)
    {
      if * {
        requested := true;
      }
      cancelled := requested;
    }
  }

  /** The whole pass. On success the new snapshot is finished on disk and its candidate list is the
      old one, filtered; the count in its header is the length of that list. */
  method RefineSnapshot(reader: Reader, writer: Writer, mode: Mode, exactValue: nat, memory: Memory,
                        readable: (nat, nat) -> bool, cancellation: Cancellation,
                        ghost meta: Metadata, ghost blocks: seq<Block>)
    returns (r: Pass)
    requires reader.Reads(meta, blocks, 0)
    requires writer.Valid() && writer.file != null && !writer.failed && writer.file != reader.file && writer.blocks == []
    requires writer.header.metadata == meta.(generation := meta.generation + 1)
    modifies reader, reader.file, writer, writer.file, cancellation
    ensures r.Cancelled? <==> cancellation.requested
    ensures r.Finished? ==> ValidStore(writer.header.metadata, writer.blocks)
    ensures r.Finished? ==> old(writer.file).content == StoreFile(writer.header.metadata, writer.blocks)
    ensures r.Finished? ==> RefinesFirst(writer.blocks, meta, blocks, |blocks|, mode, exactValue, memory)
    // the addresses that stay, on the numbers their bytes spell
    ensures r.Finished? ==> forall address, v ::
      Candidate(address, v) in Candidates(writer.blocks, |writer.blocks|, meta.alignment, meta.width) <==>
        && FreshAt(v, memory, address, meta.width)
        && exists u :: Candidate(address, u) in Candidates(blocks, |blocks|, meta.alignment, meta.width)
             && (mode == Exact ==> DecodeLe(v) == exactValue)
             && (mode == Changed ==> DecodeLe(v) != DecodeLe(u))
             && (mode == Unchanged ==> DecodeLe(v) == DecodeLe(u))
             && (mode == Increased ==> DecodeLe(v) > DecodeLe(u))
             && (mode == Decreased ==> DecodeLe(v) < DecodeLe(u))
    ensures !r.Finished? ==> writer.removed
    // which failure is reported
    ensures r.Finished? ==>
      old(reader.file).faulted == old(reader.file.faulted) && old(writer.file).faulted == old(writer.file.faulted)
    ensures r.CorruptSession? ==>
      old(reader.file).faulted || exists b <- blocks :: !Intact(b, meta.alignment, meta.width)
    ensures r.IoError? ==>
      || old(writer.file).faulted
      || exists b <- blocks ::
           Intact(b, meta.alignment, meta.width) && !Sampleable(b, meta.alignment, meta.width, readable)
    // without a cancel and without a failing file call, exactly a block that cannot be sampled stops it
    ensures !r.Cancelled? && !old(reader.file).faulted && !old(writer.file).faulted ==>
      (r.Finished? <==> forall b <- blocks :: Sampleable(b, meta.alignment, meta.width, readable))
  {
    hide Candidates, Refined, ValidStore, StoreFile, FinalHeader, OffsetOf, Total, Sampleable, Intact, FreshAt, DecodeLe;
    hide ValidMetadata, ValidBlocks, PartialFile, CountedHeader, EncodeHeader;
    RefinedExactly(Candidates(blocks, |blocks|, meta.alignment, meta.width), mode, exactValue, memory, meta.width);
    ghost var output := writer.file;
    var buffers := new Buffers();
    NothingRefined(meta, blocks, mode, exactValue, memory);
    FinalCounts(meta, blocks);
    r := Finished;
    while reader.nextBlock < reader.header.blockCount
      invariant r.Finished? && buffers.Valid() && fresh(buffers.previous) && fresh(buffers.oldMask)
      invariant fresh(buffers.current) && fresh(buffers.newMask)
      invariant reader.nextBlock <= |blocks| && reader.Reads(meta, blocks, reader.nextBlock)
      invariant reader.file == old(reader.file) && reader.file.faulted == old(reader.file.faulted)
      invariant output.faulted == old(writer.file.faulted)
      invariant writer.Valid() && writer.file == output && !writer.failed && writer.file != reader.file
      invariant writer.header.metadata == meta.(generation := meta.generation + 1)
      invariant RefinesFirst(writer.blocks, meta, blocks, reader.nextBlock, mode, exactValue, memory)
      invariant forall k :: 0 <= k < reader.nextBlock ==> Sampleable(blocks[k], meta.alignment, meta.width, readable)
      decreases |blocks| - reader.nextBlock
    {
      var cancelled := cancellation.Poll();
      if cancelled {
        break;
      }
      r := RefineBlock(reader, writer, buffers, mode, exactValue, memory, readable, meta, blocks, reader.nextBlock);
      if !r.Finished? {
        break;
      }
    }
    r := Conclude(writer, r, cancellation);
  }

  /** The end of a pass: a cancel request overrides a failure. */
  method Conclude(writer: Writer, sofar: Pass, cancellation: Cancellation) returns (r: Pass)
    requires writer.Valid() && writer.file != null && (sofar.Finished? ==> !writer.failed)
    modifies writer, writer.file, cancellation
    ensures old(cancellation.requested) ==> cancellation.requested
    ensures writer.blocks == old(writer.blocks) && writer.header.metadata == old(writer.header.metadata)
    ensures r.Finished? ==> sofar.Finished? && ValidStore(writer.header.metadata, writer.blocks)
    ensures r.Finished? ==> old(writer.file).content == StoreFile(writer.header.metadata, writer.blocks)
    ensures !r.Finished? ==> writer.removed
    ensures r.Cancelled? <==> cancellation.requested || sofar.Cancelled?
    ensures sofar.Finished? && !r.Finished? && !r.Cancelled? ==> old(writer.file).faulted && r.IoError?
    ensures !sofar.Finished? ==> old(writer.file).faulted == old(writer.file.faulted) && (r.Cancelled? || r == sofar)
    ensures r.Finished? ==> old(writer.file).faulted == old(writer.file.faulted)
  {
    hide ValidStore, StoreFile, ValidMetadata, ValidBlocks, PartialFile, CountedHeader, EncodeHeader;
    var cancelled := cancellation.Poll();
    if cancelled {
      writer.Abort();
      return Cancelled;
    }
    if !sofar.Finished? {
      writer.Abort();
      return sofar;
    }
    var ok := writer.Finish();
    r := if ok then Finished else IoError;
  }

  lemma NothingRefined(meta: Metadata, blocks: seq<Block>, mode: Mode, exactValue: nat, memory: Memory)
    ensures RefinesFirst([], meta, blocks, 0, mode, exactValue, memory)
  {
  }

  /** What a refined snapshot serves: the addresses of the survivors, and their number. */
  lemma RefinedAddresses(added: seq<Block>, meta: Metadata, blocks: seq<Block>, mode: Mode, exactValue: nat, memory: Memory)
    requires RefinesFirst(added, meta, blocks, |blocks|, mode, exactValue, memory)
    ensures Addresses(added, |added|, meta.alignment)
         == AddressList(Refined(Candidates(blocks, |blocks|, meta.alignment, meta.width), mode, exactValue, memory, meta.width))
    ensures FinalHeader(meta, added).candidateCount
         == |Refined(Candidates(blocks, |blocks|, meta.alignment, meta.width), mode, exactValue, memory, meta.width)|
  {
    hide Candidates, Refined, HeaderCrc, BlocksImage;
    CandidateAddresses(added, |added|, meta.alignment, meta.width);
  }
}
