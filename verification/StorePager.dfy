/** searchStoreReadAddresses: a page of the candidate list by binary search in the index. */
module StorePager {
  import opened Bytes
  import Crc
  import opened Files
  import opened Options
  import opened StoreFormat
  import opened StoreImage
  import opened StoreReader

  // ----- pages -----

  function Least(a: nat, b: nat): nat {
    if a < b then a else b
  }

  /** At most `room` elements of s, starting at `skip`. */
  function Clip<T>(s: seq<T>, skip: nat, room: nat): (r: seq<T>)
    ensures |r| <= room
  {
    s[Least(skip, |s|)..Least(skip + room, |s|)]
  }

  /** Consecutive pages join without gap or repeat. */
  lemma PagesJoin<T>(s: seq<T>, offset: nat, first: nat, second: nat)
    ensures Clip(s, offset, first) + Clip(s, offset + first, second) == Clip(s, offset, first + second)
  {
    var i, j, k := Least(offset, |s|), Least(offset + first, |s|), Least(offset + first + second, |s|);
    assert s[i..j] + s[j..k] == s[i..k];
  }

  /** The pages of one size, one after the other, are the whole list. */
  lemma {:induction false} AllPages<T>(s: seq<T>, size: nat, pages: nat)
    requires |s| <= pages * size
    ensures PagesUpTo(s, size, pages) == s
  {
    PagesArePrefix(s, size, pages);
  }

  function PagesUpTo<T>(s: seq<T>, size: nat, pages: nat): seq<T> {
    if pages == 0 then [] else PagesUpTo(s, size, pages - 1) + Clip(s, (pages - 1) * size, size)
  }

  lemma {:induction false} PagesArePrefix<T>(s: seq<T>, size: nat, pages: nat)
    ensures PagesUpTo(s, size, pages) == Clip(s, 0, pages * size)
  {
    hide Clip;
    if pages == 0 {
      EmptyPage(s, 0, 0);
    } else {
      var done := (pages - 1) * size;
      MulSuccessor(pages - 1, size);
      assert pages * size == done + size;
      PagesArePrefix(s, size, pages - 1);
      PagesJoin(s, 0, done, size);
      assert PagesUpTo(s, size, pages) == PagesUpTo(s, size, pages - 1) + Clip(s, done, size);
    }
  }

  function Minus(a: nat, b: nat): nat {
    if a <= b then 0 else a - b
  }

  lemma SliceOfConcat<T>(s: seq<T>, t: seq<T>, i: nat, j: nat)
    requires i <= j <= |s + t|
    ensures (s + t)[i..j] == s[Least(i, |s|)..Least(j, |s|)] + t[Minus(i, |s|)..Minus(j, |s|)]
  {
  }

  lemma ClipConcat<T>(s: seq<T>, t: seq<T>, skip: nat, room: nat)
    ensures Clip(s + t, skip, room) == Clip(s, skip, room) + Clip(t, Minus(skip, |s|), room - |Clip(s, skip, room)|)
  {
    SliceOfConcat(s, t, Least(skip, |s + t|), Least(skip + room, |s + t|));
  }

  lemma ClipStep<T>(s: seq<T>, x: T, skip: nat, room: nat)
    ensures Clip(s + [x], skip, room)
         == Clip(s, skip, room) + (if skip <= |s| && |Clip(s, skip, room)| < room then [x] else [])
  {
    ClipConcat(s, [x], skip, room);
  }

  lemma ClipFull<T>(s: seq<T>, t: seq<T>, skip: nat, room: nat)
    requires |Clip(s, skip, room)| == room
    ensures Clip(s + t, skip, room) == Clip(s, skip, room)
  {
    ClipConcat(s, t, skip, room);
  }

  // ----- one block -----

  /** The page, filled so far. */
  class Page {
    const addresses: array<nat>
    const count: nat
    var copied: nat

    ghost predicate Valid()
      reads this
    {
      copied <= count <= addresses.Length
    }

    ghost function Contents(): seq<nat>
      reads this, addresses
      requires Valid()
    {
      addresses[..copied]
    }

    constructor (addresses: array<nat>, count: nat)
      requires count <= addresses.Length
      ensures Valid() && Contents() == [] && this.addresses == addresses && this.count == count
    {
      this.addresses := addresses;
      this.count := count;
      copied := 0;
    }

    /** `if (ordinal >= offset && *copied < count) addresses[(*copied)++] = address` */
    method Offer(ordinal: nat, offset: nat, address: nat)
      requires Valid()
      modifies this, addresses
      ensures Valid()
      ensures Contents() == old(Contents()) + (if ordinal >= offset && old(copied) < count then [address] else [])
    {
      if ordinal >= offset && copied < count {
        addresses[copied] := address;
        copied := copied + 1;
      }
    }

    /** One more candidate: the `ordinal` of the block's next one is |slots| behind the block's own. */
    method TakeSlot(slot: nat, block: BlockHeader, alignment: nat, offset: nat, ordinal: nat,
                    ghost slots: seq<nat>, ghost before: seq<nat>)
      returns (next: nat)
      requires Valid() && |before| <= count && ordinal == (block.cumulativeCandidates + |slots|) % U64_LIMIT
      requires Contents() == before + Picked(slots, block, alignment, offset, count - |before|)
      modifies this, addresses
      ensures Valid() && next == (block.cumulativeCandidates + |slots| + 1) % U64_LIMIT
      ensures Contents() == before + Picked(slots + [slot], block, alignment, offset, count - |before|)
    {
      hide Picked;
      PickedStep(slots, slot, block, alignment, offset, count - |before|);
      Offer(ordinal, offset, AddressOf(block.base, slot, alignment));
      next := (ordinal + 1) % U64_LIMIT;
    }

    /** The sparse branch. */
    method TakeSparse(payload: seq<byte>, block: BlockHeader, alignment: nat, offset: nat) returns (outcome: Outcome)
      requires Valid() && block.representation == SPARSE
      modifies this, addresses
      ensures Valid()
      ensures outcome.Overran? <==> SparseOverruns(block, payload)
      ensures outcome.Taken? <==> GoodEntries(block, payload, block.candidateCount)
      ensures outcome.Taken? ==>
        Contents() == old(Contents())
                      + Picked(PayloadSlots(block, payload), block, alignment, offset, count - old(copied))
    {
      hide GoodEntries, EntryInside, EntrySlot, NamesNextSlot, NamedSlots, SparseOverruns, Picked, DecodeLe;
      ghost var before, room := Contents(), count - copied;
      PickedNone(block, alignment, offset, room);
      NoneNamed(block, payload);
      var ordinal, cursor, previousSlot := block.cumulativeCandidates % U64_LIMIT, 0, 0;
      for candidate := 0 to block.candidateCount
        invariant Valid()
        invariant ordinal == (block.cumulativeCandidates + candidate) % U64_LIMIT
        invariant cursor == candidate * (4 + block.width)
        invariant GoodEntries(block, payload, candidate)
        invariant candidate > 0 ==> previousSlot == EntrySlot(payload, block.width, candidate - 1)
        invariant Contents() == before + Picked(NamedSlots(payload, block.width, candidate), block, alignment, offset, room)
      {
        MulSuccessor(candidate, 4 + block.width);
        EntryChecks(block, payload, candidate);
        // the C code reads on here; what it then does depends on bytes that are not in the file
        if cursor + 4 > |payload| {
          return Overran;
        }
        var slot := DecodeLe(payload[cursor..cursor + 4]);
        cursor := cursor + 4 + block.width;
        if slot >= block.slotCount || (candidate > 0 && slot <= previousSlot) {
          return Refused;
        }
        previousSlot := slot;
        ordinal := TakeSlot(slot, block, alignment, offset, ordinal, NamedSlots(payload, block.width, candidate), before);
      }
      outcome := Taken;
      AllEntries(block, payload);
    }

    /** The dense branch: a bitmap payload starts with the mask, an "all" payload has none. */
    method TakeDense(payload: seq<byte>, block: BlockHeader, alignment: nat, offset: nat) returns (outcome: Outcome)
      requires Valid() && block.representation != SPARSE
      modifies this, addresses
      ensures Valid() && !outcome.Refused?
      ensures outcome.Overran? <==> DenseOverruns(block, payload, alignment, offset, count - old(copied))
      ensures outcome.Taken? ==>
        Contents() == old(Contents())
                      + Picked(PayloadSlots(block, payload), block, alignment, offset, count - old(copied))
    {
      hide MaskBit, Slots, Picked, DenseSlots, PayloadSlots, DenseOverruns;
      ghost var before, room := Contents(), count - copied;
      PickedNone(block, alignment, offset, room);
      NoSlots(block, payload);
      DenseDecides(block, payload, alignment, offset, room);
      ghost var stop := DenseEnd(block, payload);
      var ordinal, slot := block.cumulativeCandidates % U64_LIMIT, 0;
      while slot < block.slotCount && copied < count
        invariant slot <= stop && Valid()
        invariant ordinal == (block.cumulativeCandidates + |DenseSlots(block, payload, slot)|) % U64_LIMIT
        invariant Contents() == before + Picked(DenseSlots(block, payload, slot), block, alignment, offset, room)
      {
        // the C code reads on here
        if block.representation == BITMAP && slot >= 8 * |payload| {
          FullPage(block, payload, slot, alignment, offset, room);
          return Overran;
        }
        NextSlot(block, payload, slot);
        if block.representation != BITMAP || MaskBit(payload, slot) {
          ordinal := TakeSlot(slot, block, alignment, offset, ordinal, DenseSlots(block, payload, slot), before);
        }
        slot := slot + 1;
      }
      outcome := Taken;
      FullPage(block, payload, slot, alignment, offset, room);
    }

    /** One block of the scan. */
    method TakeBlock(payload: seq<byte>, block: BlockHeader, alignment: nat, offset: nat) returns (outcome: Outcome)
      requires Valid()
      modifies this, addresses
      ensures Valid()
      ensures outcome.Overran? <==> Overruns(block, payload, alignment, offset, count - old(copied))
      ensures outcome.Refused? <==> block.representation == SPARSE && HasBadEntry(block, payload)
      ensures outcome.Taken? ==>
        Contents() == old(Contents())
                      + Picked(PayloadSlots(block, payload), block, alignment, offset, count - old(copied))
    {
      hide Picked, PayloadSlots;
      if block.representation == SPARSE {
        EntriesDecide(block, payload, block.candidateCount);
        outcome := TakeSparse(payload, block, alignment, offset);
      } else {
        outcome := TakeDense(payload, block, alignment, offset);
      }
    }
  }

  // ----- which payloads are read past their end -----

  datatype Outcome = Taken | Refused | Overran

  /** Some candidate behind good entries lies past the end of the payload. */
  predicate SparseOverruns(block: BlockHeader, payload: seq<byte>) {
    exists i: nat :: i < block.candidateCount
                     && GoodEntries(block, payload, i) && !EntryInside(payload, block.width, i)
  }

  /** Some candidate behind good entries is inside the payload and names no later slot of the block. */
  predicate HasBadEntry(block: BlockHeader, payload: seq<byte>) {
    exists i: nat :: i < block.candidateCount
                     && GoodEntries(block, payload, i) && EntryInside(payload, block.width, i)
                     && !NamesNextSlot(block, payload, i)
  }

  /** The page still has room behind the last slot whose bit the payload holds. */
  predicate DenseOverruns(block: BlockHeader, payload: seq<byte>, alignment: nat, offset: nat, room: nat) {
    && block.representation == BITMAP
    && 8 * |payload| < block.slotCount
    && |Picked(Slots(payload, 8 * |payload|), block, alignment, offset, room)| < room
  }

  predicate Overruns(block: BlockHeader, payload: seq<byte>, alignment: nat, offset: nat, room: nat) {
    if block.representation == SPARSE then SparseOverruns(block, payload)
    else DenseOverruns(block, payload, alignment, offset, room)
  }

  /** Some page reads past the end of the payload. */
  predicate MayOverrun(block: BlockHeader, payload: seq<byte>) {
    if block.representation == SPARSE then SparseOverruns(block, payload)
    else block.representation == BITMAP && 8 * |payload| < block.slotCount
  }

  /** What ReaderNext accepts, no page leaves: only the pager reads payloads whose length it has not checked. */
  lemma AcceptedPayloadSuffices(block: BlockHeader, payload: seq<byte>)
    requires PayloadAccepted(block, payload) && block.width > 0
    ensures !MayOverrun(block, payload)
  {
    hide GoodEntry, EntryInside, NamesNextSlot;
    if block.representation == SPARSE {
      EntriesDecide(block, payload, 0);
    }
  }

  /** Taken, refused and overrun exclude each other, and one of them happens. */
  lemma {:induction false} EntriesDecide(block: BlockHeader, payload: seq<byte>, n: nat)
    requires n <= block.candidateCount
    ensures SparseOverruns(block, payload) || HasBadEntry(block, payload) || GoodEntries(block, payload, n)
    ensures GoodEntries(block, payload, block.candidateCount) ==>
              !SparseOverruns(block, payload) && !HasBadEntry(block, payload)
    ensures !(SparseOverruns(block, payload) && HasBadEntry(block, payload))
  {
    hide EntryInside, NamesNextSlot;
    if n == 0 {
    } else {
      EntriesDecide(block, payload, n - 1);
    }
    forall i: nat | i < block.candidateCount && GoodEntries(block, payload, block.candidateCount)
      ensures EntryInside(payload, block.width, i) && NamesNextSlot(block, payload, i)
    {
      assert GoodEntry(block, payload, i);
    }
    forall i: nat, j: nat | GoodEntries(block, payload, i) && GoodEntries(block, payload, j)
                            && !GoodEntry(block, payload, i) && !GoodEntry(block, payload, j)
      ensures i == j
    {
    }
  }

  lemma EntryChecks(block: BlockHeader, payload: seq<byte>, i: nat)
    requires i < block.candidateCount && GoodEntries(block, payload, i)
    ensures EntryInside(payload, block.width, i) <==> i * (4 + block.width) + 4 <= |payload|
    ensures !EntryInside(payload, block.width, i) ==>
              SparseOverruns(block, payload) && !GoodEntries(block, payload, block.candidateCount)
    ensures EntryInside(payload, block.width, i) ==>
              EntrySlot(payload, block.width, i) == DecodeLe(payload[i * (4 + block.width)..i * (4 + block.width) + 4])
    ensures NamesNextSlot(block, payload, i) <==>
              && EntrySlot(payload, block.width, i) < block.slotCount
              && (i > 0 ==> EntrySlot(payload, block.width, i - 1) < EntrySlot(payload, block.width, i))
    ensures EntryInside(payload, block.width, i) && !NamesNextSlot(block, payload, i) ==>
              !SparseOverruns(block, payload) && !GoodEntries(block, payload, block.candidateCount)
    ensures EntryInside(payload, block.width, i) && NamesNextSlot(block, payload, i) ==>
              GoodEntries(block, payload, i + 1)
    ensures NamedSlots(payload, block.width, i + 1)
         == NamedSlots(payload, block.width, i) + [EntrySlot(payload, block.width, i)]
  {
    hide DecodeLe;
    EntriesDecide(block, payload, i);
  }

  lemma NoneNamed(block: BlockHeader, payload: seq<byte>)
    ensures GoodEntries(block, payload, 0) && NamedSlots(payload, block.width, 0) == []
  {
  }

  lemma AllEntries(block: BlockHeader, payload: seq<byte>)
    requires GoodEntries(block, payload, block.candidateCount)
    ensures !SparseOverruns(block, payload)
  {
    EntriesDecide(block, payload, 0);
  }

  /** The slots of the first n entries. */
  function NamedSlots(payload: seq<byte>, width: nat, n: nat): (r: seq<nat>)
    ensures |r| == n
  {
    seq(n, i requires 0 <= i => EntrySlot(payload, width, i))
  }

  /** How many slots of a dense payload can be looked up. */
  function DenseEnd(block: BlockHeader, payload: seq<byte>): nat {
    if block.representation == BITMAP && 8 * |payload| < block.slotCount then 8 * |payload| else block.slotCount
  }

  /** The candidates below n of a dense payload. */
  function DenseSlots(block: BlockHeader, payload: seq<byte>, n: nat): seq<nat>
    requires n <= DenseEnd(block, payload)
  {
    if block.representation == BITMAP then Slots(payload, n) else UpTo(n)
  }

  function UpTo(n: nat): seq<nat> {
    if n == 0 then [] else UpTo(n - 1) + [n - 1]
  }

  /** The slots a payload marks, whoever wrote it. */
  function PayloadSlots(block: BlockHeader, payload: seq<byte>): seq<nat> {
    if block.representation == SPARSE then NamedSlots(payload, block.width, block.candidateCount)
    else DenseSlots(block, payload, DenseEnd(block, payload))
  }

  lemma NoSlots(block: BlockHeader, payload: seq<byte>)
    ensures DenseSlots(block, payload, 0) == []
  {
  }

  lemma DenseDecides(block: BlockHeader, payload: seq<byte>, alignment: nat, offset: nat, room: nat)
    requires block.representation != SPARSE
    ensures DenseOverruns(block, payload, alignment, offset, room) <==>
      && DenseEnd(block, payload) < block.slotCount
      && |Picked(PayloadSlots(block, payload), block, alignment, offset, room)| < room
  {
    hide Picked, Slots;
  }

  lemma NextSlot(block: BlockHeader, payload: seq<byte>, slot: nat)
    requires slot < DenseEnd(block, payload)
    ensures DenseSlots(block, payload, slot + 1)
         == if block.representation != BITMAP || MaskBit(payload, slot) then DenseSlots(block, payload, slot) + [slot]
            else DenseSlots(block, payload, slot)
  {
    hide MaskBit;
  }

  // ----- the part of a page that one block fills -----

  /** The candidates whose ordinals have reached the offset, as long as there is room; ordinals are 64 bits wide. */
  function Picked(slots: seq<nat>, block: BlockHeader, alignment: nat, offset: nat, room: nat): (r: seq<nat>)
    ensures |r| <= room
  {
    if slots == [] then []
    else
      var k := |slots| - 1;
      var before := Picked(slots[..k], block, alignment, offset, room);
      if (block.cumulativeCandidates + k) % U64_LIMIT >= offset && |before| < room
      then before + [AddressOf(block.base, slots[k], alignment)] else before
  }

  lemma PickedNone(block: BlockHeader, alignment: nat, offset: nat, room: nat)
    ensures Picked([], block, alignment, offset, room) == []
  {
  }

  lemma PickedStep(slots: seq<nat>, slot: nat, block: BlockHeader, alignment: nat, offset: nat, room: nat)
    ensures Picked(slots + [slot], block, alignment, offset, room)
         == Picked(slots, block, alignment, offset, room)
            + (if (block.cumulativeCandidates + |slots|) % U64_LIMIT >= offset
                  && |Picked(slots, block, alignment, offset, room)| < room
               then [AddressOf(block.base, slot, alignment)] else [])
  {
    assert (slots + [slot])[..|slots|] == slots;
  }

  /** While the ordinals do not wrap, it is a slice of the block's addresses. */
  lemma {:induction false} PickedIsClip(slots: seq<nat>, block: BlockHeader, alignment: nat, offset: nat, room: nat)
    requires block.cumulativeCandidates + |slots| <= U64_LIMIT
    ensures Picked(slots, block, alignment, offset, room)
         == Clip(SlotAddresses(slots, block.base, alignment), Minus(offset, block.cumulativeCandidates), room)
  {
    hide Clip;
    if slots == [] {
      EmptyPage(SlotAddresses(slots, block.base, alignment), Minus(offset, block.cumulativeCandidates), room);
    } else {
      var front, last := slots[..|slots| - 1], slots[|slots| - 1];
      PickedIsClip(front, block, alignment, offset, room);
      assert slots == front + [last];
      SlotAddressesConcat(front, [last], block.base, alignment);
      assert SlotAddresses([last], block.base, alignment) == [AddressOf(block.base, last, alignment)];
      ClipStep(SlotAddresses(front, block.base, alignment), AddressOf(block.base, last, alignment),
               Minus(offset, block.cumulativeCandidates), room);
    }
  }

  /** The scan of a dense block may stop early once the page is full. */
  lemma {:induction false} FullPage(block: BlockHeader, payload: seq<byte>, n: nat, alignment: nat, offset: nat, room: nat)
    requires n <= DenseEnd(block, payload)
    requires n == DenseEnd(block, payload)
             || |Picked(DenseSlots(block, payload, n), block, alignment, offset, room)| == room
    ensures Picked(DenseSlots(block, payload, n), block, alignment, offset, room)
         == Picked(DenseSlots(block, payload, DenseEnd(block, payload)), block, alignment, offset, room)
    ensures block.representation != SPARSE ==>
      Picked(DenseSlots(block, payload, n), block, alignment, offset, room)
      == Picked(PayloadSlots(block, payload), block, alignment, offset, room)
    decreases DenseEnd(block, payload) - n
  {
    hide Picked, DenseSlots, MaskBit;
    if n == DenseEnd(block, payload) {
    } else {
      NextSlot(block, payload, n);
      PickedStep(DenseSlots(block, payload, n), n, block, alignment, offset, room);
      FullPage(block, payload, n + 1, alignment, offset, room);
    }
  }

  /** The part of a block's candidates that belongs on the page. */
  function Share(b: Block, alignment: nat, skip: nat, room: nat): (r: seq<nat>)
    ensures |r| <= room
  {
    Clip(BlockAddresses(b, alignment), skip, room)
  }

  // ----- what a writer produced -----

  /** A payload the writer produced marks the candidates of its block, and no page leaves it. */
  lemma GenuinePayload(block: BlockHeader, payload: seq<byte>, b: Block, alignment: nat, offset: nat, room: nat)
    requires Genuine(block, payload, b, block.width) && block.cumulativeCandidates + Count(b) <= U64_LIMIT
    ensures !MayOverrun(block, payload) && !(block.representation == SPARSE && HasBadEntry(block, payload))
    ensures Picked(PayloadSlots(block, payload), block, alignment, offset, room)
         == Share(b, alignment, Minus(offset, block.cumulativeCandidates), room)
  {
    hide Picked, Clip, Slots, SlotAddresses, ValidBlock, NamedSlots, GoodEntries;
    if Representation(b, block.width) == SPARSE {
      GenuineSparse(block, payload, b);
      EntriesDecide(block, payload, block.candidateCount);
    } else {
      GenuineDense(block, payload, b);
    }
    PickedIsClip(Slots(b.mask, b.slots), block, alignment, offset, room);
  }

  lemma GenuineSparse(block: BlockHeader, payload: seq<byte>, b: Block)
    requires Genuine(block, payload, b, block.width) && Representation(b, block.width) == SPARSE
    ensures GoodEntries(block, payload, block.candidateCount)
    ensures NamedSlots(payload, block.width, block.candidateCount) == Slots(b.mask, b.slots)
  {
    hide ValidBlock, SparsePayload, Slots, DecodeLe, GoodEntry;
    forall i: nat | i < block.candidateCount
      ensures GoodEntry(block, payload, i) && EntrySlot(payload, block.width, i) == Slots(b.mask, b.slots)[i]
    {
      GenuineSlot(block, payload, b, i);
    }
  }

  lemma GenuineSlot(block: BlockHeader, payload: seq<byte>, b: Block, i: nat)
    requires Genuine(block, payload, b, block.width) && Representation(b, block.width) == SPARSE
    requires i < Count(b)
    ensures GoodEntry(block, payload, i) && EntrySlot(payload, block.width, i) == Slots(b.mask, b.slots)[i]
  {
    hide ValidBlock, SparsePayload, Slots, DecodeLe, EncodeLe;
    var slots := Slots(b.mask, b.slots);
    BlockSlotsInValues(b, block.width);
    SlotsAscend(b.mask, b.slots);
    GenuineEntrySlot(block, payload, b, i);
    if i > 0 {
      GenuineEntrySlot(block, payload, b, i - 1);
    }
  }

  lemma GenuineEntrySlot(block: BlockHeader, payload: seq<byte>, b: Block, i: nat)
    requires Genuine(block, payload, b, block.width) && Representation(b, block.width) == SPARSE
    requires i < Count(b)
    ensures EntryInside(payload, block.width, i) && EntrySlot(payload, block.width, i) == Slots(b.mask, b.slots)[i]
  {
    hide ValidBlock, SparsePayload, Slots, DecodeLe, EncodeLe;
    var slots := Slots(b.mask, b.slots);
    BlockSlotsInValues(b, block.width);
    SparseEntryAt(slots, b.values, block.width, i);
    SlotsAscend(b.mask, b.slots);
    SlotFitsWord(b, block.width, slots[i]);
    DecodeEncodeLe(slots[i], 4);
  }

  lemma GenuineDense(block: BlockHeader, payload: seq<byte>, b: Block)
    requires Genuine(block, payload, b, block.width) && Representation(b, block.width) != SPARSE
    ensures !MayOverrun(block, payload) && block.representation != SPARSE
    ensures PayloadSlots(block, payload) == Slots(b.mask, b.slots)
  {
    hide Slots, UpTo;
    if block.representation == BITMAP {
      assert payload[..|b.mask|] == b.mask;
      SlotsOfPrefix(payload, |b.mask|, b.slots);
    } else {
      AllSlots(b.mask, b.slots);
    }
  }

  lemma {:induction false} AllSlots(mask: seq<byte>, n: nat)
    requires n <= 8 * |mask| && |Slots(mask, n)| == n
    ensures Slots(mask, n) == UpTo(n)
  {
    hide MaskBit;
    if n == 0 {
    } else {
      SlotsAll(mask, n - 1);
      AllSlots(mask, n - 1);
    }
  }

  // ----- what a file serves -----

  /** How a page ends, and its addresses if they were all read. */
  datatype Served = Served(outcome: Outcome, page: seq<nat>)

  /** Entry `index` of the on-disk index. */
  function IndexAt(content: seq<byte>, h: Header, index: nat): Option<IndexEntry> {
    var at := h.indexOffset + index * ENTRY_SIZE;
    if at + ENTRY_SIZE <= |content| then Some(DecodeEntry(content[at..at + ENTRY_SIZE])) else None
  }

  predicate WithinTotal(h: Header, e: IndexEntry) {
    e.cumulativeCandidates <= h.candidateCount && e.candidateCount <= h.candidateCount - e.cumulativeCandidates
  }

  /** Where the binary search over [low, high) ends; None when it meets an entry that claims too much. */
  function FirstReaching(content: seq<byte>, h: Header, offset: nat, low: nat, high: nat): (r: Option<nat>)
    requires low <= high
    ensures r.Some? ==> low <= r.value <= high
    decreases high - low
  {
    if low == high then Some(low)
    else
      var middle := low + (high - low) / 2;
      var e := IndexAt(content, h, middle);
      if e.None? || !WithinTotal(h, e.value) then None
      else if offset >= e.value.cumulativeCandidates + e.value.candidateCount then
        FirstReaching(content, h, offset, middle + 1, high)
      else FirstReaching(content, h, offset, low, middle)
  }

  /** `block` and `payload` are what an accepted block at `at` holds. */
  ghost predicate AcceptedAt(content: seq<byte>, h: Header, at: nat, block: BlockHeader, payload: seq<byte>) {
    && BlockAccepted(content, h, at)
    && block == BlockHeaderAt(content, at)
    && payload == BlockPayload(content, at, block)
  }

  function BlockHeaderAt(content: seq<byte>, at: nat): BlockHeader {
    if at + BLOCK_SIZE <= |content| then DecodeBlockHeader(content[at..at + BLOCK_SIZE]) else NO_BLOCK
  }

  predicate Matches(h: Header, e: IndexEntry, block: BlockHeader) {
    && e.cumulativeCandidates == block.cumulativeCandidates && e.base == block.base
    && e.slotCount == block.slotCount && e.candidateCount == block.candidateCount
    && WithinTotal(h, e)
  }

  /** What the block behind an entry adds to a page with `room` left. */
  ghost function BlockServed(content: seq<byte>, h: Header, e: IndexEntry, offset: nat, room: nat): (s: Served)
    ensures |s.page| <= room && (!s.outcome.Taken? ==> s.page == [])
  {
    var block := BlockHeaderAt(content, e.fileOffset);
    if !BlockAccepted(content, h, e.fileOffset) || !Matches(h, e, block) then Served(Refused, [])
    else PayloadServed(block, BlockPayload(content, e.fileOffset, block), h.metadata.alignment, offset, room)
  }

  function PayloadServed(block: BlockHeader, payload: seq<byte>, alignment: nat, offset: nat, room: nat): (s: Served)
    ensures |s.page| <= room && (!s.outcome.Taken? ==> s.page == [])
  {
    if Overruns(block, payload, alignment, offset, room) then Served(Overran, [])
    else if block.representation == SPARSE && HasBadEntry(block, payload) then Served(Refused, [])
    else Served(Taken, Picked(PayloadSlots(block, payload), block, alignment, offset, room))
  }

  /** The sum is 64 bits wide. */
  predicate EndsBefore(e: IndexEntry, offset: nat) {
    offset >= (e.cumulativeCandidates + e.candidateCount) % U64_LIMIT
  }

  /** What the blocks from `index` on add to a page with `room` left. */
  ghost function ServedFrom(content: seq<byte>, h: Header, index: nat, offset: nat, room: nat): (s: Served)
    ensures |s.page| <= room && (!s.outcome.Taken? ==> s.page == [])
    decreases h.blockCount - index
  {
    if index >= h.blockCount || room == 0 then Served(Taken, [])
    else
      var e := IndexAt(content, h, index);
      if e.None? then Served(Refused, [])
      else if EndsBefore(e.value, offset) then
        ServedFrom(content, h, index + 1, offset, room)
      else
        var s := BlockServed(content, h, e.value, offset, room);
        if s.outcome.Taken? then Extend(s.page, ServedFrom(content, h, index + 1, offset, room - |s.page|))
        else Served(s.outcome, [])
  }

  function Extend(page: seq<nat>, rest: Served): Served {
    Served(rest.outcome, if rest.outcome.Taken? then page + rest.page else [])
  }

  function FileHeader(content: seq<byte>): Header {
    if HEADER_SIZE <= |content| then DecodeHeader(content[..HEADER_SIZE]) else NO_HEADER
  }

  const NO_HEADER := InitialHeader(Metadata(0, 0, 0, 0, 0, 0, 0, 0, 0, 0, 0, 0, 0))

  /** The page [offset, offset + count) of any file. */
  ghost function PageOf(content: seq<byte>, offset: nat, count: nat): Served {
    if !FileAccepted(content) then Served(Refused, [])
    else
      var h := FileHeader(content);
      if offset >= h.candidateCount || count == 0 then Served(Taken, [])
      else
        var low := FirstReaching(content, h, offset, 0, h.blockCount);
        if low.None? then Served(Refused, []) else ServedFrom(content, h, low.value, offset, count)
  }

  // ----- the calls -----

  method ReadEntry(reader: Reader, index: nat) returns (ok: bool, entry: IndexEntry)
    requires reader.file != null
    modifies reader.file
    ensures reader.file.content == old(reader.file.content) && (old(reader.file.faulted) ==> reader.file.faulted)
    ensures ok ==> IndexAt(reader.file.content, reader.header, index) == Some(entry)
    ensures !ok ==> reader.file.faulted || IndexAt(reader.file.content, reader.header, index).None?
  {
    hide DecodeEntry;
    entry := IndexEntry(0, 0, 0, 0, 0);
    var data := [];
    ok := reader.file.Seek(reader.header.indexOffset + index * ENTRY_SIZE);
    if ok {
      ok, data := reader.file.Read(ENTRY_SIZE);
    }
    if ok {
      entry := DecodeEntry(data);
    }
  }

  /** Binary search for the first block that reaches past `offset`. */
  method FindFirst(reader: Reader, offset: nat) returns (ok: bool, low: nat)
    requires reader.file != null
    modifies reader.file
    ensures reader.file.content == old(reader.file.content) && (old(reader.file.faulted) ==> reader.file.faulted)
    ensures var first := FirstReaching(reader.file.content, reader.header, offset, 0, reader.header.blockCount);
            if ok then first == Some(low) else reader.file.faulted || first.None?
  {
    hide IndexAt;
    low := 0;
    var high := reader.header.blockCount;
    ok := true;
    ghost var content, h := reader.file.content, reader.header;
    while low < high
      invariant ok && low <= high <= h.blockCount && reader.header == h
      invariant reader.file.content == content && (old(reader.file.faulted) ==> reader.file.faulted)
      invariant FirstReaching(content, h, offset, 0, h.blockCount) == FirstReaching(content, h, offset, low, high)
    {
      var middle := low + (high - low) / 2;
      var entry;
      ok, entry := ReadEntry(reader, middle);
      if !ok || entry.cumulativeCandidates > reader.header.candidateCount
         || entry.candidateCount > reader.header.candidateCount - entry.cumulativeCandidates {
        return false, low;
      }
      if offset >= entry.cumulativeCandidates + entry.candidateCount {
        low := middle + 1;
      } else {
        high := middle;
      }
    }
  }

  /** The block an index entry points at, checked against the entry. */
  method ReadEntryBlock(reader: Reader, entry: IndexEntry) returns (ok: bool, block: BlockHeader, payload: seq<byte>)
    requires reader.file != null
    modifies reader.file
    ensures reader.file.content == old(reader.file.content) && (old(reader.file.faulted) ==> reader.file.faulted)
    ensures ok ==>
      && AcceptedAt(reader.file.content, reader.header, entry.fileOffset, block, payload)
      && Matches(reader.header, entry, block)
    ensures !ok ==>
      || reader.file.faulted || !BlockAccepted(reader.file.content, reader.header, entry.fileOffset)
      || !Matches(reader.header, entry, BlockHeaderAt(reader.file.content, entry.fileOffset))
  {
    hide Crc.Checksum, DecodeBlockHeader, BlockPayload;
    ok, block, payload := reader.ReadBlock(entry.fileOffset);
    if ok && (entry.cumulativeCandidates != block.cumulativeCandidates || entry.base != block.base
              || entry.slotCount != block.slotCount || entry.candidateCount != block.candidateCount
              || entry.cumulativeCandidates > reader.header.candidateCount
              || entry.candidateCount > reader.header.candidateCount - entry.cumulativeCandidates) {
      ok := false;
    }
  }

  /** The block behind one index entry. */
  method TakeEntry(reader: Reader, page: Page, entry: IndexEntry, offset: nat) returns (outcome: Outcome)
    requires reader.file != null && page.Valid()
    modifies reader.file, page, page.addresses
    ensures page.Valid() && reader.file.content == old(reader.file.content)
    ensures old(reader.file.faulted) ==> reader.file.faulted
    ensures var s := BlockServed(reader.file.content, reader.header, entry, offset, page.count - old(page.copied));
            && (outcome == s.outcome || (outcome.Refused? && reader.file.faulted))
            && (outcome.Taken? ==> page.Contents() == old(page.Contents()) + s.page)
  {
    hide BlockAccepted, BlockHeaderAt, BlockPayload, Picked, PayloadSlots, SparseOverruns, DenseOverruns, HasBadEntry;
    var ok, block, payload := ReadEntryBlock(reader, entry);
    if !ok {
      return Refused;
    }
    outcome := page.TakeBlock(payload, block, reader.header.metadata.alignment, offset);
  }

  method FillPage(reader: Reader, offset: nat, count: nat, addresses: array<nat>) returns (outcome: Outcome, copied: nat)
    requires reader.file != null && count <= addresses.Length
    modifies reader.file, addresses
    ensures copied <= count && reader.file.content == old(reader.file.content)
    ensures var low := FirstReaching(reader.file.content, reader.header, offset, 0, reader.header.blockCount);
            var s := if low.None? then Served(Refused, [])
                     else ServedFrom(reader.file.content, reader.header, low.value, offset, count);
            && (outcome == s.outcome || (outcome.Refused? && reader.file.faulted))
            && (outcome.Taken? ==> addresses[..copied] == s.page)
  {
    hide FirstReaching, ServedFrom;
    copied := 0;
    var ok, low := FindFirst(reader, offset);
    if !ok {
      return Refused, copied;
    }
    var page := new Page(addresses, count);
    outcome := ScanFrom(reader, page, low, offset);
    copied := page.copied;
  }

  /** The blocks from `low` on, until the page is full. */
  method ScanFrom(reader: Reader, page: Page, low: nat, offset: nat) returns (outcome: Outcome)
    requires reader.file != null && page.Valid() && page.copied == 0
    modifies reader.file, page, page.addresses
    ensures page.Valid() && reader.file.content == old(reader.file.content)
    ensures var s := ServedFrom(reader.file.content, reader.header, low, offset, page.count);
            && (outcome == s.outcome || (outcome.Refused? && reader.file.faulted))
            && (outcome.Taken? ==> page.Contents() == s.page)
  {
    hide IndexAt, BlockServed, ServedFrom, Extend;
    var index := low;
    ghost var content, h := reader.file.content, reader.header;
    ghost var whole := ServedFrom(content, h, low, offset, page.count);
    NothingServed(whole);
    while index < reader.header.blockCount && page.copied < page.count
      invariant page.Valid() && reader.file.content == content
      invariant whole == Extend(page.Contents(), ServedFrom(content, h, index, offset, page.count - page.copied))
    {
      ServedNext(content, h, index, offset, page.count - page.copied);
      ExtendFailed(page.Contents());
      var ok, entry := ReadEntry(reader, index);
      if !ok {
        return Refused;
      }
      if offset < (entry.cumulativeCandidates + entry.candidateCount) % U64_LIMIT {
        ghost var before, room := page.Contents(), page.count - page.copied;
        ghost var s := BlockServed(content, h, entry, offset, room);
        outcome := TakeEntry(reader, page, entry, offset);
        if !outcome.Taken? {
          return;
        }
        ExtendTwice(before, s.page, ServedFrom(content, h, index + 1, offset, room - |s.page|));
      }
      index := index + 1;
    }
    outcome := Taken;
    ServedAll(content, h, index, offset, page.count - page.copied);
    ExtendNothing(page.Contents());
  }

  lemma ExtendFailed(page: seq<nat>)
    ensures Extend(page, Served(Refused, [])) == Served(Refused, [])
    ensures Extend(page, Served(Overran, [])) == Served(Overran, [])
  {
  }

  lemma NothingServed(s: Served)
    requires s.outcome.Taken? || s.page == []
    ensures s == Extend([], s)
  {
    assert [] + s.page == s.page;
  }

  lemma ExtendTwice(a: seq<nat>, b: seq<nat>, rest: Served)
    ensures Extend(a, Extend(b, rest)) == Extend(a + b, rest)
  {
    if rest.outcome.Taken? {
      assert a + (b + rest.page) == (a + b) + rest.page;
    }
  }

  lemma ServedNext(content: seq<byte>, h: Header, index: nat, offset: nat, room: nat)
    requires index < h.blockCount && room > 0
    ensures var e := IndexAt(content, h, index);
            ServedFrom(content, h, index, offset, room)
            == if e.None? then Served(Refused, [])
               else if EndsBefore(e.value, offset) then
                 ServedFrom(content, h, index + 1, offset, room)
               else
                 var s := BlockServed(content, h, e.value, offset, room);
                 if s.outcome.Taken? then Extend(s.page, ServedFrom(content, h, index + 1, offset, room - |s.page|))
                 else Served(s.outcome, [])
  {
    hide IndexAt, BlockServed;
  }

  lemma ServedPassed(content: seq<byte>, h: Header, index: nat, offset: nat, room: nat, e: IndexEntry)
    requires index < h.blockCount && room > 0 && IndexAt(content, h, index) == Some(e) && EndsBefore(e, offset)
    ensures ServedFrom(content, h, index, offset, room) == ServedFrom(content, h, index + 1, offset, room)
  {
    hide IndexAt, BlockServed, EndsBefore;
  }

  lemma ServedTaken(content: seq<byte>, h: Header, index: nat, offset: nat, room: nat, e: IndexEntry, page: seq<nat>)
    requires index < h.blockCount && room > 0 && IndexAt(content, h, index) == Some(e) && !EndsBefore(e, offset)
    requires |page| <= room && BlockServed(content, h, e, offset, room) == Served(Taken, page)
    ensures ServedFrom(content, h, index, offset, room)
         == Extend(page, ServedFrom(content, h, index + 1, offset, room - |page|))
  {
    hide IndexAt, BlockServed, EndsBefore;
  }

  lemma ServedAll(content: seq<byte>, h: Header, index: nat, offset: nat, room: nat)
    requires index >= h.blockCount || room == 0
    ensures ServedFrom(content, h, index, offset, room) == Served(Taken, [])
  {
  }

  /** searchStoreReadAddresses: for every file, it serves what PageOf says, unless a call fails. */
  method ReadAddresses(stream: File?, offset: nat, count: nat, addresses: array<nat>)
    returns (outcome: Outcome, copied: nat, total: nat)
    requires count <= addresses.Length
    modifies stream, addresses
    ensures copied <= count && (stream == null ==> outcome.Refused?)
    ensures stream != null ==>
      && stream.content == old(stream.content)
      && (outcome == PageOf(stream.content, offset, count).outcome || (outcome.Refused? && stream.faulted))
    ensures stream != null && outcome.Taken? ==>
      && FileAccepted(stream.content) && total == FileHeader(stream.content).candidateCount
      && addresses[..copied] == PageOf(stream.content, offset, count).page
  {
    hide DecodeHeader, HeaderAccepted, FirstReaching, ServedFrom;
    copied, total := 0, 0;
    var reader := new Reader();
    var ok := reader.Open(stream);
    if !ok {
      return Refused, copied, total;
    }
    total := reader.header.candidateCount;
    if offset >= total || count == 0 {
      return Taken, copied, total;
    }
    outcome, copied := FillPage(reader, offset, count, addresses);
  }

  // ----- the pages of a finished snapshot -----

  lemma EntrySums(meta: Metadata, blocks: seq<Block>, i: nat)
    requires ValidStore(meta, blocks) && i < |blocks|
    ensures var e := EntryOf(blocks, i, meta.width);
            && e.fileOffset == OffsetOf(blocks, i, meta.width)
            && e.cumulativeCandidates == Total(blocks, i)
            && e.cumulativeCandidates + e.candidateCount == Total(blocks, i + 1) <= Total(blocks, |blocks|) < U64_LIMIT
            && forall offset: nat :: EndsBefore(e, offset) <==> offset >= Total(blocks, i + 1)
  {
    hide Count, OffsetOf, EndsBefore, ValidStore;
    TotalFits(meta, blocks, i + 1);
    SumFits(EntryOf(blocks, i, meta.width));
  }

  lemma SumFits(e: IndexEntry)
    requires e.cumulativeCandidates + e.candidateCount < U64_LIMIT
    ensures forall offset: nat :: EndsBefore(e, offset) <==> offset >= e.cumulativeCandidates + e.candidateCount
  {
  }

  lemma StoreEntry(meta: Metadata, blocks: seq<Block>, i: nat)
    requires ValidStore(meta, blocks) && i < |blocks|
    ensures IndexAt(StoreFile(meta, blocks), FinalHeader(meta, blocks), i) == Some(EntryOf(blocks, i, meta.width))
    ensures WithinTotal(FinalHeader(meta, blocks), EntryOf(blocks, i, meta.width))
  {
    hide DecodeEntry, EntryOf, OffsetOf, ValidStore, StoreFile, FinalHeader, Total;
    EntryInFile(meta, blocks, i);
    EntrySums(meta, blocks, i);
    FinalCounts(meta, blocks);
  }

  ghost function StoreSearch(meta: Metadata, blocks: seq<Block>, offset: nat, low: nat, high: nat): Option<nat>
    requires low <= high
  {
    FirstReaching(StoreFile(meta, blocks), FinalHeader(meta, blocks), offset, low, high)
  }

  lemma SearchStep(meta: Metadata, blocks: seq<Block>, offset: nat, low: nat, high: nat)
    requires ValidStore(meta, blocks) && low <= high <= |blocks|
    ensures var middle := low + (high - low) / 2;
            StoreSearch(meta, blocks, offset, low, high)
            == if low == high then Some(low)
               else if offset >= Total(blocks, middle + 1) then StoreSearch(meta, blocks, offset, middle + 1, high)
               else StoreSearch(meta, blocks, offset, low, middle)
  {
    hide *;
    StoreSearchIs(meta, blocks, offset, low, high);
    var middle := low + (high - low) / 2;
    if low < high {
      StoreEntry(meta, blocks, middle);
      EntrySums(meta, blocks, middle);
      StoreSearchIs(meta, blocks, offset, middle + 1, high);
      StoreSearchIs(meta, blocks, offset, low, middle);
      SearchNext(StoreFile(meta, blocks), FinalHeader(meta, blocks), offset, low, high, EntryOf(blocks, middle, meta.width));
    } else {
      SearchDone(StoreFile(meta, blocks), FinalHeader(meta, blocks), offset, low);
    }
  }

  lemma StoreSearchIs(meta: Metadata, blocks: seq<Block>, offset: nat, low: nat, high: nat)
    requires low <= high
    ensures StoreSearch(meta, blocks, offset, low, high)
         == FirstReaching(StoreFile(meta, blocks), FinalHeader(meta, blocks), offset, low, high)
  {
    hide FirstReaching, StoreFile, FinalHeader;
  }

  lemma SearchNext(content: seq<byte>, h: Header, offset: nat, low: nat, high: nat, e: IndexEntry)
    requires low < high && IndexAt(content, h, low + (high - low) / 2) == Some(e) && WithinTotal(h, e)
    ensures var middle := low + (high - low) / 2;
            FirstReaching(content, h, offset, low, high)
            == if offset >= e.cumulativeCandidates + e.candidateCount
               then FirstReaching(content, h, offset, middle + 1, high)
               else FirstReaching(content, h, offset, low, middle)
  {
    hide IndexAt, WithinTotal;
  }

  lemma SearchDone(content: seq<byte>, h: Header, offset: nat, at: nat)
    ensures FirstReaching(content, h, offset, at, at) == Some(at)
  {
  }

  ghost predicate ReachesFirst(blocks: seq<Block>, i: nat, offset: nat)
    requires i <= |blocks|
  {
    (i > 0 ==> Total(blocks, i) <= offset) && (i < |blocks| ==> offset < Total(blocks, i + 1))
  }

  /** The search ends at the first block that reaches past the offset. */
  lemma {:induction false} SearchFinds(meta: Metadata, blocks: seq<Block>, offset: nat, low: nat, high: nat)
    requires ValidStore(meta, blocks) && low <= high <= |blocks|
    requires (low > 0 ==> Total(blocks, low) <= offset) && (high < |blocks| ==> offset < Total(blocks, high + 1))
    ensures var r := StoreSearch(meta, blocks, offset, low, high);
            r.Some? && low <= r.value <= high && ReachesFirst(blocks, r.value, offset)
    decreases high - low
  {
    hide ValidStore, Total, StoreSearch;
    SearchStep(meta, blocks, offset, low, high);
    if low == high {
    } else {
      var middle := low + (high - low) / 2;
      if offset >= Total(blocks, middle + 1) {
        SearchFinds(meta, blocks, offset, middle + 1, high);
      } else {
        SearchFinds(meta, blocks, offset, low, middle);
      }
    }
  }

  lemma PageStep(blocks: seq<Block>, i: nat, alignment: nat, offset: nat, count: nat)
    requires i < |blocks|
    ensures Clip(Addresses(blocks, i + 1, alignment), offset, count)
         == Clip(Addresses(blocks, i, alignment), offset, count)
            + Share(blocks[i], alignment, Minus(offset, Total(blocks, i)),
                    count - |Clip(Addresses(blocks, i, alignment), offset, count)|)
  {
    hide Clip, BlockAddresses;
    ClipConcat(Addresses(blocks, i, alignment), BlockAddresses(blocks[i], alignment), offset, count);
  }

  lemma BeforePage(blocks: seq<Block>, i: nat, alignment: nat, offset: nat, count: nat)
    requires i <= |blocks| && (Total(blocks, i) <= offset || i == 0)
    ensures Clip(Addresses(blocks, i, alignment), offset, count) == []
  {
  }

  lemma {:induction false} PageDone(blocks: seq<Block>, i: nat, alignment: nat, offset: nat, count: nat)
    requires i <= |blocks|
    requires i == |blocks| || |Clip(Addresses(blocks, i, alignment), offset, count)| == count
    ensures Clip(Addresses(blocks, i, alignment), offset, count)
         == Clip(Addresses(blocks, |blocks|, alignment), offset, count)
    decreases |blocks| - i
  {
    hide Clip, BlockAddresses;
    if i == |blocks| {
    } else {
      ClipFull(Addresses(blocks, i, alignment), BlockAddresses(blocks[i], alignment), offset, count);
      PageDone(blocks, i + 1, alignment, offset, count);
    }
  }

  /** A block of the snapshot adds the part of its addresses that belongs on the page. */
  lemma StoreBlock(meta: Metadata, blocks: seq<Block>, i: nat, offset: nat, room: nat)
    requires ValidStore(meta, blocks) && i < |blocks| && Readable(blocks[i], meta.width)
    ensures BlockServed(StoreFile(meta, blocks), FinalHeader(meta, blocks), EntryOf(blocks, i, meta.width), offset, room)
         == Served(Taken, Share(blocks[i], meta.alignment, Minus(offset, Total(blocks, i)), room))
  {
    hide StoreFile, ValidStore, FinalHeader, Total, Share, OffsetOf, BlockAccepted, DecodeBlockHeader, Payload;
    hide Representation, Slots, Picked, PayloadSlots, SparseOverruns, DenseOverruns, HasBadEntry, Crc.Checksum, ValidBlock;
    hide Readable;
    BlockInStore(meta, blocks, i);
    StoreEntry(meta, blocks, i);
    EntrySums(meta, blocks, i);
    FinalCounts(meta, blocks);
    var b, h := blocks[i], HeaderOf(blocks[i], Total(blocks, i), meta.width);
    GenuinePayload(h, Payload(b, meta.width), b, meta.alignment, offset, room);
    NeverOverruns(h, Payload(b, meta.width), meta.alignment, offset, room);
  }

  lemma NeverOverruns(block: BlockHeader, payload: seq<byte>, alignment: nat, offset: nat, room: nat)
    requires !MayOverrun(block, payload)
    ensures !Overruns(block, payload, alignment, offset, room)
  {
    hide Picked, SparseOverruns;
  }

  ghost function StoreServed(meta: Metadata, blocks: seq<Block>, i: nat, offset: nat, room: nat): (s: Served)
    ensures |s.page| <= room
  {
    ServedFrom(StoreFile(meta, blocks), FinalHeader(meta, blocks), i, offset, room)
  }

  lemma StoreServedIs(meta: Metadata, blocks: seq<Block>, i: nat, offset: nat, room: nat)
    ensures StoreServed(meta, blocks, i, offset, room)
         == ServedFrom(StoreFile(meta, blocks), FinalHeader(meta, blocks), i, offset, room)
  {
    hide ServedFrom, StoreFile, FinalHeader;
  }

  lemma StoreServedStep(meta: Metadata, blocks: seq<Block>, i: nat, offset: nat, room: nat)
    requires ValidStore(meta, blocks) && i < |blocks| && Readable(blocks[i], meta.width) && room > 0
    ensures offset >= Total(blocks, i + 1) ==>
      StoreServed(meta, blocks, i, offset, room) == StoreServed(meta, blocks, i + 1, offset, room)
    ensures offset < Total(blocks, i + 1) ==>
      var share := Share(blocks[i], meta.alignment, Minus(offset, Total(blocks, i)), room);
      StoreServed(meta, blocks, i, offset, room) == Extend(share, StoreServed(meta, blocks, i + 1, offset, room - |share|))
  {
    hide *;
    FinalCounts(meta, blocks);
    StoreEntry(meta, blocks, i);
    EntrySums(meta, blocks, i);
    var content, h, e := StoreFile(meta, blocks), FinalHeader(meta, blocks), EntryOf(blocks, i, meta.width);
    var share := Share(blocks[i], meta.alignment, Minus(offset, Total(blocks, i)), room);
    StoreServedIs(meta, blocks, i, offset, room);
    StoreServedIs(meta, blocks, i + 1, offset, room);
    StoreServedIs(meta, blocks, i + 1, offset, room - |share|);
    if EndsBefore(e, offset) {
      ServedPassed(content, h, i, offset, room, e);
    } else {
      StoreBlock(meta, blocks, i, offset, room);
      ServedTaken(content, h, i, offset, room, e, share);
    }
  }

  lemma StoreServedAll(meta: Metadata, blocks: seq<Block>, i: nat, offset: nat, room: nat)
    requires i >= |blocks| || room == 0
    ensures StoreServed(meta, blocks, i, offset, room) == Served(Taken, [])
  {
    hide StoreFile, FinalHeader;
    FinalCounts(meta, blocks);
  }

  lemma {:induction false} ServedIsSlice(meta: Metadata, blocks: seq<Block>, i: nat, offset: nat, count: nat)
    requires ValidStore(meta, blocks) && AllReadable(blocks, meta.width) && i <= |blocks|
    ensures var before := Clip(Addresses(blocks, i, meta.alignment), offset, count);
            Extend(before, StoreServed(meta, blocks, i, offset, count - |before|))
            == Served(Taken, Clip(Addresses(blocks, |blocks|, meta.alignment), offset, count))
    decreases |blocks| - i
  {
    hide ValidStore, Total, Share, Clip, Addresses, StoreServed, Extend, Readable;
    var before := Clip(Addresses(blocks, i, meta.alignment), offset, count);
    var room := count - |before|;
    if i == |blocks| || room == 0 {
      StoreServedAll(meta, blocks, i, offset, room);
      PageDone(blocks, i, meta.alignment, offset, count);
      ExtendNothing(before);
    } else {
      StoreServedStep(meta, blocks, i, offset, room);
      ServedIsSlice(meta, blocks, i + 1, offset, count);
      if offset >= Total(blocks, i + 1) {
        PassedBlock(blocks, i, meta.alignment, offset, count);
      } else {
        PageStep(blocks, i, meta.alignment, offset, count);
        var share := Share(blocks[i], meta.alignment, Minus(offset, Total(blocks, i)), room);
        ExtendTwice(before, share, StoreServed(meta, blocks, i + 1, offset, room - |share|));
      }
    }
  }

  lemma ExtendNothing(page: seq<nat>)
    ensures Extend(page, Served(Taken, [])) == Served(Taken, page)
  {
    assert page + [] == page;
  }

  lemma PassedBlock(blocks: seq<Block>, i: nat, alignment: nat, offset: nat, count: nat)
    requires i < |blocks| && Total(blocks, i + 1) <= offset
    ensures Clip(Addresses(blocks, i + 1, alignment), offset, count)
         == Clip(Addresses(blocks, i, alignment), offset, count) == []
  {
    hide Clip, Count, Addresses;
    BeforePage(blocks, i + 1, alignment, offset, count);
    BeforePage(blocks, i, alignment, offset, count);
  }

  /** The page of a finished snapshot is a slice of its candidate list, and no read leaves a payload. */
  lemma PageOfStore(meta: Metadata, blocks: seq<Block>, offset: nat, count: nat)
    requires ValidStore(meta, blocks) && AllReadable(blocks, meta.width)
    ensures PageOf(StoreFile(meta, blocks), offset, count)
         == Served(Taken, Clip(Addresses(blocks, |blocks|, meta.alignment), offset, count))
    ensures FileHeader(StoreFile(meta, blocks)).candidateCount == |Addresses(blocks, |blocks|, meta.alignment)|
  {
    hide StoreFile, ValidStore, FinalHeader, DecodeHeader, HeaderAccepted, Clip, Addresses, Total, ServedFrom;
    hide FirstReaching, AllReadable;
    FinishedFileAccepted(meta, blocks);
    HeaderInFile(meta, blocks);
    FinalCounts(meta, blocks);
    if offset >= Total(blocks, |blocks|) || count == 0 {
      EmptyPage(Addresses(blocks, |blocks|, meta.alignment), offset, count);
    } else {
      SearchFinds(meta, blocks, offset, 0, |blocks|);
      var low := StoreSearch(meta, blocks, offset, 0, |blocks|).value;
      BeforePage(blocks, low, meta.alignment, offset, count);
      ServedIsSlice(meta, blocks, low, offset, count);
      NothingServed(StoreServed(meta, blocks, low, offset, count));
    }
  }

  lemma EmptyPage<T>(s: seq<T>, offset: nat, count: nat)
    ensures offset >= |s| || count == 0 ==> Clip(s, offset, count) == []
  {
  }

  // ----- which files are read past a payload -----

  /** Some block that passes every check has a payload too short for its own counts. */
  ghost predicate HasShortBlock(content: seq<byte>, h: Header) {
    exists at: nat, block: BlockHeader, payload: seq<byte> ::
      AcceptedAt(content, h, at, block, payload) && MayOverrun(block, payload)
  }

  lemma {:induction false} OverrunInBlock(content: seq<byte>, h: Header, index: nat, offset: nat, room: nat)
    requires ServedFrom(content, h, index, offset, room).outcome.Overran?
    ensures HasShortBlock(content, h)
    decreases h.blockCount - index
  {
    hide IndexAt, BlockAccepted, BlockHeaderAt, BlockPayload, Picked, PayloadSlots, HasBadEntry, SparseOverruns;
    var e := IndexAt(content, h, index).value;
    if EndsBefore(e, offset) {
      OverrunInBlock(content, h, index + 1, offset, room);
    } else {
      var s := BlockServed(content, h, e, offset, room);
      if s.outcome.Taken? {
        OverrunInBlock(content, h, index + 1, offset, room - |s.page|);
      } else {
        var block := BlockHeaderAt(content, e.fileOffset);
        assert AcceptedAt(content, h, e.fileOffset, block, BlockPayload(content, e.fileOffset, block));
      }
    }
  }

  /** Only an accepted file with an accepted block too short for its counts is read past a payload. */
  lemma OverrunNeedsShortBlock(content: seq<byte>, offset: nat, count: nat)
    requires PageOf(content, offset, count).outcome.Overran?
    ensures FileAccepted(content) && HasShortBlock(content, FileHeader(content))
  {
    hide DecodeHeader, HeaderAccepted, ServedFrom, FirstReaching, HasShortBlock;
    var h := FileHeader(content);
    OverrunInBlock(content, h, FirstReaching(content, h, offset, 0, h.blockCount).value, offset, count);
  }

  // ----- accepted files with too short a block -----

  function OneBlockHeader(meta: Metadata, block: BlockHeader, size: nat): Header {
    var h := InitialHeader(meta).(candidateCount := block.candidateCount, blockCount := 1,
                                  indexOffset := HEADER_SIZE + BLOCK_SIZE + size, dataBytes := BLOCK_SIZE + size);
    h.(headerCrc := HeaderCrc(h))
  }

  /** A whole snapshot with one block. */
  function OneBlockFile(meta: Metadata, block: BlockHeader, payload: seq<byte>): seq<byte> {
    EncodeHeader(OneBlockHeader(meta, block, |payload|)) + EncodeBlockHeader(block) + payload
    + EncodeEntry(OneBlockEntry(block))
  }

  function OneBlockEntry(block: BlockHeader): IndexEntry {
    IndexEntry(HEADER_SIZE, block.cumulativeCandidates, block.base, block.slotCount, block.candidateCount)
  }

  /** The checks on a block leave open whether its payload is as long as its counts ask for. */
  ghost predicate OneBlockValid(meta: Metadata, block: BlockHeader, payload: seq<byte>) {
    && ValidMetadata(meta) && block.width == meta.width
    && Fits(BlockFields(block), BLOCK_WIDTHS) && block.magic == BLOCK_MAGIC && block.cumulativeCandidates == 0
    && 0 < block.candidateCount <= block.slotCount && block.candidateCount < U32_LIMIT
    && 0 < block.payloadSize == |payload| <= MAXIMUM_PAYLOAD && block.payloadCrc == Crc.Checksum(payload)
  }

  lemma OneBlockAccepted(meta: Metadata, block: BlockHeader, payload: seq<byte>)
    requires OneBlockValid(meta, block, payload)
    ensures var file, h := OneBlockFile(meta, block, payload), OneBlockHeader(meta, block, |payload|);
            && FileAccepted(file) && FileHeader(file) == h
            && AcceptedAt(file, h, HEADER_SIZE, block, payload)
  {
    hide EncodeHeader, DecodeHeader, EncodeBlockHeader, DecodeBlockHeader, Crc.Checksum, Fits, EncodeEntry;
    var h, file := OneBlockHeader(meta, block, |payload|), OneBlockFile(meta, block, payload);
    OneBlockHeaderFits(meta, block, |payload|);
    HeaderRoundTrip(h);
    HeaderCrcIgnored(h.(headerCrc := 0));
    BlockHeaderRoundTrip(block);
    assert file[..HEADER_SIZE] == EncodeHeader(h);
    assert file[HEADER_SIZE..HEADER_SIZE + BLOCK_SIZE] == EncodeBlockHeader(block);
    assert file[HEADER_SIZE + BLOCK_SIZE..HEADER_SIZE + BLOCK_SIZE + |payload|] == payload;
  }

  lemma OneBlockIndexed(meta: Metadata, block: BlockHeader, payload: seq<byte>)
    requires OneBlockValid(meta, block, payload)
    ensures IndexAt(OneBlockFile(meta, block, payload), OneBlockHeader(meta, block, |payload|), 0) == Some(OneBlockEntry(block))
  {
    hide EncodeHeader, EncodeBlockHeader, EncodeEntry, DecodeEntry, Crc.Checksum;
    var file, at := OneBlockFile(meta, block, payload), HEADER_SIZE + BLOCK_SIZE + |payload|;
    OneBlockEntryFits(block);
    EntryRoundTrip(OneBlockEntry(block));
    assert file[at..at + ENTRY_SIZE] == EncodeEntry(OneBlockEntry(block));
  }

  lemma OneBlockEntryFits(block: BlockHeader)
    requires Fits(BlockFields(block), BLOCK_WIDTHS)
    ensures Fits(EntryFields(OneBlockEntry(block)), ENTRY_WIDTHS)
  {
    WidthLimits();
    var f := BlockFields(block);
    assert f[4] < Pow256(8) && f[5] < Pow256(8) && f[6] < Pow256(4) && f[7] < Pow256(4);
  }

  /** The pager on such a file: the one block decides, for every page that reaches it. */
  lemma OneBlockPage(meta: Metadata, block: BlockHeader, payload: seq<byte>, offset: nat, count: nat)
    requires OneBlockValid(meta, block, payload)
    ensures PageOf(OneBlockFile(meta, block, payload), offset, count)
         == if offset >= block.candidateCount || count == 0 then Served(Taken, [])
            else PayloadServed(block, payload, meta.alignment, offset, count)
  {
    hide DecodeHeader, IndexAt, BlockAccepted, BlockHeaderAt, BlockPayload, PayloadServed, Fits, ValidMetadata, HeaderCrc;
    hide FileAccepted, OneBlockFile, Crc.Checksum, ServedFrom;
    var file, h := OneBlockFile(meta, block, payload), OneBlockHeader(meta, block, |payload|);
    OneBlockAccepted(meta, block, payload);
    OneBlockIndexed(meta, block, payload);
    if offset < block.candidateCount && count > 0 {
      assert FirstReaching(file, h, offset, 0, 0) == Some(0);
      ServedNext(file, h, 0, offset, count);
      assert BlockHeaderAt(file, HEADER_SIZE) == block && Matches(h, OneBlockEntry(block), block);
      var s := BlockServed(file, h, OneBlockEntry(block), offset, count);
      if s.outcome.Taken? {
        ServedAll(file, h, 1, offset, count - |s.page|);
        assert s.page + [] == s.page;
      }
    }
  }

  lemma OneBlockHeaderFits(meta: Metadata, block: BlockHeader, size: nat)
    requires ValidMetadata(meta) && block.candidateCount < U32_LIMIT && size <= MAXIMUM_PAYLOAD
    ensures HeaderFits(OneBlockHeader(meta, block, size))
  {
    hide EncodeHeader, Crc.Checksum;
    var h := OneBlockHeader(meta, block, size);
    Crc.ChecksumBound(EncodeHeader(h.(headerCrc := 0)));
    TotalsFit(h);
    WidthLimits();
    assert h.metadata == meta;
  }

  /** Two candidates and four bytes: the file passes every check, and every page that reaches the block reads past
      its payload. */
  lemma ShortSparseBlock(meta: Metadata, offset: nat, count: nat)
    requires ValidMetadata(meta) && meta.width == 8
    ensures var payload: seq<byte> := [0, 0, 0, 0];
            var block := BlockHeader(BLOCK_MAGIC, SPARSE, 8, 0, 0, 0, 2, 2, 4, Crc.Checksum(payload));
            PageOf(OneBlockFile(meta, block, payload), offset, count).outcome.Overran? <==> offset < 2 && count > 0
  {
    hide Crc.Checksum, ValidMetadata, PageOf, OneBlockFile;
    var payload: seq<byte> := [0, 0, 0, 0];
    var block := BlockHeader(BLOCK_MAGIC, SPARSE, 8, 0, 0, 0, 2, 2, 4, Crc.Checksum(payload));
    WidthLimits();
    Crc.ChecksumBound(payload);
    OneBlockPage(meta, block, payload, offset, count);
    assert payload[0..4] == payload;
    DecodeZeros(payload);
    assert GoodEntry(block, payload, 0);
    assert GoodEntries(block, payload, 1) && !EntryInside(payload, 8, 1);
  }

  /** Nine slots and one byte of bitmap: the same. */
  lemma ShortBitmapBlock(meta: Metadata, offset: nat, count: nat)
    requires ValidMetadata(meta) && meta.width == 8
    ensures var payload: seq<byte> := [0];
            var block := BlockHeader(BLOCK_MAGIC, BITMAP, 8, 0, 0, 0, 9, 1, 1, Crc.Checksum(payload));
            PageOf(OneBlockFile(meta, block, payload), offset, count).outcome.Overran? <==> offset < 1 && count > 0
  {
    hide Crc.Checksum, ValidMetadata, PageOf, OneBlockFile, MaskBit;
    var payload: seq<byte> := [0];
    var block := BlockHeader(BLOCK_MAGIC, BITMAP, 8, 0, 0, 0, 9, 1, 1, Crc.Checksum(payload));
    WidthLimits();
    Crc.ChecksumBound(payload);
    OneBlockPage(meta, block, payload, offset, count);
    NoBits(8);
  }

  lemma DecodeZeros(payload: seq<byte>)
    requires payload == [0, 0, 0, 0]
    ensures DecodeLe(payload) == 0
  {
    var three, two, one: seq<byte> := [0, 0, 0], [0, 0], [0];
    assert one[1..] == [] && two[1..] == one && three[1..] == two && payload[1..] == three;
    assert DecodeLe([]) == 0;
    assert DecodeLe(one) == 0;
    assert DecodeLe(two) == 0;
    assert DecodeLe(three) == 0;
  }

  lemma {:induction false} NoBits(n: nat)
    requires n <= 8
    ensures Slots([0], n) == []
  {
    if n == 0 {
    } else {
      NoBits(n - 1);
    }
  }
}
