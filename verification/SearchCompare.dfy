/** search_compare.c: unsigned values, comparison modes, mask filtering. */
module SearchCompare {
  import opened Bytes
  import opened StoreFormat
  import opened StoreReader

  datatype Mode = Exact | Changed | Unchanged | Increased | Decreased

  lemma {:induction false} DecodeLeAppend(s: seq<byte>, b: byte)
    ensures DecodeLe(s + [b]) == DecodeLe(s) + b * Pow256(|s|)
  {
    if s == [] {
      assert s + [b] == [b] && DecodeLe([b][1..]) == 0;
    } else {
      assert (s + [b])[1..] == s[1..] + [b];
      DecodeLeAppend(s[1..], b);
    }
  }

  /** searchDecodeUnsigned; the bytes are or-ed into disjoint places, so or is addition. */
  method DecodeUnsigned(value: seq<byte>) returns (result: nat)
    ensures result == DecodeLe(value) < Pow256(|value|)
  {
    result := 0;
    var place: nat := 1;
    for index := 0 to |value|
      invariant place == Pow256(index) && result == DecodeLe(value[..index])
    {
      DecodeLeAppend(value[..index], value[index]);
      assert value[..index + 1] == value[..index] + [value[index]];
      result := result + value[index] * place;
      place := 256 * place;
    }
    assert value[..|value|] == value;
    DecodeLeBound(value);
  }

  predicate Compare(mode: Mode, oldValue: nat, newValue: nat, exactValue: nat) {
    match mode
    case Exact => newValue == exactValue
    case Changed => newValue != oldValue
    case Unchanged => newValue == oldValue
    case Increased => newValue > oldValue
    case Decreased => newValue < oldValue
  }

  /** Whether a slot survives: a candidate whose two values satisfy the mode. */
  ghost predicate Survives(mode: Mode, exactValue: nat, previous: seq<byte>, current: seq<byte>, mask: seq<byte>,
                           width: nat, slot: nat)
    requires slot < 8 * |mask|
  {
    MaskBit(mask, slot)
    && Compare(mode, DecodeLe(Value(previous, slot, width)), DecodeLe(Value(current, slot, width)), exactValue)
  }

  method FilterUnsigned(mode: Mode, previous: seq<byte>, current: seq<byte>, inputMask: seq<byte>,
                        outputMask: array<byte>, slotCount: nat, width: nat, exactValue: nat)
    returns (matches: nat)
    requires slotCount * width <= |previous| && slotCount * width <= |current|
    requires MaskSize(slotCount) <= |inputMask| && MaskSize(slotCount) <= outputMask.Length
    modifies outputMask
    ensures forall slot: nat | slot < slotCount ::
      MaskBit(outputMask[..], slot) <==> Survives(mode, exactValue, previous, current, inputMask, width, slot)
    ensures matches == |Slots(outputMask[..], slotCount)|
    // slot by slot, on the numbers the bytes spell
    ensures forall slot: nat | slot < slotCount ::
      var u, v := DecodeLe(Value(previous, slot, width)), DecodeLe(Value(current, slot, width));
      MaskBit(outputMask[..], slot) <==>
        && MaskBit(inputMask, slot)
        && (mode == Exact ==> v == exactValue) && (mode == Changed ==> v != u) && (mode == Unchanged ==> v == u)
        && (mode == Increased ==> v > u) && (mode == Decreased ==> v < u)
  {
    hide MaskBit, MaskSet, Value, DecodeLe, Compare;
    Fill(outputMask, MaskSize(slotCount), 0);
    EmptyMask(outputMask[..], slotCount);
    matches := 0;
    for slot := 0 to slotCount
      invariant forall s: nat | s < slotCount ::
        MaskBit(outputMask[..], s) <==> s < slot && Survives(mode, exactValue, previous, current, inputMask, width, s)
      invariant matches == |Slots(outputMask[..], slot)|
    {
      ghost var before := outputMask[..];
      NextMultiple(slot, slotCount, width);
      if MaskBit(inputMask, slot) {
        var oldValue := DecodeUnsigned(Value(previous, slot, width));
        var newValue := DecodeUnsigned(Value(current, slot, width));
        if Compare(mode, oldValue, newValue, exactValue) {
          MaskSetAt(outputMask, slot);
          matches := matches + 1;
        }
      }
      forall s: nat | s < slotCount
        ensures MaskBit(outputMask[..], s) <==> s <= slot && Survives(mode, exactValue, previous, current, inputMask, width, s)
      {
        MaskSetTest(before, slot, s);
      }
      SameSlots(before, outputMask[..], slot);
    }
    forall slot: nat | slot < slotCount
      ensures var u, v := DecodeLe(Value(previous, slot, width)), DecodeLe(Value(current, slot, width));
              Compare(mode, u, v, exactValue) <==>
                && (mode == Exact ==> v == exactValue) && (mode == Changed ==> v != u) && (mode == Unchanged ==> v == u)
                && (mode == Increased ==> v > u) && (mode == Decreased ==> v < u)
    {
      CompareMeans(mode, DecodeLe(Value(previous, slot, width)), DecodeLe(Value(current, slot, width)), exactValue);
    }
  }

  lemma CompareMeans(mode: Mode, u: nat, v: nat, exactValue: nat)
    ensures Compare(mode, u, v, exactValue) <==>
      && (mode == Exact ==> v == exactValue) && (mode == Changed ==> v != u) && (mode == Unchanged ==> v == u)
      && (mode == Increased ==> v > u) && (mode == Decreased ==> v < u)
  {
  }

  /** Masks that agree below n list the same slots below n. */
  lemma {:induction false} SameSlots(a: seq<byte>, b: seq<byte>, n: nat)
    requires n <= 8 * |a| && n <= 8 * |b|
    requires forall s: nat | s < n :: MaskBit(a, s) == MaskBit(b, s)
    ensures Slots(a, n) == Slots(b, n)
  {
    if n == 0 {
    } else {
      SameSlots(a, b, n - 1);
    }
  }

  /** Unchanged, increased and decreased split the candidates into three disjoint groups. */
  lemma ModesPartition(oldValue: nat, newValue: nat, exactValue: nat)
    ensures (if Compare(Unchanged, oldValue, newValue, exactValue) then 1 else 0)
          + (if Compare(Increased, oldValue, newValue, exactValue) then 1 else 0)
          + (if Compare(Decreased, oldValue, newValue, exactValue) then 1 else 0) == 1
    ensures Compare(Changed, oldValue, newValue, exactValue)
            <==> Compare(Increased, oldValue, newValue, exactValue) || Compare(Decreased, oldValue, newValue, exactValue)
  {
  }
}
