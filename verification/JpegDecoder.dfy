/** The bit reader and the table lookup of jpeg_dc.c. */
module JpegDecoder {
  import opened Bytes
  import opened JpegHuffman
  import opened Options

  // ----- the entropy-coded bytes of a scan -----

  /** The bytes that can be read from `pos` on: 0xFF counts only when a zero is stuffed behind it. */
  function Available(scan: seq<byte>, pos: nat): seq<byte>
    decreases |scan| - pos
  {
    if pos >= |scan| then []
    else if scan[pos] != 0xFF then [scan[pos]] + Available(scan, pos + 1)
    else if pos + 1 < |scan| && scan[pos + 1] == 0 then [0xFF] + Available(scan, pos + 2)
    else []
  }

  /** Where those bytes end: at a marker or at the end of the data. */
  function EndOf(scan: seq<byte>, pos: nat): nat
    decreases |scan| - pos
  {
    if pos >= |scan| then pos
    else if scan[pos] != 0xFF then EndOf(scan, pos + 1)
    else if pos + 1 < |scan| && scan[pos + 1] == 0 then EndOf(scan, pos + 2)
    else pos
  }

  function ByteBits(data: seq<byte>): (bits: seq<bool>)
    ensures |bits| == 8 * |data|
  {
    if data == [] then [] else LowBits(data[0], 8) + ByteBits(data[1..])
  }

  // ----- Huffman tables -----

  /** The row of one code length. */
  ghost predicate Row(counts: Counts, length: nat, minCode: int, maxCode: int, valPtr: int)
    requires 1 <= length <= 16
  {
    if counts[length] > 0 then
      && minCode == First(counts, length)
      && valPtr == Before(counts, length)
      && maxCode == First(counts, length) + counts[length] - 1
    else minCode == -1 && valPtr == -1 && maxCode == -1
  }

  /** BITS and HUFFVAL of a table, as a DHT segment carries them. */
  datatype Coding = Coding(counts: Counts, symbols: seq<byte>)

  /** JpegHuffman: what the decoder keeps of a table. */
  datatype Table = Table(present: bool, symbols: seq<byte>, minCode: seq<int>, maxCode: seq<int>, valPtr: seq<int>)

  /** A table that is present was filled from these counts and symbols. */
  ghost predicate TableOf(table: Table, t: Coding) {
    table.present ==>
      && |t.symbols| == Before(t.counts, 17) <= 256
      && |table.symbols| == 256 && table.symbols[..|t.symbols|] == t.symbols
      && |table.minCode| == |table.maxCode| == |table.valPtr| == 17
      && forall l :: 1 <= l <= 16 ==> Row(t.counts, l, table.minCode[l], table.maxCode[l], table.valPtr[l])
  }

  /** jpegParseHuffman for one table, once its counts and symbols have been read. */
  method DefineTable(t: Coding) returns (ok: bool, table: Table)
    requires |t.symbols| == Before(t.counts, 17)
    ensures ok <==> |t.symbols| <= 256
    ensures ok ==> table.present && TableOf(table, t)
  {
    var blank: seq<int> := seq(17, _ => -1);
    table := Table(false, [], blank, blank, blank);
    if |t.symbols| > 256 {
      return false, table;
    }
    var symbols := t.symbols + seq(256 - |t.symbols|, _ => 0);
    var minCode: seq<int>, maxCode: seq<int>, valPtr: seq<int> := blank, blank, blank;
    var code, index := 0, 0;
    for length := 1 to 17
      invariant |minCode| == |maxCode| == |valPtr| == 17
      invariant code == First(t.counts, length) && index == Before(t.counts, length)
      invariant forall l :: 1 <= l < length ==> Row(t.counts, l, minCode[l], maxCode[l], valPtr[l])
    {
      if t.counts[length] > 0 {
        minCode := minCode[length := code];
        valPtr := valPtr[length := index];
        code := code + t.counts[length];
        index := index + t.counts[length];
      } else {
        minCode := minCode[length := -1];
        valPtr := valPtr[length := -1];
      }
      maxCode := maxCode[length := if t.counts[length] > 0 then code - 1 else -1];
      code := 2 * code;
    }
    table := Table(true, symbols, minCode, maxCode, valPtr);
    ok := true;
  }

  lemma DecodeEnd(counts: Counts, bits: seq<bool>, code: nat)
    ensures Decode(counts, bits, code, 17) == None
  {
  }

  /** What jpegDecodeHuffman must return, and the bits it must leave. */
  ghost predicate LookedUp(t: Coding, before: seq<bool>, symbol: int, after: seq<bool>) {
    match Decode(t.counts, before, 0, 1)
    case None => symbol == -1
    case Some((index, rest)) => 0 <= index < |t.symbols| && symbol == t.symbols[index] && after == rest
  }

  /** The symbol at the front of the bits and the bits behind it; None when no codeword is there. */
  function Lookup(t: Coding, bits: seq<bool>): Option<(byte, seq<bool>)> {
    var found := Decode(t.counts, bits, 0, 1);
    if found.None? || found.value.0 < 0 || found.value.0 >= |t.symbols| then None
    else Some((t.symbols[found.value.0], found.value.1))
  }

  lemma LookedUpIs(t: Coding, before: seq<bool>, symbol: int, after: seq<bool>)
    requires LookedUp(t, before, symbol, after)
    ensures if symbol < 0 then Lookup(t, before).None? else Lookup(t, before) == Some((symbol, after))
  {
    hide Decode;
  }

  lemma AvailableStep(scan: seq<byte>, pos: nat)
    ensures var stops := pos >= |scan| || (scan[pos] == 0xFF && (pos + 1 >= |scan| || scan[pos + 1] != 0));
            if stops then Available(scan, pos) == [] && EndOf(scan, pos) == pos
            else
              var next := if scan[pos] == 0xFF then pos + 2 else pos + 1;
              Available(scan, pos) == [scan[pos]] + Available(scan, next) && EndOf(scan, pos) == EndOf(scan, next)
  {
  }

  // ----- the bit reader -----

  class BitReader {
    const scan: seq<byte>
    var scanPos: nat
    var bitBuffer: byte
    var bitCount: nat

    constructor (scan: seq<byte>, start: nat)
      ensures this.scan == scan && scanPos == start && Valid() && bitCount == 0
    {
      this.scan := scan;
      scanPos, bitBuffer, bitCount := start, 0, 0;
    }

    ghost predicate Valid()
      reads this
    {
      bitCount < 8
    }

    /** The bits ahead. */
    ghost function Bits(): seq<bool>
      reads this
    {
      LowBits(bitBuffer, bitCount) + ByteBits(Available(scan, scanPos))
    }

    /** Where the bits ahead end. */
    ghost function End(): nat
      reads this
    {
      EndOf(scan, scanPos)
    }

    /** The next byte, without the zero stuffed behind 0xFF. */
    method LoadByte() returns (ok: bool)
      requires bitCount == 0
      modifies this
      ensures ok <==> old(Bits()) != []
      ensures !ok ==> bitCount == 0
      ensures ok ==> bitCount == 8 && Bits() == old(Bits()) && End() == old(End())
    {
      hide LowBits, EndOf;
      AvailableStep(scan, scanPos);
      if scanPos >= |scan| {
        return false;
      }
      var next := scan[scanPos];
      scanPos := scanPos + 1;
      if next == 0xFF {
        if scanPos >= |scan| || scan[scanPos] != 0 {
          return false;
        }
        scanPos := scanPos + 1;
      }
      ghost var rest := Available(scan, scanPos);
      assert ([next] + rest)[1..] == rest;
      bitBuffer := next;
      bitCount := 8;
      ok := true;
      assert LowBits(bitBuffer, 0) == [];
    }

    /** -1 when there is no bit, at a marker or at the end of the data. */
    method ReadBit() returns (bit: int)
      requires Valid()
      modifies this
      ensures Valid() && bit in {-1, 0, 1}
      ensures bit < 0 <==> old(Bits()) == []
      ensures bit >= 0 ==> old(Bits()) == [bit == 1] + Bits() && End() == old(End())
    {
      hide Available, EndOf, ByteBits, TestBit;
      if bitCount == 0 {
        var ok := LoadByte();
        if !ok {
          return -1;
        }
      }
      bitCount := bitCount - 1;
      bit := if TestBit(bitBuffer, bitCount) then 1 else 0;
    }

    method ReadBits(count: nat) returns (value: int)
      requires Valid()
      modifies this
      ensures Valid()
      ensures value < 0 <==> |old(Bits())| < count
      ensures value >= 0 ==> value == NumberFrom(0, old(Bits())[..count]) && Bits() == old(Bits())[count..]
      ensures value >= 0 ==> End() == old(End())
    {
      hide LowBits, ByteBits, Available, EndOf;
      ghost var start := Bits();
      value := 0;
      for i := 0 to count
        invariant Valid() && value >= 0 && i <= |start| && Bits() == start[i..] && End() == old(End())
        invariant value == NumberFrom(0, start[..i])
      {
        var bit := ReadBit();
        if bit < 0 {
          return -1;
        }
        assert start[i..][1..] == start[i + 1..];
        assert start[..i + 1] == start[..i] + [bit == 1];
        NumberFromSplit(0, start[..i], [bit == 1]);
        assert [bit == 1][1..] == [];
        value := 2 * value + bit;
      }
    }

    method DecodeHuffman(table: Table, ghost t: Coding) returns (symbol: int)
      requires Valid() && TableOf(table, t)
      modifies this
      ensures Valid() && symbol <= 255
      ensures !table.present ==> symbol == -1
      ensures table.present ==> LookedUp(t, old(Bits()), symbol, Bits())
      ensures symbol >= 0 ==> End() == old(End())
    {
      hide LowBits, ByteBits, Available, EndOf, Decode, BitReader.Bits, BitReader.End;
      if !table.present {
        return -1;
      }
      ghost var start := Bits();
      IndexInRange(t.counts, start, 0, 1);
      var code: nat := 0;
      for length := 1 to 17
        invariant Valid() && End() == old(End())
        invariant 2 * code >= First(t.counts, length)
        invariant Decode(t.counts, Bits(), code, length) == Decode(t.counts, start, 0, 1)
      {
        ghost var ahead := Bits();
        var bit := ReadBit();
        if bit < 0 {
          DecodeStep(t.counts, ahead, code, length);
          return -1;
        }
        assert ahead[0] == (bit == 1) && ahead[1..] == Bits();
        DecodeStep(t.counts, ahead, code, length);
        code := 2 * code + bit;
        assert Row(t.counts, length, table.minCode[length], table.maxCode[length], table.valPtr[length]);
        if table.maxCode[length] >= 0 && code <= table.maxCode[length] {
          var index := table.valPtr[length] + (code - table.minCode[length]);
          if index < 0 || index >= 256 {
            return -1;
          }
          assert table.symbols[index] == t.symbols[index];
          return table.symbols[index];
        }
      }
      DecodeEnd(t.counts, Bits(), code);
      symbol := -1;
    }
  }
}
