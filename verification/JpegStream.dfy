/** From bits to the bytes of a scan: padding and byte stuffing (section F.1.2.3 of ITU-T T.81). */
module JpegStream {
  import opened Bytes
  import opened JpegHuffman
  import opened JpegDecoder

  function Ones(n: nat): (r: seq<bool>)
    ensures |r| == n && false !in r
  {
    seq(n, _ => true)
  }

  lemma {:induction false} NumberBelow(value: nat, bits: seq<bool>, n: nat)
    requires value < Pow2(n)
    ensures NumberFrom(value, bits) < Pow2(n + |bits|)
    decreases |bits|
  {
    if bits == [] {
    } else {
      assert Pow2(n + 1) == 2 * Pow2(n);
      NumberBelow(2 * value + (if bits[0] then 1 else 0), bits[1..], n + 1);
    }
  }

  function PackByte(bits: seq<bool>): byte
    requires |bits| == 8
  {
    assert Pow2(0) == 1 && Pow2(8) == 256;
    NumberBelow(0, bits, 0);
    NumberFrom(0, bits)
  }

  /** Eight bits a byte; the last byte is filled up with ones. */
  function Pack(bits: seq<bool>): seq<byte> {
    if bits == [] then []
    else if |bits| < 8 then [PackByte(bits + Ones(8 - |bits|))]
    else [PackByte(bits[..8])] + Pack(bits[8..])
  }

  lemma {:induction false} BitsOfNumber(value: nat, bits: seq<bool>)
    ensures LowBits(NumberFrom(value, bits), |bits|) == bits
    ensures Shr(NumberFrom(value, bits), |bits|) == value
    decreases |bits|
  {
    if bits == [] {
    } else {
      var next := 2 * value + (if bits[0] then 1 else 0);
      BitsOfNumber(next, bits[1..]);
      var v := NumberFrom(value, bits);
      ShrStep(v, |bits| - 1);
      assert next % 2 == (if bits[0] then 1 else 0);
      TestBitIsShr(v, |bits| - 1);
      assert bits == [bits[0]] + bits[1..];
    }
  }

  lemma {:induction false} TestBitIsShr(v: nat, n: nat)
    ensures TestBit(v, n) <==> Shr(v, n) % 2 == 1
  {
    if n == 0 {
    } else {
      TestBitIsShr(v / 2, n - 1);
    }
  }

  /** Unpacking gives the bits back, followed by fewer than eight ones. */
  lemma {:induction false} UnpackPack(bits: seq<bool>) returns (pad: nat)
    ensures pad < 8 && ByteBits(Pack(bits)) == bits + Ones(pad)
  {
    hide PackByte;
    if bits == [] {
      pad := 0;
      assert Ones(0) == [];
    } else if |bits| < 8 {
      pad := 8 - |bits|;
      OneByte(bits + Ones(pad));
    } else {
      pad := UnpackPack(bits[8..]);
      OneByte(bits[..8]);
      var b := PackByte(bits[..8]);
      assert ([b] + Pack(bits[8..]))[1..] == Pack(bits[8..]);
      assert bits == bits[..8] + bits[8..];
    }
  }

  lemma OneByte(bits: seq<bool>)
    requires |bits| == 8
    ensures LowBits(PackByte(bits), 8) == bits && ByteBits([PackByte(bits)]) == bits
  {
    BitsOfNumber(0, bits);
    assert [PackByte(bits)][1..] == [];
  }

  /** A zero behind every 0xFF. */
  function Stuff(data: seq<byte>): seq<byte> {
    if data == [] then []
    else (if data[0] == 0xFF then [0xFF, 0] else [data[0]]) + Stuff(data[1..])
  }

  /** What may follow entropy-coded data: a marker, or nothing. */
  predicate Stops(tail: seq<byte>) {
    tail == [] || (tail[0] == 0xFF && (|tail| == 1 || tail[1] != 0))
  }

  /** The decoder reads exactly the stuffed data and stops before what follows. */
  lemma {:induction false} AvailableStuffed(scan: seq<byte>, pos: nat, data: seq<byte>, tail: seq<byte>)
    requires pos <= |scan| && scan[pos..] == Stuff(data) + tail && Stops(tail)
    ensures Available(scan, pos) == data
    ensures EndOf(scan, pos) == pos + |Stuff(data)|
    decreases |data|
  {
    hide Available, EndOf;
    AvailableStep(scan, pos);
    if data == [] {
      assert scan[pos..] == tail;
      if pos < |scan| {
        assert scan[pos] == tail[0] && (pos + 1 < |scan| ==> scan[pos + 1] == tail[1]);
      }
    } else {
      var head := if data[0] == 0xFF then [0xFF, 0] else [data[0]];
      var rest := Stuff(data[1..]) + tail;
      SuffixAfter(scan, pos, head, rest);
      assert scan[pos..] == head + rest;
      assert scan[pos] == head[0] && (|head| == 2 ==> scan[pos + 1] == head[1]);
      AvailableStuffed(scan, pos + |head|, data[1..], tail);
    }
  }

  lemma SuffixAfter(scan: seq<byte>, pos: nat, head: seq<byte>, rest: seq<byte>)
    requires pos <= |scan|
    ensures scan[pos..] == head + rest ==> pos + |head| <= |scan| && scan[pos + |head|..] == rest
  {
    if scan[pos..] == head + rest {
      assert |scan| - pos == |head| + |rest|;
      assert scan[pos + |head|..] == scan[pos..][|head|..];
    }
  }

  /** With fewer than eight bits ahead, and none of them whole, the reader stands at the marker. */
  lemma AtMarker(reader: BitReader)
    requires reader.Valid() && |reader.Bits()| < 8
    ensures reader.scanPos == reader.End()
  {
    assert Available(reader.scan, reader.scanPos) == [];
  }
}
