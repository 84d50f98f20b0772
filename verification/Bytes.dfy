/** Bytes, little-endian fields and bit masks, as the C code lays them out. */
module Bytes {

  type byte = x: int | 0 <= x < 256

  const U32_LIMIT: int := 0x1_0000_0000
  const U64_LIMIT: int := 0x1_0000_0000_0000_0000
  const LONG_MAX: int := 0x7FFF_FFFF_FFFF_FFFF

  // ----- little-endian numbers -----

  function Pow256(n: nat): (p: nat)
    ensures p >= 1
  {
    if n == 0 then 1 else 256 * Pow256(n - 1)
  }

  /** Whole multiples of e are at least e apart. */
  lemma NextMultiple(a: nat, b: nat, e: nat)
    requires a < b
    ensures a * e + e <= b * e
  {
    assert b * e == (a + 1) * e + (b - a - 1) * e;
  }

  lemma MulMonotone(e: nat, a: nat, b: nat)
    requires a <= b
    ensures e * a <= e * b
  {
  }

  function EncodeLe(x: nat, width: nat): (s: seq<byte>)
    ensures |s| == width
  {
    if width == 0 then [] else [x % 256] + EncodeLe(x / 256, width - 1)
  }

  function DecodeLe(s: seq<byte>): nat {
    if s == [] then 0 else s[0] + 256 * DecodeLe(s[1..])
  }

  lemma {:induction false} DecodeEncodeLe(x: nat, width: nat)
    requires x < Pow256(width)
    ensures DecodeLe(EncodeLe(x, width)) == x
  {
    if width == 0 {
    } else {
      DecodeEncodeLe(x / 256, width - 1);
      assert EncodeLe(x, width)[1..] == EncodeLe(x / 256, width - 1);
    }
  }

  lemma {:induction false} DecodeLeBound(s: seq<byte>)
    ensures DecodeLe(s) < Pow256(|s|)
  {
    if s == [] {
    } else {
      DecodeLeBound(s[1..]);
    }
  }

  // ----- structs of little-endian fields -----

  function SizeOf(widths: seq<nat>): nat {
    if widths == [] then 0 else widths[0] + SizeOf(widths[1..])
  }

  ghost predicate Fits(fields: seq<nat>, widths: seq<nat>) {
    |fields| == |widths| && forall i :: 0 <= i < |fields| ==> fields[i] < Pow256(widths[i])
  }

  function EncodeFields(fields: seq<nat>, widths: seq<nat>): (s: seq<byte>)
    requires |fields| == |widths|
    ensures |s| == SizeOf(widths)
  {
    if fields == [] then [] else EncodeLe(fields[0], widths[0]) + EncodeFields(fields[1..], widths[1..])
  }

  function DecodeFields(s: seq<byte>, widths: seq<nat>): (fields: seq<nat>)
    requires |s| == SizeOf(widths)
    ensures |fields| == |widths|
    ensures Fits(fields, widths)
    decreases |widths|
  {
    if widths == [] then []
    else
      DecodeLeBound(s[..widths[0]]);
      [DecodeLe(s[..widths[0]])] + DecodeFields(s[widths[0]..], widths[1..])
  }

  lemma {:induction false} EncodeDecodeLe(s: seq<byte>)
    ensures EncodeLe(DecodeLe(s), |s|) == s
  {
    if s == [] {
    } else {
      EncodeDecodeLe(s[1..]);
      var x := DecodeLe(s);
      assert x % 256 == s[0] && x / 256 == DecodeLe(s[1..]);
      assert [s[0]] + s[1..] == s;
    }
  }

  lemma {:induction false} EncodeDecodeFields(s: seq<byte>, widths: seq<nat>)
    requires |s| == SizeOf(widths)
    ensures EncodeFields(DecodeFields(s, widths), widths) == s
    decreases |widths|
  {
    hide DecodeLe, EncodeLe;
    if widths == [] {
    } else {
      EncodeDecodeLe(s[..widths[0]]);
      EncodeDecodeFields(s[widths[0]..], widths[1..]);
      var fields := DecodeFields(s, widths);
      assert fields[1..] == DecodeFields(s[widths[0]..], widths[1..]);
      assert s == s[..widths[0]] + s[widths[0]..];
    }
  }

  lemma {:induction false} EncodeFieldsConcat(a: seq<nat>, b: seq<nat>, u: seq<nat>, v: seq<nat>)
    requires |a| == |u| && |b| == |v|
    ensures EncodeFields(a + b, u + v) == EncodeFields(a, u) + EncodeFields(b, v)
    decreases |a|
  {
    hide EncodeLe;
    if a == [] {
      assert a + b == b && u + v == v;
    } else {
      assert (a + b)[1..] == a[1..] + b && (u + v)[1..] == u[1..] + v;
      EncodeFieldsConcat(a[1..], b, u[1..], v);
    }
  }

  lemma {:induction false} DecodeEncodeFields(fields: seq<nat>, widths: seq<nat>)
    requires Fits(fields, widths)
    ensures DecodeFields(EncodeFields(fields, widths), widths) == fields
    decreases |fields|
  {
    if fields == [] {
    } else {
      var s := EncodeFields(fields, widths);
      DecodeEncodeLe(fields[0], widths[0]);
      DecodeEncodeFields(fields[1..], widths[1..]);
      assert s[..widths[0]] == EncodeLe(fields[0], widths[0]);
      assert s[widths[0]..] == EncodeFields(fields[1..], widths[1..]);
    }
  }

  // ----- bit masks, bit i of a mask being bit i%8 of byte i/8 -----

  /** `(x >> k) & 1` */
  predicate TestBit(x: nat, k: nat) {
    if k == 0 then x % 2 == 1 else TestBit(x / 2, k - 1)
  }

  /** `x | (1 << k)` */
  function OrBit(x: nat, k: nat): nat {
    if k == 0 then (if x % 2 == 1 then x else x + 1) else x % 2 + 2 * OrBit(x / 2, k - 1)
  }

  lemma {:induction false} OrBitTest(x: nat, k: nat, j: nat)
    ensures TestBit(OrBit(x, k), j) <==> j == k || TestBit(x, j)
  {
    if k == 0 {
    } else {
      var high := OrBit(x / 2, k - 1);
      assert (x % 2 + 2 * high) % 2 == x % 2 && (x % 2 + 2 * high) / 2 == high;
      if j > 0 {
        OrBitTest(x / 2, k - 1, j - 1);
      }
    }
  }

  function Pow2(n: nat): (p: nat)
    ensures p >= 1
  {
    if n == 0 then 1 else 2 * Pow2(n - 1)
  }

  lemma {:induction false} PowSum(a: nat, b: nat)
    ensures Pow2(a) * Pow2(b) == Pow2(a + b)
  {
    if a == 0 {
    } else {
      PowSum(a - 1, b);
      var p, q := Pow2(a - 1), Pow2(b);
      assert (2 * p) * q == 2 * (p * q);
    }
  }

  lemma {:induction false} OrBitBound(x: nat, k: nat, width: nat)
    requires k < width && x < Pow2(width)
    ensures OrBit(x, k) < Pow2(width)
  {
    var half := Pow2(width - 1);
    assert Pow2(width) == 2 * half;
    if k == 0 {
      assert x % 2 == 0 ==> x + 1 < 2 * half;
    } else {
      assert x / 2 < half;
      OrBitBound(x / 2, k - 1, width - 1);
      var high := OrBit(x / 2, k - 1);
      assert high + 1 <= half;
    }
  }

  function OrBitInByte(b: byte, k: nat): (r: byte)
    requires k < 8
    ensures r == OrBit(b, k)
  {
    assert Pow2(8) == 256;
    OrBitBound(b, k, 8);
    OrBit(b, k)
  }

  /** The low `n` bits set, `(1 << n) - 1`, has exactly bits 0..n-1. */
  lemma {:induction false} LowBitsTest(n: nat, j: nat)
    ensures TestBit(Pow2(n) - 1, j) <==> j < n
  {
    if n == 0 {
      ZeroTest(j);
    } else {
      var half := Pow2(n - 1);
      assert Pow2(n) - 1 == 2 * (half - 1) + 1;
      assert (Pow2(n) - 1) / 2 == half - 1 && (Pow2(n) - 1) % 2 == 1;
      if j > 0 {
        LowBitsTest(n - 1, j - 1);
      }
    }
  }

  lemma {:induction false} ZeroTest(j: nat)
    ensures !TestBit(0, j)
  {
    if j == 0 {
    } else {
      ZeroTest(j - 1);
    }
  }

  function MaskSize(slots: nat): nat {
    (slots + 7) / 8
  }

  predicate MaskBit(mask: seq<byte>, slot: nat)
    requires slot < 8 * |mask|
  {
    TestBit(mask[slot / 8], slot % 8)
  }

  /** `mask[slot >> 3] |= 1 << (slot & 7)` */
  function MaskSet(mask: seq<byte>, slot: nat): (r: seq<byte>)
    requires slot < 8 * |mask|
    ensures |r| == |mask|
  {
    mask[slot / 8 := OrBitInByte(mask[slot / 8], slot % 8)]
  }

  lemma MaskSetTest(mask: seq<byte>, slot: nat, i: nat)
    requires slot < 8 * |mask| && i < 8 * |mask|
    ensures MaskBit(MaskSet(mask, slot), i) <==> i == slot || MaskBit(mask, i)
  {
    if i / 8 == slot / 8 {
      OrBitTest(mask[slot / 8], slot % 8, i % 8);
    }
  }
}
