/** Entropy-coded bits and canonical Huffman tables of jpeg_dc.c, against Annex C and section F.2.2
    of ITU-T T.81. */
module JpegHuffman {
  import opened Bytes
  import opened Options

  // ----- bit strings, most significant bit first -----

  /** Bits n-1 down to 0 of v. */
  function LowBits(v: nat, n: nat): (bits: seq<bool>)
    ensures |bits| == n
  {
    if n == 0 then [] else [TestBit(v, n - 1)] + LowBits(v, n - 1)
  }

  function Shr(v: nat, n: nat): nat {
    if n == 0 then v else Shr(v / 2, n - 1)
  }

  lemma {:induction false} ShrStep(v: nat, n: nat)
    ensures Shr(v, n) == 2 * Shr(v, n + 1) + (if TestBit(v, n) then 1 else 0)
  {
    if n == 0 {
    } else {
      ShrStep(v / 2, n - 1);
    }
  }

  lemma {:induction false} ShrAll(v: nat, n: nat)
    requires v < Pow2(n)
    ensures Shr(v, n) == 0
  {
    if n == 0 {
    } else {
      ShrAll(v / 2, n - 1);
    }
  }

  lemma {:induction false} ShrAtLeast(v: nat, e: nat, n: nat)
    requires v >= e * Pow2(n)
    ensures Shr(v, n) >= e
  {
    if n == 0 {
    } else {
      assert e * Pow2(n) == 2 * (e * Pow2(n - 1));
      ShrAtLeast(v / 2, e, n - 1);
    }
  }

  /** Reading on from a number: `value = (value << 1) | bit` for every bit. */
  function NumberFrom(value: nat, bits: seq<bool>): nat
    decreases |bits|
  {
    if bits == [] then value else NumberFrom(2 * value + (if bits[0] then 1 else 0), bits[1..])
  }

  lemma {:induction false} NumberOfLowBits(v: nat, n: nat)
    ensures NumberFrom(Shr(v, n), LowBits(v, n)) == v
  {
    if n == 0 {
    } else {
      ShrStep(v, n - 1);
      assert LowBits(v, n)[1..] == LowBits(v, n - 1);
      NumberOfLowBits(v, n - 1);
    }
  }

  lemma NumberFromBits(v: nat, n: nat)
    requires v < Pow2(n)
    ensures NumberFrom(0, LowBits(v, n)) == v
  {
    ShrAll(v, n);
    NumberOfLowBits(v, n);
  }

  lemma {:induction false} NumberFromSplit(value: nat, a: seq<bool>, b: seq<bool>)
    ensures NumberFrom(value, a + b) == NumberFrom(NumberFrom(value, a), b)
    decreases |a|
  {
    if a == [] {
      assert a + b == b;
    } else {
      assert (a + b)[0] == a[0] && (a + b)[1..] == a[1..] + b;
      NumberFromSplit(2 * value + (if a[0] then 1 else 0), a[1..], b);
    }
  }

  // ----- canonical codes -----

  /** counts[L] codes of length L, for L = 1..16; entry 0 is unused. */
  type Counts = c: seq<nat> | |c| == 17 && c[0] == 0 witness seq(17, _ => 0)

  /** The first code of length L. */
  function First(counts: Counts, length: nat): nat
    requires 1 <= length <= 17
  {
    if length == 1 then 0 else 2 * (First(counts, length - 1) + counts[length - 1])
  }

  /** The number of codes shorter than L. */
  function Before(counts: Counts, length: nat): nat
    requires 1 <= length <= 17
  {
    if length == 1 then 0 else Before(counts, length - 1) + counts[length - 1]
  }

  lemma {:induction false} BeforeMonotone(counts: Counts, shorter: nat, length: nat)
    requires 1 <= shorter <= length <= 17
    ensures Before(counts, shorter) <= Before(counts, length)
  {
    if shorter == length {
    } else {
      BeforeMonotone(counts, shorter, length - 1);
    }
  }

  /** Shorter codes, continued to length L, stay below every code of length L. */
  lemma {:induction false} FirstGrows(counts: Counts, shorter: nat, length: nat)
    requires 1 <= shorter < length <= 17
    ensures First(counts, length) >= (First(counts, shorter) + counts[shorter]) * Pow2(length - shorter)
  {
    hide Pow2;
    var e := First(counts, shorter) + counts[shorter];
    Doubled(e, length - 1 - shorter);
    if shorter + 1 < length {
      FirstGrows(counts, shorter, length - 1);
    }
  }

  lemma Doubled(e: nat, n: nat)
    ensures e * Pow2(n + 1) == 2 * (e * Pow2(n))
    ensures e * Pow2(0) == e
  {
    var p := Pow2(n);
    assert Pow2(n + 1) == 2 * p;
    assert e * (2 * p) == 2 * (e * p);
  }

  // ----- Annex C of ITU-T T.81 -----

  /** HUFFSIZE, Figure C.1: the code lengths in order. */
  function HuffSizes(counts: Counts, length: nat): (sizes: seq<nat>)
    requires 1 <= length <= 17
    ensures |sizes| == Before(counts, length)
  {
    if length == 1 then [] else HuffSizes(counts, length - 1) + seq(counts[length - 1], _ => length - 1)
  }

  /** HUFFCODE, Figure C.2: count up, and shift left for every step in length. */
  function HuffCode(sizes: seq<nat>, k: nat): nat
    requires k < |sizes|
  {
    if k == 0 then 0
    else if sizes[k] == sizes[k - 1] then HuffCode(sizes, k - 1) + 1
    else (HuffCode(sizes, k - 1) + 1) * Pow2(if sizes[k] > sizes[k - 1] then sizes[k] - sizes[k - 1] else 0)
  }

  function Sizes(counts: Counts): seq<nat> {
    HuffSizes(counts, 17)
  }

  lemma {:induction false} HuffSizeAt(counts: Counts, length: nat, total: nat, j: nat)
    requires 1 <= length < total <= 17 && j < counts[length]
    ensures Before(counts, length) + j < Before(counts, total)
    ensures HuffSizes(counts, total)[Before(counts, length) + j] == length
  {
    if total > length + 1 {
      HuffSizeAt(counts, length, total - 1, j);
    }
  }

  /** With no code between two lengths, the next first code is the shifted end of the shorter ones. */
  lemma {:induction false} FirstSkips(counts: Counts, shorter: nat, length: nat)
    requires 1 <= shorter < length <= 17
    requires forall l :: shorter < l < length ==> counts[l] == 0
    ensures First(counts, length) == (First(counts, shorter) + counts[shorter]) * Pow2(length - shorter)
    ensures Before(counts, length) == Before(counts, shorter) + counts[shorter]
  {
    var e := First(counts, shorter) + counts[shorter];
    if shorter + 1 < length {
      FirstSkips(counts, shorter, length - 1);
      Doubled(e, length - shorter - 1);
    } else {
      assert Pow2(1) == 2;
    }
  }

  lemma {:induction false} NoShorterCodes(counts: Counts, length: nat)
    requires 1 <= length <= 17
    requires forall l :: 1 <= l < length ==> counts[l] == 0
    ensures First(counts, length) == 0 && Before(counts, length) == 0
  {
    if length == 1 {
    } else {
      NoShorterCodes(counts, length - 1);
    }
  }

  /** The longest length below `length` that has codes, or 0. */
  function PreviousLength(counts: Counts, length: nat): (p: nat)
    requires 1 <= length <= 17
    ensures p < length && (p > 0 ==> counts[p] > 0)
    ensures forall l :: p < l < length ==> counts[l] == 0
  {
    if length == 1 then 0
    else if counts[length - 1] > 0 then length - 1
    else PreviousLength(counts, length - 1)
  }

  /** The codes the decoder counts up are those of Annex C. */
  lemma {:induction false} CanonicalCode(counts: Counts, length: nat, j: nat)
    requires 1 <= length <= 16 && j < counts[length]
    ensures Before(counts, length) + j < |Sizes(counts)|
    ensures Sizes(counts)[Before(counts, length) + j] == length
    ensures HuffCode(Sizes(counts), Before(counts, length) + j) == First(counts, length) + j
    decreases length, j
  {
    hide HuffSizes;
    HuffSizeAt(counts, length, 17, j);
    if j > 0 {
      HuffSizeAt(counts, length, 17, j - 1);
      CanonicalCode(counts, length, j - 1);
    } else {
      var shorter := PreviousLength(counts, length);
      if shorter == 0 {
        NoShorterCodes(counts, length);
      } else {
        FirstSkips(counts, shorter, length);
        HuffSizeAt(counts, shorter, 17, counts[shorter] - 1);
        CanonicalCode(counts, shorter, counts[shorter] - 1);
      }
    }
  }

  /** Every index below the total belongs to one length. */
  lemma {:induction false} IndexHasLength(counts: Counts, total: nat, k: nat) returns (length: nat, j: nat)
    requires 1 <= total <= 17 && k < Before(counts, total)
    ensures 1 <= length < total && j < counts[length] && k == Before(counts, length) + j
  {
    if k < Before(counts, total - 1) {
      length, j := IndexHasLength(counts, total - 1, k);
    } else {
      length, j := total - 1, k - Before(counts, total - 1);
    }
  }

  /** The codeword of symbol k. */
  function Codeword(counts: Counts, k: nat): seq<bool>
    requires k < |Sizes(counts)|
  {
    LowBits(HuffCode(Sizes(counts), k), Sizes(counts)[k])
  }

  /** The counts describe a code: every code fits into its length. */
  ghost predicate IsCode(counts: Counts) {
    forall k :: 0 <= k < |Sizes(counts)| ==> HuffCode(Sizes(counts), k) < Pow2(Sizes(counts)[k])
  }

  // ----- decoding -----

  /** jpegDecodeHuffman on the bits ahead: the index of the symbol, and the bits left. */
  function Decode(counts: Counts, bits: seq<bool>, code: nat, length: nat): (r: Option<(int, seq<bool>)>)
    requires 1 <= length <= 17
    decreases 17 - length
  {
    if length == 17 || bits == [] then None
    else
      var next := 2 * code + (if bits[0] then 1 else 0);
      if counts[length] > 0 && next <= First(counts, length) + counts[length] - 1 then
        Some((Before(counts, length) + (next - First(counts, length)), bits[1..]))
      else
        Decode(counts, bits[1..], next, length + 1)
  }

  /** Whatever the counts and the bits, the index is below the number of symbols. */
  lemma {:induction false} IndexInRange(counts: Counts, bits: seq<bool>, code: nat, length: nat)
    requires 1 <= length <= 17 && 2 * code >= First(counts, length)
    ensures var r := Decode(counts, bits, code, length); r.Some? ==> 0 <= r.value.0 < Before(counts, 17)
    decreases 17 - length
  {
    if length < 17 && bits != [] {
      var next := 2 * code + (if bits[0] then 1 else 0);
      if counts[length] > 0 && next <= First(counts, length) + counts[length] - 1 {
        BeforeMonotone(counts, length + 1, 17);
      } else {
        IndexInRange(counts, bits[1..], next, length + 1);
      }
    }
  }

  /** From the bit at which `left` bits of codeword k remain, the decoder finds k. */
  lemma {:induction false} DecodeRest(counts: Counts, size: nat, j: nat, left: nat, rest: seq<bool>)
    requires 1 <= left <= size <= 16 && j < counts[size]
    ensures var v := First(counts, size) + j;
            Decode(counts, LowBits(v, left) + rest, Shr(v, left), size - left + 1)
            == Some((Before(counts, size) + j, rest))
    decreases left
  {
    hide Decode, First, Before, Shr, TestBit;
    var v, length := First(counts, size) + j, size - left + 1;
    var bits := LowBits(v, left) + rest;
    ShrStep(v, left - 1);
    var next := Shr(v, left - 1);
    assert bits[0] == TestBit(v, left - 1) && bits[1..] == LowBits(v, left - 1) + rest;
    DecodeStep(counts, bits, Shr(v, left), length);
    if left == 1 {
      ShrNone(v);
      assert LowBits(v, 0) + rest == rest;
    } else {
      FirstGrows(counts, length, size);
      ShrAtLeast(v, First(counts, length) + counts[length], left - 1);
      DecodeRest(counts, size, j, left - 1, rest);
    }
  }

  lemma DecodeStep(counts: Counts, bits: seq<bool>, code: nat, length: nat)
    requires 1 <= length <= 16
    ensures bits == [] ==> Decode(counts, bits, code, length) == None
    ensures bits != [] ==>
      var next := 2 * code + (if bits[0] then 1 else 0);
      Decode(counts, bits, code, length)
      == if counts[length] > 0 && next <= First(counts, length) + counts[length] - 1 then
           Some((Before(counts, length) + (next - First(counts, length)), bits[1..]))
         else Decode(counts, bits[1..], next, length + 1)
  {
    hide First, Before;
  }

  lemma ShrNone(v: nat)
    ensures Shr(v, 0) == v
  {
  }

  /** Decoding codeword k followed by any bits returns k and consumes exactly the codeword. */
  lemma DecodeCodeword(counts: Counts, k: nat, rest: seq<bool>)
    requires k < |Sizes(counts)| && HuffCode(Sizes(counts), k) < Pow2(Sizes(counts)[k])
    ensures Decode(counts, Codeword(counts, k) + rest, 0, 1) == Some((k, rest))
  {
    hide Decode, HuffSizes, HuffCode, LowBits;
    var length, j := IndexHasLength(counts, 17, k);
    CanonicalCode(counts, length, j);
    var v := First(counts, length) + j;
    ShrAll(v, length);
    DecodeRest(counts, length, j, length, rest);
  }

  /** In a code no codeword is the beginning of another. */
  lemma PrefixFree(counts: Counts, a: nat, b: nat, rest: seq<bool>)
    requires IsCode(counts) && a < |Sizes(counts)| && b < |Sizes(counts)|
    requires Codeword(counts, a) + rest == Codeword(counts, b)
    ensures a == b
  {
    hide Codeword, Decode, Sizes, HuffCode;
    DecodeCodeword(counts, a, rest);
    DecodeCodeword(counts, b, []);
    assert Codeword(counts, b) + [] == Codeword(counts, b);
  }
}
