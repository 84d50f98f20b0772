/** One 8x8 block: the encoder of section F.1.2 of ITU-T T.81 as the specification, and the way
    jpegDecodeScan reads a block back. */
module JpegBlock {
  import opened Bytes
  import opened JpegHuffman
  import opened JpegDecoder
  import opened Options

  // ----- symbols -----

  ghost predicate ValidCoding(t: Coding) {
    |t.symbols| == Before(t.counts, 17) <= 256 && IsCode(t.counts)
  }

  function IndexOf(symbols: seq<byte>, s: byte): (i: nat)
    requires s in symbols
    ensures i < |symbols| && symbols[i] == s
  {
    if symbols[0] == s then 0 else 1 + IndexOf(symbols[1..], s)
  }

  ghost function Symbol(t: Coding, s: byte): seq<bool>
    requires ValidCoding(t) && s in t.symbols
  {
    Codeword(t.counts, IndexOf(t.symbols, s))
  }

  lemma SymbolFound(t: Coding, s: byte, rest: seq<bool>, found: int, after: seq<bool>)
    requires ValidCoding(t) && s in t.symbols
    requires LookedUp(t, Symbol(t, s) + rest, found, after)
    ensures found == s && after == rest
  {
    hide Codeword, Decode;
    DecodeCodeword(t.counts, IndexOf(t.symbols, s), rest);
  }

  // ----- categories and additional bits, section F.1.2.1 -----

  function BitLength(n: nat): nat {
    if n == 0 then 0 else 1 + BitLength(n / 2)
  }

  lemma {:induction false} BitLengthBounds(n: nat)
    ensures n < Pow2(BitLength(n))
    ensures n > 0 ==> BitLength(n) > 0 && Pow2(BitLength(n) - 1) <= n
  {
    if n == 0 {
    } else {
      BitLengthBounds(n / 2);
      if n / 2 > 0 {
        assert Pow2(BitLength(n) - 1) == 2 * Pow2(BitLength(n / 2) - 1);
      }
    }
  }

  function Abs(d: int): nat {
    if d < 0 then -d else d
  }

  /** SSSS of Tables F.1 and F.2. */
  function Category(d: int): nat {
    BitLength(Abs(d))
  }

  /** The low bits of d, or of d - 1 when d is negative (two's complement). */
  function Additional(d: int): (bits: seq<bool>)
    ensures |bits| == Category(d)
  {
    BitLengthBounds(Abs(d));
    LowBits(if d >= 0 then d else d + Pow2(Category(d)) - 1, Category(d))
  }

  /** jpegExtend */
  function Extend(value: nat, bits: nat): int {
    if bits == 0 then 0
    else if value < Pow2(bits - 1) then value - Pow2(bits) + 1
    else value
  }

  lemma ExtendInverts(d: int)
    ensures Extend(NumberFrom(0, Additional(d)), Category(d)) == d
  {
    hide LowBits, NumberFrom;
    BitLengthBounds(Abs(d));
    var n := Category(d);
    if n > 0 {
      assert Pow2(n) == 2 * Pow2(n - 1);
      var v := if d >= 0 then d else d + Pow2(n) - 1;
      NumberFromBits(v, n);
      assert Additional(d) == LowBits(v, n);
      assert v < Pow2(n - 1) <==> d < 0;
    }
  }

  // ----- AC coefficients, section F.1.2.2 -----

  const EOB: byte := 0x00
  const ZRL: byte := 0xF0

  type Block = zz: seq<int> | |zz| == 64 witness seq(64, _ => 0)

  /** Figure F.2: coefficients k..63, after a run of `run` zeros. */
  ghost function EncodeAc(t: Coding, zz: Block, k: nat, run: nat): seq<bool>
    requires k <= 64 && AcCoded(t, zz, k, run)
    decreases 64 - k, run
  {
    if k == 64 then (if run > 0 then Symbol(t, EOB) else [])
    else if zz[k] == 0 then EncodeAc(t, zz, k + 1, run + 1)
    else if run > 15 then Symbol(t, ZRL) + EncodeAc(t, zz, k, run - 16)
    else Symbol(t, 16 * run + Category(zz[k])) + Additional(zz[k]) + EncodeAc(t, zz, k + 1, 0)
  }

  /** The table has every symbol the block needs; baseline categories go up to 10. */
  ghost predicate AcCoded(t: Coding, zz: Block, k: nat, run: nat)
    requires k <= 64
    decreases 64 - k, run
  {
    && ValidCoding(t)
    && if k == 64 then run > 0 ==> EOB in t.symbols
       else if zz[k] == 0 then AcCoded(t, zz, k + 1, run + 1)
       else if run > 15 then ZRL in t.symbols && AcCoded(t, zz, k, run - 16)
       else Category(zz[k]) <= 10 && 16 * run + Category(zz[k]) in t.symbols && AcCoded(t, zz, k + 1, 0)
  }

  function NextNonzero(zz: Block, k: nat): (n: nat)
    requires k <= 64
    ensures k <= n <= 64
    ensures n < 64 ==> zz[n] != 0
    ensures forall i :: k <= i < n ==> zz[i] == 0
    decreases 64 - k
  {
    if k == 64 || zz[k] != 0 then k else NextNonzero(zz, k + 1)
  }

  lemma {:induction false} SkipZeros(t: Coding, zz: Block, k: nat, run: nat, n: nat)
    requires k <= n <= 64 && forall i :: k <= i < n ==> zz[i] == 0
    ensures AcCoded(t, zz, k, run) <==> AcCoded(t, zz, n, run + n - k)
    ensures AcCoded(t, zz, k, run) ==> EncodeAc(t, zz, k, run) == EncodeAc(t, zz, n, run + n - k)
    decreases n - k
  {
    hide Symbol, ValidCoding, Category, Additional;
    if k == n {
    } else {
      SkipZeros(t, zz, k + 1, run + 1, n);
    }
  }

  /** What the decoder meets at coefficient c, whatever the encoder counted. */
  lemma AcStep(t: Coding, zz: Block, c: nat)
    requires c < 64 && AcCoded(t, zz, c, 0)
    ensures ValidCoding(t)
    ensures var n := NextNonzero(zz, c);
            if n == 64 then EOB in t.symbols && EncodeAc(t, zz, c, 0) == Symbol(t, EOB)
            else if n - c > 15 then
              && ZRL in t.symbols && AcCoded(t, zz, c + 16, 0)
              && EncodeAc(t, zz, c, 0) == Symbol(t, ZRL) + EncodeAc(t, zz, c + 16, 0)
            else
              && 1 <= Category(zz[n]) <= 10 && 16 * (n - c) + Category(zz[n]) in t.symbols
              && AcCoded(t, zz, n + 1, 0)
              && EncodeAc(t, zz, c, 0)
                 == Symbol(t, 16 * (n - c) + Category(zz[n])) + Additional(zz[n]) + EncodeAc(t, zz, n + 1, 0)
  {
    hide Symbol, ValidCoding, Additional;
    var n := NextNonzero(zz, c);
    SkipZeros(t, zz, c, 0, n);
    if n < 64 {
      BitLengthBounds(Abs(zz[n]));
      if n - c > 15 {
        SkipZeros(t, zz, c + 16, 0, n);
      }
    }
  }

  // ----- the decoder's side -----

  /** The bits behind the AC coefficients from number c on, whatever bits they are; None when a codeword or its
      additional bits are missing. */
  function AcLeft(t: Coding, bits: seq<bool>, c: nat): Option<seq<bool>>
    decreases 64 - c
  {
    if c >= 64 then Some(bits)
    else
      var found := Lookup(t, bits);
      if found.None? then None
      else
        var (symbol, rest) := found.value;
        var run, size := symbol / 16, symbol % 16;
        if size == 0 then if run != 15 then Some(rest) else AcLeft(t, rest, c + 16)
        else if |rest| < size then None
        else AcLeft(t, rest[size..], c + run + 1)
  }

  /** Consumes the AC coefficients of one block. */
  method SkipAc(reader: BitReader, table: Table, ghost t: Coding, ghost zz: Block, ghost rest: seq<bool>, ghost genuine: bool)
    returns (ok: bool)
    requires reader.Valid() && TableOf(table, t)
    requires genuine ==> table.present && AcCoded(t, zz, 1, 0)
    requires genuine ==> reader.Bits() == EncodeAc(t, zz, 1, 0) + rest
    modifies reader
    ensures reader.Valid()
    ensures genuine ==> ok && reader.Bits() == rest && reader.End() == old(reader.End())
    // on any bits
    ensures ok <==> table.present && AcLeft(t, old(reader.Bits()), 1).Some?
    ensures ok ==> Some(reader.Bits()) == AcLeft(t, old(reader.Bits()), 1) && reader.End() == old(reader.End())
  {
    hide Lookup;
    hide EncodeAc, AcCoded, ValidCoding, Symbol, Category, Additional, LookedUp, BitReader.Bits, BitReader.End, NextNonzero;
    var coefficient := 1;
    while coefficient < 64
      invariant 1 <= coefficient && reader.Valid()
      invariant genuine ==> coefficient <= 64 && AcCoded(t, zz, coefficient, 0)
      invariant genuine ==> reader.Bits() == EncodeAc(t, zz, coefficient, 0) + rest
      invariant reader.End() == old(reader.End())
      invariant coefficient > 1 ==> table.present
      invariant AcLeft(t, old(reader.Bits()), 1) == AcLeft(t, reader.Bits(), coefficient)
      decreases 64 - coefficient
    {
      ghost var c: nat := coefficient;
      ghost var n := NextNonzero(zz, c);
      ghost var tail: seq<bool> := [];
      if genuine {
        AcStep(t, zz, c);
        tail := if n == 64 then rest else if n - c > 15 then EncodeAc(t, zz, c + 16, 0) + rest
                else Additional(zz[n]) + (EncodeAc(t, zz, n + 1, 0) + rest);
        assert reader.Bits() == Symbol(t, NextSymbol(zz, c)) + tail;
      }
      ghost var here := reader.Bits();
      var ac := reader.DecodeHuffman(table, t);
      if table.present {
        LookedUpIs(t, here, ac, reader.Bits());
      }
      if genuine {
        SymbolFound(t, NextSymbol(zz, c), tail, ac, reader.Bits());
        NextSymbolParts(zz, c);
      }
      if ac < 0 {
        return false;
      }
      var run, size := ac / 16, ac % 16;
      if size == 0 {
        if run != 15 {
          return true;
        }
        coefficient := coefficient + 16;
        continue;
      }
      coefficient := coefficient + run + 1;
      ghost var ahead := reader.Bits();
      var bits := reader.ReadBits(size);
      if genuine {
        assert ahead[size..] == EncodeAc(t, zz, n + 1, 0) + rest;
      }
      if bits < 0 {
        return false;
      }
    }
    ok := true;
    if genuine {
      AcDone(t, zz);
    }
  }

  /** The symbol that stands at coefficient c. */
  function NextSymbol(zz: Block, c: nat): (s: byte)
    requires c < 64
  {
    var n := NextNonzero(zz, c);
    if n == 64 then EOB
    else if n - c > 15 then ZRL
    else if Category(zz[n]) <= 10 then 16 * (n - c) + Category(zz[n])
    else EOB
  }

  lemma NextSymbolParts(zz: Block, c: nat)
    requires c < 64
    ensures var n := NextNonzero(zz, c);
            n < 64 && n - c <= 15 && 1 <= Category(zz[n]) <= 10
            ==> NextSymbol(zz, c) / 16 == n - c && NextSymbol(zz, c) % 16 == Category(zz[n])
  {
    hide Category;
  }

  lemma AcDone(t: Coding, zz: Block)
    requires AcCoded(t, zz, 64, 0)
    ensures EncodeAc(t, zz, 64, 0) == []
  {
  }
}
