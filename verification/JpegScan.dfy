/** jpegDecodeScan: the single interleaved scan of a baseline image. */
module JpegScan {
  import opened Bytes
  import opened JpegHuffman
  import opened JpegDecoder
  import opened JpegBlock
  import opened JpegStream
  import opened Options

  const MAX_BLOCKS_X := 192
  const MAX_BLOCKS_Y := 136

  // ----- the image, as the encoder sees it -----

  /** Sampling factors, DC quantiser step and tables of a component. */
  datatype Component = Component(h: nat, v: nat, step: nat, dc: Coding, ac: Coding)

  /** `coefficients(c, row, column)` are the quantised coefficients of a block in zigzag order; the
      blocks that only complete an MCU exist too. */
  datatype Picture = Picture(width: nat, height: nat, restartInterval: nat, components: seq<Component>,
                             coefficients: (nat, nat, nat) -> Block)

  function MaxOf(values: seq<nat>): (m: nat)
    ensures m >= 1
  {
    if values == [] then 1
    else
      var m := MaxOf(values[1..]);
      if values[0] > m then values[0] else m
  }

  function HFactors(components: seq<Component>): seq<nat> {
    seq(|components|, i requires 0 <= i < |components| => components[i].h)
  }

  function VFactors(components: seq<Component>): seq<nat> {
    seq(|components|, i requires 0 <= i < |components| => components[i].v)
  }

  function CeilDiv(a: nat, b: nat): nat
    requires b > 0
  {
    (a + b - 1) / b
  }

  /** The sampled size of the first component in blocks (jpegParseFrame). */
  function BlocksAcross(size: nat, factor: nat, max: nat): nat
    requires max > 0
  {
    CeilDiv(CeilDiv(size * factor, max), 8)
  }

  function Mcus(size: nat, max: nat): nat
    requires max > 0
  {
    CeilDiv(size, 8 * max)
  }

  lemma CeilDivAtMost(a: nat, b: nat, c: nat)
    requires b > 0 && a <= b * c
    ensures CeilDiv(a, b) <= c
  {
    var q := CeilDiv(a, b);
    assert b * q <= a + b - 1;
    assert b * (c + 1) == b * c + b;
    if q > c {
      MulMonotone(b, c + 1, q);
    }
  }

  lemma CeilDivEnough(a: nat, b: nat)
    requires b > 0
    ensures a <= b * CeilDiv(a, b)
  {
    var x := a + b - 1;
    assert x == b * (x / b) + x % b;
  }

  /** The MCUs cover every block of the first component. */
  lemma McusCover(size: nat, factor: nat, max: nat)
    requires max > 0
    ensures BlocksAcross(size, factor, max) <= Mcus(size, max) * factor
  {
    hide CeilDiv;
    var m := Mcus(size, max);
    CeilDivEnough(size, 8 * max);
    assert size * factor <= 8 * max * m * factor == max * (8 * (m * factor));
    CeilDivAtMost(size * factor, max, 8 * (m * factor));
    CeilDivAtMost(CeilDiv(size * factor, max), 8, m * factor);
  }

  /** CeilDiv is the least number of pieces of b that cover a. */
  lemma CeilDivLeast(a: nat, b: nat)
    requires b > 0
    ensures b * (CeilDiv(a, b) - 1) < a <= b * CeilDiv(a, b)
  {
    var x: int, q: int := a + b - 1, CeilDiv(a, b);
    assert x == b * q + x % b;
    assert b * (q - 1) == b * q - b;
  }

  lemma {:induction false} MaxOfIs(values: seq<nat>)
    requires values != [] && forall i :: 0 <= i < |values| ==> values[i] >= 1
    ensures MaxOf(values) in values && forall i :: 0 <= i < |values| ==> values[i] <= MaxOf(values)
  {
    if |values| == 1 {
      assert MaxOf(values[1..]) == 1;
    } else {
      MaxOfIs(values[1..]);
      forall i | 0 <= i < |values| ensures values[i] <= MaxOf(values) {
        assert i > 0 ==> values[i] == values[1..][i - 1];
      }
      assert values == [values[0]] + values[1..];
    }
  }

  /** The image in blocks of the first component: the fewest that cover it at its sampling. */
  lemma BlocksCover(size: nat, factor: nat, max: nat)
    requires max > 0 && size > 0 && factor > 0
    ensures 8 * max * (BlocksAcross(size, factor, max) - 1) < size * factor <= 8 * max * BlocksAcross(size, factor, max)
  {
    hide CeilDiv;
    var n := CeilDiv(size * factor, max);
    var q := CeilDiv(n, 8);
    CeilDivLeast(size * factor, max);
    CeilDivLeast(n, 8);
    MulMonotone(max, n, 8 * q);
    MulMonotone(max, 8 * (q - 1), n - 1);
    assert max * (8 * q) == 8 * max * q && max * (8 * (q - 1)) == 8 * max * (q - 1);
  }

  /** What an MCU is: as many pixels as the largest sampling factors take, and the fewest that cover the image. */
  lemma Geometry(p: Picture)
    requires ValidPicture(p)
    ensures var h, v := MaxOf(HFactors(p.components)), MaxOf(VFactors(p.components));
            && (forall c :: 0 <= c < |p.components| ==> p.components[c].h <= h && p.components[c].v <= v)
            && (exists c :: 0 <= c < |p.components| && p.components[c].h == h)
            && (exists c :: 0 <= c < |p.components| && p.components[c].v == v)
            && 8 * h * (McusW(p) - 1) < p.width <= 8 * h * McusW(p)
            && 8 * v * (McusH(p) - 1) < p.height <= 8 * v * McusH(p)
  {
    hide CeilDiv;
    var hs, vs := HFactors(p.components), VFactors(p.components);
    MaxOfIs(hs);
    MaxOfIs(vs);
    forall c | 0 <= c < |p.components| ensures p.components[c].h == hs[c] && p.components[c].v == vs[c] {
    }
    CeilDivLeast(p.width, 8 * MaxOf(hs));
    CeilDivLeast(p.height, 8 * MaxOf(vs));
  }

  ghost predicate ValidPicture(p: Picture) {
    && p.width > 0 && p.height > 0
    && 1 <= |p.components| <= 4
    && (forall c :: 0 <= c < |p.components| ==>
          1 <= p.components[c].h <= 4 && 1 <= p.components[c].v <= 4
          && p.components[c].step <= 0xFFFF
          && ValidCoding(p.components[c].dc) && ValidCoding(p.components[c].ac))
    // a scan of one component is not interleaved (section A.2.2): its factors must not matter
    && (|p.components| == 1 ==> p.components[0].h == 1 && p.components[0].v == 1)
  }

  // ----- the encoder: section F.1.2 -----

  ghost predicate BlockCoded(k: Component, zz: Block, prediction: int) {
    && ValidCoding(k.dc) && ValidCoding(k.ac)
    && -2048 <= zz[0] <= 2047
    && Category(zz[0] - prediction) <= 11
    && Category(zz[0] - prediction) in k.dc.symbols
    && AcCoded(k.ac, zz, 1, 0)
  }

  ghost function EncodeBlock(k: Component, zz: Block, prediction: int): seq<bool>
    requires BlockCoded(k, zz, prediction)
  {
    Symbol(k.dc, Category(zz[0] - prediction)) + Additional(zz[0] - prediction) + EncodeAc(k.ac, zz, 1, 0)
  }

  /** The rest of MCU (my, mx) from block (x, y) of component c on: component after component, each
      block row by row; false when a table lacks a symbol. */
  ghost function Units(p: Picture, my: nat, mx: nat, c: nat, y: nat, x: nat, predictions: seq<int>)
    : (r: Option<(seq<bool>, seq<int>)>)
    requires |predictions| == |p.components|
    ensures r.Some? ==> |r.value.1| == |predictions|
    decreases |p.components| - c, if c < |p.components| then p.components[c].v - y else 0,
              if c < |p.components| then p.components[c].h - x else 0
  {
    if c >= |p.components| then Some(([], predictions))
    else
      var k := p.components[c];
      if y >= k.v then Units(p, my, mx, c + 1, 0, 0, predictions)
      else if x >= k.h then Units(p, my, mx, c, y + 1, 0, predictions)
      else
        var zz := p.coefficients(c, my * k.v + y, mx * k.h + x);
        if !BlockCoded(k, zz, predictions[c]) then None
        else
          var rest := Units(p, my, mx, c, y, x + 1, predictions[c := zz[0]]);
          if rest.None? then None
          else Some((EncodeBlock(k, zz, predictions[c]) + rest.value.0, rest.value.1))
  }

  function McusW(p: Picture): nat {
    Mcus(p.width, MaxOf(HFactors(p.components)))
  }

  function McusH(p: Picture): nat {
    Mcus(p.height, MaxOf(VFactors(p.components)))
  }

  ghost function ZeroPredictions(p: Picture): (z: seq<int>)
    ensures |z| == |p.components|
  {
    seq(|p.components|, _ => 0)
  }

  ghost predicate IntervalOver(p: Picture, since: nat) {
    p.restartInterval > 0 && since >= p.restartInterval
  }

  /** The bits from MCU (my, mx) to the end of its restart interval, `since` MCUs into it. */
  ghost function Segment(p: Picture, my: nat, mx: nat, since: nat, predictions: seq<int>): Option<seq<bool>>
    requires |predictions| == |p.components| && my <= McusH(p) && mx <= McusW(p)
    decreases McusH(p) - my, McusW(p) - mx
  {
    if my == McusH(p) then Some([])
    else if mx == McusW(p) then Segment(p, my + 1, 0, since, predictions)
    else if IntervalOver(p, since) then Some([])
    else
      var mcu := Units(p, my, mx, 0, 0, 0, predictions);
      if mcu.None? then None
      else
        var rest := Segment(p, my, mx + 1, since + 1, mcu.value.1);
        if rest.None? then None else Some(mcu.value.0 + rest.value)
  }

  /** The bytes after that interval: the next interval behind its restart marker, or the tail. */
  ghost function After(p: Picture, my: nat, mx: nat, since: nat, marker: nat, tail: seq<byte>): Option<seq<byte>>
    requires my <= McusH(p) && mx <= McusW(p)
    decreases McusH(p) - my, McusW(p) - mx, if IntervalOver(p, since) then 2 else 0
  {
    if my == McusH(p) then Some(tail)
    else if mx == McusW(p) then After(p, my + 1, 0, since, marker, tail)
    else if IntervalOver(p, since) then
      var next := EncodeFrom(p, my, mx, marker + 1, tail);
      if next.None? then None else Some([0xFF, 0xD0 + marker % 8] + next.value)
    else After(p, my, mx + 1, since + 1, marker, tail)
  }

  /** A restart interval and everything behind it: predictions at zero, padded to whole bytes. */
  ghost function EncodeFrom(p: Picture, my: nat, mx: nat, marker: nat, tail: seq<byte>): Option<seq<byte>>
    requires my <= McusH(p) && mx <= McusW(p)
    decreases McusH(p) - my, McusW(p) - mx, 1
  {
    var segment := Segment(p, my, mx, 0, ZeroPredictions(p));
    var after := After(p, my, mx, 0, marker, tail);
    if segment.None? || after.None? then None else Some(Stuff(Pack(segment.value)) + after.value)
  }

  /** The entropy-coded bytes of the scan, followed by `tail`. */
  ghost function EncodeScan(p: Picture, tail: seq<byte>): Option<seq<byte>> {
    EncodeFrom(p, 0, 0, 0, tail)
  }

  lemma {:induction false} AfterStops(p: Picture, my: nat, mx: nat, since: nat, marker: nat, tail: seq<byte>)
    requires my <= McusH(p) && mx <= McusW(p) && Stops(tail)
    ensures After(p, my, mx, since, marker, tail).Some? ==> Stops(After(p, my, mx, since, marker, tail).value)
    decreases McusH(p) - my, McusW(p) - mx
  {
    if my == McusH(p) {
    } else if mx == McusW(p) {
      AfterStops(p, my + 1, 0, since, marker, tail);
    } else if IntervalOver(p, since) {
    } else {
      AfterStops(p, my, mx + 1, since + 1, marker, tail);
    }
  }

  // ----- the decoder: one block -----

  /** What the decoder knows about a component. */
  datatype FrameComponent = FrameComponent(hFactor: nat, vFactor: nat, step: nat, dcTable: Table, acTable: Table)

  function TruncDiv8(x: int): int {
    if x >= 0 then x / 8 else -(-x / 8)
  }

  /** The block's mean brightness. */
  function Level(dc: int, step: nat): byte {
    var value := TruncDiv8(dc * step) + 128;
    if value < 0 then 0 else if value > 255 then 255 else value
  }

  /** The mean is the product divided by 8, towards zero, around 128 and clamped to a byte. */
  lemma LevelMeans(dc: int, step: nat)
    ensures var m, t := Level(dc, step) as int, dc * step;
            && (t <= -1024 ==> m == 0) && (t >= 1016 ==> m == 255)
            && (0 <= t < 1016 ==> 8 * (m - 128) <= t < 8 * (m - 128) + 8)
            && (-1024 < t <= 0 ==> 8 * (m - 128) - 8 < t <= 8 * (m - 128))
  {
  }

  /** The decoder's component was parsed from the encoder's. */
  ghost predicate SameComponent(f: FrameComponent, k: Component) {
    && f.hFactor == k.h && f.vFactor == k.v && f.step == k.step
    && TableOf(f.dcTable, k.dc) && TableOf(f.acTable, k.ac)
  }

  /** The DC difference at the front of the bits, and the bits behind the block; None when something is missing. */
  function BlockLeft(f: FrameComponent, k: Component, bits: seq<bool>): Option<(int, seq<bool>)> {
    if !f.dcTable.present || !f.acTable.present then None
    else
      var found := Lookup(k.dc, bits);
      if found.None? then None
      else
        var (symbol, rest) := found.value;
        if |rest| < symbol then None
        else
          var left := AcLeft(k.ac, rest[symbol..], 1);
          if left.None? then None
          else Some((if symbol == 0 then 0 else Extend(NumberFrom(0, rest[..symbol]), symbol), left.value))
  }

  /** One block: the DC difference, then the AC coefficients. */
  method DecodeBlock(reader: BitReader, f: FrameComponent, ghost k: Component, ghost zz: Block, ghost prediction: int,
                     ghost rest: seq<bool>, ghost genuine: bool)
    returns (ok: bool, difference: int)
    requires reader.Valid() && SameComponent(f, k)
    requires genuine ==> f.dcTable.present && f.acTable.present && BlockCoded(k, zz, prediction)
    requires genuine ==> reader.Bits() == EncodeBlock(k, zz, prediction) + rest
    modifies reader
    ensures reader.Valid()
    ensures genuine ==> ok && difference == zz[0] - prediction
    ensures genuine ==> reader.Bits() == rest && reader.End() == old(reader.End())
    // on any bits
    ensures if ok then BlockLeft(f, k, old(reader.Bits())) == Some((difference, reader.Bits()))
            else BlockLeft(f, k, old(reader.Bits())).None?
    ensures ok ==> reader.End() == old(reader.End())
  {
    hide Lookup, AcLeft;
    hide EncodeAc, AcCoded, ValidCoding, Symbol, Additional, Category, LookedUp, BitReader.Bits, BitReader.End, Extend, NumberFrom;
    ghost var d := zz[0] - prediction;
    ghost var tail: seq<bool> := [];
    ghost var acBits: seq<bool> := [];
    if genuine {
      acBits := EncodeAc(k.ac, zz, 1, 0) + rest;
      tail := Additional(d) + acBits;
      assert reader.Bits() == Symbol(k.dc, Category(d)) + tail;
    }
    difference := 0;
    ghost var here := reader.Bits();
    var symbol := reader.DecodeHuffman(f.dcTable, k.dc);
    if f.dcTable.present {
      LookedUpIs(k.dc, here, symbol, reader.Bits());
    }
    if genuine {
      SymbolFound(k.dc, Category(d), tail, symbol, reader.Bits());
      ExtendInverts(d);
    }
    if symbol < 0 {
      return false, 0;
    }
    if symbol > 0 {
      var bits := reader.ReadBits(symbol);
      if genuine {
        assert tail[..symbol] == Additional(d) && tail[symbol..] == acBits;
      }
      if bits < 0 {
        return false, 0;
      }
      difference := Extend(bits, symbol);
    } else {
      assert reader.Bits()[0..] == reader.Bits();
      if genuine {
        NoBits(d);
      }
    }
    ok := SkipAc(reader, f.acTable, k.ac, zz, rest, genuine);
  }

  /** The bits and predictions behind an MCU, from block (x, y) of component c on. */
  ghost function McuLeft(fs: seq<FrameComponent>, ks: seq<Component>, c: nat, y: nat, x: nat, bits: seq<bool>,
                         predictions: seq<int>): (r: Option<(seq<bool>, seq<int>)>)
    requires |fs| == |ks| == |predictions|
    ensures r.Some? ==> |r.value.1| == |predictions|
    decreases |ks| - c, if c < |ks| then ks[c].v - y else 0, if c < |ks| then ks[c].h - x else 0
  {
    if c >= |ks| then Some((bits, predictions))
    else if y >= ks[c].v then McuLeft(fs, ks, c + 1, 0, 0, bits, predictions)
    else if x >= ks[c].h then McuLeft(fs, ks, c, y + 1, 0, bits, predictions)
    else
      var block := BlockLeft(fs[c], ks[c], bits);
      if block.None? then None
      else McuLeft(fs, ks, c, y, x + 1, block.value.1, predictions[c := predictions[c] + block.value.0])
  }

  lemma McuLeftStep(fs: seq<FrameComponent>, ks: seq<Component>, c: nat, y: nat, x: nat, bits: seq<bool>,
                    predictions: seq<int>)
    requires |fs| == |ks| == |predictions| && c < |ks|
    ensures y >= ks[c].v ==>
      McuLeft(fs, ks, c, y, x, bits, predictions) == McuLeft(fs, ks, c + 1, 0, 0, bits, predictions)
    ensures y < ks[c].v && x >= ks[c].h ==>
      McuLeft(fs, ks, c, y, x, bits, predictions) == McuLeft(fs, ks, c, y + 1, 0, bits, predictions)
    ensures y < ks[c].v && x < ks[c].h ==>
      var block := BlockLeft(fs[c], ks[c], bits);
      McuLeft(fs, ks, c, y, x, bits, predictions)
      == if block.None? then None
         else McuLeft(fs, ks, c, y, x + 1, block.value.1, predictions[c := predictions[c] + block.value.0])
  {
    hide BlockLeft;
  }

  lemma McuLeftEnd(fs: seq<FrameComponent>, ks: seq<Component>, bits: seq<bool>, predictions: seq<int>)
    requires |fs| == |ks| == |predictions|
    ensures McuLeft(fs, ks, |ks|, 0, 0, bits, predictions) == Some((bits, predictions))
  {
  }

  /** A restart marker is next: fewer than eight bits are left in front of it. */
  predicate MarkerNext(scan: seq<byte>, bits: seq<bool>, end: nat) {
    |bits| < 8 && end + 1 < |scan| && scan[end] == 0xFF && scan[end + 1] / 8 * 8 == 0xD0
  }

  /** Whether MCU (my, mx) and all behind it can be read, whatever the bytes are; `since` MCUs of the interval have been. */
  ghost predicate RestReadable(fs: seq<FrameComponent>, ks: seq<Component>, interval: nat, mcusW: nat, mcusH: nat,
                               scan: seq<byte>, my: nat, mx: nat, since: nat, bits: seq<bool>, end: nat,
                               predictions: seq<int>)
    requires |fs| == |ks| == |predictions|
    decreases mcusH - my, mcusW - mx, if interval > 0 && since >= interval then 1 else 0
  {
    if my >= mcusH then true
    else if mx >= mcusW then
      RestReadable(fs, ks, interval, mcusW, mcusH, scan, my + 1, 0, since, bits, end, predictions)
    else if interval > 0 && since >= interval then
      MarkerNext(scan, bits, end)
      && RestReadable(fs, ks, interval, mcusW, mcusH, scan, my, mx, 0, ByteBits(Available(scan, end + 2)),
                      EndOf(scan, end + 2), seq(|ks|, _ => 0))
    else
      var left := McuLeft(fs, ks, 0, 0, 0, bits, predictions);
      left.Some?
      && RestReadable(fs, ks, interval, mcusW, mcusH, scan, my, mx + 1, since + 1, left.value.0, end, left.value.1)
  }

  /** The whole scan can be read from `pos` on. */
  ghost predicate ScanReadable(fs: seq<FrameComponent>, p: Picture, scan: seq<byte>, pos: nat)
    requires |fs| == |p.components|
  {
    RestReadable(fs, p.components, p.restartInterval, McusW(p), McusH(p), scan, 0, 0, 0, ByteBits(Available(scan, pos)),
                 EndOf(scan, pos), ZeroPredictions(p))
  }

  lemma NoBits(d: int)
    requires Category(d) == 0
    ensures d == 0 && Additional(d) == []
  {
    BitLengthBounds(Abs(d));
  }

  lemma CodedRange(k: Component, zz: Block, prediction: int)
    requires BlockCoded(k, zz, prediction)
    ensures -2048 <= zz[0] <= 2047
  {
  }

  lemma ProductFits(dc: int, step: nat)
    requires -2048 <= dc <= 2047 && step <= 0xFFFF
    ensures -0x8000_0000 <= dc * step <= 0x7FFF_FFFF
  {
    if dc >= 0 {
      MulMonotone(step, dc, 2048);
    } else {
      MulMonotone(step, -dc, 2048);
      NegatedProduct(dc, step);
    }
  }

  lemma NegatedProduct(dc: int, step: nat)
    ensures dc * step == -(step * -dc)
  {
  }

  // ----- the decoder: the MCUs -----

  /** Row and column of a block of the first component come before block (x, y) of MCU (my, mx). */
  ghost predicate Earlier(k: Component, my: nat, mx: nat, y: nat, x: nat, row: int, column: int) {
    || row < my * k.v
    || (row < my * k.v + k.v && column < mx * k.h)
    || (row < my * k.v + y && column < mx * k.h + k.h)
    || (row == my * k.v + y && y < k.v && column < mx * k.h + x)
  }

  lemma NextMcu(k: Component, my: nat, mx: nat, row: int, column: int)
    requires k.v > 0
    ensures Earlier(k, my, mx + 1, 0, 0, row, column) <==> Earlier(k, my, mx, k.v, 0, row, column)
  {
    assert (mx + 1) * k.h == mx * k.h + k.h;
  }

  lemma NextRow(k: Component, my: nat, mcusW: nat, row: int, column: int)
    requires 0 <= column < mcusW * k.h && k.v > 0
    ensures Earlier(k, my + 1, 0, 0, 0, row, column) <==> Earlier(k, my, mcusW, 0, 0, row, column)
  {
    assert (my + 1) * k.v == my * k.v + k.v;
  }

  lemma EarlierStep(k: Component, my: nat, mx: nat, y: nat, x: nat, row: int, column: int)
    requires y < k.v
    ensures Earlier(k, my, mx, y, x + 1, row, column)
            <==> Earlier(k, my, mx, y, x, row, column) || (row == my * k.v + y && column == mx * k.h + x)
  {
  }

  lemma EarlierRow(k: Component, my: nat, mx: nat, y: nat, row: int, column: int)
    requires y < k.v
    ensures Earlier(k, my, mx, y, k.h, row, column) <==> Earlier(k, my, mx, y + 1, 0, row, column)
  {
  }

  /** The three ways Units goes on. */
  lemma UnitsStep(p: Picture, my: nat, mx: nat, c: nat, y: nat, x: nat, predictions: seq<int>)
    requires |predictions| == |p.components| && c < |p.components|
    ensures var k, r := p.components[c], Units(p, my, mx, c, y, x, predictions);
            if y >= k.v then r == Units(p, my, mx, c + 1, 0, 0, predictions)
            else if x >= k.h then r == Units(p, my, mx, c, y + 1, 0, predictions)
            else
              var zz := p.coefficients(c, my * k.v + y, mx * k.h + x);
              r.Some? ==>
                && BlockCoded(k, zz, predictions[c])
                && var next := Units(p, my, mx, c, y, x + 1, predictions[c := zz[0]]);
                   next.Some? && r.value == (EncodeBlock(k, zz, predictions[c]) + next.value.0, next.value.1)
  {
    hide BlockCoded, EncodeBlock;
  }

  lemma RestReadableStep(fs: seq<FrameComponent>, p: Picture, scan: seq<byte>, my: nat, mx: nat, since: nat,
                         bits: seq<bool>, end: nat, predictions: seq<int>)
    requires |fs| == |p.components| == |predictions| && my < McusH(p) && mx < McusW(p)
    ensures var ks, i, w, h := p.components, p.restartInterval, McusW(p), McusH(p);
            var left := McuLeft(fs, ks, 0, 0, 0, bits, predictions);
            RestReadable(fs, ks, i, w, h, scan, my, mx, since, bits, end, predictions)
            == if IntervalOver(p, since) then
                 MarkerNext(scan, bits, end)
                 && RestReadable(fs, ks, i, w, h, scan, my, mx, 0, ByteBits(Available(scan, end + 2)),
                                 EndOf(scan, end + 2), ZeroPredictions(p))
               else
                 left.Some?
                 && RestReadable(fs, ks, i, w, h, scan, my, mx + 1, since + 1, left.value.0, end, left.value.1)
  {
    hide McuLeft, Available, EndOf, ByteBits, McusW, McusH, MarkerNext;
    assert seq(|p.components|, _ => 0) == ZeroPredictions(p);
  }

  /** The decoder's test for a marker. */
  lemma MarkerHere(reader: BitReader)
    requires reader.Valid()
    ensures MarkerNext(reader.scan, reader.Bits(), reader.End()) <==>
      && reader.scanPos + 1 < |reader.scan| && reader.scan[reader.scanPos] == 0xFF
      && reader.scan[reader.scanPos + 1] / 8 * 8 == 0xD0
    ensures MarkerNext(reader.scan, reader.Bits(), reader.End()) ==> reader.End() == reader.scanPos
  {
    if |reader.Bits()| < 8 {
      AtMarker(reader);
    }
  }

  lemma AfterMarker(reader: BitReader)
    requires reader.bitCount == 0
    ensures reader.Bits() == ByteBits(Available(reader.scan, reader.scanPos))
    ensures reader.End() == EndOf(reader.scan, reader.scanPos)
  {
    assert LowBits(reader.bitBuffer, 0) == [];
  }

  lemma AtStart(reader: BitReader)
    ensures reader.bitCount == 0 ==>
      && reader.Bits() == ByteBits(Available(reader.scan, reader.scanPos))
      && reader.End() == EndOf(reader.scan, reader.scanPos)
  {
    if reader.bitCount == 0 {
      AfterMarker(reader);
    }
  }

  lemma UnitsEnd(p: Picture, my: nat, mx: nat, predictions: seq<int>)
    requires |predictions| == |p.components|
    ensures Units(p, my, mx, |p.components|, 0, 0, predictions) == Some(([], predictions))
  {
  }

  lemma NoneEarlier(k: Component, row: int, column: int)
    requires 0 <= row && 0 <= column
    ensures !Earlier(k, 0, 0, 0, 0, row, column)
  {
  }

  lemma AllEarlier(k: Component, mcusH: nat, row: int, column: int)
    requires row < mcusH * k.v
    ensures Earlier(k, mcusH, 0, 0, 0, row, column)
  {
  }

  class ScanDecoder {
    const reader: BitReader
    const components: seq<FrameComponent>
    const width: nat
    const height: nat
    const restartInterval: nat
    const predictions: array<int>
    const mean: array2<byte>
    var blocksW: nat
    var blocksH: nat
    var complete: bool
    /** How often each block has been stored. */
    ghost var written: multiset<(int, int)>

    constructor (reader: BitReader, components: seq<FrameComponent>, width: nat, height: nat, restartInterval: nat)
      ensures this.reader == reader && this.components == components
      ensures this.width == width && this.height == height && this.restartInterval == restartInterval
      ensures fresh(predictions) && fresh(mean) && Shape()
      ensures blocksW == blocksH == 0 && !complete
      ensures forall c :: 0 <= c < |components| ==> predictions[c] == 0
    {
      this.reader, this.components := reader, components;
      this.width, this.height, this.restartInterval := width, height, restartInterval;
      predictions := new int[|components|](_ => 0);
      mean := new byte[MAX_BLOCKS_Y, MAX_BLOCKS_X];
      blocksW, blocksH, complete, written := 0, 0, false, multiset{};
    }

    ghost predicate Shape() {
      predictions.Length == |components| && mean.Length0 == MAX_BLOCKS_Y && mean.Length1 == MAX_BLOCKS_X
    }

    ghost predicate Valid(p: Picture)
      reads this, reader
    {
      && Shape() && reader.Valid()
      && |components| == |p.components| > 0
      && forall c :: 0 <= c < |components| ==> SameComponent(components[c], p.components[c])
    }

    ghost predicate Inside(row: int, column: int)
      reads this
    {
      0 <= row < blocksH <= MAX_BLOCKS_Y && 0 <= column < blocksW <= MAX_BLOCKS_X
    }

    /** Exactly the blocks that come earlier have been written, each once, with its level. */
    ghost predicate Painted(p: Picture, my: nat, mx: nat, y: nat, x: nat, genuine: bool)
      reads this, mean
      requires Shape() && |p.components| > 0
    {
      && blocksH <= MAX_BLOCKS_Y && blocksW <= MAX_BLOCKS_X
      && (forall row, column ::
            written[(row, column)]
            == if Inside(row, column) && Earlier(p.components[0], my, mx, y, x, row, column) then 1 else 0)
      && (genuine ==> forall row, column | Inside(row, column) && Earlier(p.components[0], my, mx, y, x, row, column) ::
            mean[row, column] == Level(p.coefficients(0, row, column)[0], p.components[0].step))
    }

    /** Stores the level of one block; blocks that only complete an MCU are left out. */
    method StoreLevel(p: Picture, my: nat, mx: nat, y: nat, x: nat, ghost genuine: bool)
      requires Valid(p) && y < components[0].vFactor && x < components[0].hFactor
      requires Painted(p, my, mx, y, x, genuine)
      requires genuine ==> predictions[0] == p.coefficients(0, my * components[0].vFactor + y, mx * components[0].hFactor + x)[0]
      modifies mean, this`written
      ensures Painted(p, my, mx, y, x + 1, genuine)
    {
      var blockColumn := mx * components[0].hFactor + x;
      var blockRow := my * components[0].vFactor + y;
      if blockColumn < blocksW && blockRow < blocksH {
        mean[blockRow, blockColumn] := Level(predictions[0], components[0].step);
        written := written + multiset{(blockRow, blockColumn)};
      }
      forall row, column
        ensures Earlier(p.components[0], my, mx, y, x + 1, row, column)
                <==> Earlier(p.components[0], my, mx, y, x, row, column) || (row == blockRow && column == blockColumn)
      {
        EarlierStep(p.components[0], my, mx, y, x, row, column);
      }
    }

    /** The bits ahead are the rest of the MCU, then `rest`; it ends with these predictions. */
    ghost predicate Ahead(p: Picture, my: nat, mx: nat, c: nat, y: nat, x: nat, rest: seq<bool>, last: seq<int>)
      reads reader, predictions
    {
      && predictions.Length == |p.components|
      && var r := Units(p, my, mx, c, y, x, predictions[..]);
         r.Some? && reader.Bits() == r.value.0 + rest && r.value.1 == last
    }

    /** What reading on from block (x, y) of component c would leave, whatever the bits are. */
    ghost function Left(p: Picture, c: nat, y: nat, x: nat): Option<(seq<bool>, seq<int>)>
      requires |components| == |p.components| == predictions.Length
      reads reader, predictions
    {
      McuLeft(components, p.components, c, y, x, reader.Bits(), predictions[..])
    }

    /** Whether the rest of the scan can be read from here. */
    ghost predicate Readable(p: Picture, my: nat, mx: nat, since: nat)
      requires |components| == |p.components| == predictions.Length
      reads reader, predictions
    {
      RestReadable(components, p.components, p.restartInterval, McusW(p), McusH(p), reader.scan, my, mx, since,
                   reader.Bits(), reader.End(), predictions[..])
    }

    ghost predicate TablesPresent() {
      forall c :: 0 <= c < |components| ==> components[c].dcTable.present && components[c].acTable.present
    }

    /** One block of one component. */
    method DecodeUnit(p: Picture, my: nat, mx: nat, c: nat, y: nat, x: nat, ghost rest: seq<bool>, ghost last: seq<int>,
                      ghost genuine: bool)
      returns (ok: bool)
      requires Valid(p) && c < |components| && y < components[c].vFactor && x < components[c].hFactor
      requires genuine ==> TablesPresent() && Ahead(p, my, mx, c, y, x, rest, last)
      requires Painted(p, my, mx, if c == 0 then y else components[0].vFactor, if c == 0 then x else 0, genuine)
      modifies reader, predictions, mean, this`written
      ensures Valid(p)
      ensures genuine ==> ok && Ahead(p, my, mx, c, y, x + 1, rest, last) && reader.End() == old(reader.End())
      // so neither the prediction nor its product with the quantiser leaves 32 bits
      ensures genuine ==> -2048 <= predictions[c] <= 2047
      ensures ok ==> Painted(p, my, mx, if c == 0 then y else components[0].vFactor, if c == 0 then x + 1 else 0, genuine)
      // on any bits
      ensures old(Left(p, c, y, x)) == if ok then Left(p, c, y, x + 1) else None
      ensures ok ==> reader.End() == old(reader.End())
    {
      hide BlockCoded, EncodeBlock, Units, BitReader.Bits, BitReader.End, Level, Earlier, Painted, TableOf, BlockLeft;
      hide McuLeft;
      McuLeftStep(components, p.components, c, y, x, reader.Bits(), predictions[..]);
      ghost var k := p.components[c];
      ghost var zz := p.coefficients(c, my * k.v + y, mx * k.h + x);
      ghost var before := predictions[..];
      ghost var next := Units(p, my, mx, c, y, x + 1, before[c := zz[0]]);
      ghost var tail := if next.Some? then next.value.0 + rest else [];
      if genuine {
        UnitsStep(p, my, mx, c, y, x, before);
        assert reader.Bits() == EncodeBlock(k, zz, before[c]) + tail;
        CodedRange(k, zz, before[c]);
      }
      var difference;
      ok, difference := DecodeBlock(reader, components[c], k, zz, before[c], tail, genuine);
      if !ok {
        return;
      }
      predictions[c] := predictions[c] + difference;
      assert predictions[..] == before[c := before[c] + difference];
      assert genuine ==> predictions[..] == before[c := zz[0]];
      if c == 0 {
        StoreLevel(p, my, mx, y, x, genuine);
      }
    }

    method DecodeComponent(p: Picture, my: nat, mx: nat, c: nat, ghost rest: seq<bool>, ghost last: seq<int>, ghost genuine: bool)
      returns (ok: bool)
      requires Valid(p) && c < |components| && (c == 0 ==> components[0].hFactor > 0)
      requires genuine ==> TablesPresent() && Ahead(p, my, mx, c, 0, 0, rest, last)
      requires Painted(p, my, mx, if c == 0 then 0 else components[0].vFactor, 0, genuine)
      modifies reader, predictions, mean, this`written
      ensures Valid(p)
      ensures genuine ==> ok && Ahead(p, my, mx, c + 1, 0, 0, rest, last) && reader.End() == old(reader.End())
      ensures ok ==> Painted(p, my, mx, components[0].vFactor, 0, genuine)
      ensures old(Left(p, c, 0, 0)) == if ok then Left(p, c + 1, 0, 0) else None
      ensures ok ==> reader.End() == old(reader.End())
    {
      hide Units, BitReader.Bits, BitReader.End, Level, Earlier, Painted, TableOf, McuLeft;
      ok := true;
      for y := 0 to components[c].vFactor
        invariant ok && Valid(p)
        invariant genuine ==> Ahead(p, my, mx, c, y, 0, rest, last)
        invariant old(Left(p, c, 0, 0)) == Left(p, c, y, 0) && reader.End() == old(reader.End())
        invariant Painted(p, my, mx, if c == 0 then y else components[0].vFactor, 0, genuine)
      {
        for x := 0 to components[c].hFactor
          invariant ok && Valid(p)
          invariant genuine ==> Ahead(p, my, mx, c, y, x, rest, last)
          invariant old(Left(p, c, 0, 0)) == Left(p, c, y, x) && reader.End() == old(reader.End())
          invariant Painted(p, my, mx, if c == 0 then y else components[0].vFactor, if c == 0 then x else 0, genuine)
        {
          ok := DecodeUnit(p, my, mx, c, y, x, rest, last, genuine);
          if !ok {
            return;
          }
        }
        if c == 0 {
          RowPainted(p, my, mx, y, genuine);
        }
        if genuine {
          UnitsStep(p, my, mx, c, y, components[c].hFactor, predictions[..]);
        }
        McuLeftStep(components, p.components, c, y, components[c].hFactor, reader.Bits(), predictions[..]);
      }
      McuLeftStep(components, p.components, c, components[c].vFactor, 0, reader.Bits(), predictions[..]);
      if genuine {
        UnitsStep(p, my, mx, c, components[c].vFactor, 0, predictions[..]);
      }
    }

    lemma RowPainted(p: Picture, my: nat, mx: nat, y: nat, genuine: bool)
      requires Shape() && |p.components| > 0 && y < p.components[0].v
      requires Painted(p, my, mx, y, p.components[0].h, genuine)
      ensures Painted(p, my, mx, y + 1, 0, genuine)
    {
      hide Earlier, Level;
      forall row, column
        ensures Earlier(p.components[0], my, mx, y, p.components[0].h, row, column)
                <==> Earlier(p.components[0], my, mx, y + 1, 0, row, column)
      {
        EarlierRow(p.components[0], my, mx, y, row, column);
      }
    }

    method DecodeMcu(p: Picture, my: nat, mx: nat, ghost rest: seq<bool>, ghost last: seq<int>, ghost genuine: bool)
      returns (ok: bool)
      requires Valid(p) && components[0].hFactor > 0 && components[0].vFactor > 0
      requires genuine ==> TablesPresent() && Ahead(p, my, mx, 0, 0, 0, rest, last)
      requires Painted(p, my, mx, 0, 0, genuine)
      modifies reader, predictions, mean, this`written
      ensures Valid(p)
      ensures genuine ==> ok && reader.Bits() == rest && predictions[..] == last && reader.End() == old(reader.End())
      ensures ok ==> Painted(p, my, mx + 1, 0, 0, genuine)
      ensures old(Left(p, 0, 0, 0)) == if ok then Some((reader.Bits(), predictions[..])) else None
      ensures ok ==> reader.End() == old(reader.End())
    {
      hide Units, BitReader.Bits, BitReader.End, Level, Earlier, Painted, TableOf, McuLeft;
      ok := true;
      for c := 0 to |components|
        invariant ok && Valid(p)
        invariant genuine ==> Ahead(p, my, mx, c, 0, 0, rest, last)
        invariant old(Left(p, 0, 0, 0)) == Left(p, c, 0, 0) && reader.End() == old(reader.End())
        invariant Painted(p, my, mx, if c == 0 then 0 else components[0].vFactor, 0, genuine)
      {
        ok := DecodeComponent(p, my, mx, c, rest, last, genuine);
        if !ok {
          return;
        }
      }
      McuLeftEnd(components, p.components, reader.Bits(), predictions[..]);
      if genuine {
        UnitsEnd(p, my, mx, predictions[..]);
        assert [] + rest == rest;
      }
      McuPainted(p, my, mx, genuine);
    }

    lemma McuPainted(p: Picture, my: nat, mx: nat, genuine: bool)
      requires Shape() && |p.components| > 0 && p.components[0].v > 0
      requires Painted(p, my, mx, p.components[0].v, 0, genuine)
      ensures Painted(p, my, mx + 1, 0, 0, genuine)
    {
      hide Earlier, Level;
      forall row, column
        ensures Earlier(p.components[0], my, mx + 1, 0, 0, row, column)
                <==> Earlier(p.components[0], my, mx, p.components[0].v, 0, row, column)
      {
        NextMcu(p.components[0], my, mx, row, column);
      }
    }

    /** The reader stands `since` MCUs into a restart interval, before MCU (my, mx). */
    ghost predicate Streams(p: Picture, my: nat, mx: nat, since: nat, marker: nat, tail: seq<byte>)
      reads reader, predictions
      requires my <= McusH(p) && mx <= McusW(p)
    {
      && predictions.Length == |p.components|
      && var segment := Segment(p, my, mx, since, predictions[..]);
         var after := After(p, my, mx, since, marker, tail);
         && segment.Some? && after.Some?
         && reader.End() <= |reader.scan| && reader.scan[reader.End()..] == after.value
         && PaddedBits(reader.Bits(), segment.value)
    }

    /** The restart marker is byte-aligned and resets the predictions. */
    method TakeRestart(p: Picture, my: nat, mx: nat, ghost since: nat, ghost marker: nat, ghost tail: seq<byte>,
                       ghost genuine: bool)
      returns (ok: bool)
      requires Valid(p) && my < McusH(p) && mx < McusW(p) && IntervalOver(p, since) && Stops(tail)
      requires genuine ==> Streams(p, my, mx, since, marker, tail)
      modifies reader, predictions
      ensures Valid(p)
      ensures genuine ==> ok && Streams(p, my, mx, 0, marker + 1, tail)
      ensures old(Readable(p, my, mx, since)) == (ok && Readable(p, my, mx, 0))
    {
      hide Units, EncodeFrom, TableOf, RestReadable, Segment, After, McuLeft;
      MarkerHere(reader);
      RestReadableStep(components, p, reader.scan, my, mx, since, reader.Bits(), reader.End(), predictions[..]);
      if genuine {
        IntervalEnds(p, my, mx, since, marker, tail);
      }
      if reader.scanPos + 1 >= |reader.scan| || reader.scan[reader.scanPos] != 0xFF
         || reader.scan[reader.scanPos + 1] / 8 * 8 != 0xD0 {
        return false;
      }
      reader.scanPos := reader.scanPos + 2;
      reader.bitCount := 0;
      forall i | 0 <= i < predictions.Length {
        predictions[i] := 0;
      }
      ok := true;
      AfterMarker(reader);
      assert predictions[..] == ZeroPredictions(p);
      if genuine {
        IntervalStarts(this, p, my, mx, marker + 1, tail);
      }
    }

    /** At the end of an interval only padding is left, and the marker is next. */
    lemma IntervalEnds(p: Picture, my: nat, mx: nat, since: nat, marker: nat, tail: seq<byte>)
      requires Valid(p) && my < McusH(p) && mx < McusW(p) && IntervalOver(p, since)
      requires Streams(p, my, mx, since, marker, tail)
      ensures reader.scanPos + 1 < |reader.scan| && reader.scan[reader.scanPos] == 0xFF
      ensures reader.scan[reader.scanPos + 1] == 0xD0 + marker % 8
      ensures EncodeFrom(p, my, mx, marker + 1, tail) == Some(reader.scan[reader.scanPos + 2..])
    {
      hide Units, EncodeFrom, TableOf, BitReader.Bits;
      assert |reader.Bits()| < 8;
      AtMarker(reader);
      var rest := reader.scan[reader.scanPos..];
      assert rest[0] == reader.scan[reader.scanPos] && rest[1] == reader.scan[reader.scanPos + 1];
      assert rest[2..] == reader.scan[reader.scanPos + 2..];
    }

    /** One MCU of the interval. */
    method NextMcuOf(p: Picture, my: nat, mx: nat, ghost since: nat, ghost marker: nat, ghost tail: seq<byte>,
                     ghost genuine: bool)
      returns (ok: bool)
      requires Valid(p) && components[0].hFactor > 0 && components[0].vFactor > 0
      requires my < McusH(p) && mx < McusW(p) && !IntervalOver(p, since)
      requires genuine ==> TablesPresent() && Streams(p, my, mx, since, marker, tail)
      requires Painted(p, my, mx, 0, 0, genuine)
      modifies reader, predictions, mean, this`written
      ensures Valid(p)
      ensures genuine ==> ok && Streams(p, my, mx + 1, since + 1, marker, tail)
      ensures ok ==> Painted(p, my, mx + 1, 0, 0, genuine)
      ensures old(Readable(p, my, mx, since)) == (ok && Readable(p, my, mx + 1, since + 1))
    {
      hide Units, BitReader.Bits, BitReader.End, TableOf, Painted, EncodeFrom, Ones, RestReadable, McuLeft;
      RestReadableStep(components, p, reader.scan, my, mx, since, reader.Bits(), reader.End(), predictions[..]);
      ghost var mcu := Units(p, my, mx, 0, 0, 0, predictions[..]);
      ghost var rest: seq<bool> := [];
      ghost var last: seq<int> := [];
      if genuine {
        last := mcu.value.1;
        var segment := Segment(p, my, mx + 1, since + 1, last).value;
        rest := segment + Ones(|reader.Bits()| - |mcu.value.0 + segment|);
        assert reader.Bits() == mcu.value.0 + rest;
      }
      ok := DecodeMcu(p, my, mx, rest, last, genuine);
    }

    /** The body of the MCU loop: a restart marker first, where one is due. */
    method StepMcu(p: Picture, my: nat, mx: nat, mcusSinceRestart: nat, ghost marker: nat, ghost tail: seq<byte>,
                   ghost genuine: bool)
      returns (ok: bool, since: nat, ghost nextMarker: nat)
      requires Valid(p) && components[0].hFactor > 0 && components[0].vFactor > 0
      requires my < McusH(p) && mx < McusW(p) && Stops(tail) && p.restartInterval == restartInterval
      requires restartInterval > 0 ==> mcusSinceRestart <= restartInterval
      requires genuine ==> TablesPresent() && Streams(p, my, mx, mcusSinceRestart, marker, tail)
      requires Painted(p, my, mx, 0, 0, genuine)
      modifies reader, predictions, mean, this`written
      ensures Valid(p)
      ensures restartInterval > 0 ==> since <= restartInterval
      ensures genuine ==> ok && Streams(p, my, mx + 1, since, nextMarker, tail)
      ensures ok ==> Painted(p, my, mx + 1, 0, 0, genuine)
      ensures old(Readable(p, my, mx, mcusSinceRestart)) == (ok && Readable(p, my, mx + 1, since))
    {
      hide Streams, Painted, SameComponent, ScanDecoder.Readable;
      since, nextMarker := mcusSinceRestart, marker;
      if restartInterval > 0 && since == restartInterval {
        ok := TakeRestart(p, my, mx, since, nextMarker, tail, genuine);
        if !ok {
          return;
        }
        since, nextMarker := 0, nextMarker + 1;
      }
      ok := NextMcuOf(p, my, mx, since, nextMarker, tail, genuine);
      since := since + 1;
    }

    /** The MCU loops. */
    method DecodeMcus(p: Picture, ghost tail: seq<byte>, ghost genuine: bool) returns (ok: bool)
      requires Valid(p) && components[0].hFactor > 0 && components[0].vFactor > 0 && Stops(tail)
      requires p.width == width && p.height == height && p.restartInterval == restartInterval
      requires blocksW <= McusW(p) * p.components[0].h
      requires genuine ==> TablesPresent() && Streams(p, 0, 0, 0, 0, tail)
      requires Painted(p, 0, 0, 0, 0, genuine)
      modifies reader, predictions, mean, this`written
      ensures Valid(p)
      ensures genuine ==> ok
      ensures ok ==> Painted(p, McusH(p), 0, 0, 0, genuine)
      ensures ok <==> old(Readable(p, 0, 0, 0))
    {
      hide Streams, Painted, TableOf, BitReader.Bits, BitReader.End, ScanDecoder.Readable;
      var mcusSinceRestart: nat := 0;
      ghost var marker: nat := 0;
      for mcuY := 0 to McusH(p)
        invariant Valid(p) && blocksW == old(blocksW) && blocksH == old(blocksH)
        invariant restartInterval > 0 ==> mcusSinceRestart <= restartInterval
        invariant genuine ==> Streams(p, mcuY, 0, mcusSinceRestart, marker, tail)
        invariant old(Readable(p, 0, 0, 0)) == Readable(p, mcuY, 0, mcusSinceRestart)
        invariant Painted(p, mcuY, 0, 0, 0, genuine)
      {
        for mcuX := 0 to McusW(p)
          invariant Valid(p) && blocksW == old(blocksW) && blocksH == old(blocksH)
          invariant restartInterval > 0 ==> mcusSinceRestart <= restartInterval
          invariant genuine ==> Streams(p, mcuY, mcuX, mcusSinceRestart, marker, tail)
          invariant old(Readable(p, 0, 0, 0)) == Readable(p, mcuY, mcuX, mcusSinceRestart)
          invariant Painted(p, mcuY, mcuX, 0, 0, genuine)
        {
          ok, mcusSinceRestart, marker := StepMcu(p, mcuY, mcuX, mcusSinceRestart, marker, tail, genuine);
          if !ok {
            return;
          }
        }
        RowOfMcusPainted(p, mcuY, genuine);
        RowReadable(p, mcuY, mcusSinceRestart);
        if genuine {
          RowOfMcusRead(p, mcuY, mcusSinceRestart, marker, tail);
        }
      }
      ok := true;
      AllReadable(p, mcusSinceRestart);
    }

    lemma RowReadable(p: Picture, my: nat, since: nat)
      requires |components| == |p.components| == predictions.Length && my < McusH(p)
      ensures Readable(p, my, McusW(p), since) == Readable(p, my + 1, 0, since)
    {
      hide BitReader.Bits, BitReader.End, McuLeft;
    }

    lemma AllReadable(p: Picture, since: nat)
      requires |components| == |p.components| == predictions.Length
      ensures Readable(p, McusH(p), 0, since)
    {
      hide BitReader.Bits, BitReader.End;
    }

    /** jpegDecodeScan. */
    method DecodeScan(p: Picture, ghost tail: seq<byte>) returns (ok: bool)
      requires Valid(p) && ValidPicture(p) && Stops(tail)
      requires p.width == width && p.height == height && p.restartInterval == restartInterval
      requires predictions[..] == ZeroPredictions(p) && reader.bitCount == 0 && reader.scanPos <= |reader.scan|
      modifies reader, predictions, mean, this
      // the size is set as soon as it is known to be small enough, and stays set when the scan then fails
      ensures var w := BlocksAcross(width, p.components[0].h, MaxOf(HFactors(p.components)));
              var h := BlocksAcross(height, p.components[0].v, MaxOf(VFactors(p.components)));
              if w <= MAX_BLOCKS_X && h <= MAX_BLOCKS_Y then blocksW == w && blocksH == h && complete == ok
              else !ok && blocksW == old(blocksW) && blocksH == old(blocksH) && complete == old(complete)
      ensures ok ==> forall row, column :: written[(row, column)] == if Inside(row, column) then 1 else 0
      // the blocks are the fewest that cover the image
      ensures ok ==>
        var h, v := 8 * MaxOf(HFactors(p.components)), 8 * MaxOf(VFactors(p.components));
        && h * (blocksW - 1) < width * p.components[0].h <= h * blocksW
        && v * (blocksH - 1) < height * p.components[0].v <= v * blocksH
      // a scan of any bytes is refused exactly when a codeword, its additional bits or a due marker is missing
      ensures BlocksAcross(width, p.components[0].h, MaxOf(HFactors(p.components))) <= MAX_BLOCKS_X
              && BlocksAcross(height, p.components[0].v, MaxOf(VFactors(p.components))) <= MAX_BLOCKS_Y
              ==> (ok <==> old(ScanReadable(components, p, reader.scan, reader.scanPos)))
      // the decoder inverts the encoder
      ensures TablesPresent() && EncodeScan(p, tail) == Some(old(reader.scan[reader.scanPos..]))
              && BlocksAcross(width, p.components[0].h, MaxOf(HFactors(p.components))) <= MAX_BLOCKS_X
              && BlocksAcross(height, p.components[0].v, MaxOf(VFactors(p.components))) <= MAX_BLOCKS_Y
              ==> ok && forall row, column | Inside(row, column) ::
                    mean[row, column] == Level(p.coefficients(0, row, column)[0], p.components[0].step)
      // and each mean is the product of DC and step divided by 8, towards zero, around 128 and clamped to a byte
      ensures TablesPresent() && EncodeScan(p, tail) == Some(old(reader.scan[reader.scanPos..]))
              && BlocksAcross(width, p.components[0].h, MaxOf(HFactors(p.components))) <= MAX_BLOCKS_X
              && BlocksAcross(height, p.components[0].v, MaxOf(VFactors(p.components))) <= MAX_BLOCKS_Y
              ==> forall row, column | Inside(row, column) ::
                    var m, t := mean[row, column] as int, p.coefficients(0, row, column)[0] * p.components[0].step;
                    && (t <= -1024 ==> m == 0) && (t >= 1016 ==> m == 255)
                    && (0 <= t < 1016 ==> 8 * (m - 128) <= t < 8 * (m - 128) + 8)
                    && (-1024 < t <= 0 ==> 8 * (m - 128) - 8 < t <= 8 * (m - 128))
    {
      hide Units, BitReader.Bits, BitReader.End, TableOf, Level, BlocksAcross, Painted, Segment, After, ValidCoding;
      hide RestReadable;
      AtStart(reader);
      BlocksCover(width, p.components[0].h, MaxOf(HFactors(p.components)));
      BlocksCover(height, p.components[0].v, MaxOf(VFactors(p.components)));
      var maxH, maxV := MaxOf(HFactors(p.components)), MaxOf(VFactors(p.components));
      ghost var genuine := TablesPresent() && EncodeScan(p, tail) == Some(reader.scan[reader.scanPos..]);
      var lumaW := BlocksAcross(width, components[0].hFactor, maxH);
      var lumaH := BlocksAcross(height, components[0].vFactor, maxV);
      if lumaW > MAX_BLOCKS_X || lumaH > MAX_BLOCKS_Y {
        return false;
      }
      blocksW, blocksH, complete, written := lumaW, lumaH, false, multiset{};
      forall row, column | 0 <= row < MAX_BLOCKS_Y && 0 <= column < MAX_BLOCKS_X {
        mean[row, column] := 0;
      }
      CoveredByMcus(p);
      NothingPainted(p, genuine);
      if genuine {
        IntervalStarts(this, p, 0, 0, 0, tail);
      }
      ok := DecodeMcus(p, tail, genuine);
      if !ok {
        return;
      }
      AllPainted(p, genuine);
      complete := true;
      if genuine {
        MeansSpelled(p);
      }
    }

    lemma MeansSpelled(p: Picture)
      requires Shape() && |p.components| > 0
      requires forall row, column | Inside(row, column) ::
        mean[row, column] == Level(p.coefficients(0, row, column)[0], p.components[0].step)
      ensures forall row, column | Inside(row, column) ::
        var m, t := mean[row, column] as int, p.coefficients(0, row, column)[0] * p.components[0].step;
        && (t <= -1024 ==> m == 0) && (t >= 1016 ==> m == 255)
        && (0 <= t < 1016 ==> 8 * (m - 128) <= t < 8 * (m - 128) + 8)
        && (-1024 < t <= 0 ==> 8 * (m - 128) - 8 < t <= 8 * (m - 128))
    {
      hide Level;
      forall row, column | Inside(row, column) {
        LevelMeans(p.coefficients(0, row, column)[0], p.components[0].step);
      }
    }

    lemma RowOfMcusRead(p: Picture, my: nat, since: nat, marker: nat, tail: seq<byte>)
      requires my < McusH(p) && Streams(p, my, McusW(p), since, marker, tail)
      ensures Streams(p, my + 1, 0, since, marker, tail)
    {
      hide BitReader.Bits, BitReader.End, Units, EncodeFrom;
    }

    lemma NothingPainted(p: Picture, genuine: bool)
      requires Shape() && |p.components| > 0 && written == multiset{}
      requires blocksH <= MAX_BLOCKS_Y && blocksW <= MAX_BLOCKS_X
      ensures Painted(p, 0, 0, 0, 0, genuine)
    {
      hide Earlier, Level;
      forall row, column | Inside(row, column)
        ensures !Earlier(p.components[0], 0, 0, 0, 0, row, column)
      {
        NoneEarlier(p.components[0], row, column);
      }
    }

    lemma RowOfMcusPainted(p: Picture, my: nat, genuine: bool)
      requires Shape() && |p.components| > 0 && p.components[0].v > 0
      requires blocksW <= McusW(p) * p.components[0].h
      requires Painted(p, my, McusW(p), 0, 0, genuine)
      ensures Painted(p, my + 1, 0, 0, 0, genuine)
    {
      hide Earlier, Level, McusW;
      forall row, column | Inside(row, column)
        ensures Earlier(p.components[0], my + 1, 0, 0, 0, row, column)
                <==> Earlier(p.components[0], my, McusW(p), 0, 0, row, column)
      {
        NextRow(p.components[0], my, McusW(p), row, column);
      }
    }

    lemma AllPainted(p: Picture, genuine: bool)
      requires Shape() && |p.components| > 0
      requires blocksH <= McusH(p) * p.components[0].v
      requires Painted(p, McusH(p), 0, 0, 0, genuine)
      ensures forall row, column :: written[(row, column)] == if Inside(row, column) then 1 else 0
      ensures genuine ==> forall row, column | Inside(row, column) ::
                mean[row, column] == Level(p.coefficients(0, row, column)[0], p.components[0].step)
    {
      hide Earlier, Level, McusH;
      forall row, column | Inside(row, column)
        ensures Earlier(p.components[0], McusH(p), 0, 0, 0, row, column)
      {
        AllEarlier(p.components[0], McusH(p), row, column);
      }
    }
  }

  /** The MCUs of the scan reach past every block of the first component. */
  lemma CoveredByMcus(p: Picture)
    requires ValidPicture(p)
    ensures BlocksAcross(p.width, p.components[0].h, MaxOf(HFactors(p.components))) <= McusW(p) * p.components[0].h
    ensures BlocksAcross(p.height, p.components[0].v, MaxOf(VFactors(p.components))) <= McusH(p) * p.components[0].v
  {
    hide BlocksAcross, Mcus;
    McusCover(p.width, p.components[0].h, MaxOf(HFactors(p.components)));
    McusCover(p.height, p.components[0].v, MaxOf(VFactors(p.components)));
  }

  /** `bits` are `data` and fewer than eight ones. */
  ghost predicate PaddedBits(bits: seq<bool>, data: seq<bool>) {
    |data| <= |bits| < |data| + 8 && bits == data + Ones(|bits| - |data|)
  }

  /** A reader at the start of an encoded interval. */
  lemma IntervalStarts(d: ScanDecoder, p: Picture, my: nat, mx: nat, marker: nat, tail: seq<byte>)
    requires my <= McusH(p) && mx <= McusW(p) && Stops(tail)
    requires d.predictions.Length == |p.components| && d.predictions[..] == ZeroPredictions(p)
    requires d.reader.bitCount == 0 && d.reader.scanPos <= |d.reader.scan|
    requires EncodeFrom(p, my, mx, marker, tail) == Some(d.reader.scan[d.reader.scanPos..])
    ensures d.Streams(p, my, mx, 0, marker, tail)
  {
    hide Segment, After, ByteBits, Available, EndOf, Pack, Stuff, LowBits;
    var segment := Segment(p, my, mx, 0, ZeroPredictions(p)).value;
    var after := After(p, my, mx, 0, marker, tail).value;
    AfterStops(p, my, mx, 0, marker, tail);
    AvailableStuffed(d.reader.scan, d.reader.scanPos, Pack(segment), after);
    var pad := UnpackPack(segment);
    NoLowBits(d.reader.bitBuffer);
    assert d.reader.Bits() == segment + Ones(pad);
  }

  lemma NoLowBits(v: nat)
    ensures LowBits(v, 0) == []
  {
  }
}
