/** The CRC-32 of search_store.c as a shift register of 32 bits (least significant bit first),
    and why it notices a burst of damage no longer than the register. */
module Crc {
  import opened Bytes

  // ----- bit strings -----

  function BitsOf(x: nat, n: nat): (bits: seq<bool>)
    ensures |bits| == n
  {
    if n == 0 then [] else [x % 2 == 1] + BitsOf(x / 2, n - 1)
  }

  function NumberOf(bits: seq<bool>): nat {
    if bits == [] then 0 else (if bits[0] then 1 else 0) + 2 * NumberOf(bits[1..])
  }

  lemma {:induction false} NumberOfBits(x: nat, n: nat)
    requires x < Pow2(n)
    ensures NumberOf(BitsOf(x, n)) == x
  {
    if n == 0 {
    } else {
      NumberOfBits(x / 2, n - 1);
      assert BitsOf(x, n)[1..] == BitsOf(x / 2, n - 1);
    }
  }

  lemma {:induction false} NumberInjective(a: seq<bool>, b: seq<bool>)
    requires |a| == |b| && NumberOf(a) == NumberOf(b)
    ensures a == b
  {
    if a == [] {
    } else {
      NumberInjective(a[1..], b[1..]);
      assert a == [a[0]] + a[1..] && b == [b[0]] + b[1..];
    }
  }

  lemma {:induction false} NumberBound(bits: seq<bool>)
    ensures NumberOf(bits) < Pow2(|bits|)
  {
    if bits == [] {
    } else {
      NumberBound(bits[1..]);
    }
  }

  function Zeros(n: nat): (z: seq<bool>)
    ensures |z| == n
  {
    seq(n, _ => false)
  }

  function Xor(a: seq<bool>, b: seq<bool>): (r: seq<bool>)
    requires |a| == |b|
    ensures |r| == |a| && forall i :: 0 <= i < |r| ==> r[i] == (a[i] != b[i])
  {
    seq(|a|, i requires 0 <= i < |a| => a[i] != b[i])
  }

  function Not(a: seq<bool>): (r: seq<bool>)
    ensures |r| == |a| && forall i :: 0 <= i < |r| ==> r[i] == !a[i]
  {
    seq(|a|, i requires 0 <= i < |a| => !a[i])
  }

  // ----- the register -----

  type Register = c: seq<bool> | |c| == 32 witness Zeros(32)

  /** The bits of 0xEDB88320: bit 31 - e is set for every exponent e below 32 of the CRC-32
      polynomial. */
  predicate Tap(i: nat) {
    i == 31 || i == 30 || i == 29 || i == 27 || i == 26 || i == 24 || i == 23 || i == 21 || i == 20 || i == 19
    || i == 15 || i == 9 || i == 8 || i == 5
  }

  lemma TapsSpellTheConstant()
    ensures NumberOf(seq(32, i requires 0 <= i => Tap(i))) == 0xEDB8_8320
  {
    var p := seq(32, i requires 0 <= i => Tap(i));
    assert p[0..] == p;
    PeelByte(p, 0);
    PeelByte(p, 8);
    PeelByte(p, 16);
    PeelByte(p, 24);
  }

  lemma PeelByte(p: seq<bool>, i: nat)
    requires i + 8 <= |p|
    ensures NumberOf(p[i..]) == Nibble(p, i) + 16 * Nibble(p, i + 4) + 256 * NumberOf(p[i + 8..])
  {
    PeelNibble(p, i);
    PeelNibble(p, i + 4);
  }

  function Nibble(p: seq<bool>, i: nat): nat
    requires i + 4 <= |p|
  {
    (if p[i] then 1 else 0) + (if p[i + 1] then 2 else 0) + (if p[i + 2] then 4 else 0) + (if p[i + 3] then 8 else 0)
  }

  lemma PeelNibble(p: seq<bool>, i: nat)
    requires i + 4 <= |p|
    ensures NumberOf(p[i..]) == Nibble(p, i) + 16 * NumberOf(p[i + 4..])
  {
    Peel(p, i);
    Peel(p, i + 1);
    Peel(p, i + 2);
    Peel(p, i + 3);
  }

  lemma Peel(p: seq<bool>, i: nat)
    requires i < |p|
    ensures NumberOf(p[i..]) == (if p[i] then 1 else 0) + 2 * NumberOf(p[i + 1..])
  {
    assert p[i..][1..] == p[i + 1..];
  }

  /** `(crc >> 1) ^ (0xEDB88320 & -(crc & 1))` */
  function Shift(c: Register): (r: Register)
    ensures forall i :: 0 <= i < 32 ==> r[i] == ((i < 31 && c[i + 1]) != (c[0] && Tap(i)))
  {
    seq(32, i requires 0 <= i < 32 => (i < 31 && c[i + 1]) != (c[0] && Tap(i)))
  }

  function ShiftBy(c: Register, n: nat): Register
    decreases n
  {
    if n == 0 then c else ShiftBy(Shift(c), n - 1)
  }

  /** A bit string of at most 32 bits as a register. */
  function Pad(u: seq<bool>): Register
    requires |u| <= 32
  {
    u + Zeros(32 - |u|)
  }

  /** The register after `data`, starting from `c`. */
  function Feed(c: Register, data: seq<byte>): Register {
    if data == [] then c
    else
      ShiftBy(Xor(Feed(c, data[..|data| - 1]), Pad(BitsOf(data[|data| - 1], 8))), 8)
  }

  const ALL_ONES: Register := Not(Zeros(32))

  function Checksum(data: seq<byte>): nat {
    NumberOf(Not(Feed(ALL_ONES, data)))
  }

  method ShiftOutByte(start: Register) returns (crc: Register)
    ensures crc == ShiftBy(start, 8)
  {
    crc := start;
    for bit := 0 to 8
      invariant ShiftBy(crc, 8 - bit) == ShiftBy(start, 8)
    {
      crc := Shift(crc);
    }
  }

  method ComputeCrc32(data: seq<byte>) returns (r: nat)
    ensures r == Checksum(data)
  {
    var crc: Register := ALL_ONES;
    for index := 0 to |data|
      invariant crc == Feed(ALL_ONES, data[..index])
    {
      crc := Xor(crc, Pad(BitsOf(data[index], 8)));
      crc := ShiftOutByte(crc);
      assert data[..index + 1][..index] == data[..index];
    }
    assert data[..|data|] == data;
    r := NumberOf(Not(crc));
  }

  // ----- the register loses no information -----

  lemma ShiftInjective(x: Register, y: Register)
    requires Shift(x) == Shift(y)
    ensures x == y
  {
    var sx, sy := Shift(x), Shift(y);
    assert sx[31] == x[0] && sy[31] == y[0];
    forall i | 0 < i < 32
      ensures x[i] == y[i]
    {
      assert sx[i - 1] == sy[i - 1];
    }
  }

  lemma {:induction false} ShiftByInjective(x: Register, y: Register, n: nat)
    requires ShiftBy(x, n) == ShiftBy(y, n)
    ensures x == y
    decreases n
  {
    if n == 0 {
    } else {
      ShiftByInjective(Shift(x), Shift(y), n - 1);
      ShiftInjective(x, y);
    }
  }

  lemma XorInjective(a: Register, b: Register, w: Register)
    requires Xor(a, w) == Xor(b, w)
    ensures a == b
  {
    forall i | 0 <= i < 32
      ensures a[i] == b[i]
    {
      assert Xor(a, w)[i] == Xor(b, w)[i];
    }
  }

  /** What follows the damage cannot hide it. */
  lemma {:induction false} FeedInjective(x: Register, y: Register, data: seq<byte>)
    requires Feed(x, data) == Feed(y, data)
    ensures x == y
  {
    if data == [] {
    } else {
      var front, w := data[..|data| - 1], Pad(BitsOf(data[|data| - 1], 8));
      ShiftByInjective(Xor(Feed(x, front), w), Xor(Feed(y, front), w), 8);
      XorInjective(Feed(x, front), Feed(y, front), w);
      FeedInjective(x, y, front);
    }
  }

  lemma {:induction false} FeedConcat(c: Register, a: seq<byte>, b: seq<byte>)
    ensures Feed(c, a + b) == Feed(Feed(c, a), b)
  {
    if b == [] {
      assert a + b == a;
    } else {
      assert (a + b)[..|a + b| - 1] == a + b[..|b| - 1];
      FeedConcat(c, a, b[..|b| - 1]);
    }
  }

  // ----- a short string enters the register as one xor -----

  /** Bits that have not reached the low end yet just move down. */
  lemma ShiftMovesDown(c: Register, d: seq<bool>)
    requires |d| == 31
    ensures Shift(Xor(c, [false] + d)) == Xor(Shift(c), d + [false])
  {
    var x: Register := Xor(c, [false] + d);
    var y := Xor(Shift(c), d + [false]);
    assert x[0] == c[0];
    forall i | 0 <= i < 32
      ensures Shift(x)[i] == y[i]
    {
      if i < 31 {
        assert x[i + 1] == (c[i + 1] != d[i]);
      }
    }
  }

  lemma {:induction false} ShiftsMoveDown(c: Register, low: nat, d: seq<bool>)
    requires low + |d| <= 32
    ensures ShiftBy(Xor(c, Pad(Zeros(low) + d)), low) == Xor(ShiftBy(c, low), Pad(d))
    decreases low
  {
    if low == 0 {
      assert Zeros(0) + d == d;
    } else {
      var rest := Zeros(low - 1) + d + Zeros(32 - low - |d|);
      assert Pad(Zeros(low) + d) == [false] + rest;
      ShiftMovesDown(c, rest);
      assert rest + [false] == Pad(Zeros(low - 1) + d);
      ShiftsMoveDown(Shift(c), low - 1, d);
    }
  }

  lemma XorSplit(c: Register, low: seq<bool>, high: seq<bool>)
    requires |low| + |high| <= 32
    ensures Xor(c, Pad(low + high)) == Xor(Xor(c, Pad(low)), Pad(Zeros(|low|) + high))
  {
  }

  lemma {:induction false} ShiftByAdds(c: Register, m: nat, n: nat)
    ensures ShiftBy(c, m + n) == ShiftBy(ShiftBy(c, m), n)
    decreases m
  {
    if m == 0 {
    } else {
      ShiftByAdds(Shift(c), m - 1, n);
    }
  }

  function StringBits(u: seq<byte>): (bits: seq<bool>)
    ensures |bits| == 8 * |u|
  {
    if u == [] then [] else StringBits(u[..|u| - 1]) + BitsOf(u[|u| - 1], 8)
  }

  /** Up to four bytes: xor them in as one little-endian word, then shift them all out. */
  lemma {:induction false} FeedIsOneXor(c: Register, u: seq<byte>)
    requires |u| <= 4
    ensures Feed(c, u) == ShiftBy(Xor(c, Pad(StringBits(u))), 8 * |u|)
  {
    if u == [] {
      assert Xor(c, Pad([])) == c;
    } else {
      var front, last := u[..|u| - 1], BitsOf(u[|u| - 1], 8);
      var low, n := StringBits(front), 8 * |front|;
      FeedIsOneXor(c, front);
      XorSplit(c, low, last);
      ShiftByAdds(Xor(c, Pad(low + last)), n, 8);
      ShiftsMoveDown(Xor(c, Pad(low)), n, last);
    }
  }

  lemma {:induction false} StringBitsInjective(u: seq<byte>, v: seq<byte>)
    requires |u| == |v| && StringBits(u) == StringBits(v)
    ensures u == v
  {
    hide BitsOf;
    if u == [] {
    } else {
      var last := |u| - 1;
      PartsEqual(StringBits(u[..last]), BitsOf(u[last], 8), StringBits(v[..last]), BitsOf(v[last], 8));
      StringBitsInjective(u[..last], v[..last]);
      ByteBitsInjective(u[last], v[last]);
      assert u == u[..last] + [u[last]] && v == v[..last] + [v[last]];
    }
  }

  lemma PartsEqual(a: seq<bool>, b: seq<bool>, c: seq<bool>, d: seq<bool>)
    requires a + b == c + d && |a| == |c|
    ensures a == c && b == d
  {
    assert (a + b)[..|a|] == a && (a + b)[|a|..] == b && (c + d)[..|a|] == c && (c + d)[|a|..] == d;
  }

  lemma ByteBitsInjective(x: byte, y: byte)
    requires BitsOf(x, 8) == BitsOf(y, 8)
    ensures x == y
  {
    hide BitsOf;
    NumberOfBits(x, 8);
    NumberOfBits(y, 8);
    assert Pow2(8) == 256;
  }

  lemma FeedDistinguishes(c: Register, u: seq<byte>, v: seq<byte>)
    requires |u| == |v| <= 4 && Feed(c, u) == Feed(c, v)
    ensures u == v
  {
    hide Feed, ShiftBy, StringBits;
    FeedIsOneXor(c, u);
    FeedIsOneXor(c, v);
    var pu, pv := Pad(StringBits(u)), Pad(StringBits(v));
    ShiftByInjective(Xor(c, pu), Xor(c, pv), 8 * |u|);
    forall i | 0 <= i < 32
      ensures pu[i] == pv[i]
    {
      assert Xor(c, pu)[i] == Xor(c, pv)[i];
    }
    assert StringBits(u) == pu[..8 * |u|] && StringBits(v) == pv[..8 * |u|];
    StringBitsInjective(u, v);
  }

  /** Two strings of one length that differ only within four consecutive bytes have different
      checksums. */
  lemma DamageIsDetected(a: seq<byte>, b: seq<byte>, at: nat, end: nat)
    requires |a| == |b| && at <= end <= |a| && end - at <= 4
    requires a[..at] == b[..at] && a[end..] == b[end..]
    ensures Checksum(a) == Checksum(b) <==> a == b
  {
    hide Feed, Not;
    if Checksum(a) == Checksum(b) {
      NumberInjective(Not(Feed(ALL_ONES, a)), Not(Feed(ALL_ONES, b)));
      NotInjective(Feed(ALL_ONES, a), Feed(ALL_ONES, b));
      assert a == a[..at] + a[at..end] + a[end..] && b == a[..at] + b[at..end] + a[end..];
      var c := Feed(ALL_ONES, a[..at]);
      FeedConcat(ALL_ONES, a[..at] + a[at..end], a[end..]);
      FeedConcat(ALL_ONES, a[..at] + b[at..end], a[end..]);
      FeedConcat(ALL_ONES, a[..at], a[at..end]);
      FeedConcat(ALL_ONES, a[..at], b[at..end]);
      FeedInjective(Feed(c, a[at..end]), Feed(c, b[at..end]), a[end..]);
      FeedDistinguishes(c, a[at..end], b[at..end]);
    }
  }

  lemma NotInjective(x: Register, y: Register)
    requires Not(x) == Not(y)
    ensures x == y
  {
    forall i | 0 <= i < 32
      ensures x[i] == y[i]
    {
      assert Not(x)[i] == Not(y)[i];
    }
  }

  lemma ChecksumBound(data: seq<byte>)
    ensures Checksum(data) < U32_LIMIT
  {
    hide Feed, Not;
    NumberBound(Not(Feed(ALL_ONES, data)));
    PowSum(16, 16);
    PowSum(8, 8);
    assert Pow2(8) == 256;
  }

  // ----- the table-driven form of RFC 1952, section 8 -----

  /** Entry n of the CRC table: n shifted eight times. */
  function TableEntry(low: seq<bool>): Register
    requires |low| == 8
  {
    ShiftBy(Pad(low), 8)
  }

  /** `c = table[(c ^ b) & 0xff] ^ (c >> 8)` computes the same step as the bit-by-bit loop. */
  lemma TableStep(c: Register, b: byte)
    ensures ShiftBy(Xor(c, Pad(BitsOf(b, 8))), 8)
         == Xor(TableEntry(Xor(c[..8], BitsOf(b, 8))), Pad(c[8..]))
  {
    var low := Xor(c[..8], BitsOf(b, 8));
    assert Xor(c, Pad(BitsOf(b, 8))) == Xor(Pad(low), Pad(Zeros(8) + c[8..]));
    ShiftsMoveDown(Pad(low), 8, c[8..]);
  }
}
