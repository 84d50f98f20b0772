/** GF(2^8): the shift-and-add loop of _aes_gf_mul multiplies polynomials modulo x^8 + x^4 + x^3 + x + 1. */
module GaloisField {

  /** Addition in the field, and its zero. */
  function Add(a: bv8, b: bv8): bv8 {
    a ^ b
  }

  function Scaled(t: bool, a: bv8): bv8 {
    if t then a else 0
  }

  predicate LowBit(b: bv8) {
    b & 1 == 1
  }

  /** What takes the place of a term x^8. */
  function Reduction(a: bv8): bv8 {
    if a & 0x80 != 0 then 0x1B else 0
  }

  /** xtime: multiplication by x. */
  function XTime(a: bv8): bv8 {
    Add(a << 1, Reduction(a))
  }

  /** What the loop of _aes_gf_mul adds up in its remaining rounds. */
  function ShiftAndAdd(a: bv8, b: bv8, rounds: nat): bv8
    decreases rounds
  {
    if rounds == 0 then 0 else Add(Scaled(LowBit(b), a), ShiftAndAdd(XTime(a), b >> 1, rounds - 1))
  }

  function GfMul(a: bv8, b: bv8): bv8 {
    ShiftAndAdd(a, b, 8)
  }

  lemma AddLaws(a: bv8, b: bv8, c: bv8)
    ensures Add(a, Add(b, c)) == Add(Add(a, b), c) && Add(a, b) == Add(b, a) && Add(a, 0) == a && Add(a, a) == 0
  {
  }

  /** _aes_gf_mul. */
  method ComputeGfMul(x: bv8, y: bv8) returns (result: bv8)
    ensures result == GfMul(x, y)
  {
    hide Add, XTime, LowBit, ShiftAndAdd;
    var a, b := x, y;
    result := 0;
    ZeroAdd(GfMul(x, y));
    for i := 0 to 8
      invariant Add(result, ShiftAndAdd(a, b, 8 - i)) == GfMul(x, y)
    {
      OneRound(result, a, b, 8 - i);
      result := AddLow(result, a, b);
      a := Doubled(a);
      b := b >> 1;
    }
    NoRounds(result, a, b);
  }

  /** `if b & 1: result ^= a` */
  method AddLow(result: bv8, a: bv8, b: bv8) returns (sum: bv8)
    ensures sum == Add(result, Scaled(LowBit(b), a))
  {
    sum := result;
    if b & 1 != 0 {
      sum := sum ^ a;
    }
  }

  method Doubled(x: bv8) returns (a: bv8)
    ensures a == XTime(x)
  {
    var high := x & 0x80;
    a := x << 1;
    if high != 0 {
      a := a ^ 0x1B;
    }
  }

  lemma ZeroAdd(a: bv8)
    ensures Add(0, a) == a
  {
  }

  lemma OneRound(result: bv8, a: bv8, b: bv8, rounds: nat)
    requires rounds > 0
    ensures Add(result, ShiftAndAdd(a, b, rounds))
         == Add(Add(result, Scaled(LowBit(b), a)), ShiftAndAdd(XTime(a), b >> 1, rounds - 1))
  {
    hide Add, XTime, LowBit, Scaled;
    AddLaws(result, Scaled(LowBit(b), a), ShiftAndAdd(XTime(a), b >> 1, rounds - 1));
  }

  lemma NoRounds(result: bv8, a: bv8, b: bv8)
    ensures Add(result, ShiftAndAdd(a, b, 0)) == result
  {
  }

  // ----- the laws of the field -----

  lemma AddExchange(a: bv8, b: bv8, c: bv8, d: bv8)
    ensures Add(Add(a, b), Add(c, d)) == Add(Add(a, c), Add(b, d))
  {
    hide Add;
    AddLaws(Add(a, b), c, d);
    AddLaws(a, b, c);
    AddLaws(b, c, 0);
    AddLaws(a, c, b);
    AddLaws(Add(a, c), b, d);
  }

  lemma LowBitLinear(b: bv8, c: bv8)
    ensures LowBit(Add(b, c)) == (LowBit(b) != LowBit(c))
  {
  }

  lemma HalfLinear(b: bv8, c: bv8)
    ensures Add(b, c) >> 1 == Add(b >> 1, c >> 1)
  {
  }

  lemma ShiftLinear(a: bv8, b: bv8)
    ensures Add(a, b) << 1 == Add(a << 1, b << 1)
  {
  }

  lemma ReductionLinear(a: bv8, b: bv8)
    ensures Reduction(Add(a, b)) == Add(Reduction(a), Reduction(b))
  {
  }

  lemma XTimeLinear(a: bv8, b: bv8)
    ensures XTime(Add(a, b)) == Add(XTime(a), XTime(b))
  {
    hide Add, Reduction;
    ShiftLinear(a, b);
    ReductionLinear(a, b);
    AddExchange(a << 1, b << 1, Reduction(a), Reduction(b));
  }

  lemma ScaledSum(t: bool, u: bool, both: bool, a: bv8)
    requires both == (t != u)
    ensures Scaled(both, a) == Add(Scaled(t, a), Scaled(u, a))
  {
    hide Add;
    AddLaws(a, 0, 0);
    AddLaws(0, a, 0);
    AddLaws(0, 0, 0);
  }

  lemma ScaledLinear(t: bool, a: bv8, b: bv8)
    ensures Scaled(t, Add(a, b)) == Add(Scaled(t, a), Scaled(t, b))
  {
    hide Add;
    AddLaws(0, 0, 0);
  }

  lemma XTimeZero()
    ensures XTime(0) == 0
  {
  }

  lemma XTimeScaled(t: bool, a: bv8)
    ensures XTime(Scaled(t, a)) == Scaled(t, XTime(a))
  {
    hide XTime;
    XTimeZero();
  }

  /** Distributive over the second factor. */
  lemma {:induction false} LoopAddsRight(a: bv8, b: bv8, c: bv8, rounds: nat)
    ensures ShiftAndAdd(a, Add(b, c), rounds) == Add(ShiftAndAdd(a, b, rounds), ShiftAndAdd(a, c, rounds))
    decreases rounds
  {
    hide Add, XTime, LowBit, Scaled;
    if rounds == 0 {
      AddLaws(0, 0, 0);
    } else {
      LoopAddsRight(XTime(a), b >> 1, c >> 1, rounds - 1);
      HalfLinear(b, c);
      LowBitLinear(b, c);
      ScaledSum(LowBit(b), LowBit(c), LowBit(Add(b, c)), a);
      AddExchange(Scaled(LowBit(b), a), Scaled(LowBit(c), a), ShiftAndAdd(XTime(a), b >> 1, rounds - 1),
                  ShiftAndAdd(XTime(a), c >> 1, rounds - 1));
    }
  }

  /** Distributive over the first factor. */
  lemma {:induction false} LoopAddsLeft(a: bv8, b: bv8, c: bv8, rounds: nat)
    ensures ShiftAndAdd(Add(a, b), c, rounds) == Add(ShiftAndAdd(a, c, rounds), ShiftAndAdd(b, c, rounds))
    decreases rounds
  {
    hide Add, XTime, LowBit, Scaled;
    if rounds == 0 {
      AddLaws(0, 0, 0);
    } else {
      XTimeLinear(a, b);
      LoopAddsLeft(XTime(a), XTime(b), c >> 1, rounds - 1);
      ScaledLinear(LowBit(c), a, b);
      AddExchange(Scaled(LowBit(c), a), Scaled(LowBit(c), b), ShiftAndAdd(XTime(a), c >> 1, rounds - 1),
                  ShiftAndAdd(XTime(b), c >> 1, rounds - 1));
    }
  }

  lemma {:induction false} LoopTimesX(a: bv8, c: bv8, rounds: nat)
    ensures ShiftAndAdd(XTime(a), c, rounds) == XTime(ShiftAndAdd(a, c, rounds))
    decreases rounds
  {
    hide Add, XTime, LowBit, Scaled;
    if rounds == 0 {
      XTimeZero();
    } else {
      LoopTimesX(XTime(a), c >> 1, rounds - 1);
      XTimeScaled(LowBit(c), a);
      XTimeLinear(Scaled(LowBit(c), a), ShiftAndAdd(XTime(a), c >> 1, rounds - 1));
    }
  }

  /** b has at most n terms. */
  predicate Short(b: bv8, n: nat)
    decreases n
  {
    if n == 0 then b == 0 else Short(b >> 1, n - 1)
  }

  lemma {:induction false} LastRoundIdle(a: bv8, b: bv8, n: nat)
    requires Short(b, n)
    ensures ShiftAndAdd(a, b, n + 1) == ShiftAndAdd(a, b, n)
    decreases n
  {
    hide Add, XTime;
    if n == 0 {
      AddLaws(0, 0, 0);
      assert ShiftAndAdd(XTime(a), b >> 1, 0) == 0;
    } else {
      LastRoundIdle(XTime(a), b >> 1, n - 1);
    }
  }

  lemma ShortSeven(b: bv8)
    requires b < 0x80
    ensures Short(b, 7)
  {
    assert Short(b >> 1 >> 1 >> 1 >> 1 >> 1 >> 1 >> 1, 0);
    assert Short(b >> 1 >> 1 >> 1 >> 1 >> 1 >> 1, 1);
    assert Short(b >> 1 >> 1 >> 1 >> 1 >> 1, 2);
    assert Short(b >> 1 >> 1 >> 1 >> 1, 3);
    assert Short(b >> 1 >> 1 >> 1, 4);
    assert Short(b >> 1 >> 1, 5);
    assert Short(b >> 1, 6);
  }

  function Low7(c: bv8): bv8 {
    c & 0x7F
  }

  predicate High(c: bv8) {
    c & 0x80 != 0
  }

  /** A byte is its low seven bits and its top bit, and so is its double. */
  lemma TopSplit(c: bv8)
    ensures c == Add(Low7(c), Scaled(High(c), 0x80)) && Low7(c) < 0x80
    ensures XTime(c) == Add(Low7(c) << 1, Scaled(High(c), 0x1B))
  {
  }

  lemma Unshift(b: bv8)
    requires b < 0x80
    ensures (b << 1) >> 1 == b && !LowBit(b << 1)
  {
  }

  /** Below x^7 the second factor may be doubled instead of the first. */
  lemma TimesDoubled(a: bv8, b: bv8)
    requires b < 0x80
    ensures GfMul(a, b << 1) == GfMul(XTime(a), b)
  {
    hide Add, XTime, LowBit;
    Unshift(b);
    ZeroAdd(ShiftAndAdd(XTime(a), b, 7));
    ShortSeven(b);
    LastRoundIdle(XTime(a), b, 7);
  }

  lemma Round(a: bv8, b: bv8, rounds: nat)
    requires rounds > 0
    ensures ShiftAndAdd(a, b, rounds) == Add(Scaled(LowBit(b), a), ShiftAndAdd(XTime(a), b >> 1, rounds - 1))
  {
    hide Add, XTime;
  }

  lemma {:induction false} TimesZero(a: bv8, rounds: nat)
    ensures ShiftAndAdd(a, 0, rounds) == 0
    decreases rounds
  {
    hide Add, XTime;
    AddLaws(0, 0, 0);
    if rounds == 0 {
    } else {
      TimesZero(XTime(a), rounds - 1);
    }
  }

  /** Doubled, n times. */
  function Doublings(a: bv8, n: nat): bv8
    decreases n
  {
    if n == 0 then a else Doublings(XTime(a), n - 1)
  }

  lemma {:induction false} TimesPower(a: bv8, b: bv8, n: nat, rounds: nat)
    requires n < rounds && PowerOf(b, n)
    ensures ShiftAndAdd(a, b, rounds) == Doublings(a, n)
    decreases n
  {
    hide Add, XTime;
    Round(a, b, rounds);
    if n == 0 {
      TimesZero(XTime(a), rounds - 1);
      AddLaws(a, 0, 0);
    } else {
      TimesPower(XTime(a), b >> 1, n - 1, rounds - 1);
      ZeroAdd(Doublings(a, n));
    }
  }

  /** b is x^n. */
  predicate PowerOf(b: bv8, n: nat)
    decreases n
  {
    if n == 0 then b == 1 else !LowBit(b) && PowerOf(b >> 1, n - 1)
  }

  lemma BitsOf(b: bv8)
    ensures (if b & 1 == 1 then 1 else 0) ^ ((if (b >> 1) & 1 == 1 then 2 else 0)
            ^ ((if (b >> 1 >> 1) & 1 == 1 then 4 else 0)
            ^ ((if (b >> 1 >> 1 >> 1) & 1 == 1 then 8 else 0)
            ^ ((if (b >> 1 >> 1 >> 1 >> 1) & 1 == 1 then 0x10 else 0)
            ^ ((if (b >> 1 >> 1 >> 1 >> 1 >> 1) & 1 == 1 then 0x20 else 0)
            ^ ((if (b >> 1 >> 1 >> 1 >> 1 >> 1 >> 1) & 1 == 1 then 0x40 else 0)
            ^ (if (b >> 1 >> 1 >> 1 >> 1 >> 1 >> 1 >> 1) & 1 == 1 then 0x80 else 0))))))) == b
  {
  }

  lemma XTimeOfPowers()
    ensures XTime(1) == 2 && XTime(2) == 4 && XTime(4) == 8 && XTime(8) == 0x10 && XTime(0x10) == 0x20
    ensures XTime(0x20) == 0x40 && XTime(0x40) == 0x80 && XTime(0x80) == 0x1B
  {
  }

  /** One is neutral. */
  lemma OneTimes(b: bv8)
    ensures GfMul(1, b) == b
  {
    hide XTime, ShiftAndAdd;
    XTimeOfPowers();
    Round(1, b, 8);
    Round(2, b >> 1, 7);
    Round(4, b >> 1 >> 1, 6);
    Round(8, b >> 1 >> 1 >> 1, 5);
    Round(0x10, b >> 1 >> 1 >> 1 >> 1, 4);
    Round(0x20, b >> 1 >> 1 >> 1 >> 1 >> 1, 3);
    Round(0x40, b >> 1 >> 1 >> 1 >> 1 >> 1 >> 1, 2);
    Round(0x80, b >> 1 >> 1 >> 1 >> 1 >> 1 >> 1 >> 1, 1);
    NoneLeft(0x1B, b >> 1 >> 1 >> 1 >> 1 >> 1 >> 1 >> 1 >> 1);
    BitsOf(b);
  }

  lemma NoneLeft(a: bv8, b: bv8)
    ensures ShiftAndAdd(a, b, 0) == 0
  {
  }

  lemma {:induction false} DoublingsOut(a: bv8, c: bv8, n: nat)
    ensures GfMul(Doublings(a, n), c) == Doublings(GfMul(a, c), n)
    decreases n
  {
    hide XTime, ShiftAndAdd;
    if n == 0 {
    } else {
      DoublingsOut(XTime(a), c, n - 1);
      LoopTimesX(a, c, 8);
    }
  }

  lemma {:induction false} DoublingsLast(a: bv8, n: nat)
    ensures Doublings(a, n + 1) == XTime(Doublings(a, n))
    decreases n
  {
    hide XTime;
    if n == 0 {
    } else {
      DoublingsLast(XTime(a), n - 1);
    }
  }

  lemma FewDoublings(a: bv8)
    ensures Doublings(a, 0) == a && Doublings(a, 1) == XTime(a)
  {
    hide XTime;
    assert Doublings(XTime(a), 0) == XTime(a);
  }

  /** The four terms that x^8 reduces to. */
  function Reduced(a: bv8): bv8 {
    Add(Add(a, XTime(a)), Add(Doublings(a, 3), Doublings(a, 4)))
  }

  lemma ReducedTerms()
    ensures Add(Add(1, 2), Add(8, 0x10)) == 0x1B
    ensures Doublings(1, 3) == 8 && Doublings(1, 4) == 0x10 && Doublings(1, 8) == 0x1B
  {
    assert Add(Add(1, 2), Add(8, 0x10)) == 0x1B;
    hide XTime;
    XTimeOfPowers();
    DoublingsLast(1, 7);
    DoublingsLast(1, 6);
    DoublingsLast(1, 5);
    DoublingsLast(1, 4);
    DoublingsLast(1, 3);
    DoublingsLast(1, 2);
    DoublingsLast(1, 1);
    FewDoublings(1);
  }

  lemma TimesReducedLeft(a: bv8)
    ensures GfMul(0x1B, a) == Reduced(a)
  {
    hide Add, XTime, ShiftAndAdd, Doublings;
    ReducedTerms();
    XTimeOfPowers();
    LoopAddsLeft(Add(1, 2), Add(8, 0x10), a, 8);
    LoopAddsLeft(1, 2, a, 8);
    LoopAddsLeft(8, 0x10, a, 8);
    OneTimes(a);
    LoopTimesX(1, a, 8);
    DoublingsOut(1, a, 3);
    DoublingsOut(1, a, 4);
  }

  /** Doubling a byte eight times is x^8 = x^4 + x^3 + x + 1. */
  lemma EighthPower(a: bv8)
    ensures Doublings(a, 8) == Reduced(a)
  {
    hide Add, XTime, ShiftAndAdd, Doublings, Reduced;
    OneTimes(a);
    DoublingsOut(1, a, 8);
    ReducedTerms();
    TimesReducedLeft(a);
  }

  lemma Powers()
    ensures PowerOf(1, 0) && PowerOf(2, 1) && PowerOf(8, 3) && PowerOf(0x10, 4) && PowerOf(0x80, 7)
  {
    assert PowerOf(2, 1) && PowerOf(4, 2) && PowerOf(8, 3) && PowerOf(0x10, 4);
    assert PowerOf(0x20, 5) && PowerOf(0x40, 6) && PowerOf(0x80, 7);
  }

  lemma TimesReducedRight(a: bv8)
    ensures GfMul(a, 0x1B) == Reduced(a)
    ensures GfMul(a, 0x80) == Doublings(a, 7)
  {
    hide Add, XTime, ShiftAndAdd, Doublings, PowerOf;
    ReducedTerms();
    Powers();
    LoopAddsRight(a, Add(1, 2), Add(8, 0x10), 8);
    LoopAddsRight(a, 1, 2, 8);
    LoopAddsRight(a, 8, 0x10, 8);
    TimesPower(a, 1, 0, 8);
    TimesPower(a, 2, 1, 8);
    TimesPower(a, 8, 3, 8);
    TimesPower(a, 0x10, 4, 8);
    TimesPower(a, 0x80, 7, 8);
    FewDoublings(a);
  }

  /** Doubling the second factor doubles the product. */
  lemma TimesXTime(a: bv8, c: bv8)
    ensures GfMul(a, XTime(c)) == XTime(GfMul(a, c))
  {
    hide Add, XTime, ShiftAndAdd, Doublings, Reduced, Low7, High;
    var l, h := Low7(c), High(c);
    TopSplit(c);
    LoopAddsRight(a, l << 1, Scaled(h, 0x1B), 8);
    LoopAddsRight(a, l, Scaled(h, 0x80), 8);
    XTimeLinear(GfMul(a, l), GfMul(a, Scaled(h, 0x80)));
    TimesDoubled(a, l);
    LoopTimesX(a, l, 8);
    TimesZero(a, 8);
    XTimeZero();
    TimesReducedRight(a);
    DoublingsLast(a, 7);
    EighthPower(a);
  }

  lemma {:induction false} LoopAssociates(a: bv8, b: bv8, c: bv8, rounds: nat)
    ensures ShiftAndAdd(GfMul(a, b), c, rounds) == GfMul(a, ShiftAndAdd(b, c, rounds))
    decreases rounds
  {
    hide Add, XTime, LowBit, GfMul;
    if rounds == 0 {
      ProductZero(a);
    } else {
      TimesXTime(a, b);
      LoopAssociates(a, XTime(b), c >> 1, rounds - 1);
      ProductAdds(a, Scaled(LowBit(c), b), ShiftAndAdd(XTime(b), c >> 1, rounds - 1));
      ProductZero(a);
    }
  }

  lemma ProductZero(a: bv8)
    ensures GfMul(a, 0) == 0
  {
    TimesZero(a, 8);
  }

  lemma ProductAdds(a: bv8, b: bv8, c: bv8)
    ensures GfMul(a, Add(b, c)) == Add(GfMul(a, b), GfMul(a, c))
    ensures GfMul(Add(a, b), c) == Add(GfMul(a, c), GfMul(b, c))
  {
    hide ShiftAndAdd, Add;
    LoopAddsRight(a, b, c, 8);
    LoopAddsLeft(a, b, c, 8);
  }

  lemma ProductAssociates(a: bv8, b: bv8, c: bv8)
    ensures GfMul(GfMul(a, b), c) == GfMul(a, GfMul(b, c))
  {
    hide ShiftAndAdd;
    LoopAssociates(a, b, c, 8);
  }

  lemma TimesOne(a: bv8)
    ensures GfMul(a, 1) == a && GfMul(1, a) == a
  {
    hide ShiftAndAdd;
    OneTimes(a);
    assert PowerOf(1, 0);
    TimesPower(a, 1, 0, 8);
    FewDoublings(a);
  }
}
