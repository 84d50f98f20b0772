/** _aes_gf_mul against section 4.2 of FIPS 197: multiplication of polynomials, reduced afterwards. */
module FieldPolynomials {
  import opened GaloisField

  function Sum(p: bv16, q: bv16): bv16 {
    p ^ q
  }

  function Selected(t: bool, p: bv16): bv16 {
    if t then p else 0
  }

  /** Multiplication by x. */
  function TimesX(p: bv16): bv16 {
    p << 1
  }

  /** The product of two polynomials, of which b has `terms` terms, without reduction. */
  function PolynomialProduct(p: bv16, b: bv8, terms: nat): bv16
    decreases terms
  {
    if terms == 0 then 0 else Sum(Selected(LowBit(b), p), PolynomialProduct(TimesX(p), b >> 1, terms - 1))
  }

  /** m(x) = x^8 + x^4 + x^3 + x + 1, times x^k. */
  function Modulus(k: nat): bv16 {
    if k == 0 then 0x11B else TimesX(Modulus(k - 1))
  }

  /** p has the term x^(8+k). */
  predicate Has(p: bv16, k: nat)
    decreases k
  {
    if k == 0 then p & 0x100 != 0 else Has(p >> 1, k - 1)
  }

  /** Cancels the term x^(8+k) with a multiple of m(x). */
  function Cancel(p: bv16, k: nat): bv16 {
    Sum(p, Selected(Has(p, k), Modulus(k)))
  }

  /** The remainder modulo m(x), from the term x^(8+k) down. */
  function Remainder(p: bv16, k: nat): bv16
    decreases k
  {
    if k == 0 then Cancel(p, 0) else Remainder(Cancel(p, k), k - 1)
  }

  /** The product in GF(2^8): section 4.2 of FIPS 197. */
  function FieldProduct(a: bv8, b: bv8): bv16 {
    Remainder(PolynomialProduct(a as bv16, b, 8), 7)
  }

  lemma SumAssociates(p: bv16, q: bv16, r: bv16)
    ensures Sum(Sum(p, q), r) == Sum(p, Sum(q, r))
  {
  }

  lemma SumCommutes(p: bv16, q: bv16)
    ensures Sum(p, q) == Sum(q, p)
  {
  }

  lemma SumExchange(p: bv16, q: bv16, r: bv16, s: bv16)
    ensures Sum(Sum(p, q), Sum(r, s)) == Sum(Sum(p, r), Sum(q, s))
  {
    hide Sum;
    SumAssociates(p, q, Sum(r, s));
    SumAssociates(q, r, s);
    SumCommutes(q, r);
    SumAssociates(r, q, s);
    SumAssociates(p, r, Sum(q, s));
  }

  lemma SumZero(p: bv16)
    ensures Sum(p, 0) == p && Sum(0, p) == p
  {
  }

  lemma TimesXLinear(p: bv16, q: bv16)
    ensures TimesX(Sum(p, q)) == Sum(TimesX(p), TimesX(q))
  {
  }

  lemma SelfSum(p: bv16)
    ensures Sum(p, p) == 0
  {
  }

  /** Both selected is none selected. */
  lemma SelectedSum(t: bool, u: bool, both: bool, p: bv16)
    requires both == (t != u)
    ensures Selected(both, p) == Sum(Selected(t, p), Selected(u, p))
  {
    hide Sum;
    SumZero(p);
    SumZero(0);
    SelfSum(p);
  }

  lemma TimesXSelected(t: bool, p: bv16)
    ensures TimesX(Selected(t, p)) == Selected(t, TimesX(p))
  {
  }

  lemma HalfSum(p: bv16, q: bv16)
    ensures Sum(p, q) >> 1 == Sum(p >> 1, q >> 1)
  {
  }

  lemma HasNext(p: bv16, k: nat)
    ensures k > 0 ==> Has(p, k) == Has(p >> 1, k - 1)
  {
  }

  lemma HasLow(p: bv16, q: bv16)
    ensures Has(Sum(p, q), 0) == (Has(p, 0) != Has(q, 0))
  {
  }

  lemma {:induction false} HasLinear(p: bv16, q: bv16, k: nat)
    ensures Has(Sum(p, q), k) == (Has(p, k) != Has(q, k))
    decreases k
  {
    hide Sum, Has;
    HasNext(p, k);
    HasNext(q, k);
    HasNext(Sum(p, q), k);
    if k == 0 {
      HasLow(p, q);
    } else {
      HalfSum(p, q);
      HasLinear(p >> 1, q >> 1, k - 1);
    }
  }

  lemma CancelLinear(p: bv16, q: bv16, k: nat)
    ensures Cancel(Sum(p, q), k) == Sum(Cancel(p, k), Cancel(q, k))
  {
    hide Sum, Has, Selected, Modulus;
    HasLinear(p, q, k);
    SelectedSum(Has(p, k), Has(q, k), Has(Sum(p, q), k), Modulus(k));
    SumExchange(p, q, Selected(Has(p, k), Modulus(k)), Selected(Has(q, k), Modulus(k)));
  }

  lemma {:induction false} RemainderLinear(p: bv16, q: bv16, k: nat)
    ensures Remainder(Sum(p, q), k) == Sum(Remainder(p, k), Remainder(q, k))
    decreases k
  {
    hide Cancel, Sum;
    CancelLinear(p, q, k);
    if k == 0 {
    } else {
      RemainderLinear(Cancel(p, k), Cancel(q, k), k - 1);
    }
  }

  lemma UnshiftSum(p: bv16)
    requires p < 0x8000
    ensures TimesX(p) >> 1 == p
  {
  }

  lemma CancelShift(p: bv16, k: nat)
    requires p < 0x8000
    ensures Cancel(TimesX(p), k + 1) == TimesX(Cancel(p, k))
  {
    hide Sum, Selected, TimesX;
    UnshiftSum(p);
    TimesXLinear(p, Selected(Has(p, k), Modulus(k)));
    TimesXSelected(Has(p, k), Modulus(k));
  }

  lemma {:induction false} ModulusSmall(k: nat)
    requires k <= 6
    ensures Modulus(k) < 0x8000
  {
    assert Modulus(1) == TimesX(Modulus(0));
    assert Modulus(2) == TimesX(Modulus(1));
    assert Modulus(3) == TimesX(Modulus(2));
    assert Modulus(4) == TimesX(Modulus(3));
    assert Modulus(5) == TimesX(Modulus(4));
    assert Modulus(6) == TimesX(Modulus(5));
  }

  lemma SumSmall(p: bv16, q: bv16)
    requires p < 0x8000 && q < 0x8000
    ensures Sum(p, q) < 0x8000
  {
  }

  lemma CancelSmall(p: bv16, k: nat)
    requires k <= 6 && p < 0x8000
    ensures Cancel(p, k) < 0x8000
  {
    hide Sum, Has, Modulus;
    ModulusSmall(k);
    SumSmall(p, Selected(Has(p, k), Modulus(k)));
  }

  /** Multiplying by x commutes with reduction, up to one more step. */
  lemma {:induction false} RemainderShift(p: bv16, k: nat)
    requires k <= 6 && p < 0x8000
    ensures Remainder(TimesX(p), k + 1) == Cancel(TimesX(Remainder(p, k)), 0)
    decreases k
  {
    hide Cancel, TimesX;
    CancelShift(p, k);
    CancelSmall(p, k);
    if k == 0 {
    } else {
      RemainderShift(Cancel(p, k), k - 1);
    }
  }

  lemma {:induction false} HasNone(p: bv16, k: nat)
    requires p < 0x100
    ensures !Has(p, k)
    decreases k
  {
    if k == 0 {
    } else {
      HasNone(p >> 1, k - 1);
    }
  }

  lemma {:induction false} SmallStays(p: bv16, k: nat)
    requires p < 0x100
    ensures Remainder(p, k) == p
    decreases k
  {
    hide Has, Sum;
    HasNone(p, k);
    SumZero(p);
    if k == 0 {
    } else {
      SmallStays(p, k - 1);
    }
  }

  lemma HasTop(p: bv16)
    requires p < 0x8000
    ensures !Has(p, 7)
  {
    hide Has;
    HasNext(p, 7);
    HasNext(p >> 1, 6);
    HasNext(p >> 1 >> 1, 5);
    HasNext(p >> 1 >> 1 >> 1, 4);
    HasNext(p >> 1 >> 1 >> 1 >> 1, 3);
    HasNext(p >> 1 >> 1 >> 1 >> 1 >> 1, 2);
    HasNext(p >> 1 >> 1 >> 1 >> 1 >> 1 >> 1, 1);
    HasNone(p >> 1 >> 1 >> 1 >> 1 >> 1 >> 1 >> 1, 0);
  }

  lemma TopSkipped(p: bv16)
    requires p < 0x8000
    ensures Remainder(p, 7) == Remainder(p, 6)
  {
    hide Has, Sum;
    HasTop(p);
    SumZero(p);
  }

  lemma XTimeReduces(a: bv8)
    ensures Cancel(TimesX(a as bv16), 0) == XTime(a) as bv16
  {
  }

  function Widen(a: bv8): bv16 {
    a as bv16
  }

  lemma AddWidens(a: bv8, b: bv8)
    ensures Widen(Add(a, b)) == Sum(Widen(a), Widen(b))
  {
  }

  lemma ScaledWidens(t: bool, a: bv8)
    ensures Widen(Scaled(t, a)) == Selected(t, Widen(a))
  {
  }

  /** No term is shifted out of sixteen bits. */
  predicate Fits(p: bv16, terms: nat)
    decreases terms
  {
    terms <= 1 || (p < 0x8000 && Fits(TimesX(p), terms - 1))
  }

  lemma ByteFits(p: bv16)
    requires p < 0x100
    ensures Fits(p, 8)
  {
    assert Fits(p << 7, 1) && p << 6 < 0x8000;
    assert TimesX(p << 6) == p << 7 && Fits(p << 6, 2) && p << 5 < 0x8000;
    assert TimesX(p << 5) == p << 6 && Fits(p << 5, 3) && p << 4 < 0x8000;
    assert TimesX(p << 4) == p << 5 && Fits(p << 4, 4) && p << 3 < 0x8000;
    assert TimesX(p << 3) == p << 4 && Fits(p << 3, 5) && p << 2 < 0x8000;
    assert TimesX(p << 2) == p << 3 && Fits(p << 2, 6) && p << 1 < 0x8000;
    assert TimesX(p << 1) == p << 2 && Fits(p << 1, 7);
    assert TimesX(p) == p << 1;
  }

  lemma SelectedRemainder(t: bool, p: bv16)
    ensures Remainder(Selected(t, p), 7) == Selected(t, Remainder(p, 7))
  {
    hide Remainder;
    SmallStays(0, 7);
  }

  /** The loop keeps a * x^i reduced; adding up the selected ones gives the reduced product. */
  lemma {:induction false} LoopIsProduct(p: bv16, a: bv8, b: bv8, terms: nat)
    requires terms <= 8 && Fits(p, terms) && Remainder(p, 7) == a as bv16
    ensures Remainder(PolynomialProduct(p, b, terms), 7) == ShiftAndAdd(a, b, terms) as bv16
    decreases terms
  {
    hide Remainder, XTime, Cancel, LowBit, Sum, Add, TimesX, Selected, Scaled;
    if terms == 0 {
      SmallStays(0, 7);
    } else if terms == 1 {
      SmallStays(0, 7);
      LoopStep(p, a, b, 0, 0);
      assert PolynomialProduct(TimesX(p), b >> 1, 0) == 0 && ShiftAndAdd(XTime(a), b >> 1, 0) == 0;
    } else {
      TopSkipped(p);
      RemainderShift(p, 6);
      XTimeReduces(a);
      LoopIsProduct(TimesX(p), XTime(a), b >> 1, terms - 1);
      LoopStep(p, a, b, PolynomialProduct(TimesX(p), b >> 1, terms - 1),
               ShiftAndAdd(XTime(a), b >> 1, terms - 1));
    }
  }

  lemma LoopStep(p: bv16, a: bv8, b: bv8, product: bv16, sum: bv8)
    requires Remainder(p, 7) == Widen(a) && Remainder(product, 7) == Widen(sum)
    ensures Remainder(Sum(Selected(LowBit(b), p), product), 7) == Widen(Add(Scaled(LowBit(b), a), sum))
  {
    hide Remainder, LowBit, Sum, Add, Selected, Scaled, Widen;
    RemainderLinear(Selected(LowBit(b), p), product, 7);
    SelectedRemainder(LowBit(b), p);
    ScaledWidens(LowBit(b), a);
    AddWidens(Scaled(LowBit(b), a), sum);
  }

  /** _aes_gf_mul multiplies in the field. */
  lemma GfMulIsFieldProduct(a: bv8, b: bv8)
    ensures FieldProduct(a, b) == GfMul(a, b) as bv16
  {
    hide Remainder, PolynomialProduct, ShiftAndAdd, Fits;
    ByteFits(a as bv16);
    SmallStays(a as bv16, 7);
    LoopIsProduct(a as bv16, a, b, 8);
  }
}
