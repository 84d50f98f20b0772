/** AES-128 on one block: the decryption of the client against the Cipher of FIPS 197. */
module Aes {
  import opened GaloisField

  // ----- the S-box -----

  /** The row of a table that the high four bits of x select. */
  function Row(x: bv8,
      r0: bv128, r1: bv128, r2: bv128, r3: bv128, r4: bv128, r5: bv128, r6: bv128, r7: bv128,
      r8: bv128, r9: bv128, r10: bv128, r11: bv128, r12: bv128, r13: bv128, r14: bv128, r15: bv128): bv128
  {
    if x & 0x80 == 0 then
      if x & 0x40 == 0 then
        if x & 0x20 == 0 then if x & 0x10 == 0 then r0 else r1 else if x & 0x10 == 0 then r2 else r3
      else
        if x & 0x20 == 0 then if x & 0x10 == 0 then r4 else r5 else if x & 0x10 == 0 then r6 else r7
    else
      if x & 0x40 == 0 then
        if x & 0x20 == 0 then if x & 0x10 == 0 then r8 else r9 else if x & 0x10 == 0 then r10 else r11
      else
        if x & 0x20 == 0 then if x & 0x10 == 0 then r12 else r13 else if x & 0x10 == 0 then r14 else r15
  }

  /** The byte of a row that the low four bits of x select, counted from the left. */
  function Pick(x: bv8, row: bv128): bv8 {
    var half: bv64 := if x & 8 == 0 then (row >> 64) as bv64 else (row & 0xFFFF_FFFF_FFFF_FFFF) as bv64;
    var quarter: bv32 := if x & 4 == 0 then (half >> 32) as bv32 else (half & 0xFFFF_FFFF) as bv32;
    var pair: bv16 := if x & 2 == 0 then (quarter >> 16) as bv16 else (quarter & 0xFFFF) as bv16;
    if x & 1 == 0 then (pair >> 8) as bv8 else (pair & 0xFF) as bv8
  }

  /** _AES_SBOX, sixteen entries to a row. */
  function SBox(x: bv8): bv8 {
    Pick(x,
      Row(x,
        0x637C777BF26B6FC53001672BFED7AB76, 0xCA82C97DFA5947F0ADD4A2AF9CA472C0,
        0xB7FD9326363FF7CC34A5E5F171D83115, 0x04C723C31896059A071280E2EB27B275,
        0x09832C1A1B6E5AA0523BD6B329E32F84, 0x53D100ED20FCB15B6ACBBE394A4C58CF,
        0xD0EFAAFB434D338545F9027F503C9FA8, 0x51A3408F929D38F5BCB6DA2110FFF3D2,
        0xCD0C13EC5F974417C4A77E3D645D1973, 0x60814FDC222A908846EEB814DE5E0BDB,
        0xE0323A0A4906245CC2D3AC629195E479, 0xE7C8376D8DD54EA96C56F4EA657AAE08,
        0xBA78252E1CA6B4C6E8DD741F4BBD8B8A, 0x703EB5664803F60E613557B986C11D9E,
        0xE1F8981169D98E949B1E87E9CE5528DF, 0x8CA1890DBFE6426841992D0FB054BB16))
  }

  function Turned(b: bv8): bv8 {
    (b << 1) | (b >> 7)
  }

  /** The affine transformation of section 5.1.1 of FIPS 197. */
  function Affine(b: bv8): bv8 {
    var t1 := Turned(b);
    var t2 := Turned(t1);
    var t3 := Turned(t2);
    b ^ t1 ^ t2 ^ t3 ^ Turned(t3) ^ 0x63
  }

  /** The inverse of the transformation. */
  function Unaffine(b: bv8): bv8 {
    var t1 := Turned(b);
    var t3 := Turned(Turned(t1));
    t1 ^ t3 ^ Turned(Turned(Turned(t3))) ^ 0x05
  }

  lemma AffineUndone(b: bv8)
    ensures Affine(Unaffine(b)) == b
  {
  }

  /** The powers of 3, as a table for the proofs, and their exponents from 1 to 255. */
  function Exp(x: bv8): bv8 {
    Pick(x,
      Row(x,
        0x0103050F113355FF1A2E7296A1F81335, 0x5FE13848D87395A4F702060A1E2266AA,
        0xE5345CE43759EB266ABED97090ABE631, 0x53F5040C143C44CC4FD168B8D36EB2CD,
        0x4CD467A9E03B4DD762A6F10818287888, 0x839EB9D06BBDDC7F8198B3CE49DB769A,
        0xB5C457F9103050F00B1D2769BBD661A3, 0xFE192B7D8792ADEC2F7193AEE92060A0,
        0xFB163A4ED26DB7C25DE73256FA153F41, 0xC35EE23D47C940C05BED2C749CBFDA75,
        0x9FBAD564ACEF2A7E829DBCDF7A8E8980, 0x9BB6C158E82365AFEA256FB1C843C554,
        0xFC1F2163A5F407091B2D7799B0CB46CA, 0x45CF4ADE798B8691A8E33E42C651F30E,
        0x12365AEE297B8D8C8F8A8594A7F20D17, 0x394BDD7C8497A2FD1C246CB4C752F601))
  }

  function Log(x: bv8): bv8 {
    Pick(x,
      Row(x,
        0x00FF190132021AC64BC71B6833EEDF03, 0x6404E00E348D81EF4C7108C8F8691CC1,
        0x7DC21DB5F9B9276A4DE4A6729AC90978, 0x652F8A05210FE12412F082453593DA8E,
        0x968FDBBD36D0CE94135CD2F140468338, 0x66DDFD30BF068B62B325E29822889110,
        0x7E6E48C3A3B61E423A6B2854FA853DBA, 0x2B790A159B9F5ECA4ED4ACE5F373A757,
        0xAF58A850F4EAD6744FAEE9D5E7E6ADE8, 0x2CD7757AEB160BF559CB5FB09CA951A0,
        0x7F0CF66F17C449ECD8431F2DA4767BB7, 0xCCBB3E5AFB60B1863B52A16CAA55299D,
        0x97B2879061BEDCFCBC95CFCD373F5BD1, 0x5339843C41A26D47142A9E5D56F2D3AB,
        0x441192D923202E89B47CB8267799E3A5, 0x674AEDDEC531FE180D638C80C0F77007))
  }

  lemma ExpOfLog(x: bv8)
    requires x != 0
    ensures Exp(Log(x)) == x && Log(x) != 0
  {
  }

  lemma ExpNonzero(k: bv8)
    ensures Exp(k) != 0 && Exp(0) == 1 && Exp(255) == 1
  {
  }

  lemma LogOfTriple(k: bv8)
    requires k != 255
    ensures Log(Add(XTime(Exp(k)), Exp(k))) == k + 1
  {
  }

  /** The exponents of a byte and of what the S-box makes its inverse add up to 255. */
  lemma LogOfUnboxed(k: bv8)
    requires k != 0 && k != 255
    ensures Log(Unaffine(SBox(Exp(k)))) == 255 - k && Unaffine(SBox(Exp(k))) != 0
  {
  }

  lemma UnboxedOfOne()
    ensures Unaffine(SBox(1)) == 1 && Unaffine(SBox(0)) == 0
  {
  }

  lemma Triple(x: bv8)
    ensures GfMul(x, 3) == Add(XTime(x), x)
  {
    hide GfMul;
    assert Add(XTime(1), 1) == 3;
    hide Add, XTime;
    ProductAdds(x, XTime(1), 1);
    TimesXTime(x, 1);
    TimesOne(x);
  }

  lemma ExpNext(k: bv8)
    requires k != 255
    ensures Exp(k + 1) == GfMul(Exp(k), 3)
  {
    hide Exp, Log, GfMul, XTime, Add;
    Triple(Exp(k));
    LogOfTriple(k);
    TripleNonzero(Exp(k));
    ExpNonzero(k);
    ExpOfLog(Add(XTime(Exp(k)), Exp(k)));
  }

  lemma TripleNonzero(x: bv8)
    ensures x != 0 ==> Add(XTime(x), x) != 0
  {
  }

  function PowerOfThree(n: nat): bv8 {
    if n == 0 then 1 else GfMul(PowerOfThree(n - 1), 3)
  }

  lemma {:induction false} PowersAdd(a: nat, b: nat)
    ensures GfMul(PowerOfThree(a), PowerOfThree(b)) == PowerOfThree(a + b)
  {
    hide GfMul;
    if b == 0 {
      TimesOne(PowerOfThree(a));
    } else {
      PowersAdd(a, b - 1);
      ProductAssociates(PowerOfThree(a), PowerOfThree(b - 1), 3);
    }
  }

  lemma {:induction false} ExpIsPower(k: bv8)
    ensures Exp(k) == PowerOfThree(k as nat)
    decreases k
  {
    hide Exp, GfMul;
    ExpNonzero(0);
    if k == 0 {
    } else {
      ExpIsPower(k - 1);
      ExpNext(k - 1);
    }
  }

  lemma ExponentsAdd(k: bv8)
    ensures GfMul(Exp(k), Exp(255 - k)) == 1 && GfMul(Exp(255 - k), Exp(k)) == 1
  {
    hide Exp, GfMul, PowerOfThree;
    var n := k as nat;
    assert (255 - k) as nat == 255 - n;
    ExpIsPower(k);
    ExpIsPower(255 - k);
    ExpIsPower(255);
    ExpNonzero(0);
    PowersAdd(n, 255 - n);
    PowersAdd(255 - n, n);
  }

  lemma InverseExists(x: bv8)
    requires x != 0
    ensures GfMul(x, Unaffine(SBox(x))) == 1 && GfMul(Unaffine(SBox(x)), x) == 1
  {
    hide Exp, Log, GfMul, SBox, Unaffine;
    var k := Log(x);
    ExpOfLog(x);
    ExpNonzero(0);
    UnboxedOfOne();
    TimesOne(1);
    if k != 255 {
      LogOfUnboxed(k);
      ExpOfLog(Unaffine(SBox(x)));
      ExponentsAdd(k);
    }
  }

  /** Section 5.1.1 of FIPS 197: the S-box is the affine transformation of the inverse in the field, where 0 counts as
      its own inverse. */
  lemma SBoxIsAffineInverse(x: bv8, y: bv8)
    requires if x == 0 then y == 0 else GfMul(x, y) == 1
    ensures SBox(x) == Affine(y)
  {
    hide SBox, Affine, Unaffine, GfMul;
    AffineUndone(SBox(x));
    var z := Unaffine(SBox(x));
    UnboxedOfOne();
    if x != 0 {
      InverseExists(x);
      ProductAssociates(z, x, y);
      TimesOne(z);
      TimesOne(y);
    }
  }

  /** The inverse as a table, for the proofs. */
  function Unboxed(x: bv8): bv8 {
    Pick(x,
      Row(x,
        0x52096AD53036A538BF40A39E81F3D7FB, 0x7CE339829B2FFF87348E4344C4DEE9CB,
        0x547B9432A6C2233DEE4C950B42FAC34E, 0x082EA16628D924B2765BA2496D8BD125,
        0x72F8F66486689816D4A45CCC5D65B692, 0x6C704850FDEDB9DA5E154657A78D9D84,
        0x90D8AB008CBCD30AF7E45805B8B34506, 0xD02C1E8FCA3F0F02C1AFBD0301138A6B,
        0x3A9111414F67DCEA97F2CFCEF0B4E673, 0x96AC7422E7AD3585E2F937E81C75DF6E,
        0x47F11A711D29C5896FB7620EAA18BE1B, 0xFC563E4BC6D279209ADBC0FE78CD5AF4,
        0x1FDDA8338807C731B11210592780EC5F, 0x60517FA919B54A0D2DE57A9F93C99CEF,
        0xA0E03B4DAE2AF5B0C8EBBB3C83539961, 0x172B047EBA77D626E169146355210C7D))
  }

  lemma Unboxes(x: bv8)
    ensures Unboxed(SBox(x)) == x
  {
  }

  lemma Boxes(x: bv8)
    ensures SBox(Unboxed(x)) == x
  {
  }

  /** _AES_SBOX.index(y): the first entry from `from` on that is y. */
  function IndexOf(y: bv8, from: bv8): bv8
    decreases 255 - from
  {
    if SBox(from) == y || from == 255 then from else IndexOf(y, from + 1)
  }

  function InvSBox(y: bv8): bv8 {
    IndexOf(y, 0)
  }

  lemma {:induction false} IndexFound(x: bv8, from: bv8)
    requires from <= x
    ensures IndexOf(SBox(x), from) == x
    decreases 255 - from
  {
    hide SBox, Unboxed;
    Unboxes(x);
    Unboxes(from);
    if from == x {
    } else {
      IndexFound(x, from + 1);
    }
  }

  /** The derived table inverts the S-box, and the S-box is a permutation. */
  lemma InvSBoxInverts(x: bv8)
    ensures InvSBox(SBox(x)) == x && SBox(InvSBox(x)) == x
  {
    hide SBox, Unboxed;
    IndexFound(x, 0);
    IndexFound(Unboxed(x), 0);
    Boxes(x);
  }

  // ----- columns as polynomials -----

  /** Four bytes of a column, from some row on, cyclically; or the coefficients they are multiplied with. */
  datatype Word = Word(x0: bv8, x1: bv8, x2: bv8, x3: bv8)

  const MIX := Word(2, 3, 1, 1)
  const UNMIX := Word(14, 11, 13, 9)

  function Sum4(a: bv8, b: bv8, c: bv8, d: bv8): bv8 {
    Add(Add(Add(a, b), c), d)
  }

  function Dot(k: Word, a: Word): bv8 {
    Sum4(GfMul(a.x0, k.x0), GfMul(a.x1, k.x1), GfMul(a.x2, k.x2), GfMul(a.x3, k.x3))
  }

  function Turn(a: Word): Word {
    Word(a.x1, a.x2, a.x3, a.x0)
  }

  function Back(a: Word): Word {
    Word(a.x3, a.x0, a.x1, a.x2)
  }

  /** Each byte of the column combined with those below it. */
  function Mixed(k: Word, a: Word): Word {
    Word(Dot(k, a), Dot(k, Turn(a)), Dot(k, Turn(Turn(a))), Dot(k, Back(a)))
  }

  function Scale(k: Word, c: bv8): Word {
    Word(GfMul(k.x0, c), GfMul(k.x1, c), GfMul(k.x2, c), GfMul(k.x3, c))
  }

  function Plus(k: Word, l: Word): Word {
    Word(Add(k.x0, l.x0), Add(k.x1, l.x1), Add(k.x2, l.x2), Add(k.x3, l.x3))
  }

  /** The coefficients of two mixings, one after the other: a product modulo x^4 + 1. */
  function Convolved(u: Word, k: Word): Word {
    Plus(Plus(Plus(Scale(k, u.x0), Scale(Back(k), u.x1)), Scale(Turn(Turn(k)), u.x2)), Scale(Turn(k), u.x3))
  }

  lemma Sum4Exchange(a: bv8, b: bv8, c: bv8, d: bv8, e: bv8, f: bv8, g: bv8, h: bv8)
    ensures Add(Sum4(a, b, c, d), Sum4(e, f, g, h)) == Sum4(Add(a, e), Add(b, f), Add(c, g), Add(d, h))
  {
    hide Add;
    AddExchange(Add(Add(a, b), c), d, Add(Add(e, f), g), h);
    AddExchange(Add(a, b), c, Add(e, f), g);
    AddExchange(a, b, e, f);
  }

  lemma Sum4Turns(a: bv8, b: bv8, c: bv8, d: bv8)
    ensures Sum4(b, c, d, a) == Sum4(a, b, c, d)
  {
    hide Add;
    AddLaws(Add(Add(b, c), d), a, 0);
    AddLaws(a, Add(b, c), d);
    AddLaws(a, b, c);
  }

  lemma DotTurns(k: Word, a: Word)
    ensures Dot(Turn(k), Turn(a)) == Dot(k, a)
  {
    hide Add, GfMul, Sum4;
    Sum4Turns(GfMul(a.x0, k.x0), GfMul(a.x1, k.x1), GfMul(a.x2, k.x2), GfMul(a.x3, k.x3));
  }

  lemma DotScaled(k: Word, a: Word, c: bv8)
    ensures GfMul(Dot(k, a), c) == Dot(Scale(k, c), a)
  {
    hide Add, GfMul;
    var p, q, r, s := GfMul(a.x0, k.x0), GfMul(a.x1, k.x1), GfMul(a.x2, k.x2), GfMul(a.x3, k.x3);
    ProductAdds(Add(Add(p, q), r), s, c);
    ProductAdds(Add(p, q), r, c);
    ProductAdds(p, q, c);
    ProductAssociates(a.x0, k.x0, c);
    ProductAssociates(a.x1, k.x1, c);
    ProductAssociates(a.x2, k.x2, c);
    ProductAssociates(a.x3, k.x3, c);
  }

  lemma DotPlus(k: Word, l: Word, a: Word)
    ensures Add(Dot(k, a), Dot(l, a)) == Dot(Plus(k, l), a)
  {
    hide Add, GfMul, Sum4;
    ProductAdds(a.x0, k.x0, l.x0);
    ProductAdds(a.x1, k.x1, l.x1);
    ProductAdds(a.x2, k.x2, l.x2);
    ProductAdds(a.x3, k.x3, l.x3);
    Sum4Exchange(GfMul(a.x0, k.x0), GfMul(a.x1, k.x1), GfMul(a.x2, k.x2), GfMul(a.x3, k.x3),
                 GfMul(a.x0, l.x0), GfMul(a.x1, l.x1), GfMul(a.x2, l.x2), GfMul(a.x3, l.x3));
  }

  /** Mixing twice is mixing once with the product of the coefficients. */
  lemma DotOfMixed(u: Word, k: Word, a: Word)
    ensures Dot(u, Mixed(k, a)) == Dot(Convolved(u, k), a)
  {
    hide Add, GfMul, Dot, Plus, Scale;
    var k1, k2, k3 := Back(k), Turn(Turn(k)), Turn(k);
    DotTurns(k1, a);
    DotTurns(k2, a);
    DotTurns(k3, Turn(a));
    DotTurns(k2, a);
    DotTurns(Turn(k2), Turn(a));
    DotTurns(k, Back(a));
    DotScaled(k, a, u.x0);
    DotScaled(k1, a, u.x1);
    DotScaled(k2, a, u.x2);
    DotScaled(k3, a, u.x3);
    DotPlus(Scale(k, u.x0), Scale(k1, u.x1), a);
    DotPlus(Plus(Scale(k, u.x0), Scale(k1, u.x1)), Scale(k2, u.x2), a);
    DotPlus(Plus(Plus(Scale(k, u.x0), Scale(k1, u.x1)), Scale(k2, u.x2)), Scale(k3, u.x3), a);
    DotIs(u, Mixed(k, a));
  }

  lemma DotIs(k: Word, a: Word)
    ensures Dot(k, a) == Add(Add(Add(GfMul(a.x0, k.x0), GfMul(a.x1, k.x1)), GfMul(a.x2, k.x2)), GfMul(a.x3, k.x3))
  {
    hide Add, GfMul;
  }

  lemma SmallFactors(c: bv8)
    ensures GfMul(1, c) == GfMul(c, 1) == c && GfMul(2, c) == GfMul(c, 2) == XTime(c)
    ensures GfMul(3, c) == GfMul(c, 3) == Add(c, XTime(c))
  {
    assert Add(1, 2) == 3 && XTime(1) == 2;
    hide Add, XTime, GfMul;
    TimesOne(c);
    DoubleLeft(c);
    TimesXTime(c, 1);
    ProductAdds(c, 1, 2);
    ProductAdds(1, 2, c);
  }

  lemma DoubleLeft(c: bv8)
    ensures GfMul(XTime(1), c) == XTime(GfMul(1, c))
  {
    hide ShiftAndAdd, XTime;
    LoopTimesX(1, c, 8);
  }

  lemma Sums()
    ensures XTime(14) == 28 && XTime(11) == 22 && XTime(13) == 26 && XTime(9) == 18
    ensures Add(14, 28) == 18 && Add(11, 22) == 29 && Add(13, 26) == 23 && Add(9, 18) == 27
    ensures Add(Add(Add(28, 11), 13), 27) == 1 && Add(Add(Add(18, 22), 13), 9) == 0
    ensures Add(Add(Add(14, 29), 26), 9) == 0 && Add(Add(Add(14, 11), 23), 18) == 0
    ensures Add(Add(Add(28, 27), 13), 11) == 1 && Add(Add(Add(22, 18), 9), 13) == 0
    ensures Add(Add(Add(26, 29), 14), 9) == 0 && Add(Add(Add(18, 23), 11), 14) == 0
  {
  }

  lemma Coefficients()
    ensures Convolved(UNMIX, MIX) == Word(1, 0, 0, 0)
    ensures Convolved(MIX, UNMIX) == Word(1, 0, 0, 0)
  {
    hide Add, XTime, GfMul;
    SmallFactors(14);
    SmallFactors(11);
    SmallFactors(13);
    SmallFactors(9);
    Sums();
  }

  lemma DotFirst(a: Word)
    ensures Dot(Word(1, 0, 0, 0), a) == a.x0
  {
    hide Add, GfMul;
    TimesOne(a.x0);
    ProductZero(a.x1);
    ProductZero(a.x2);
    ProductZero(a.x3);
    AddLaws(a.x0, 0, 0);
  }

  /** MixColumns and InvMixColumns undo each other, byte by byte of a column. */
  lemma MixInverts(a: Word)
    ensures Dot(UNMIX, Mixed(MIX, a)) == a.x0 && Dot(MIX, Mixed(UNMIX, a)) == a.x0
  {
    hide Dot, Convolved, Mixed;
    DotOfMixed(UNMIX, MIX, a);
    DotOfMixed(MIX, UNMIX, a);
    Coefficients();
    DotFirst(a);
  }

  // ----- the state -----

  /** A block; the state's row r and column c are at r + 4 * c. */
  type State = s: seq<bv8> | |s| == 16 witness [0, 0, 0, 0, 0, 0, 0, 0, 0, 0, 0, 0, 0, 0, 0, 0]

  function AddRoundKey(s: State, key: State): State {
    seq(16, i requires 0 <= i < 16 => Add(s[i], key[i]))
  }

  function SubBytes(s: State): State {
    seq(16, i requires 0 <= i < 16 => SBox(s[i]))
  }

  function InvSubBytes(s: State): State {
    seq(16, i requires 0 <= i < 16 => InvSBox(s[i]))
  }

  /** Where the byte at row r, column c comes from: column c + r or c - r of the same row. */
  function Left(i: nat): (j: nat)
    requires i < 16
    ensures j < 16
  {
    i % 4 + 4 * ((i / 4 + i % 4) % 4)
  }

  function Right(i: nat): (j: nat)
    requires i < 16
    ensures j < 16
  {
    i % 4 + 4 * ((i / 4 - i % 4) % 4)
  }

  lemma LeftRight(i: nat)
    requires i < 16
    ensures Left(Right(i)) == i && Right(Left(i)) == i
  {
    hide Left, Right;
    LeftAt(i);
    RightAt(i);
    LeftAt(Right(i));
    RightAt(Left(i));
    SameCell(Left(Right(i)), i);
    SameCell(Right(Left(i)), i);
  }

  lemma LeftAt(i: nat)
    requires i < 16
    ensures Left(i) % 4 == i % 4
    ensures Left(i) / 4 == if i / 4 + i % 4 < 4 then i / 4 + i % 4 else i / 4 + i % 4 - 4
  {
    Around(i / 4, i % 4);
    Cell(i % 4, (i / 4 + i % 4) % 4);
  }

  lemma RightAt(i: nat)
    requires i < 16
    ensures Right(i) % 4 == i % 4
    ensures Right(i) / 4 == if i / 4 >= i % 4 then i / 4 - i % 4 else i / 4 - i % 4 + 4
  {
    Around(i / 4, i % 4);
    Cell(i % 4, (i / 4 - i % 4) % 4);
  }

  lemma Cell(r: nat, c: nat)
    requires r < 4 && c < 4
    ensures (r + 4 * c) % 4 == r && (r + 4 * c) / 4 == c
  {
  }

  lemma Around(c: nat, r: nat)
    requires c < 4 && r < 4
    ensures (c + r) % 4 == (if c + r < 4 then c + r else c + r - 4)
    ensures (c - r) % 4 == (if c >= r then c - r else c - r + 4)
  {
  }

  /** Row r moves r places to the left. */
  function ShiftRows(s: State): State {
    seq(16, i requires 0 <= i < 16 => s[Left(i)])
  }

  function InvShiftRows(s: State): State {
    seq(16, i requires 0 <= i < 16 => s[Right(i)])
  }

  /** Sections 5.1.2 and 5.3.1 of FIPS 197, by row r and column c. */
  lemma ShiftRowsMoves(s: State, r: nat, c: nat)
    requires r < 4 && c < 4
    ensures var d := if c + r < 4 then c + r else c + r - 4;
            ShiftRows(s)[r + 4 * c] == s[r + 4 * d] && InvShiftRows(s)[r + 4 * d] == s[r + 4 * c]
  {
    hide Left, Right;
    var d := if c + r < 4 then c + r else c + r - 4;
    Cell(r, c);
    Cell(r, d);
    LeftAt(r + 4 * c);
    RightAt(r + 4 * d);
    SameCell(Left(r + 4 * c), r + 4 * d);
    SameCell(Right(r + 4 * d), r + 4 * c);
  }

  /** The byte `rows` below byte i in its column, cyclically. */
  function Down(i: nat, rows: nat): (j: nat)
    requires i < 16
    ensures j < 16 && j / 4 == i / 4
  {
    i / 4 * 4 + (i + rows) % 4
  }

  /** The column of byte i, from that byte on, cyclically. */
  function ColumnFrom(s: State, i: nat): Word
    requires i < 16
  {
    Word(s[i], s[Down(i, 1)], s[Down(i, 2)], s[Down(i, 3)])
  }

  function MixWith(k: Word, s: State): State {
    seq(16, i requires 0 <= i < 16 => Dot(k, ColumnFrom(s, i)))
  }

  /** Sections 5.1.3 and 5.3.3 of FIPS 197. */
  function MixColumns(s: State): State {
    MixWith(MIX, s)
  }

  function InvMixColumns(s: State): State {
    MixWith(UNMIX, s)
  }

  lemma DownTwice(i: nat, j: nat, k: nat)
    requires i < 16 && 0 < j <= 3 && k <= 3
    ensures Down(Down(i, j), k) == Down(i, if j + k < 4 then j + k else j + k - 4)
    ensures Down(i, 0) == i
  {
    hide Down;
    DownRow(i, j);
    DownRow(Down(i, j), k);
    DownRow(i, if j + k < 4 then j + k else j + k - 4);
    DownRow(i, 0);
    SameCell(Down(Down(i, j), k), Down(i, if j + k < 4 then j + k else j + k - 4));
    SameCell(Down(i, 0), i);
  }

  lemma DownRow(i: nat, j: nat)
    requires i < 16 && j <= 3
    ensures Down(i, j) / 4 == i / 4 && Down(i, j) % 4 == if i % 4 + j < 4 then i % 4 + j else i % 4 + j - 4
  {
    var r, c := i % 4, i / 4;
    Modulo4(c, r, j);
    Cell(if r + j < 4 then r + j else r + j - 4, c);
  }

  lemma SameCell(i: nat, j: nat)
    requires i / 4 == j / 4 && i % 4 == j % 4
    ensures i == j
  {
  }

  lemma Modulo4(c: nat, r: nat, j: nat)
    requires r < 4 && j <= 3
    ensures (4 * c + r + j) % 4 == if r + j < 4 then r + j else r + j - 4
  {
  }

  lemma ColumnDown(s: State, i: nat, j: nat)
    requires i < 16 && 0 < j <= 3
    ensures var a := ColumnFrom(s, i);
            ColumnFrom(s, Down(i, j)) == if j == 1 then Turn(a) else if j == 2 then Turn(Turn(a)) else Back(a)
  {
    hide Down;
    DownTwice(i, j, 0);
    DownTwice(i, j, 1);
    DownTwice(i, j, 2);
    DownTwice(i, j, 3);
  }

  lemma ColumnOfMixed(k: Word, s: State, i: nat)
    requires i < 16
    ensures ColumnFrom(MixWith(k, s), i) == Mixed(k, ColumnFrom(s, i))
  {
    hide Dot, Down;
    ColumnDown(s, i, 1);
    ColumnDown(s, i, 2);
    ColumnDown(s, i, 3);
  }

  lemma MixColumnsInverts(s: State)
    ensures InvMixColumns(MixColumns(s)) == s && MixColumns(InvMixColumns(s)) == s
  {
    hide Dot, ColumnFrom, Mixed;
    forall i: nat | i < 16
      ensures InvMixColumns(MixColumns(s))[i] == s[i] && MixColumns(InvMixColumns(s))[i] == s[i]
    {
      ColumnOfMixed(MIX, s, i);
      ColumnOfMixed(UNMIX, s, i);
      MixInverts(ColumnFrom(s, i));
      OwnByte(s, i);
    }
  }

  lemma OwnByte(s: State, i: nat)
    requires i < 16
    ensures ColumnFrom(s, i).x0 == s[i]
  {
  }

  lemma SubBytesInverts(s: State)
    ensures InvSubBytes(SubBytes(s)) == s && SubBytes(InvSubBytes(s)) == s
  {
    hide SBox, InvSBox;
    forall i: nat | i < 16 ensures InvSubBytes(SubBytes(s))[i] == s[i] && SubBytes(InvSubBytes(s))[i] == s[i] {
      InvSBoxInverts(s[i]);
    }
  }

  lemma ShiftRowsInverts(s: State)
    ensures InvShiftRows(ShiftRows(s)) == s && ShiftRows(InvShiftRows(s)) == s
  {
    hide Left, Right;
    forall i: nat | i < 16 ensures InvShiftRows(ShiftRows(s))[i] == s[i] && ShiftRows(InvShiftRows(s))[i] == s[i] {
      LeftRight(i);
    }
  }

  lemma AddRoundKeyInverts(s: State, key: State)
    ensures AddRoundKey(AddRoundKey(s, key), key) == s
  {
    hide Add;
    forall i: nat | i < 16 ensures AddRoundKey(AddRoundKey(s, key), key)[i] == s[i] {
      AddLaws(s[i], key[i], key[i]);
      AddLaws(key[i], 0, 0);
    }
  }

  // ----- the key schedule -----

  /** _AES_RCON, the powers of x. */
  function Rcon(i: nat): bv8 {
    if i <= 1 then 1 else XTime(Rcon(i - 1))
  }

  function SubWord(w: Word): Word {
    Word(SBox(w.x0), SBox(w.x1), SBox(w.x2), SBox(w.x3))
  }

  /** Word i of the expanded key: section 5.2 of FIPS 197. */
  function KeyWord(key: State, i: nat): Word {
    if i < 4 then Word(key[4 * i], key[4 * i + 1], key[4 * i + 2], key[4 * i + 3])
    else
      var temp := KeyWord(key, i - 1);
      Plus(KeyWord(key, i - 4),
           if i % 4 == 0 then Plus(SubWord(Turn(temp)), Word(Rcon(i / 4), 0, 0, 0)) else temp)
  }

  function ByteOf(w: Word, row: nat): bv8
    requires row < 4
  {
    if row == 0 then w.x0 else if row == 1 then w.x1 else if row == 2 then w.x2 else w.x3
  }

  function RoundKey(key: State, round: nat): State {
    seq(16, i requires 0 <= i < 16 => ByteOf(KeyWord(key, 4 * round + i / 4), i % 4))
  }

  // ----- Cipher and its inverse -----

  /** The state after a number of rounds of Cipher: section 5.1 of FIPS 197. */
  function Rounds(key: State, block: State, round: nat): State {
    if round == 0 then AddRoundKey(block, RoundKey(key, 0))
    else AddRoundKey(MixColumns(ShiftRows(SubBytes(Rounds(key, block, round - 1)))), RoundKey(key, round))
  }

  function Cipher(key: State, block: State): State {
    AddRoundKey(ShiftRows(SubBytes(Rounds(key, block, 9))), RoundKey(key, 10))
  }

  /** One round of the decryption, as the client orders its steps. */
  function InvRound(s: State, roundKey: State): State {
    InvMixColumns(AddRoundKey(InvSubBytes(InvShiftRows(s)), roundKey))
  }

  /** The state that enters round `round` of the decryption; the rounds count down from 9. */
  function InvRounds(key: State, block: State, round: nat): State
    requires round <= 9
    decreases 9 - round
  {
    if round == 9 then AddRoundKey(block, RoundKey(key, 10))
    else InvRound(InvRounds(key, block, round + 1), RoundKey(key, round + 1))
  }

  function InvCipher(key: State, block: State): State {
    AddRoundKey(InvSubBytes(InvShiftRows(InvRounds(key, block, 0))), RoundKey(key, 0))
  }

  /** Before its round r the decryption has undone everything but r rounds and one SubBytes and ShiftRows. */
  lemma {:induction false} HalfWay(key: State, block: State, round: nat)
    requires round <= 9
    ensures InvRounds(key, Cipher(key, block), round) == ShiftRows(SubBytes(Rounds(key, block, round)))
    decreases 9 - round
  {
    hide SubBytes, InvSubBytes, ShiftRows, InvShiftRows, MixColumns, InvMixColumns, AddRoundKey, RoundKey;
    if round == 9 {
      AddRoundKeyInverts(ShiftRows(SubBytes(Rounds(key, block, 9))), RoundKey(key, 10));
    } else {
      HalfWay(key, block, round + 1);
      var after := Rounds(key, block, round + 1);
      ShiftRowsInverts(SubBytes(after));
      SubBytesInverts(after);
      AddRoundKeyInverts(MixColumns(ShiftRows(SubBytes(Rounds(key, block, round)))), RoundKey(key, round + 1));
      MixColumnsInverts(ShiftRows(SubBytes(Rounds(key, block, round))));
    }
  }

  /** Decryption inverts encryption, for every key and block. */
  lemma InvCipherInverts(key: State, block: State)
    ensures InvCipher(key, Cipher(key, block)) == block
  {
    hide SubBytes, InvSubBytes, ShiftRows, InvShiftRows, AddRoundKey, RoundKey, InvRounds, Cipher;
    HalfWay(key, block, 0);
    var first := Rounds(key, block, 0);
    ShiftRowsInverts(SubBytes(first));
    SubBytesInverts(first);
    AddRoundKeyInverts(block, RoundKey(key, 0));
  }

  lemma {:induction false} HalfBack(key: State, block: State, round: nat)
    requires round <= 9
    ensures ShiftRows(SubBytes(Rounds(key, InvCipher(key, block), round))) == InvRounds(key, block, round)
  {
    hide SubBytes, InvSubBytes, ShiftRows, InvShiftRows, MixColumns, InvMixColumns, AddRoundKey, RoundKey;
    var s := InvRounds(key, block, round);
    ShiftRowsInverts(s);
    SubBytesInverts(InvShiftRows(s));
    if round == 0 {
      AddRoundKeyInverts(InvSubBytes(InvShiftRows(s)), RoundKey(key, 0));
    } else {
      HalfBack(key, block, round - 1);
      MixColumnsInverts(AddRoundKey(InvSubBytes(InvShiftRows(s)), RoundKey(key, round)));
      AddRoundKeyInverts(InvSubBytes(InvShiftRows(s)), RoundKey(key, round));
    }
  }

  /** And encryption inverts decryption: no two blocks decrypt alike. */
  lemma CipherInverts(key: State, block: State)
    ensures Cipher(key, InvCipher(key, block)) == block
  {
    hide SubBytes, ShiftRows, AddRoundKey, RoundKey, InvCipher, Rounds;
    HalfBack(key, block, 9);
    AddRoundKeyInverts(block, RoundKey(key, 10));
  }

  // ----- the client's functions -----

  const RCON: seq<bv8> := [0x00, 0x01, 0x02, 0x04, 0x08, 0x10, 0x20, 0x40, 0x80, 0x1B, 0x36]

  lemma RconTable(i: nat)
    requires 1 <= i <= 10
    ensures |RCON| == 11 && RCON[i] == Rcon(i)
  {
    XTimeOfPowers();
    assert XTime(0x1B) == 0x36;
    hide XTime;
    assert Rcon(1) == 1 && Rcon(2) == 2 && Rcon(3) == 4 && Rcon(4) == 8 && Rcon(5) == 0x10;
    assert Rcon(6) == 0x20 && Rcon(7) == 0x40 && Rcon(8) == 0x80 && Rcon(9) == 0x1B && Rcon(10) == 0x36;
  }

  lemma FirstByteOnly(w: Word, c: bv8)
    ensures Plus(w, Word(c, 0, 0, 0)) == w.(x0 := w.x0 ^ c)
  {
  }

  /** _aes_expand_key_128, word by word. */
  method ExpandKey(key: State) returns (words: seq<Word>)
    ensures |words| == 44 && forall i :: 0 <= i < 44 ==> words[i] == KeyWord(key, i)
  {
    hide SubWord, Plus, Rcon, KeyWord;
    FirstWords(key);
    words := [Word(key[0], key[1], key[2], key[3]), Word(key[4], key[5], key[6], key[7]),
              Word(key[8], key[9], key[10], key[11]), Word(key[12], key[13], key[14], key[15])];
    for i := 4 to 44
      invariant |words| == i && forall j :: 0 <= j < i ==> words[j] == KeyWord(key, j)
    {
      var temp := words[i - 1];
      if i % 4 == 0 {
        temp := AddRcon(SubWord(Turn(temp)), i / 4);
      }
      NextWord(key, i);
      words := words + [Plus(words[i - 4], temp)];
    }
  }

  method AddRcon(w: Word, i: nat) returns (r: Word)
    requires 1 <= i <= 10
    ensures r == Plus(w, Word(Rcon(i), 0, 0, 0))
  {
    RconTable(i);
    FirstByteOnly(w, RCON[i]);
    r := w.(x0 := w.x0 ^ RCON[i]);
  }

  lemma FirstWords(key: State)
    ensures forall i :: 0 <= i < 4 ==> KeyWord(key, i) == Word(key[4 * i], key[4 * i + 1], key[4 * i + 2], key[4 * i + 3])
  {
  }

  lemma NextWord(key: State, i: nat)
    requires i >= 4
    ensures var temp := KeyWord(key, i - 1);
            KeyWord(key, i)
            == Plus(KeyWord(key, i - 4),
                    if i % 4 == 0 then Plus(SubWord(Turn(temp)), Word(Rcon(i / 4), 0, 0, 0)) else temp)
  {
    hide Plus, SubWord, Turn, Rcon;
  }

  method Combine(k: Word, a: Word) returns (r: bv8)
    ensures r == Dot(k, a)
  {
    var p := ComputeGfMul(a.x0, k.x0);
    var q := ComputeGfMul(a.x1, k.x1);
    var t := ComputeGfMul(a.x2, k.x2);
    var u := ComputeGfMul(a.x3, k.x3);
    r := Sum4(p, q, t, u);
  }

  function Column(s: State, col: nat): Word
    requires col < 4
  {
    Word(s[4 * col], s[4 * col + 1], s[4 * col + 2], s[4 * col + 3])
  }

  /** The four assignments to one column. */
  method UnmixColumn(before: State, col: nat) returns (state: State)
    requires col < 4
    ensures Column(state, col) == Mixed(UNMIX, Column(before, col))
    ensures forall i: nat :: i < 16 && i / 4 != col ==> state[i] == before[i]
  {
    hide Dot;
    var a := Column(before, col);
    var b0 := Combine(Word(14, 11, 13, 9), a);
    var b1 := Combine(Word(9, 14, 11, 13), a);
    var b2 := Combine(Word(13, 9, 14, 11), a);
    var b3 := Combine(Word(11, 13, 9, 14), a);
    DotTurns(Word(9, 14, 11, 13), a);
    DotTurns(Word(13, 9, 14, 11), a);
    DotTurns(Word(9, 14, 11, 13), Turn(a));
    DotTurns(UNMIX, Back(a));
    state := before[4 * col := b0][4 * col + 1 := b1][4 * col + 2 := b2][4 * col + 3 := b3];
  }

  /** The InvMixColumns loop. */
  method UnmixColumns(before: State) returns (state: State)
    ensures state == InvMixColumns(before)
  {
    hide Mixed, Column, Dot, ColumnFrom;
    state := before;
    for col := 0 to 4
      invariant forall c: nat :: c < col ==> Column(state, c) == Mixed(UNMIX, Column(before, c))
      invariant forall i: nat :: 4 * col <= i < 16 ==> state[i] == before[i]
    {
      ghost var was: State := state;
      SameColumn(state, before, col);
      state := UnmixColumn(state, col);
      forall c: nat | c < col ensures Column(state, c) == Column(was, c) {
        SameColumn(state, was, c);
      }
    }
    forall i: nat | i < 16 ensures state[i] == InvMixColumns(before)[i] {
      ByteOfColumn(before, state, i);
    }
  }

  lemma SameColumn(s: State, u: State, col: nat)
    requires col < 4 && forall i: nat :: i < 16 && i / 4 == col ==> s[i] == u[i]
    ensures Column(s, col) == Column(u, col)
  {
  }

  lemma DownIs(col: nat, row: nat, rows: nat)
    requires col < 4 && row < 4 && rows <= 3
    ensures Down(4 * col + row, rows) == 4 * col + if row + rows < 4 then row + rows else row + rows - 4
  {
    Modulo4(col, row, rows);
  }

  lemma ByteOfColumn(before: State, state: State, i: nat)
    requires i < 16 && Column(state, i / 4) == Mixed(UNMIX, Column(before, i / 4))
    ensures state[i] == Dot(UNMIX, ColumnFrom(before, i))
  {
    hide Dot, Down;
    var row := i % 4;
    DownIs(i / 4, row, 1);
    DownIs(i / 4, row, 2);
    DownIs(i / 4, row, 3);
  }

  datatype Outcome = Plain(block: seq<bv8>) | BadBlock | BadKey

  /** _aes128_ecb_decrypt_block. */
  method DecryptBlock(key: seq<bv8>, block: seq<bv8>) returns (r: Outcome)
    ensures r.BadBlock? <==> |block| != 16
    ensures r.BadKey? <==> |block| == 16 && |key| != 16
    ensures r.Plain? ==> r.block == InvCipher(key, block) && Cipher(key, r.block) == block
    ensures r.Plain? ==> forall plain: State :: Cipher(key, plain) == block ==> r.block == plain
  {
    hide InvShiftRows, InvSubBytes, AddRoundKey, InvMixColumns, KeyWord, Cipher;
    if |block| != 16 {
      return BadBlock;
    }
    if |key| != 16 {
      return BadKey;
    }
    var words := ExpandKey(key);
    var state := AddRoundKey(block, Grid(key, words, 10));
    var round := 9;
    while round > 0
      invariant 0 <= round <= 9 && state == InvRounds(key, block, round)
    {
      var unmixed := AddRoundKey(InvSubBytes(InvShiftRows(state)), Grid(key, words, round));
      state := UnmixColumns(unmixed);
      round := round - 1;
    }
    state := AddRoundKey(InvSubBytes(InvShiftRows(state)), Grid(key, words, 0));
    CipherInverts(key, block);
    forall plain: State | Cipher(key, plain) == block ensures state == plain {
      InvCipherInverts(key, plain);
    }
    return Plain(state);
  }

  /** The grid of one round key, in block order. */
  function Grid(ghost key: State, words: seq<Word>, round: nat): (r: State)
    requires round <= 10 && |words| == 44 && forall i :: 0 <= i < 44 ==> words[i] == KeyWord(key, i)
    ensures r == RoundKey(key, round)
  {
    seq(16, i requires 0 <= i < 16 => ByteOf(words[4 * round + i / 4], i % 4))
  }
}
