/** The two readings of a `W` token: parseWaitMs of the expander and parseStringToInt of the walker. */
module SequenceWait {
  import opened Bytes
  import opened SequenceItems
  import opened Options

  // ----- parseStringToInt -----

  predicate IsSpace(c: char) {
    c == ' ' || '\t' <= c <= '\r'
  }

  /** isspace of the C locale. */
  lemma SpaceBytes(c: char)
    ensures IsSpace(c) <==> c as int == 32 || 9 <= c as int <= 13
  {
  }

  function SkipSpaces(t: string): (r: string)
    ensures |r| <= |t|
  {
    if t != "" && IsSpace(t[0]) then SkipSpaces(t[1..]) else t
  }

  predicate HasSign(t: string) {
    t != "" && (t[0] == '+' || t[0] == '-')
  }

  function SkipSign(t: string): string {
    if HasSign(t) then t[1..] else t
  }

  predicate IsNegative(t: string) {
    t != "" && t[0] == '-'
  }

  /** What strtoull skips in front of the digits; a second hexadecimal prefix is among it. */
  function Stripped(t: string, base: nat): string {
    var unsigned := SkipSign(SkipSpaces(t));
    if base == 16 && HasHexPrefix(unsigned) then unsigned[2..] else unsigned
  }

  predicate AllDigits(t: string, base: nat) {
    forall i :: 0 <= i < |t| ==> DigitIn(t[i], base).Some?
  }

  /** The number the digits spell, continuing `value`. */
  function Number(t: string, base: nat, value: nat): nat
    requires AllDigits(t, base)
  {
    if t == "" then value else Number(t[1..], base, value * base + DigitIn(t[0], base).value)
  }

  /** A string that strtoull consumes to its end without ERANGE. */
  predicate Readable(t: string, base: nat) {
    var digits := Stripped(t, base);
    digits != "" && AllDigits(digits, base) && Number(digits, base, 0) < U64_LIMIT
  }

  /** strtoull, with 0 for every input that parseStringToInt refuses. */
  function ReadWhole(t: string, base: nat): nat {
    if !Readable(t, base) then 0
    else
      var value := Number(Stripped(t, base), base, 0);
      if IsNegative(SkipSpaces(t)) then (U64_LIMIT - value) % U64_LIMIT else value
  }

  function ParseStringToInt(arg: string): nat {
    if arg == "" then 0
    else if HasHexPrefix(arg) then if |arg| == 2 then 0 else ReadWhole(arg[2..], 16)
    else ReadWhole(arg, 10)
  }

  // ----- where they agree -----

  /** The digits at the front. */
  function DigitRun(t: string, base: nat): (r: string)
    ensures r <= t && AllDigits(r, base)
    ensures |r| < |t| ==> DigitIn(t[|r|], base).None?
  {
    if t == "" || DigitIn(t[0], base).None? then "" else [t[0]] + DigitRun(t[1..], base)
  }

  lemma {:induction false} NumberGrows(t: string, base: nat, value: nat)
    requires AllDigits(t, base) && base > 0
    ensures Number(t, base, value) >= value
  {
    hide DigitIn;
    if t == "" {
    } else {
      MulGrows(value, base);
      NumberGrows(t[1..], base, value * base + DigitIn(t[0], base).value);
    }
  }

  lemma MulGrows(value: nat, base: nat)
    requires base > 0
    ensures value * base >= value
  {
  }

  lemma OverflowTest(value: nat, digit: nat, base: nat)
    requires base in {10, 16} && digit < U64_LIMIT
    ensures value > (U64_LIMIT - 1 - digit) / base <==> value * base + digit >= U64_LIMIT
  {
  }

  /** parseWaitMs by its digits: saturated when they overflow, 0 when something follows them. */
  lemma {:induction false} WaitDigitsIs(t: string, base: nat, value: nat)
    requires base in {10, 16} && value < U64_LIMIT
    ensures WaitDigits(t, base, value)
      == var run := DigitRun(t, base);
         if Number(run, base, value) >= U64_LIMIT then U64_LIMIT - 1
         else if run == t then Number(run, base, value) else 0
  {
    hide WaitDigits, DigitIn;
    WaitStep(t, base, value);
    if t != "" && DigitIn(t[0], base).Some? {
      var next := value * base + DigitIn(t[0], base).value;
      RunStep(t, base, value);
      if next >= U64_LIMIT {
        NumberGrows(DigitRun(t[1..], base), base, next);
      } else {
        WaitDigitsIs(t[1..], base, next);
      }
    }
  }

  lemma WaitStep(t: string, base: nat, value: nat)
    requires base in {10, 16} && value < U64_LIMIT
    ensures WaitDigits(t, base, value)
      == if t == "" then value
         else if DigitIn(t[0], base).None? then 0
         else
           var next := value * base + DigitIn(t[0], base).value;
           if next >= U64_LIMIT then U64_LIMIT - 1 else WaitDigits(t[1..], base, next)
  {
    if t != "" && DigitIn(t[0], base).Some? {
      OverflowTest(value, DigitIn(t[0], base).value, base);
    }
  }

  lemma RunStep(t: string, base: nat, value: nat)
    requires t != "" && DigitIn(t[0], base).Some?
    ensures DigitRun(t, base) == [t[0]] + DigitRun(t[1..], base)
    ensures DigitRun(t, base) == t <==> DigitRun(t[1..], base) == t[1..]
    ensures Number(DigitRun(t, base), base, value)
      == Number(DigitRun(t[1..], base), base, value * base + DigitIn(t[0], base).value)
  {
    hide DigitIn;
    assert ([t[0]] + DigitRun(t[1..], base))[1..] == DigitRun(t[1..], base);
    assert t == [t[0]] + t[1..];
  }

  /** The digits behind the first prefix, and the base it chooses. */
  function Spelled(d: string): (string, nat) {
    if HasHexPrefix(d) then (d[2..], 16) else (d, 10)
  }

  /** Neither refused by the saturating reader nor accepted by the lenient one alone. */
  predicate PlainWait(t: string, base: nat) {
    && Number(DigitRun(t, base), base, 0) < U64_LIMIT
    && (Stripped(t, base) == t || !Readable(t, base) || Number(Stripped(t, base), base, 0) == 0)
  }

  lemma DigitFirst(t: string, base: nat)
    requires base in {10, 16} && t != "" && DigitIn(t[0], base).Some?
    ensures SkipSpaces(t) == t && SkipSign(t) == t && !IsNegative(t)
    ensures Stripped(t, base) != t ==> DigitRun(t, base) == "0"
  {
    if Stripped(t, base) != t {
      assert HasHexPrefix(t);
      assert DigitRun(t[1..], base) == "";
    }
  }

  lemma {:induction false} SkippedSpaces(t: string)
    ensures SkipSpaces(t) == t || |SkipSpaces(t)| < |t|
  {
  }

  /** parseWaitMs and parseStringToInt read a `W` token alike exactly when its digits do not overflow and
      it is no number that only strtoull's leniency (spaces, a sign, a second prefix) accepts. */
  lemma WaitAgrees(d: string)
    ensures ParseWaitMs(d) == ParseStringToInt(d) <==> PlainWait(Spelled(d).0, Spelled(d).1)
  {
    var t, base := Spelled(d).0, Spelled(d).1;
    hide WaitDigits, DigitRun, Number, SkipSpaces;
    WaitDigitsIs(t, base, 0);
    var run := DigitRun(t, base);
    assert Number("", base, 0) == 0 by { NoNumber(base); }
    SkippedSpaces(t);
    if t == "" {
    } else if DigitIn(t[0], base).Some? {
      DigitFirst(t, base);
      NumberZero(base);
      RunIsAll(t, base);
    } else {
      NoRun(t, base);
    }
  }

  lemma NoNumber(base: nat)
    ensures Number("", base, 0) == 0
  {
  }

  lemma NoRun(t: string, base: nat)
    requires t != "" && DigitIn(t[0], base).None?
    ensures DigitRun(t, base) == ""
  {
  }

  lemma RunIsAll(t: string, base: nat)
    ensures AllDigits(t, base) <==> DigitRun(t, base) == t
  {
  }

  lemma NumberZero(base: nat)
    requires base in {10, 16}
    ensures AllDigits("0", base) && Number("0", base, 0) == 0
  {
  }

  /** A signed wait is counted as nothing but slept. */
  lemma SignedWaitDiffers()
    ensures ParseWaitMs("+5") == 0 && ParseStringToInt("+5") == 5
  {
    assert SkipSign(SkipSpaces("+5")) == "5";
  }

  /** An overflowing wait is counted in full but not slept at all. */
  lemma OverflowingWaitDiffers(d: string)
    requires Number(DigitRun(Spelled(d).0, Spelled(d).1), Spelled(d).1, 0) >= U64_LIMIT
    ensures ParseWaitMs(d) == U64_LIMIT - 1 && ParseStringToInt(d) == 0
  {
    var t, base := Spelled(d).0, Spelled(d).1;
    hide WaitDigits, DigitRun, Number, SkipSpaces;
    WaitDigitsIs(t, base, 0);
    NoNumber(base);
    var run := DigitRun(t, base);
    assert run != "" && run[0] == t[0];
    DigitFirst(t, base);
    NumberZero(base);
    RunIsAll(t, base);
  }
}
