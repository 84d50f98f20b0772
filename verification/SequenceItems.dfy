/** What a click sequence with repeats stands for: the scanning rules of sequence_repeat.c as
    functions on strings. */
module SequenceItems {
  import opened Bytes
  import opened Options

  const MAX_COUNT := 1000
  const MAX_DEPTH := 4
  const MAX_TOKENS := 1024

  predicate IsDigit(c: char) {
    '0' <= c <= '9'
  }

  predicate IsControl(c: char) {
    c < ' ' || c == 0x7F as char
  }

  function DigitValue(c: char): nat
    requires IsDigit(c)
  {
    c as nat - '0' as nat
  }

  lemma ControlBytes(c: char)
    ensures IsControl(c) <==> c as int < 32 || c as int == 127
  {
  }

  // ----- scanning -----

  predicate EndsToken(c: char) {
    c == ',' || c == '*' || c == ')'
  }

  /** The length of the token at the front; None when a control byte comes first. */
  function TokenLength(t: string): (r: Option<nat>)
    ensures r.Some? ==> r.value <= |t|
  {
    if t == [] || EndsToken(t[0]) then Some(0)
    else if IsControl(t[0]) then None
    else
      var rest := TokenLength(t[1..]);
      if rest.None? then None else Some(1 + rest.value)
  }

  /** The index of the ')' that brings `nesting` to zero. */
  function CloseAt(t: string, nesting: nat): (r: Option<nat>)
    requires nesting > 0
    ensures r.Some? ==> r.value < |t| && t[r.value] == ')'
    decreases |t|
  {
    if t == [] || IsControl(t[0]) then None
    else if t[0] == ')' && nesting == 1 then Some(0)
    else
      var rest := CloseAt(t[1..], if t[0] == '(' then nesting + 1 else if t[0] == ')' then nesting - 1 else nesting);
      if rest.None? then None else Some(1 + rest.value)
  }

  /** Digits at the front, continuing `value`: the number and how many there were; None above the limit. */
  function Digits(t: string, value: nat): (r: Option<(nat, nat)>)
    ensures r.Some? ==> r.value.1 <= |t|
    decreases |t|
  {
    if t == [] || !IsDigit(t[0]) then Some((value, 0))
    else
      var next := 10 * value + DigitValue(t[0]);
      if next > MAX_COUNT then None
      else
        var rest := Digits(t[1..], next);
        if rest.None? then None else Some((rest.value.0, 1 + rest.value.1))
  }

  /** The count behind an item, and the length of what spells it; an item without '*' counts once. */
  function CountAt(t: string): (r: Option<(nat, nat)>)
    ensures r.Some? ==> r.value.0 >= 1 && r.value.1 <= |t|
  {
    if t == [] || t[0] != '*' then Some((1, 0))
    else
      var digits := Digits(t[1..], 0);
      if digits.None? || digits.value.1 == 0 || digits.value.0 == 0 then None
      else Some((digits.value.0, 1 + digits.value.1))
  }

  // ----- meaning -----

  function Repeat(tokens: seq<string>, count: nat): (r: seq<string>)
    ensures |r| == |tokens| * count
  {
    if count == 0 then [] else Repeat(tokens, count - 1) + tokens
  }

  /** One item at the front of t: its tokens and its length. */
  function Item(t: string, depth: nat): (r: Option<(seq<string>, nat)>)
    requires t != []
    ensures r.Some? ==> r.value.1 <= |t|
    decreases |t|, 0
  {
    if t[0] == '(' then
      var close := CloseAt(t[1..], 1);
      if depth + 1 > MAX_DEPTH || close.None? then None
      else
        var after := 2 + close.value;
        var count, body := CountAt(t[after..]), Items(t[1..1 + close.value], depth + 1);
        if count.None? || body.None? || body.value == [] then None
        else Some((Repeat(body.value, count.value.0), after + count.value.1))
    else if t[0] == ')' then None
    else
      var length := TokenLength(t);
      if length.None? then None
      else
        var count := CountAt(t[length.value..]);
        if count.None? || (length.value == 0 && count.value.1 > 0) then None
        else
          Some((if length.value == 0 then [] else Repeat([t[..length.value]], count.value.0),
                length.value + count.value.1))
  }

  /** The tokens a (part of a) sequence stands for; None when it is malformed. */
  function Items(t: string, depth: nat): (r: Option<seq<string>>)
    decreases |t|, 1
  {
    if t == [] then Some([])
    else
      var item := Item(t, depth);
      if item.None? then None
      else if item.value.1 == |t| then Some(item.value.0)
      else if t[item.value.1] != ',' then None
      else
        var rest := Items(t[item.value.1 + 1..], depth);
        if rest.None? then None else Some(item.value.0 + rest.value)
  }

  /** Tokens joined by single commas. */
  function Join(tokens: seq<string>): string {
    if tokens == [] then ""
    else if |tokens| == 1 then tokens[0]
    else Join(tokens[..|tokens| - 1]) + "," + tokens[|tokens| - 1]
  }

  /** An item that starts with neither parenthesis. */
  lemma TokenItem(t: string, depth: nat)
    requires t != [] && t[0] != '(' && t[0] != ')'
    ensures var item, length := Item(t, depth), TokenLength(t);
            if length.None? then item.None?
            else
              var count := CountAt(t[length.value..]);
              (item.None? <==> count.None? || (length.value == 0 && count.value.1 > 0))
              && (item.Some? ==>
                    item.value == (if length.value == 0 then [] else Repeat([t[..length.value]], count.value.0),
                                   length.value + count.value.1))
  {
  }

  // ----- the time estimate -----

  function HexValue(c: char): Option<nat> {
    if IsDigit(c) then Some(DigitValue(c))
    else if 'a' <= c <= 'f' then Some(c as nat - 'a' as nat + 10)
    else if 'A' <= c <= 'F' then Some(c as nat - 'A' as nat + 10)
    else None
  }

  function DigitIn(c: char, base: nat): Option<nat> {
    if base == 16 then HexValue(c) else if IsDigit(c) then Some(DigitValue(c)) else None
  }

  /** Decimal digits stand for 0 to 9 in both bases, the letters for 10 to 15 in base 16 only. */
  lemma DigitsSpelled(k: nat, c: char)
    ensures k < 10 ==> DigitIn("0123456789"[k], 10) == Some(k)
    ensures k < 16 ==> DigitIn("0123456789abcdef"[k], 16) == DigitIn("0123456789ABCDEF"[k], 16) == Some(k)
    ensures c !in "0123456789" ==> DigitIn(c, 10) == None
    ensures c !in "0123456789abcdefABCDEF" ==> DigitIn(c, 16) == None
  {
    if '0' <= c <= '9' {
      Among(c, "0123456789");
    } else if 'a' <= c <= 'f' {
      Among(c, "abcdef");
    } else if 'A' <= c <= 'F' {
      Among(c, "ABCDEF");
    }
  }

  /** A run of consecutive characters leaves none out. */
  lemma Among(c: char, run: string)
    requires |run| > 0 && run[0] as int <= c as int < run[0] as int + |run|
    requires forall i :: 0 <= i < |run| ==> run[i] as int == run[0] as int + i
    ensures c in run
  {
    assert run[c as int - run[0] as int] == c;
  }

  predicate HasHexPrefix(t: string) {
    |t| >= 2 && t[0] == '0' && (t[1] == 'x' || t[1] == 'X')
  }

  /** parseWaitMs from the digits on: saturates at the first overflow, 0 at the first other byte. */
  function WaitDigits(t: string, base: nat, value: nat): nat
    requires base in {10, 16}
    decreases |t|
  {
    if t == [] then value
    else if DigitIn(t[0], base).None? then 0
    else
      var digit := DigitIn(t[0], base).value;
      if value > (U64_LIMIT - 1 - digit) / base then U64_LIMIT - 1
      else WaitDigits(t[1..], base, value * base + digit)
  }

  function ParseWaitMs(t: string): nat {
    if HasHexPrefix(t) then WaitDigits(t[2..], 16, 0) else WaitDigits(t, 10, 0)
  }

  /** What one token adds to the estimate, and whether the next one is a stick's y value. */
  function TokenCost(token: string, stickValueNext: bool, clickCostMs: nat): (nat, bool)
    requires token != ""
  {
    if stickValueNext then (0, false)
    else if token[0] == 'W' then (ParseWaitMs(token[1..]), false)
    else if token[0] == '+' || token[0] == '-' then (0, false)
    else if token[0] == '%' || token[0] == '&' then (0, true)
    else (clickCostMs, false)
  }

  ghost predicate NoEmpty(tokens: seq<string>) {
    forall i :: 0 <= i < |tokens| ==> tokens[i] != ""
  }

  /** The estimate for a token list, without a bound on its size. */
  function Cost(tokens: seq<string>, clickCostMs: nat): (nat, bool)
    requires NoEmpty(tokens)
  {
    if tokens == [] then (0, false)
    else
      var front := Cost(tokens[..|tokens| - 1], clickCostMs);
      var last := TokenCost(tokens[|tokens| - 1], front.1, clickCostMs);
      (front.0 + last.0, last.1)
  }

  // ----- small facts -----

  lemma {:induction false} RepeatNoEmpty(tokens: seq<string>, count: nat)
    requires NoEmpty(tokens)
    ensures NoEmpty(Repeat(tokens, count))
  {
    if count == 0 {
    } else {
      RepeatNoEmpty(tokens, count - 1);
    }
  }

  lemma {:induction false} ItemNoEmpty(t: string, depth: nat)
    requires t != []
    ensures Item(t, depth).Some? ==> NoEmpty(Item(t, depth).value.0)
    decreases |t|, 0
  {
    if Item(t, depth).Some? {
      if t[0] == '(' {
        var close := CloseAt(t[1..], 1).value;
        ItemsNoEmpty(t[1..1 + close], depth + 1);
        RepeatNoEmpty(Items(t[1..1 + close], depth + 1).value, CountAt(t[2 + close..]).value.0);
      } else {
        var length := TokenLength(t).value;
        if length > 0 {
          RepeatNoEmpty([t[..length]], CountAt(t[length..]).value.0);
        }
      }
    }
  }

  lemma {:induction false} ItemsNoEmpty(t: string, depth: nat)
    ensures Items(t, depth).Some? ==> NoEmpty(Items(t, depth).value)
    decreases |t|, 1
  {
    if t != [] && Items(t, depth).Some? {
      ItemNoEmpty(t, depth);
      var n := Item(t, depth).value.1;
      if n < |t| {
        ItemsNoEmpty(t[n + 1..], depth);
      }
    }
  }

  lemma {:induction false} JoinGrows(tokens: seq<string>, token: string)
    ensures Join(tokens + [token]) == (if tokens == [] then token else Join(tokens) + "," + token)
  {
    assert (tokens + [token])[..|tokens|] == tokens;
  }

  lemma {:induction false} JoinMonotone(a: seq<string>, b: seq<string>)
    ensures |Join(a)| <= |Join(a + b)|
    decreases |b|
  {
    if b == [] {
      assert a + b == a;
    } else {
      JoinGrows(a, b[0]);
      assert a + b == (a + [b[0]]) + b[1..];
      JoinMonotone(a + [b[0]], b[1..]);
    }
  }

  lemma CostGrows(tokens: seq<string>, token: string, clickCostMs: nat)
    requires NoEmpty(tokens) && token != ""
    ensures NoEmpty(tokens + [token])
    ensures var front := Cost(tokens, clickCostMs);
            var last := TokenCost(token, front.1, clickCostMs);
            Cost(tokens + [token], clickCostMs) == (front.0 + last.0, last.1)
  {
    assert (tokens + [token])[..|tokens|] == tokens;
  }
}
