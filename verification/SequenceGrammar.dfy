/** The repeat syntax as a grammar, and the proof that expandItems accepts exactly its sentences and
    gives them their meaning. */
module SequenceGrammar {
  import opened SequenceItems
  import opened Options

  /** `*N`, with N as it is spelled; an item without it counts once. */
  datatype Count = Once | Times(digits: string)

  datatype Element =
    | Blank
    | Token(text: string, count: Count)
    | Group(body: seq<Element>, count: Count)

  // ----- spelling -----

  function SpellCount(c: Count): string {
    if c.Once? then "" else "*" + c.digits
  }

  function Spell(e: Element): string
    decreases e, 0
  {
    match e
    case Blank => ""
    case Token(text, count) => text + SpellCount(count)
    case Group(body, count) => "(" + SpellList(body) + ")" + SpellCount(count)
  }

  /** Elements separated by commas. */
  function SpellList(list: seq<Element>): string
    decreases list, 1
  {
    if list == [] then ""
    else if |list| == 1 then Spell(list[0])
    else Spell(list[0]) + "," + SpellList(list[1..])
  }

  // ----- meaning -----

  function DigitsValue(digits: string, value: nat): nat
    requires forall i :: 0 <= i < |digits| ==> IsDigit(digits[i])
    decreases |digits|
  {
    if digits == [] then value else DigitsValue(digits[1..], 10 * value + DigitValue(digits[0]))
  }

  function CountValue(c: Count): nat {
    if c.Once? then 1
    else if forall i :: 0 <= i < |c.digits| ==> IsDigit(c.digits[i]) then DigitsValue(c.digits, 0)
    else 0
  }

  /** (X)*N is N copies of X. */
  function Denote(e: Element): seq<string>
    decreases e, 0
  {
    match e
    case Blank => []
    case Token(text, count) => Repeat([text], CountValue(count))
    case Group(body, count) => Repeat(Meaning(body), CountValue(count))
  }

  function Meaning(list: seq<Element>): seq<string>
    decreases list, 1
  {
    if list == [] then [] else Denote(list[0]) + Meaning(list[1..])
  }

  /** Counts run from 1 to MAX_COUNT. */
  ghost predicate ValidCount(c: Count) {
    c.Times? ==>
      && c.digits != ""
      && (forall i :: 0 <= i < |c.digits| ==> IsDigit(c.digits[i]))
      && 1 <= DigitsValue(c.digits, 0) <= MAX_COUNT
  }

  ghost predicate ValidText(text: string, depth: nat) {
    && text != "" && text[0] != '('
    && (forall i :: 0 <= i < |text| ==> !EndsToken(text[i]) && !IsControl(text[i]))
    && (depth > 0 ==> '(' !in text)
  }

  /** Nesting at most MAX_DEPTH, counts in range, no empty group. */
  ghost predicate Valid(e: Element, depth: nat)
    decreases e, 0
  {
    match e
    case Blank => true
    case Token(text, count) => ValidText(text, depth) && ValidCount(count)
    case Group(body, count) =>
      depth + 1 <= MAX_DEPTH && ValidCount(count) && ValidList(body, depth + 1) && Meaning(body) != []
  }

  ghost predicate ValidList(list: seq<Element>, depth: nat)
    decreases list, 1
  {
    list != [] ==> Valid(list[0], depth) && ValidList(list[1..], depth)
  }

  // ----- every sentence is accepted, with its meaning -----

  predicate EndsItem(tail: string) {
    tail == "" || tail[0] == ','
  }

  lemma {:induction false} DigitsValueGrows(digits: string, value: nat)
    requires forall i :: 0 <= i < |digits| ==> IsDigit(digits[i])
    ensures DigitsValue(digits, value) >= value
    decreases |digits|
  {
    if digits == [] {
    } else {
      DigitsValueGrows(digits[1..], 10 * value + DigitValue(digits[0]));
    }
  }

  lemma {:induction false} DigitsParse(digits: string, value: nat, tail: string)
    requires forall i :: 0 <= i < |digits| ==> IsDigit(digits[i])
    requires DigitsValue(digits, value) <= MAX_COUNT && EndsItem(tail)
    ensures Digits(digits + tail, value) == Some((DigitsValue(digits, value), |digits|))
    decreases |digits|
  {
    var t := digits + tail;
    if digits == [] {
      assert t == tail;
    } else {
      assert t[0] == digits[0] && t[1..] == digits[1..] + tail;
      DigitsValueGrows(digits[1..], 10 * value + DigitValue(digits[0]));
      DigitsParse(digits[1..], 10 * value + DigitValue(digits[0]), tail);
    }
  }

  lemma CountParses(c: Count, tail: string)
    requires ValidCount(c) && EndsItem(tail)
    ensures CountAt(SpellCount(c) + tail) == Some((CountValue(c), |SpellCount(c)|))
  {
    if c.Times? {
      DigitsParse(c.digits, 0, tail);
      assert (SpellCount(c) + tail)[1..] == c.digits + tail;
    } else {
      assert SpellCount(c) + tail == tail;
    }
  }

  lemma {:induction false} TokenParses(text: string, tail: string)
    requires forall i :: 0 <= i < |text| ==> !EndsToken(text[i]) && !IsControl(text[i])
    requires tail == "" || EndsToken(tail[0])
    ensures TokenLength(text + tail) == Some(|text|)
    decreases |text|
  {
    if text == [] {
      assert text + tail == tail;
    } else {
      assert (text + tail)[0] == text[0] && (text + tail)[1..] == text[1..] + tail;
      TokenParses(text[1..], tail);
    }
  }

  ghost function Shift(k: nat, r: Option<nat>): Option<nat> {
    if r.None? then r else Some(k + r.value)
  }

  /** Text without parentheses does not matter to the search for the closing one. */
  lemma {:induction false} CloseSkipsPlain(x: string, rest: string, nesting: nat)
    requires nesting > 0
    requires forall i :: 0 <= i < |x| ==> x[i] != '(' && x[i] != ')' && !IsControl(x[i])
    ensures CloseAt(x + rest, nesting) == Shift(|x|, CloseAt(rest, nesting))
    decreases |x|
  {
    if x == [] {
      assert x + rest == rest;
    } else {
      assert (x + rest)[0] == x[0] && (x + rest)[1..] == x[1..] + rest;
      CloseSkipsPlain(x[1..], rest, nesting);
    }
  }

  lemma CloseSkipsCount(c: Count, rest: string, nesting: nat)
    requires nesting > 0 && ValidCount(c)
    ensures CloseAt(SpellCount(c) + rest, nesting) == Shift(|SpellCount(c)|, CloseAt(rest, nesting))
  {
    hide CloseAt;
    CloseSkipsPlain(SpellCount(c), rest, nesting);
  }

  lemma TokenSpelling(text: string, count: Count, rest: string)
    ensures Spell(Token(text, count)) + rest == text + (SpellCount(count) + rest)
    ensures |Spell(Token(text, count))| == |text| + |SpellCount(count)|
  {
  }

  lemma GroupSpelling(body: seq<Element>, count: Count, rest: string)
    ensures Spell(Group(body, count)) + rest == "(" + (SpellList(body) + (")" + (SpellCount(count) + rest)))
    ensures |Spell(Group(body, count))| == 2 + |SpellList(body)| + |SpellCount(count)|
  {
    hide SpellList, SpellCount;
  }

  /** Inside a group every element is balanced. */
  lemma {:induction false} CloseSkipsElement(e: Element, depth: nat, rest: string, nesting: nat)
    requires nesting > 0 && depth > 0 && Valid(e, depth)
    ensures CloseAt(Spell(e) + rest, nesting) == Shift(|Spell(e)|, CloseAt(rest, nesting))
    decreases e, 0
  {
    hide CloseAt, CountValue, Meaning, SpellCount, SpellList;
    match e
    case Blank =>
      assert "" + rest == rest;
    case Token(text, count) =>
      TokenSpelling(text, count, rest);
      CloseSkipsPlain(text, SpellCount(count) + rest, nesting);
      CloseSkipsCount(count, rest, nesting);
    case Group(body, count) =>
      var after := SpellCount(count) + rest;
      GroupSpelling(body, count, rest);
      CloseSkipsList(body, depth + 1, ")" + after, nesting + 1);
      CloseSkipsCount(count, rest, nesting);
      CloseOfGroup(SpellList(body), after, nesting);
  }

  lemma CloseOfGroup(inner: string, after: string, nesting: nat)
    requires nesting > 0
    requires CloseAt(inner + (")" + after), nesting + 1) == Shift(|inner|, CloseAt(")" + after, nesting + 1))
    ensures CloseAt("(" + (inner + (")" + after)), nesting) == Shift(2 + |inner|, CloseAt(after, nesting))
  {
    var t := "(" + (inner + (")" + after));
    assert t[0] == '(' && t[1..] == inner + (")" + after);
    assert (")" + after)[0] == ')' && (")" + after)[1..] == after;
  }

  lemma ListSpelling(list: seq<Element>, depth: nat)
    requires ValidList(list, depth)
    ensures SpellList(list)
         == if list == [] then "" else if |list| == 1 then Spell(list[0]) else Spell(list[0]) + "," + SpellList(list[1..])
    ensures list != [] ==> Valid(list[0], depth) && ValidList(list[1..], depth)
  {
    hide Spell, Valid;
  }

  lemma {:induction false} CloseSkipsList(list: seq<Element>, depth: nat, rest: string, nesting: nat)
    requires nesting > 0 && depth > 0 && ValidList(list, depth)
    ensures CloseAt(SpellList(list) + rest, nesting) == Shift(|SpellList(list)|, CloseAt(rest, nesting))
    decreases list, 1
  {
    hide CloseAt, Spell, SpellList, Valid;
    ListSpelling(list, depth);
    if list == [] {
      assert "" + rest == rest;
    } else if |list| == 1 {
      CloseSkipsElement(list[0], depth, rest, nesting);
    } else {
      var others := SpellList(list[1..]) + rest;
      assert SpellList(list) + rest == Spell(list[0]) + ("," + others);
      CloseSkipsElement(list[0], depth, "," + others, nesting);
      CloseSkipsPlain(",", others, nesting);
      CloseSkipsList(list[1..], depth, rest, nesting);
    }
  }

  lemma {:induction false} ItemParses(e: Element, depth: nat, tail: string)
    requires Valid(e, depth) && EndsItem(tail) && Spell(e) + tail != ""
    ensures Item(Spell(e) + tail, depth) == Some((Denote(e), |Spell(e)|))
    decreases e, 0
  {
    hide Item, Items, CountAt, CountValue, SpellCount, SpellList, CloseAt, Meaning;
    match e
    case Blank =>
      BlankParses(depth, tail);
    case Token(text, count) =>
      TokenItemParses(text, count, depth, tail);
    case Group(body, count) =>
      var inner, after := SpellList(body), SpellCount(count) + tail;
      CloseSkipsList(body, depth + 1, ")" + after, 1);
      ClosesHere(after);
      CountParses(count, tail);
      ListParses(body, depth + 1);
      GroupSpelling(body, count, tail);
      GroupItemParses(inner, after, depth);
  }

  lemma BlankParses(depth: nat, tail: string)
    requires EndsItem(tail) && tail != ""
    ensures Item("" + tail, depth) == Some(([], 0))
  {
    assert "" + tail == tail == tail[0..];
    assert tail[0] == ',';
    assert TokenLength(tail) == Some(0);
    assert CountAt(tail[0..]) == Some((1, 0));
  }

  lemma TokenItemParses(text: string, count: Count, depth: nat, tail: string)
    requires ValidText(text, depth) && ValidCount(count) && EndsItem(tail)
    ensures Item(text + SpellCount(count) + tail, depth)
         == Some((Repeat([text], CountValue(count)), |text| + |SpellCount(count)|))
  {
    hide TokenLength, CountAt, Items, CountValue, Repeat;
    var t := text + (SpellCount(count) + tail);
    assert text + SpellCount(count) + tail == t && t[0] == text[0];
    TokenParses(text, SpellCount(count) + tail);
    assert t[|text|..] == SpellCount(count) + tail && t[..|text|] == text;
    CountParses(count, tail);
  }

  lemma GroupItemParses(inner: string, after: string, depth: nat)
    requires CloseAt(inner + (")" + after), 1) == Some(|inner|)
    requires depth + 1 <= MAX_DEPTH && CountAt(after).Some? && Items(inner, depth + 1).Some?
    requires Items(inner, depth + 1).value != []
    ensures Item("(" + (inner + (")" + after)), depth)
         == Some((Repeat(Items(inner, depth + 1).value, CountAt(after).value.0), 2 + |inner| + CountAt(after).value.1))
  {
    hide CloseAt, CountAt, Items, Repeat;
    var t := "(" + (inner + (")" + after));
    assert t[0] == '(' && t[1..] == inner + (")" + after);
    assert t[1..1 + |inner|] == inner && t[2 + |inner|..] == after;
  }

  lemma ClosesHere(after: string)
    ensures CloseAt(")" + after, 1) == Some(0)
  {
  }

  /** A spelled sequence stands for its meaning. */
  lemma {:induction false} ListParses(list: seq<Element>, depth: nat)
    requires ValidList(list, depth)
    ensures Items(SpellList(list), depth) == Some(Meaning(list))
    decreases list, 1
  {
    hide Item, Spell, Denote, Valid;
    var t := SpellList(list);
    if list == [] {
    } else if |list| == 1 {
      assert Spell(list[0]) + "" == t;
      assert Meaning(list[1..]) == [];
      assert Denote(list[0]) + [] == Denote(list[0]);
      if t == "" {
        OnlyBlank(list[0], depth);
      } else {
        ItemParses(list[0], depth, "");
      }
    } else {
      var tail := "," + SpellList(list[1..]);
      assert t == Spell(list[0]) + tail;
      ItemParses(list[0], depth, tail);
      assert t[|Spell(list[0])| + 1..] == SpellList(list[1..]);
      ListParses(list[1..], depth);
    }
  }

  lemma OnlyBlank(e: Element, depth: nat)
    requires Valid(e, depth) && Spell(e) == ""
    ensures Denote(e) == []
  {
  }

  // ----- everything accepted is a sentence -----

  function Net(t: string): int {
    if t == [] then 0 else (if t[0] == '(' then 1 else if t[0] == ')' then -1 else 0) + Net(t[1..])
  }

  lemma {:induction false} NetConcat(a: string, b: string)
    ensures Net(a + b) == Net(a) + Net(b)
    decreases |a|
  {
    if a == [] {
      assert a + b == b;
    } else {
      assert (a + b)[0] == a[0] && (a + b)[1..] == a[1..] + b;
      NetConcat(a[1..], b);
    }
  }

  /** What stands before the closing parenthesis is balanced. */
  lemma {:induction false} NetBeforeClose(t: string, nesting: nat)
    requires nesting > 0 && CloseAt(t, nesting).Some?
    ensures Net(t[..CloseAt(t, nesting).value]) == 1 - nesting
    decreases |t|
  {
    var k := CloseAt(t, nesting).value;
    if k == 0 {
    } else {
      var next: nat := if t[0] == '(' then nesting + 1 else if t[0] == ')' then nesting - 1 else nesting;
      NetBeforeClose(t[1..], next);
      assert t[..k][1..] == t[1..][..k - 1];
    }
  }

  lemma {:induction false} TokenChars(t: string)
    requires TokenLength(t).Some?
    ensures forall i :: 0 <= i < TokenLength(t).value ==> !EndsToken(t[i]) && !IsControl(t[i])
    ensures TokenLength(t).value < |t| ==> EndsToken(t[TokenLength(t).value])
    ensures Net(t[..TokenLength(t).value]) >= 0
    ensures Net(t[..TokenLength(t).value]) == 0 ==> '(' !in t[..TokenLength(t).value]
    decreases |t|
  {
    var n := TokenLength(t).value;
    if n == 0 {
    } else {
      TokenChars(t[1..]);
      assert t[..n][1..] == t[1..][..n - 1];
      assert t[..n] == [t[0]] + t[1..][..n - 1];
      forall i | 0 <= i < n
        ensures !EndsToken(t[i]) && !IsControl(t[i])
      {
        assert i > 0 ==> t[i] == t[1..][i - 1];
      }
    }
  }

  lemma {:induction false} DigitChars(t: string, value: nat)
    requires Digits(t, value).Some?
    ensures var n := Digits(t, value).value.1;
            && (forall i :: 0 <= i < n ==> IsDigit(t[i]))
            && DigitsValue(t[..n], value) == Digits(t, value).value.0
            && Net(t[..n]) == 0
    ensures value <= MAX_COUNT ==> Digits(t, value).value.0 <= MAX_COUNT
    decreases |t|
  {
    var n := Digits(t, value).value.1;
    if n == 0 {
    } else {
      DigitChars(t[1..], 10 * value + DigitValue(t[0]));
      assert t[..n][1..] == t[1..][..n - 1];
      forall i | 0 <= i < n
        ensures IsDigit(t[i])
      {
        assert i > 0 ==> t[i] == t[1..][i - 1];
      }
    }
  }

  lemma CountSpelled(t: string) returns (c: Count)
    requires CountAt(t).Some?
    ensures ValidCount(c) && SpellCount(c) == t[..CountAt(t).value.1] && CountValue(c) == CountAt(t).value.0
    ensures Net(SpellCount(c)) == 0
  {
    if t == [] || t[0] != '*' {
      c := Once;
    } else {
      DigitChars(t[1..], 0);
      var n := Digits(t[1..], 0).value.1;
      c := Times(t[1..][..n]);
      assert SpellCount(c)[1..] == c.digits;
      assert t[..1 + n] == "*" + t[1..][..n];
    }
  }

  /** The '(' that tokens of this list contain. */
  function Opens(list: seq<Element>): int {
    if list == [] then 0 else OpensOf(list[0]) + Opens(list[1..])
  }

  function OpensOf(e: Element): int {
    if e.Token? then Net(e.text) else 0
  }

  /** Valid but for the '(' inside its tokens. */
  ghost predicate Loose(e: Element, depth: nat) {
    OpensOf(e) >= 0 && if e.Token? then Valid(e, 0) && (OpensOf(e) == 0 ==> Valid(e, depth)) else Valid(e, depth)
  }

  ghost predicate LooseList(list: seq<Element>, depth: nat) {
    list != [] ==> Loose(list[0], depth) && LooseList(list[1..], depth)
  }

  lemma {:induction false} Tighten(list: seq<Element>, depth: nat)
    requires LooseList(list, depth)
    ensures Opens(list) >= 0
    ensures Opens(list) == 0 || depth == 0 ==> ValidList(list, depth)
  {
    hide Valid;
    if list == [] {
    } else {
      Tighten(list[1..], depth);
    }
  }

  lemma StartsPlain(t: string, depth: nat)
    requires t != [] && Item(t, depth).Some?
    ensures t[0] != ')'
  {
  }

  lemma TokenSpelled(t: string, depth: nat) returns (e: Element)
    requires t != [] && t[0] != '(' && Item(t, depth).Some?
    ensures !e.Group? && Loose(e, depth) && Spell(e) == t[..Item(t, depth).value.1]
    ensures OpensOf(e) == Net(Spell(e)) && Denote(e) == Item(t, depth).value.0
  {
    hide TokenLength, CountAt, Items, Repeat, CountValue, Item, SpellCount, ValidCount;
    StartsPlain(t, depth);
    TokenItem(t, depth);
    TokenChars(t);
    var length, n := TokenLength(t).value, Item(t, depth).value.1;
    var c := CountSpelled(t[length..]);
    if length == 0 {
      e := Blank;
      assert CountAt(t).value.1 == 0 by { assert t[0..] == t; }
    } else {
      var text := t[..length];
      e := Token(text, c);
      assert t[..n] == text + SpellCount(c);
      NetConcat(text, SpellCount(c));
    }
  }

  lemma GroupNet(inner: string, count: string)
    requires Net(inner) == 0 && Net(count) == 0
    ensures Net("(" + inner + ")" + count) == 0
  {
    NetConcat("(" + inner + ")", count);
    NetConcat("(" + inner, ")");
    NetConcat("(", inner);
  }

  lemma {:induction false} ParseItem(t: string, depth: nat) returns (e: Element)
    requires t != [] && Item(t, depth).Some?
    ensures Loose(e, depth) && Spell(e) == t[..Item(t, depth).value.1]
    ensures OpensOf(e) == Net(Spell(e)) && Denote(e) == Item(t, depth).value.0
    decreases |t|, 0
  {
    hide CloseAt, CountAt, Items, Repeat, CountValue, Net, TokenLength, SpellList, Meaning;
    if t[0] == '(' {
      var close, n := CloseAt(t[1..], 1).value, Item(t, depth).value.1;
      var inner := t[1..1 + close];
      NetBeforeClose(t[1..], 1);
      assert t[1..][..close] == inner;
      var body := ParseList(inner, depth + 1);
      Tighten(body, depth + 1);
      var c := CountSpelled(t[2 + close..]);
      e := Group(body, c);
      assert t[1 + close] == t[1..][close] == ')';
      assert t[..n] == "(" + inner + ")" + SpellCount(c);
      GroupNet(inner, SpellCount(c));
    } else {
      e := TokenSpelled(t, depth);
    }
  }

  /** The facts about a list that grows at the front. */
  lemma Prepend(e: Element, rest: seq<Element>, depth: nat)
    ensures Opens([e] + rest) == OpensOf(e) + Opens(rest) && Meaning([e] + rest) == Denote(e) + Meaning(rest)
    ensures LooseList([e] + rest, depth) <==> Loose(e, depth) && LooseList(rest, depth)
    ensures SpellList([e] + rest) == if rest == [] then Spell(e) else Spell(e) + "," + SpellList(rest)
  {
    hide Spell, Loose, Denote, OpensOf;
    assert ([e] + rest)[1..] == rest;
  }

  lemma {:induction false} ParseList(t: string, depth: nat) returns (list: seq<Element>)
    requires Items(t, depth).Some?
    ensures LooseList(list, depth) && SpellList(list) == t && Opens(list) == Net(t)
    ensures Meaning(list) == Items(t, depth).value
    decreases |t|, 1
  {
    hide Item, Loose, Denote, Spell, LooseList, SpellList, Opens, OpensOf, Net, Meaning;
    Nothing(depth);
    if t == [] {
      list := [];
      return;
    }
    var n := Item(t, depth).value.1;
    var e := ParseItem(t, depth);
    if n == |t| {
      list := [e] + [];
      Prepend(e, [], depth);
      assert t[..n] == t;
      assert Item(t, depth).value.0 + [] == Item(t, depth).value.0;
    } else {
      var rest := ParseList(t[n + 1..], depth);
      if rest == [] {
        rest := [Blank];
        BlankList(depth);
      }
      list := [e] + rest;
      Prepend(e, rest, depth);
      assert t == t[..n] + "," + t[n + 1..];
      NetConcat(t[..n] + ",", t[n + 1..]);
      NetConcat(t[..n], ",");
      CommaNet();
    }
  }

  lemma Nothing(depth: nat)
    ensures LooseList([], depth) && SpellList([]) == "" && Opens([]) == Net("") == 0 && Meaning([]) == []
    ensures Items("", depth) == Some([])
  {
  }

  lemma BlankList(depth: nat)
    ensures LooseList([Blank], depth) && SpellList([Blank]) == "" && Opens([Blank]) == Net("") && Meaning([Blank]) == []
  {
    assert [Blank][1..] == [];
  }

  lemma CommaNet()
    ensures Net(",") == 0
  {
    assert ","[1..] == "";
  }

  /** A string is accepted exactly when it spells a valid list, and stands for that list's meaning. */
  lemma AcceptedIffSentence(t: string, tokens: seq<string>)
    ensures Items(t, 0) == Some(tokens)
            <==> exists list :: ValidList(list, 0) && SpellList(list) == t && Meaning(list) == tokens
  {
    hide Items, ValidList, SpellList, Meaning, LooseList;
    if Items(t, 0) == Some(tokens) {
      var list := ParseList(t, 0);
      Tighten(list, 0);
      assert ValidList(list, 0);
    }
    forall list | ValidList(list, 0) && SpellList(list) == t && Meaning(list) == tokens
      ensures Items(t, 0) == Some(tokens)
    {
      ListParses(list, 0);
    }
  }
}
