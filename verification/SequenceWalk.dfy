/** The other side: sequenceTokenNext splits the expanded text in place, clickSequence executes it. */
module SequenceWalk {
  import opened Bytes
  import opened SequenceItems
  import opened SequenceGrammar
  import opened SequenceExpand
  import opened SequenceWait
  import opened Options

  // ----- splitting -----

  /** The non-empty pieces between commas. */
  function Split(s: string): seq<string>
    decreases |s|
  {
    if s == "" then []
    else if s[0] == ',' then Split(s[1..])
    else
      var n := PieceLength(s);
      [s[..n]] + Split(s[n..])
  }

  function PieceLength(s: string): (n: nat)
    ensures n <= |s|
    ensures forall i :: 0 <= i < n ==> s[i] != ','
    ensures n < |s| ==> s[n] == ','
    ensures s != "" && s[0] != ',' ==> n > 0
  {
    if s == "" || s[0] == ',' then 0 else 1 + PieceLength(s[1..])
  }

  lemma PieceLengthIs(s: string, n: nat)
    requires n <= |s| && (n < |s| ==> s[n] == ',')
    requires forall i :: 0 <= i < n ==> s[i] != ','
    ensures PieceLength(s) == n
  {
  }

  /** Walking a join of non-empty, comma-free tokens yields those tokens. */
  lemma {:induction false} SplitJoin(tokens: seq<string>)
    requires forall i :: 0 <= i < |tokens| ==> tokens[i] != "" && ',' !in tokens[i]
    ensures Split(Join(tokens)) == tokens
  {
    hide Join;
    if tokens == [] {
      JoinFront("", []);
    } else {
      JoinFront(tokens[0], tokens[1..]);
      assert tokens == [tokens[0]] + tokens[1..];
      var s := Join(tokens);
      PieceLengthIs(s, |tokens[0]|);
      assert s[..|tokens[0]|] == tokens[0];
      SplitJoin(tokens[1..]);
      if tokens[1..] != [] {
        assert s[|tokens[0]|..][1..] == Join(tokens[1..]);
      }
    }
  }

  lemma {:induction false} JoinFront(head: string, rest: seq<string>)
    ensures Join([]) == ""
    ensures Join([head] + rest) == if rest == [] then head else head + "," + Join(rest)
  {
    hide Join;
    JoinOne(head);
    if rest == [] {
      assert [head] + rest == [head];
    } else {
      var front, last := rest[..|rest| - 1], rest[|rest| - 1];
      assert [head] + rest == ([head] + front) + [last] && rest == front + [last];
      JoinFront(head, front);
      JoinGrows([head] + front, last);
      JoinGrows(front, last);
    }
  }

  lemma JoinOne(head: string)
    ensures Join([]) == "" && Join([head]) == head
  {
  }

  /** Every token the expander emits is one the grammar allows at the top level. */
  lemma {:induction false} MeaningTexts(list: seq<Element>, depth: nat)
    requires ValidList(list, depth)
    ensures forall i :: 0 <= i < |Meaning(list)| ==> ValidText(Meaning(list)[i], 0)
    decreases list, 1
  {
    hide Denote, ValidText, Valid;
    if list == [] {
    } else {
      DenoteTexts(list[0], depth);
      MeaningTexts(list[1..], depth);
    }
  }

  lemma {:induction false} DenoteTexts(e: Element, depth: nat)
    requires Valid(e, depth)
    ensures forall i :: 0 <= i < |Denote(e)| ==> ValidText(Denote(e)[i], 0)
    decreases e, 0
  {
    match e
    case Blank =>
    case Token(text, count) =>
      RepeatTexts([text], CountValue(count));
    case Group(body, count) =>
      MeaningTexts(body, depth + 1);
      RepeatTexts(Meaning(body), CountValue(count));
  }

  lemma {:induction false} RepeatTexts(tokens: seq<string>, count: nat)
    requires forall i :: 0 <= i < |tokens| ==> ValidText(tokens[i], 0)
    ensures forall i :: 0 <= i < |Repeat(tokens, count)| ==> ValidText(Repeat(tokens, count)[i], 0)
  {
    hide ValidText;
    if count == 0 {
    } else {
      RepeatTexts(tokens, count - 1);
    }
  }

  lemma ItemsTexts(t: string)
    requires Items(t, 0).Some?
    ensures forall i :: 0 <= i < |Items(t, 0).value| ==> ValidText(Items(t, 0).value[i], 0)
  {
    hide ValidText, Items, Meaning, ValidList, LooseList;
    var list := ParseList(t, 0);
    Tighten(list, 0);
    MeaningTexts(list, 0);
  }

  /** The walker sees the expander's token list. */
  lemma WalkerSeesTokens(t: string)
    requires Items(t, 0).Some?
    ensures Split(Join(Items(t, 0).value)) == Items(t, 0).value
  {
    hide Items, Join, Split;
    ItemsTexts(t);
    SplitJoin(Items(t, 0).value);
  }

  function Plain(tokens: seq<string>): (list: seq<Element>)
    ensures |list| == |tokens|
  {
    if tokens == [] then [] else [Token(tokens[0], Once)] + Plain(tokens[1..])
  }

  lemma {:induction false} PlainList(tokens: seq<string>)
    requires forall i :: 0 <= i < |tokens| ==> ValidText(tokens[i], 0)
    ensures ValidList(Plain(tokens), 0) && SpellList(Plain(tokens)) == Join(tokens) && Meaning(Plain(tokens)) == tokens
  {
    hide ValidText, Join, SpellList, Meaning, Denote, Spell;
    if tokens == [] {
      JoinFront("", []);
      Nothing(0);
    } else {
      var head, rest := tokens[0], tokens[1..];
      PlainList(rest);
      assert tokens == [head] + rest;
      JoinFront(head, rest);
      Prepend(Token(head, Once), Plain(rest), 0);
      OnceToken(head);
      assert Plain(tokens)[1..] == Plain(rest);
    }
  }

  lemma OnceToken(text: string)
    ensures Spell(Token(text, Once)) == text && Denote(Token(text, Once)) == [text]
  {
    assert Repeat([text], 1) == Repeat([text], 0) + [text];
  }

  /** Expanding the output again changes nothing. */
  lemma ExpandingAgain(t: string)
    requires Items(t, 0).Some?
    ensures Items(Join(Items(t, 0).value), 0) == Items(t, 0)
  {
    hide Items, Join, ValidText, Meaning, SpellList, ValidList;
    var tokens := Items(t, 0).value;
    ItemsTexts(t);
    PlainList(tokens);
    ListParses(Plain(tokens), 0);
  }

  lemma SplitComma(s: string)
    requires s != "" && s[0] == ','
    ensures Split(s) == Split(s[1..])
  {
  }

  lemma SplitPiece(s: string, n: nat)
    requires 0 < n <= |s| && ',' !in s[..n] && (n < |s| ==> s[n] == ',')
    ensures Split(s) == [s[..n]] + (if n < |s| then Split(s[n + 1..]) else [])
  {
    assert forall i :: 0 <= i < n ==> s[i] == s[..n][i];
    PieceLengthIs(s, n);
    assert s[0] != ',';
    if n < |s| {
      assert s[n..][1..] == s[n + 1..];
      SplitComma(s[n..]);
    }
  }

  // ----- sequenceTokenNext -----

  /** The buffer holds a C string from `at` to its NUL at `end`. */
  ghost predicate CString(buffer: array<char>, at: nat, end: nat)
    reads buffer
  {
    at <= end < buffer.Length && buffer[end] == '\0' && '\0' !in buffer[at..end]
  }

  ghost predicate AtCursor(buffer: array<char>, cursor: Option<nat>, end: nat)
    reads buffer
  {
    cursor.Some? ==> CString(buffer, cursor.value, end)
  }

  /** The tokens still to come. */
  ghost function Rest(buffer: array<char>, cursor: Option<nat>, end: nat): seq<string>
    requires AtCursor(buffer, cursor, end)
    reads buffer
  {
    if cursor.None? then [] else Split(buffer[cursor.value..end])
  }

  /** The C string that starts at `at`. */
  function StringAt(buffer: array<char>, at: nat): string
    requires at <= buffer.Length
    reads buffer
    decreases buffer.Length - at
  {
    if at == buffer.Length || buffer[at] == '\0' then "" else [buffer[at]] + StringAt(buffer, at + 1)
  }

  lemma {:induction false} StringAtIs(buffer: array<char>, at: nat, end: nat)
    requires CString(buffer, at, end)
    ensures StringAt(buffer, at) == buffer[at..end]
    decreases end - at
  {
    if at == end {
    } else {
      assert buffer[at] == buffer[at..end][0];
      assert buffer[at + 1..end] == buffer[at..end][1..];
      StringAtIs(buffer, at + 1, end);
    }
  }

  method SkipCommas(buffer: array<char>, from: nat, ghost end: nat) returns (start: nat)
    requires CString(buffer, from, end)
    ensures from <= start && CString(buffer, start, end) && buffer[start] != ','
    ensures Split(buffer[from..end]) == Split(buffer[start..end])
  {
    hide Split, PieceLength;
    start := from;
    while buffer[start] == ','
      invariant from <= start && CString(buffer, start, end)
      invariant Split(buffer[from..end]) == Split(buffer[start..end])
      decreases end - start
    {
      SplitComma(buffer[start..end]);
      assert buffer[start..end][1..] == buffer[start + 1..end];
      start := start + 1;
    }
  }

  method FindStop(buffer: array<char>, start: nat, ghost end: nat) returns (stop: nat)
    requires CString(buffer, start, end)
    ensures start <= stop <= end && (buffer[stop] == '\0' || buffer[stop] == ',')
    ensures ',' !in buffer[start..stop]
    ensures stop < end <==> buffer[stop] == ','
  {
    stop := start;
    while buffer[stop] != '\0' && buffer[stop] != ','
      invariant start <= stop <= end
      invariant ',' !in buffer[start..stop]
      decreases end - stop
    {
      stop := stop + 1;
    }
    assert stop < end ==> buffer[stop] == buffer[start..end][stop - start];
  }

  /** At most the comma before the new cursor became a NUL. */
  ghost predicate OnlyCut(before: string, after: string, next: Option<nat>) {
    if next.None? then after == before
    else
      && 0 < next.value <= |before| && before[next.value - 1] == ','
      && after == before[next.value - 1 := '\0']
  }

  /** The next token, terminated in place; `end` is where the whole sequence ends. */
  method TokenNext(buffer: array<char>, cursor: Option<nat>, ghost end: nat)
    returns (token: Option<nat>, next: Option<nat>)
    requires AtCursor(buffer, cursor, end)
    modifies buffer
    ensures AtCursor(buffer, next, end)
    ensures token.None? ==> next.None? && old(Rest(buffer, cursor, end)) == []
    ensures token.Some? ==>
      && token.value < buffer.Length && buffer[token.value] != '\0'
      && old(Rest(buffer, cursor, end)) == [StringAt(buffer, token.value)] + Rest(buffer, next, end)
    ensures OnlyCut(old(buffer[..]), buffer[..], next)
  {
    hide Split, PieceLength, StringAt;
    if cursor.None? {
      return None, None;
    }
    var start := SkipCommas(buffer, cursor.value, end);
    if buffer[start] == '\0' {
      NulIsEnd(buffer, start, end);
      assert buffer[start..end] == "";
      SplitNothing();
      return None, None;
    }
    var stop := FindStop(buffer, start, end);
    ghost var s := buffer[start..end];
    ghost var text := buffer[start..stop];
    assert s[..stop - start] == text;
    assert stop < end ==> s[stop - start] == buffer[stop];
    SplitPiece(s, stop - start);
    assert '\0' !in text by {
      assert forall i :: 0 <= i < |text| ==> text[i] == s[i];
    }
    assert stop < end ==> s[stop - start + 1..] == buffer[stop + 1..end];
    if buffer[stop] == ',' {
      assert '\0' !in buffer[stop + 1..end] by {
        assert forall i :: stop + 1 <= i < end ==> buffer[i] == s[i - start];
      }
      buffer[stop] := '\0';
      assert buffer[stop + 1..end] == old(buffer[stop + 1..end]);
      next := Some(stop + 1);
    } else {
      next := None;
    }
    assert buffer[start..stop] == text;
    StringAtIs(buffer, start, stop);
    token := Some(start);
  }

  lemma NulIsEnd(buffer: array<char>, at: nat, end: nat)
    requires CString(buffer, at, end)
    ensures buffer[at] == '\0' <==> at == end
  {
    assert at < end ==> buffer[at] == buffer[at..end][0];
  }

  lemma SplitNothing()
    ensures Split("") == []
  {
  }

  // ----- clickSequence -----

  /** What a sequence does to the controller; button names and stick values are kept as written. */
  datatype Action =
    | Press(button: string)
    | Release(button: string)
    | Sleep(ms: nat)
    | Stick(left: bool, x: string, y: Option<string>)

  predicate IsStick(token: string) {
    token != "" && (token[0] == '%' || token[0] == '&')
  }

  /** One token that is not a stick. */
  function Perform(token: string, clickMs: nat): seq<Action>
    requires token != "" && !IsStick(token)
  {
    if token[0] == '+' then [Press(token[1..])]
    else if token[0] == '-' then [Release(token[1..])]
    else if token[0] == 'W' then [Sleep(ParseStringToInt(token[1..]))]
    else [Press(token), Sleep(clickMs), Release(token)]
  }

  function Actions(tokens: seq<string>, clickMs: nat): seq<Action>
    requires NoEmpty(tokens)
  {
    if tokens == [] then []
    else if !IsStick(tokens[0]) then Perform(tokens[0], clickMs) + Actions(tokens[1..], clickMs)
    else if |tokens| == 1 then [Stick(tokens[0][0] == '%', tokens[0][1..], None)]
    else [Stick(tokens[0][0] == '%', tokens[0][1..], Some(tokens[1]))] + Actions(tokens[2..], clickMs)
  }

  /** What each form of token does, spelled out. */
  lemma ActionsSpelled(b: string, x: string, y: string, clickMs: nat)
    requires y != ""
    ensures Actions(["+" + b], clickMs) == [Press(b)] && Actions(["-" + b], clickMs) == [Release(b)]
    ensures Actions(["W" + b], clickMs) == [Sleep(ParseStringToInt(b))]
    ensures b != "" && b[0] !in "+-W%&" ==> Actions([b], clickMs) == [Press(b), Sleep(clickMs), Release(b)]
    ensures Actions(["%" + x, y], clickMs) == [Stick(true, x, Some(y))] && Actions(["%" + x], clickMs) == [Stick(true, x, None)]
    ensures Actions(["&" + x, y], clickMs) == [Stick(false, x, Some(y))] && Actions(["&" + x], clickMs) == [Stick(false, x, None)]
  {
    hide ParseStringToInt;
    OneToken("+" + b, clickMs);
    OneToken("-" + b, clickMs);
    OneToken("W" + b, clickMs);
    if b != "" && !IsStick(b) {
      OneToken(b, clickMs);
    }
    OneStick("%" + x, y, clickMs);
    OneStick("&" + x, y, clickMs);
    assert ("+" + b)[1..] == b && ("-" + b)[1..] == b && ("W" + b)[1..] == b;
    assert ("%" + x)[1..] == x && ("&" + x)[1..] == x;
  }

  lemma OneToken(token: string, clickMs: nat)
    requires token != "" && !IsStick(token)
    ensures NoEmpty([token]) && Actions([token], clickMs) == Perform(token, clickMs)
  {
    hide Perform;
    assert [token][1..] == [];
    assert Perform(token, clickMs) + [] == Perform(token, clickMs);
  }

  lemma OneStick(token: string, y: string, clickMs: nat)
    requires IsStick(token) && y != ""
    ensures NoEmpty([token]) && Actions([token], clickMs) == [Stick(token[0] == '%', token[1..], None)]
    ensures NoEmpty([token, y]) && Actions([token, y], clickMs) == [Stick(token[0] == '%', token[1..], Some(y))]
  {
    assert [token, y][2..] == [];
  }

  // ----- the buttons held at the end -----

  /** The buttons held after a log, when `held` were held before. */
  function Held(held: set<string>, log: seq<Action>): set<string>
    decreases |log|
  {
    if log == [] then held else Held(Touch(held, log[0]), log[1..])
  }

  function Touch(held: set<string>, action: Action): set<string> {
    match action
    case Press(b) => held + {b}
    case Release(b) => held - {b}
    case _ => held
  }

  lemma {:induction false} HeldJoins(held: set<string>, a: seq<Action>, b: seq<Action>)
    ensures Held(held, a + b) == Held(Held(held, a), b)
    decreases |a|
  {
    if a == [] {
      assert a + b == b;
    } else {
      assert (a + b)[1..] == a[1..] + b;
      HeldJoins(Touch(held, a[0]), a[1..], b);
    }
  }

  /** Token i is the y of a stick. */
  predicate IsY(tokens: seq<string>, i: nat)
    requires i < |tokens|
  {
    i > 0 && IsStick(tokens[i - 1]) && !IsY(tokens, i - 1)
  }

  /** Token i leaves the button up: a release, or a click. */
  predicate Lifts(tokens: seq<string>, i: nat, b: string)
    requires i < |tokens|
  {
    !IsY(tokens, i) && (tokens[i] == "-" + b || (tokens[i] == b && b != "" && b[0] !in "+-W%&"))
  }

  predicate Presses(tokens: seq<string>, i: nat, b: string)
    requires i < |tokens|
  {
    !IsY(tokens, i) && tokens[i] == "+" + b
  }

  /** The last token that touches the button is a press. */
  ghost predicate PressedLast(tokens: seq<string>, b: string) {
    exists i :: 0 <= i < |tokens| && Presses(tokens, i, b) && forall j :: i < j < |tokens| ==> !Lifts(tokens, j, b)
  }

  ghost predicate Untouched(tokens: seq<string>, b: string) {
    forall i :: 0 <= i < |tokens| ==> !Lifts(tokens, i, b)
  }

  lemma {:induction false} YShifts(tokens: seq<string>, k: nat, i: nat)
    requires k <= i < |tokens| && !IsY(tokens, k)
    ensures IsY(tokens[k..], i - k) == IsY(tokens, i)
    decreases i
  {
    if i == k {
    } else {
      YShifts(tokens, k, i - 1);
    }
  }

  /** Leaving out the first k tokens, which are complete commands, shifts the others. */
  lemma TouchesShift(tokens: seq<string>, k: nat, b: string)
    requires k <= |tokens| && (k < |tokens| ==> !IsY(tokens, k))
    ensures forall i :: k <= i < |tokens| ==>
      (Presses(tokens, i, b) <==> Presses(tokens[k..], i - k, b)) && (Lifts(tokens, i, b) <==> Lifts(tokens[k..], i - k, b))
  {
    hide IsY;
    forall i | k <= i < |tokens| ensures IsY(tokens[k..], i - k) == IsY(tokens, i) {
      YShifts(tokens, k, i);
    }
  }

  lemma {:induction false} HeldIs(held: set<string>, tokens: seq<string>, clickMs: nat, b: string)
    requires NoEmpty(tokens)
    ensures b in Held(held, Actions(tokens, clickMs))
            <==> PressedLast(tokens, b) || (b in held && Untouched(tokens, b))
    decreases |tokens|
  {
    hide IsY, Actions, Presses, Lifts, Held, Perform;
    if tokens == [] {
      NoActions(clickMs);
      HeldNothing(held);
    } else if IsStick(tokens[0]) {
      ActionsOfStick(tokens, clickMs);
      var rest := if |tokens| == 1 then [] else tokens[2..];
      StickAlone(held, tokens, clickMs);
      HeldIs(held, rest, clickMs, b);
      StickTouches(tokens, b);
      TailTouches(tokens, if |tokens| == 1 then 1 else 2, b);
    } else {
      ActionsOfOther(tokens, clickMs);
      HeldJoins(held, Perform(tokens[0], clickMs), Actions(tokens[1..], clickMs));
      var after := Held(held, Perform(tokens[0], clickMs));
      HeldIs(after, tokens[1..], clickMs, b);
      PerformHolds(held, tokens, clickMs, b);
      TailTouches(tokens, 1, b);
    }
  }

  lemma HeldNothing(held: set<string>)
    ensures Held(held, []) == held
  {
  }

  lemma StickAlone(held: set<string>, tokens: seq<string>, clickMs: nat)
    requires NoEmpty(tokens) && tokens != [] && IsStick(tokens[0])
    ensures var rest := if |tokens| == 1 then [] else tokens[2..];
            NoEmpty(rest) && Held(held, Actions(tokens, clickMs)) == Held(held, Actions(rest, clickMs))
  {
    hide Actions;
    ActionsOfStick(tokens, clickMs);
    var rest := if |tokens| == 1 then [] else tokens[2..];
    var first := Stick(tokens[0][0] == '%', tokens[0][1..], if |tokens| == 1 then None else Some(tokens[1]));
    assert ([first] + Actions(rest, clickMs))[1..] == Actions(rest, clickMs);
  }

  /** A stick and its y touch no button. */
  lemma StickTouches(tokens: seq<string>, b: string)
    requires tokens != [] && IsStick(tokens[0])
    ensures !Presses(tokens, 0, b) && !Lifts(tokens, 0, b)
    ensures |tokens| > 1 ==> !Presses(tokens, 1, b) && !Lifts(tokens, 1, b)
    ensures |tokens| > 2 ==> !IsY(tokens, 2)
  {
    assert !IsY(tokens, 0);
    assert |tokens| > 1 ==> IsY(tokens, 1);
  }

  lemma PerformHolds(held: set<string>, tokens: seq<string>, clickMs: nat, b: string)
    requires tokens != [] && tokens[0] != "" && !IsStick(tokens[0])
    ensures b in Held(held, Perform(tokens[0], clickMs))
            <==> Presses(tokens, 0, b) || (b in held && !Lifts(tokens, 0, b))
    ensures |tokens| > 1 ==> !IsY(tokens, 1)
    ensures !(Presses(tokens, 0, b) && Lifts(tokens, 0, b))
  {
    hide ParseStringToInt;
    var t := tokens[0];
    assert !IsY(tokens, 0);
    assert ("+" + b)[0] == '+' && ("+" + b)[1..] == b && ("-" + b)[0] == '-' && ("-" + b)[1..] == b;
    if t[0] == '+' {
      assert t == "+" + t[1..];
    } else if t[0] == '-' {
      assert t == "-" + t[1..];
    }
    OneByOne(held, Perform(t, clickMs));
  }

  lemma OneByOne(held: set<string>, log: seq<Action>)
    ensures |log| == 1 ==> Held(held, log) == Touch(held, log[0])
    ensures |log| == 3 ==> Held(held, log) == Touch(Touch(Touch(held, log[0]), log[1]), log[2])
  {
    if |log| == 3 {
      var one := Touch(held, log[0]);
      var two := Touch(one, log[1]);
      assert log[1..][1..] == [log[2]] && [log[2]][1..] == [];
      assert Held(two, [log[2]]) == Touch(two, log[2]);
      assert Held(one, log[1..]) == Held(two, [log[2]]);
    }
  }

  /** The last touch lies among the first k tokens or behind them. */
  lemma TailTouches(tokens: seq<string>, k: nat, b: string)
    requires k <= |tokens| && (k < |tokens| ==> !IsY(tokens, k))
    ensures Untouched(tokens, b) <==> Untouched(tokens[k..], b) && forall i :: 0 <= i < k ==> !Lifts(tokens, i, b)
    ensures PressedLast(tokens, b) <==>
      || PressedLast(tokens[k..], b)
      || (Untouched(tokens[k..], b)
          && exists i :: 0 <= i < k && Presses(tokens, i, b) && forall j :: i < j < k ==> !Lifts(tokens, j, b))
  {
    hide IsY, Presses, Lifts;
    TouchesShift(tokens, k, b);
    var rest := tokens[k..];
    forall i | 0 <= i < |rest|
      ensures (Presses(rest, i, b) <==> Presses(tokens, i + k, b)) && (Lifts(rest, i, b) <==> Lifts(tokens, i + k, b))
    {
      assert rest[i] == tokens[i + k];
    }
  }

  lemma {:induction false} SplitNoEmpty(s: string)
    ensures NoEmpty(Split(s))
    decreases |s|
  {
    if s != "" && s[0] == ',' {
      SplitNoEmpty(s[1..]);
    } else if s != "" {
      SplitNoEmpty(s[PieceLength(s)..]);
    }
  }

  /** The y of a stick: the next token, whatever it looks like. */
  method TakeY(buffer: array<char>, cursor: Option<nat>, ghost end: nat) returns (y: Option<string>, next: Option<nat>)
    requires AtCursor(buffer, cursor, end)
    modifies buffer
    ensures AtCursor(buffer, next, end)
    ensures var tokens := old(Rest(buffer, cursor, end));
            if y.None? then tokens == [] && Rest(buffer, next, end) == [] else tokens == [y.value] + Rest(buffer, next, end)
  {
    hide Split, StringAt, OnlyCut, CString;
    var token;
    token, next := TokenNext(buffer, cursor, end);
    y := if token.Some? then Some(StringAt(buffer, token.value)) else None;
  }

  lemma SecondToken(tokens: seq<string>, y: Option<string>, rest: seq<string>)
    requires tokens != [] && tokens[1..] == if y.None? then [] else [y.value] + rest
    ensures y.None? <==> |tokens| == 1
    ensures y.Some? ==> tokens[1] == y.value && tokens[2..] == rest
  {
    if y.Some? {
      assert tokens[1] == tokens[1..][0] && tokens[2..] == tokens[1..][1..];
    }
  }

  /** One command; a stick takes the next token with it. */
  method Execute(buffer: array<char>, command: nat, cursor: Option<nat>, clickMs: nat, ghost end: nat,
                 ghost tokens: seq<string>)
    returns (actions: seq<Action>, next: Option<nat>, ghost rest: seq<string>)
    requires AtCursor(buffer, cursor, end) && command < buffer.Length && buffer[command] != '\0'
    requires tokens == [StringAt(buffer, command)] + Rest(buffer, cursor, end) && NoEmpty(tokens)
    modifies buffer
    ensures AtCursor(buffer, next, end) && rest == Rest(buffer, next, end)
    ensures NoEmpty(rest) && |rest| < |tokens|
    ensures Actions(tokens, clickMs) == actions + Actions(rest, clickMs)
  {
    hide Split, StringAt, Perform, Actions, NoEmpty, OnlyCut, CString;
    var text := StringAt(buffer, command);
    FirstChar(buffer, command);
    assert tokens[0] == text && tokens[1..] == Rest(buffer, cursor, end);
    next := cursor;
    if IsStick(text) {
      ActionsOfStick(tokens, clickMs);
      var y;
      y, next := TakeY(buffer, cursor, end);
      SecondToken(tokens, y, Rest(buffer, next, end));
      actions := [Stick(text[0] == '%', text[1..], y)];
      rest := if y.Some? then tokens[2..] else [];
    } else {
      ActionsOfOther(tokens, clickMs);
      actions := Perform(text, clickMs);
      rest := tokens[1..];
    }
  }

  lemma Associates(a: seq<Action>, b: seq<Action>, c: seq<Action>)
    ensures a + (b + c) == (a + b) + c
  {
  }

  /** Runs the sequence; `cancelled` when the stop flag was seen before the end. */
  method ClickSequence(buffer: array<char>, clickMs: nat, ghost end: nat)
    returns (log: seq<Action>, cancelled: bool)
    requires CString(buffer, 0, end)
    modifies buffer
    ensures NoEmpty(Split(old(buffer[..end])))
    ensures log <= Actions(Split(old(buffer[..end])), clickMs)
    ensures !cancelled ==> log == Actions(Split(old(buffer[..end])), clickMs)
    // nothing but a press that no later release or click undoes stays down
    ensures !cancelled ==> forall b :: b in Held({}, log) <==> PressedLast(Split(old(buffer[..end])), b)
  {
    assert end < buffer.Length;
    hide Split, StringAt, Perform, Actions, NoEmpty, PieceLength, OnlyCut, CString;
    ghost var all := Split(buffer[..end]);
    SplitNoEmpty(buffer[..end]);
    assert buffer[0..end] == buffer[..end];
    var command, cursor := TokenNext(buffer, Some(0), end);
    ghost var remaining := all;
    log, cancelled := [], false;
    while command.Some?
      invariant !cancelled && AtCursor(buffer, cursor, end)
      invariant command.None? ==> remaining == []
      invariant command.Some? ==>
        && command.value < buffer.Length && buffer[command.value] != '\0'
        && remaining == [StringAt(buffer, command.value)] + Rest(buffer, cursor, end)
      invariant NoEmpty(remaining)
      invariant log + Actions(remaining, clickMs) == Actions(all, clickMs)
      decreases |remaining|
    {
      if * {
        cancelled := true;
        return;
      }
      ghost var before := log;
      var actions;
      actions, cursor, remaining := Execute(buffer, command.value, cursor, clickMs, end, remaining);
      log := log + actions;
      Associates(before, actions, Actions(remaining, clickMs));
      command, cursor := TokenNext(buffer, cursor, end);
    }
    NoActions(clickMs);
    assert log + [] == log;
    forall b ensures b in Held({}, log) <==> PressedLast(all, b) {
      HeldIs({}, all, clickMs, b);
    }
  }

  lemma ActionsOfOther(tokens: seq<string>, clickMs: nat)
    requires NoEmpty(tokens) && tokens != [] && !IsStick(tokens[0])
    ensures NoEmpty(tokens[1..]) && tokens[0] != ""
    ensures Actions(tokens, clickMs) == Perform(tokens[0], clickMs) + Actions(tokens[1..], clickMs)
  {
  }

  lemma ActionsOfStick(tokens: seq<string>, clickMs: nat)
    requires NoEmpty(tokens) && tokens != [] && IsStick(tokens[0])
    ensures |tokens| > 1 ==> NoEmpty(tokens[2..])
    ensures NoEmpty([]) && Actions([], clickMs) == []
    ensures
      var y := if |tokens| == 1 then None else Some(tokens[1]);
      var rest := if |tokens| == 1 then [] else tokens[2..];
      Actions(tokens, clickMs) == [Stick(tokens[0][0] == '%', tokens[0][1..], y)] + Actions(rest, clickMs)
  {
  }

  lemma FirstChar(buffer: array<char>, at: nat)
    requires at < buffer.Length && buffer[at] != '\0'
    ensures StringAt(buffer, at) != "" && StringAt(buffer, at)[0] == buffer[at]
  {
  }

  // ----- the estimate is the time slept -----

  function Slept(actions: seq<Action>): nat {
    if actions == [] then 0 else (if actions[0].Sleep? then actions[0].ms else 0) + Slept(actions[1..])
  }

  lemma {:induction false} SleptJoins(a: seq<Action>, b: seq<Action>)
    ensures Slept(a + b) == Slept(a) + Slept(b)
  {
    if a == [] {
      assert a + b == b;
    } else {
      SleptJoins(a[1..], b);
      assert (a + b)[1..] == a[1..] + b;
    }
  }

  /** The estimate of a token list, taken from the front. */
  function CostFrom(tokens: seq<string>, stickValueNext: bool, clickMs: nat): (nat, bool)
    requires NoEmpty(tokens)
  {
    if tokens == [] then (0, stickValueNext)
    else
      var first := TokenCost(tokens[0], stickValueNext, clickMs);
      var rest := CostFrom(tokens[1..], first.1, clickMs);
      (first.0 + rest.0, rest.1)
  }

  lemma {:induction false} CostFromGrows(tokens: seq<string>, token: string, stick: bool, clickMs: nat)
    requires NoEmpty(tokens) && token != ""
    ensures NoEmpty(tokens + [token])
    ensures var front := CostFrom(tokens, stick, clickMs);
            var last := TokenCost(token, front.1, clickMs);
            CostFrom(tokens + [token], stick, clickMs) == (front.0 + last.0, last.1)
  {
    hide TokenCost;
    if tokens == [] {
      assert CostFrom([], TokenCost(token, stick, clickMs).1, clickMs).0 == 0;
      assert ([] + [token])[1..] == [];
    } else {
      CostFromGrows(tokens[1..], token, TokenCost(tokens[0], stick, clickMs).1, clickMs);
      assert (tokens + [token])[1..] == tokens[1..] + [token];
    }
  }

  lemma {:induction false} CostIsCostFrom(tokens: seq<string>, clickMs: nat)
    requires NoEmpty(tokens)
    ensures Cost(tokens, clickMs) == CostFrom(tokens, false, clickMs)
  {
    hide TokenCost;
    if tokens == [] {
    } else {
      var n := |tokens| - 1;
      CostIsCostFrom(tokens[..n], clickMs);
      CostFromGrows(tokens[..n], tokens[n], false, clickMs);
      assert tokens[..n] + [tokens[n]] == tokens;
    }
  }

  /** The texts behind the `W` of the tokens that are waits; one that a stick takes as its y is none. */
  function Waits(tokens: seq<string>): seq<string>
    requires NoEmpty(tokens)
  {
    if tokens == [] then []
    else if !IsStick(tokens[0]) then (if tokens[0][0] == 'W' then [tokens[0][1..]] else []) + Waits(tokens[1..])
    else if |tokens| == 1 then []
    else Waits(tokens[2..])
  }

  /** By how much the expander's readings of the waits exceed the walker's. */
  function Excess(waits: seq<string>): int {
    if waits == [] then 0 else ParseWaitMs(waits[0]) - ParseStringToInt(waits[0]) + Excess(waits[1..])
  }

  ghost predicate AllPlain(waits: seq<string>) {
    forall d <- waits :: PlainWait(Spelled(d).0, Spelled(d).1)
  }

  lemma {:induction false} PlainWaitsAgree(waits: seq<string>)
    requires AllPlain(waits)
    ensures Excess(waits) == 0
  {
    hide PlainWait, ParseWaitMs, ParseStringToInt;
    if waits == [] {
    } else {
      WaitAgrees(waits[0]);
      PlainWaitsAgree(waits[1..]);
    }
  }

  lemma PerformSleeps(token: string, clickMs: nat)
    requires token != "" && !IsStick(token)
    ensures TokenCost(token, false, clickMs)
         == (Slept(Perform(token, clickMs)) + Excess(if token[0] == 'W' then [token[1..]] else []), false)
  {
    hide ParseWaitMs, ParseStringToInt;
    assert Excess([]) == 0 && Slept([]) == 0;
    if token[0] == 'W' {
      var d := token[1..];
      assert [d][1..] == [] && Excess([d]) == ParseWaitMs(d) - ParseStringToInt(d);
    }
    assert Slept([Release(token)]) == 0;
    assert [Press(token), Sleep(clickMs), Release(token)][1..] == [Sleep(clickMs), Release(token)];
    assert [Sleep(clickMs), Release(token)][1..] == [Release(token)];
    assert Slept([Sleep(clickMs), Release(token)]) == clickMs;
  }

  lemma {:induction false} ExcessJoins(a: seq<string>, b: seq<string>)
    requires |a| <= 1
    ensures Excess(a + b) == Excess(a) + Excess(b)
  {
    hide ParseWaitMs, ParseStringToInt;
    if a == [] {
      assert a + b == b;
    } else {
      assert a[1..] == [] && (a + b)[1..] == b;
    }
  }

  lemma {:induction false} CostFromSleeps(tokens: seq<string>, clickMs: nat)
    requires NoEmpty(tokens)
    ensures CostFrom(tokens, false, clickMs).0 == Slept(Actions(tokens, clickMs)) + Excess(Waits(tokens))
    decreases |tokens|
  {
    hide ParseWaitMs, ParseStringToInt, Perform, Excess;
    NoWaits();
    if tokens == [] {
    } else if !IsStick(tokens[0]) {
      PerformSleeps(tokens[0], clickMs);
      CostFromSleeps(tokens[1..], clickMs);
      SleptJoins(Perform(tokens[0], clickMs), Actions(tokens[1..], clickMs));
      ExcessJoins(if tokens[0][0] == 'W' then [tokens[0][1..]] else [], Waits(tokens[1..]));
    } else if |tokens| == 1 {
      assert Slept([]) == 0;
    } else {
      CostFromSleeps(tokens[2..], clickMs);
      assert tokens[1..][1..] == tokens[2..];
      assert TokenCost(tokens[0], false, clickMs) == (0, true) && TokenCost(tokens[1], true, clickMs) == (0, false);
      var act := Stick(tokens[0][0] == '%', tokens[0][1..], Some(tokens[1]));
      assert ([act] + Actions(tokens[2..], clickMs))[1..] == Actions(tokens[2..], clickMs);
    }
  }

  lemma NoWaits()
    ensures Excess([]) == 0
  {
  }

  /** The estimate of an expanded sequence is the time the walker sleeps over it, up to the waits that the two read
      differently; when every wait is plain, it is that time. */
  lemma EstimateIsTimeSlept(t: string, clickMs: nat)
    requires Items(t, 0).Some?
    ensures var tokens := Items(t, 0).value;
            && NoEmpty(tokens) && Split(Join(tokens)) == tokens
            && Cost(tokens, clickMs).0 == Slept(Actions(Split(Join(tokens)), clickMs)) + Excess(Waits(tokens))
            && (AllPlain(Waits(tokens)) ==> Excess(Waits(tokens)) == 0)
  {
    hide Items, Join, Split, Actions, Cost, CostFrom, Excess, Waits, AllPlain;
    ItemsNoEmpty(t, 0);
    WalkerSeesTokens(t);
    CostIsCostFrom(Items(t, 0).value, clickMs);
    CostFromSleeps(Items(t, 0).value, clickMs);
    if AllPlain(Waits(Items(t, 0).value)) {
      PlainWaitsAgree(Waits(Items(t, 0).value));
    }
  }

  // ----- expanding, then walking -----

  lemma {:induction false} JoinHasNoNul(tokens: seq<string>)
    requires forall i :: 0 <= i < |tokens| ==> ValidText(tokens[i], 0)
    ensures '\0' !in Join(tokens)
  {
    hide Join;
    if tokens == [] {
      JoinFront("", []);
    } else {
      JoinHasNoNul(tokens[1..]);
      JoinFront(tokens[0], tokens[1..]);
      assert tokens == [tokens[0]] + tokens[1..];
    }
  }

  /** What a client's sequence goes through: expanded into the buffer, then walked there. A run that is not cancelled
      sleeps as long as estimated, modulo 2^64, when its waits are plain. */
  method ExpandAndClick(sequence: string, buffer: array<char>, clickMs: nat)
    returns (result: Result, estimatedMs: nat, log: seq<Action>, cancelled: bool)
    requires buffer.Length > 0
    modifies buffer
    ensures result == Ok <==> Items(sequence, 0).Some? && FitsOutput(Items(sequence, 0).value, buffer.Length)
    ensures result == Ok ==> NoEmpty(Items(sequence, 0).value)
    ensures result == Ok ==> log <= Actions(Items(sequence, 0).value, clickMs)
    ensures result == Ok && !cancelled ==> log == Actions(Items(sequence, 0).value, clickMs)
    ensures result == Ok && !cancelled ==>
      0 <= Slept(log) + Excess(Waits(Items(sequence, 0).value))
      && estimatedMs == (Slept(log) + Excess(Waits(Items(sequence, 0).value))) % U64_LIMIT
    ensures result == Ok && !cancelled && AllPlain(Waits(Items(sequence, 0).value)) && Slept(log) < U64_LIMIT ==>
      estimatedMs == Slept(log)
    ensures result != Ok ==> log == []
  {
    hide Items, Join, Split, Actions, Cost, Excess, Waits, AllPlain, Slept, NoEmpty, ValidText;
    var tokenCount, errorIndex;
    ghost var entries;
    log, cancelled := [], false;
    result, tokenCount, estimatedMs, errorIndex, entries := Expand(Some(sequence), buffer, clickMs);
    if result == Ok {
      ghost var text := Join(Items(sequence, 0).value);
      EstimateIsTimeSlept(sequence, clickMs);
      ItemsTexts(sequence);
      JoinHasNoNul(Items(sequence, 0).value);
      assert buffer[0..|text|] == buffer[..|text|] == text;
      log, cancelled := ClickSequence(buffer, clickMs, |text|);
    }
  }

  // ----- repeats are repeated actions -----

  lemma {:induction false} ActionsJoin(a: seq<string>, b: seq<string>, clickMs: nat)
    requires NoEmpty(a) && NoEmpty(b) && !CostFrom(a, false, clickMs).1
    ensures NoEmpty(a + b) && Actions(a + b, clickMs) == Actions(a, clickMs) + Actions(b, clickMs)
    decreases |a|
  {
    hide ParseWaitMs, ParseStringToInt, Perform, Actions, CostFrom;
    CostUnfolds(a, clickMs);
    if a == [] {
      assert a + b == b;
      NoActions(clickMs);
    } else if !IsStick(a[0]) {
      ActionsJoin(a[1..], b, clickMs);
      ActionsOfOther(a, clickMs);
      assert (a + b)[1..] == a[1..] + b;
      ActionsOfOther(a + b, clickMs);
    } else {
      ActionsJoin(a[2..], b, clickMs);
      ActionsOfStick(a, clickMs);
      assert (a + b)[2..] == a[2..] + b;
      ActionsOfStick(a + b, clickMs);
    }
  }

  lemma CostUnfolds(tokens: seq<string>, clickMs: nat)
    requires NoEmpty(tokens) && !CostFrom(tokens, false, clickMs).1
    ensures tokens != [] && !IsStick(tokens[0]) ==> !CostFrom(tokens[1..], false, clickMs).1
    ensures tokens != [] && IsStick(tokens[0]) ==> |tokens| >= 2 && !CostFrom(tokens[2..], false, clickMs).1
  {
    hide ParseWaitMs;
    if tokens != [] && IsStick(tokens[0]) {
      assert TokenCost(tokens[0], false, clickMs).1;
      assert CostFrom([], true, clickMs).1;
      if |tokens| >= 2 {
        assert tokens[1..][1..] == tokens[2..];
      }
    }
  }

  function RepeatActions(actions: seq<Action>, count: nat): seq<Action> {
    if count == 0 then [] else RepeatActions(actions, count - 1) + actions
  }

  /** A group walked N times does its actions N times, unless it leaves a stick waiting for its y. */
  lemma {:induction false} RepeatsAct(tokens: seq<string>, count: nat, clickMs: nat)
    requires NoEmpty(tokens) && !CostFrom(tokens, false, clickMs).1
    ensures NoEmpty(Repeat(tokens, count)) && !CostFrom(Repeat(tokens, count), false, clickMs).1
    ensures Actions(Repeat(tokens, count), clickMs) == RepeatActions(Actions(tokens, clickMs), count)
  {
    hide Actions, TokenCost;
    if count == 0 {
      assert Actions([], clickMs) == [] by { NoActions(clickMs); }
    } else {
      RepeatsAct(tokens, count - 1, clickMs);
      ActionsJoin(Repeat(tokens, count - 1), tokens, clickMs);
      CostFromJoin(Repeat(tokens, count - 1), tokens, false, clickMs);
    }
  }

  lemma NoActions(clickMs: nat)
    ensures Actions([], clickMs) == []
  {
  }

  lemma {:induction false} CostFromJoin(a: seq<string>, b: seq<string>, stick: bool, clickMs: nat)
    requires NoEmpty(a) && NoEmpty(b)
    ensures NoEmpty(a + b)
    ensures CostFrom(a + b, stick, clickMs).1 == CostFrom(b, CostFrom(a, stick, clickMs).1, clickMs).1
  {
    hide TokenCost;
    if a == [] {
      assert a + b == b;
    } else {
      CostFromJoin(a[1..], b, TokenCost(a[0], stick, clickMs).1, clickMs);
      assert (a + b)[1..] == a[1..] + b;
    }
  }
}
