/** sequenceExpand and the recursive walk behind it. */
module SequenceExpand {
  import opened Bytes
  import opened SequenceItems
  import opened Options

  datatype Result = Ok | BadSyntax | CountRange | TooDeep | TooManyTokens | TooLong

  /** The token list fits both limits: the token count, and the buffer with its NUL. */
  ghost predicate FitsOutput(tokens: seq<string>, outSize: nat) {
    |tokens| <= MAX_TOKENS && |Join(tokens)| + 1 <= outSize
  }

  lemma FitsOutputPrefix(a: seq<string>, b: seq<string>, outSize: nat)
    requires FitsOutput(a + b, outSize)
    ensures FitsOutput(a, outSize)
  {
    hide Join;
    JoinMonotone(a, b);
  }

  /** How often expandItems has been entered at each nesting depth. */
  type Entries = e: seq<nat> | |e| == MAX_DEPTH + 1 witness [0, 0, 0, 0, 0]

  /** Below a walk at `depth` that emitted `emitted` tokens: at most one entry a token and depth, and
      one more where a walk failed. */
  ghost predicate EntriesGrow(before: Entries, after: Entries, depth: nat, emitted: int, failed: bool) {
    forall d :: depth < d <= MAX_DEPTH ==> before[d] <= after[d] <= before[d] + emitted + (if failed then 1 else 0)
  }

  class ExpandState {
    const input: string
    const out: array<char>
    const clickCostMs: nat
    var outLen: nat
    var tokens: nat
    var estimatedMs: nat
    var stickValueNext: bool
    var result: Result
    var errorIndex: nat
    ghost var list: seq<string>
    ghost var entries: Entries

    constructor (input: string, out: array<char>, clickCostMs: nat)
      requires out.Length > 0 && out[0] == '\0'
      ensures Valid() && this.input == input && this.out == out && this.clickCostMs == clickCostMs
      ensures list == [] && result == Ok && forall d :: 0 <= d <= MAX_DEPTH ==> entries[d] == 0
    {
      this.input, this.out, this.clickCostMs := input, out, clickCostMs;
      outLen, tokens, estimatedMs, stickValueNext := 0, 0, 0, false;
      result, errorIndex := Ok, 0;
      list, entries := [], [0, 0, 0, 0, 0];
    }

    /** The buffer holds the tokens so far, joined and terminated. */
    ghost predicate Valid()
      reads this, out
    {
      && outLen < out.Length && out[outLen] == '\0'
      && out[..outLen] == Join(list)
      && tokens == |list| <= MAX_TOKENS
      && NoEmpty(list)
      && estimatedMs == Cost(list, clickCostMs).0 % U64_LIMIT
      && stickValueNext == Cost(list, clickCostMs).1
    }

    method Fail(r: Result, index: nat)
      requires r != Ok
      modifies this`result, this`errorIndex
      ensures result == r && errorIndex == index
      ensures old(Valid()) ==> Valid()
    {
      result, errorIndex := r, index;
    }

    // ----- scanning -----

    method ScanToken(begin: nat, end: nat) returns (ok: bool, stop: nat)
      requires begin <= end <= |input|
      modifies this`result, this`errorIndex
      ensures ok <==> TokenLength(input[begin..end]).Some?
      ensures ok ==> stop == begin + TokenLength(input[begin..end]).value && result == old(result)
      ensures old(Valid()) ==> Valid()
      ensures !ok ==> result != Ok
    {
      stop := begin;
      while stop < end && !EndsToken(input[stop])
        invariant begin <= stop <= end
        invariant TokenLength(input[begin..end]).Some? <==> TokenLength(input[stop..end]).Some?
        invariant TokenLength(input[begin..end]).Some? ==>
                    TokenLength(input[begin..end]).value == stop - begin + TokenLength(input[stop..end]).value
      {
        assert input[stop..end][0] == input[stop] && input[stop..end][1..] == input[stop + 1..end];
        if IsControl(input[stop]) {
          Fail(BadSyntax, stop);
          return false, stop;
        }
        stop := stop + 1;
      }
      assert stop < end ==> input[stop..end][0] == input[stop];
      ok := true;
    }

    /** The ')' that closes the group opened just before `begin`. */
    method FindClose(begin: nat, end: nat) returns (ok: bool, close: nat)
      requires 0 < begin <= end <= |input|
      modifies this`result, this`errorIndex
      ensures ok <==> CloseAt(input[begin..end], 1).Some?
      ensures ok ==> close == begin + CloseAt(input[begin..end], 1).value && result == old(result)
      ensures old(Valid()) ==> Valid()
      ensures !ok ==> result != Ok
    {
      hide CloseAt, ExpandState.Valid;
      close := begin;
      var nesting: nat := 1;
      while close < end && nesting != 0
        invariant begin <= close <= end && (nesting == 0 ==> close < end)
        invariant result == old(result) && (old(Valid()) ==> Valid())
        invariant nesting > 0 ==>
          (CloseAt(input[begin..end], 1).Some? <==> CloseAt(input[close..end], nesting).Some?)
        invariant nesting > 0 && CloseAt(input[begin..end], 1).Some? ==>
          CloseAt(input[begin..end], 1).value == close - begin + CloseAt(input[close..end], nesting).value
        invariant nesting == 0 ==> CloseAt(input[begin..end], 1) == Some(close - begin)
        decreases end - close, nesting
      {
        CloseStep(input, close, end, nesting);
        if IsControl(input[close]) {
          Fail(BadSyntax, close);
          return false, close;
        }
        if input[close] == '(' {
          nesting := nesting + 1;
        } else if input[close] == ')' {
          nesting := nesting - 1;
        }
        if nesting != 0 {
          close := close + 1;
        }
      }
      ok := nesting == 0;
      if !ok {
        assert input[close..end] == "";
        CloseNothing(nesting);
        Fail(BadSyntax, begin - 1);
      }
    }

    /** The count behind an item, if a '*' follows it. */
    method TakeCount(pos: nat, end: nat) returns (ok: bool, count: nat, next: nat)
      requires pos <= end <= |input|
      modifies this`result, this`errorIndex
      ensures ok <==> CountAt(input[pos..end]).Some?
      ensures ok ==> (count, next - pos) == CountAt(input[pos..end]).value && next <= end && result == old(result)
      ensures old(Valid()) ==> Valid()
      ensures !ok ==> result != Ok
    {
      hide CountAt, Digits, ExpandState.Valid;
      count, next := 1, pos;
      CountUnfolds(input, pos, end);
      if pos == end || input[pos] != '*' {
        return true, count, next;
      }
      var value: nat := 0;
      next := pos + 1;
      while next < end && IsDigit(input[next])
        invariant pos + 1 <= next <= end && value <= MAX_COUNT
        invariant result == old(result) && (old(Valid()) ==> Valid())
        invariant Digits(input[pos + 1..end], 0).Some? <==> Digits(input[next..end], value).Some?
        invariant Digits(input[next..end], value).Some? ==>
          Digits(input[pos + 1..end], 0).value
          == (Digits(input[next..end], value).value.0, next - pos - 1 + Digits(input[next..end], value).value.1)
      {
        DigitsUnfold(input, next, end, value);
        value := value * 10 + DigitValue(input[next]);
        next := next + 1;
        if value > MAX_COUNT {
          Fail(CountRange, pos);
          return false, count, next;
        }
      }
      DigitsUnfold(input, next, end, value);
      if next == pos + 1 {
        Fail(BadSyntax, pos);
        return false, count, next;
      }
      if value == 0 {
        Fail(CountRange, pos);
        return false, count, next;
      }
      ok, count := true, value;
    }

    // ----- emitting -----

    /** memcpy to the end of the output, and the NUL behind it. */
    method Append(text: string)
      requires outLen + |text| < out.Length
      modifies this`outLen, out
      ensures outLen == old(outLen) + |text|
      ensures out[..outLen] == old(out[..outLen]) + text && out[outLen] == '\0'
    {
      forall i | 0 <= i < |text| {
        out[outLen + i] := text[i];
      }
      outLen := outLen + |text|;
      out[outLen] := '\0';
    }

    method EmitToken(begin: nat, end: nat) returns (ok: bool)
      requires Valid() && begin < end <= |input|
      modifies this`outLen, this`tokens, this`estimatedMs, this`stickValueNext, this`list, this`result, this`errorIndex, out
      ensures Valid()
      ensures ok <==> FitsOutput(old(list) + [input[begin..end]], out.Length)
      ensures ok ==> list == old(list) + [input[begin..end]] && result == old(result)
      ensures !ok ==> list == old(list) && result != Ok
    {
      hide Cost, TokenCost, Join;
      var length := end - begin;
      var token := input[begin..end];
      JoinGrows(list, token);
      JoinNothing();
      if tokens + 1 > MAX_TOKENS {
        Fail(TooManyTokens, begin);
        return false;
      }
      var needed := length + (if tokens != 0 then 1 else 0) + 1;
      if outLen + needed > out.Length {
        Fail(TooLong, begin);
        return false;
      }
      if tokens != 0 {
        Append(",");
      }
      Append(token);
      CostGrows(list, token, clickCostMs);
      var cost := TokenCost(token, stickValueNext, clickCostMs);
      ModSum(Cost(list, clickCostMs).0, cost.0);
      estimatedMs := (estimatedMs + cost.0) % U64_LIMIT;
      stickValueNext := cost.1;
      tokens := tokens + 1;
      list := list + [token];
      ok := true;
    }

    // ----- walking -----

    method EmitRepeated(begin: nat, end: nat, count: nat) returns (ok: bool)
      requires Valid() && begin < end <= |input|
      modifies this`outLen, this`tokens, this`estimatedMs, this`stickValueNext, this`list, this`result, this`errorIndex, out
      ensures Valid() && old(list) <= list
      ensures ok <==> FitsOutput(old(list) + Repeat([input[begin..end]], count), out.Length)
      ensures ok ==> list == old(list) + Repeat([input[begin..end]], count) && result == old(result)
      ensures !ok ==> result != Ok
    {
      hide Cost, Join, NoEmpty;
      ghost var token, start := [input[begin..end]], list;
      FitsNow();
      assert start + Repeat(token, 0) == start;
      ok := true;
      for i := 0 to count
        invariant ok && Valid() && list == start + Repeat(token, i) && result == old(result)
      {
        assert start + Repeat(token, i + 1) == list + token;
        ok := EmitToken(begin, end);
        if !ok {
          RepeatSplit(token, i + 1, count);
          assert start + Repeat(token, count) == (start + Repeat(token, i + 1)) + Repeat(token, count - i - 1);
          if FitsOutput(start + Repeat(token, count), out.Length) {
            FitsOutputPrefix(start + Repeat(token, i + 1), Repeat(token, count - i - 1), out.Length);
          }
          return;
        }
      }
      FitsNow();
    }

    lemma FitsNow()
      requires Valid()
      ensures FitsOutput(list, out.Length)
    {
      hide Join, Cost;
    }

    /** The body of a group, `count` times. */
    method ExpandGroup(begin: nat, end: nat, count: nat, depth: nat, itemStart: nat) returns (ok: bool)
      requires Valid() && begin <= end <= |input| && depth < MAX_DEPTH && count > 0
      modifies this, out
      ensures Valid() && old(list) <= list
      ensures var body := Items(input[begin..end], depth + 1);
              ok <==> body.Some? && body.value != [] && FitsOutput(old(list) + Repeat(body.value, count), out.Length)
      ensures ok ==> list == old(list) + Repeat(Items(input[begin..end], depth + 1).value, count) && result == old(result)
      ensures !ok ==> result != Ok
      ensures forall d :: 0 <= d <= depth ==> entries[d] == old(entries)[d]
      ensures EntriesGrow(old(entries), entries, depth, |list| - |old(list)|, !ok)
      decreases end - begin, 5
    {
      hide Items, Repeat, FitsOutput, ExpandState.Valid;
      ghost var body, start := Items(input[begin..end], depth + 1), list;
      ok := true;
      if body.Some? {
        BodiesStart(start, body.value);
      }
      FitsNow();
      CountsTokens();
      var emitted := tokens;
      for i := 0 to count
        invariant ok && Valid() && start <= list && result == old(result)
        invariant i > 0 ==> body.Some? && body.value != []
        invariant body.Some? ==> list == start + Repeat(body.value, i)
        invariant i == 0 ==> list == start
        invariant forall d :: 0 <= d <= depth ==> entries[d] == old(entries)[d]
        invariant EntriesGrow(old(entries), entries, depth, |list| - |start|, false)
      {
        ghost var before := list;
        ghost var entered := entries;
        ok := ExpandItems(begin, end, depth + 1);
        EntriesAdd(old(entries), entered, entries, depth, |before| - |start|, |list| - |before|, !ok || |list| == |before|);
        if !ok {
          if body.Some? {
            NextBodyFits(start, body.value, i, count, out.Length);
          }
          return;
        }
        CountsTokens();
        if i == 0 && tokens == emitted {
          Fail(BadSyntax, itemStart);
          return false;
        }
        NextBodyFits(start, body.value, i, count, out.Length);
      }
      FitsNow();
    }

    lemma CountsTokens()
      requires Valid()
      ensures tokens == |list| <= MAX_TOKENS
    {
    }

    /** An item that starts with '('. */
    method ExpandGroupItem(pos: nat, end: nat, depth: nat) returns (ok: bool, next: nat)
      requires Valid() && pos < end <= |input| && depth <= MAX_DEPTH && input[pos] == '('
      modifies this, out
      ensures Valid() && old(list) <= list
      ensures ok <==> Item(input[pos..end], depth).Some? && FitsOutput(old(list) + Item(input[pos..end], depth).value.0, out.Length)
      ensures ok ==> list == old(list) + Item(input[pos..end], depth).value.0 && result == old(result)
      ensures ok ==> pos <= next <= end && next - pos == Item(input[pos..end], depth).value.1
      ensures !ok ==> result != Ok
      ensures forall d :: 0 <= d <= depth ==> entries[d] == old(entries)[d]
      ensures EntriesGrow(old(entries), entries, depth, |list| - |old(list)|, !ok)
      decreases end - pos, 1
    {
      hide Cost, Join, NoEmpty, Items, CloseAt, CountAt, Repeat, Item, ExpandState.Valid, FitsOutput;
      ghost var t := input[pos..end];
      next := pos;
      GroupItem(t, depth);
      if depth + 1 > MAX_DEPTH {
        Fail(TooDeep, pos);
        return false, next;
      }
      assert t[1..] == input[pos + 1..end];
      var close;
      ok, close := FindClose(pos + 1, end);
      if !ok {
        return;
      }
      assert t[close + 1 - pos..] == input[close + 1..end];
      SliceOfSlice(input, pos, end, 1, close - pos);
      var count;
      ok, count, next := TakeCount(close + 1, end);
      if !ok {
        return;
      }
      ok := ExpandGroup(pos + 1, close, count, depth, pos);
    }

    /** An item that is a token, or nothing. */
    method ExpandTokenItem(pos: nat, end: nat, depth: nat) returns (ok: bool, next: nat)
      requires Valid() && pos < end <= |input| && depth <= MAX_DEPTH && input[pos] != '(' && input[pos] != ')'
      modifies this, out
      ensures Valid() && old(list) <= list
      ensures ok <==> Item(input[pos..end], depth).Some? && FitsOutput(old(list) + Item(input[pos..end], depth).value.0, out.Length)
      ensures ok ==> list == old(list) + Item(input[pos..end], depth).value.0 && result == old(result)
      ensures ok ==> pos <= next <= end && next - pos == Item(input[pos..end], depth).value.1
      ensures !ok ==> result != Ok
      ensures entries == old(entries)
    {
      hide Cost, Join, NoEmpty, Items, TokenLength, CountAt, Repeat, Item, FitsOutput;
      ghost var t := input[pos..end];
      next := pos;
      TokenItem(t, depth);
      FitsNow();
      var stop;
      ok, stop := ScanToken(pos, end);
      if !ok {
        return;
      }
      assert t[stop - pos..] == input[stop..end] && t[..stop - pos] == input[pos..stop];
      var count;
      ok, count, next := TakeCount(stop, end);
      if !ok {
        return;
      }
      if next > stop && stop == pos {
        Fail(BadSyntax, pos);
        return false, next;
      }
      if stop > pos {
        ok := EmitRepeated(pos, stop, count);
      } else {
        assert list + [] == list;
      }
    }

    /** One item and its count. */
    method ExpandItem(pos: nat, end: nat, depth: nat) returns (ok: bool, next: nat)
      requires Valid() && pos < end <= |input| && depth <= MAX_DEPTH
      modifies this, out
      ensures Valid() && old(list) <= list
      ensures ok <==> Item(input[pos..end], depth).Some? && FitsOutput(old(list) + Item(input[pos..end], depth).value.0, out.Length)
      ensures ok ==> list == old(list) + Item(input[pos..end], depth).value.0 && result == old(result)
      ensures ok ==> pos <= next <= end && next - pos == Item(input[pos..end], depth).value.1
      ensures !ok ==> result != Ok
      ensures forall d :: 0 <= d <= depth ==> entries[d] == old(entries)[d]
      ensures EntriesGrow(old(entries), entries, depth, |list| - |old(list)|, !ok)
      decreases end - pos, 2
    {
      hide Cost, Join, NoEmpty, Items, CloseAt, CountAt, TokenLength, Repeat, ExpandState.Valid, FitsOutput;
      next := pos;
      assert input[pos..end][0] == input[pos];
      if input[pos] == '(' {
        ok, next := ExpandGroupItem(pos, end, depth);
      } else if input[pos] == ')' {
        Fail(BadSyntax, pos);
        assert Valid();
        ok := false;
      } else {
        ok, next := ExpandTokenItem(pos, end, depth);
      }
    }

    /** One more entry of expandItems at this depth. */
    ghost method Enter(depth: nat)
      requires Valid() && depth <= MAX_DEPTH
      modifies this`entries
      ensures Valid() && entries == old(entries)[depth := old(entries)[depth] + 1]
    {
      entries := entries[depth := entries[depth] + 1];
    }

    /** expandItems: the items of input[begin, end) at a nesting depth. */
    method ExpandItems(begin: nat, end: nat, depth: nat) returns (ok: bool)
      requires Valid() && begin <= end <= |input| && depth <= MAX_DEPTH
      modifies this, out
      ensures Valid() && old(list) <= list
      ensures var items := Items(input[begin..end], depth);
              ok <==> items.Some? && FitsOutput(old(list) + items.value, out.Length)
      ensures ok ==> list == old(list) + Items(input[begin..end], depth).value && result == old(result)
      ensures !ok ==> result != Ok
      ensures forall d :: 0 <= d < depth ==> entries[d] == old(entries)[d]
      ensures entries[depth] == old(entries)[depth] + 1
      ensures EntriesGrow(old(entries), entries, depth, |list| - |old(list)|, !ok)
      // a whole walk, at depth 0 and from an empty list: the work is bounded by the two limits, whatever the counts say
      ensures depth == 0 && old(list) == [] ==>
        AllEntries(entries) <= AllEntries(old(entries)) + MAX_DEPTH * (MAX_TOKENS + 1) + 1
      decreases end - begin, 4
    {
      hide Cost, Join, NoEmpty, Item, Items, FitsOutput, ExpandState.Valid, Continues;
      Enter(depth);
      ghost var start, all := list, Items(input[begin..end], depth);
      var pos := begin;
      NothingYet(start, all);
      FitsNow();
      ok := true;
      while pos < end
        invariant ok && Valid() && begin <= pos <= end && start <= list && result == old(result)
        invariant Continues(start, all, list, Items(input[pos..end], depth))
        invariant forall d :: 0 <= d < depth ==> entries[d] == old(entries)[d]
        invariant entries[depth] == old(entries)[depth] + 1
        invariant EntriesGrow(old(entries), entries, depth, |list| - |start|, false)
      {
        ghost var before, rest := list, Items(input[pos..end], depth);
        ok, pos := ExpandNext(pos, end, depth);
        if !ok {
          StillFits(start, all, before, rest, out.Length);
          CountsTokens();
          EntriesBounded(old(entries), entries, depth, |list| - |start|, true);
          return;
        }
        ContinuesOn(start, all, before, rest, list, Items(input[pos..end], depth));
      }
      FitsNow();
      CountsTokens();
      EntriesBounded(old(entries), entries, depth, |list| - |start|, false);
      AllDone(start, all, list, input, end, depth);
    }

    /** One item, and the comma behind it if there is one. */
    method ExpandNext(pos: nat, end: nat, depth: nat) returns (ok: bool, next: nat)
      requires Valid() && pos < end <= |input| && depth <= MAX_DEPTH
      modifies this, out
      ensures Valid() && old(list) <= list
      ensures ok ==>
        && pos < next <= end && result == old(result)
        && Continues(old(list), Items(input[pos..end], depth), list, Items(input[next..end], depth))
      ensures !ok ==> result != Ok && !FitsAll(old(list), Items(input[pos..end], depth), out.Length)
      ensures forall d :: 0 <= d <= depth ==> entries[d] == old(entries)[d]
      ensures EntriesGrow(old(entries), entries, depth, |list| - |old(list)|, !ok)
      decreases end - pos, 3
    {
      hide Cost, Join, NoEmpty, Item, Items, FitsOutput, ExpandState.Valid;
      ghost var t := input[pos..end];
      ItemsUnfold(t, depth);
      ok, next := ExpandItem(pos, end, depth);
      if !ok {
        HeadMustFit(old(list), Item(t, depth), Items(t, depth), out.Length);
        return;
      }
      NoItems(depth);
      if next == end {
        assert input[next..end] == "";
        return;
      }
      assert t[next - pos] == input[next] && t[next - pos + 1..] == input[next + 1..end];
      if input[next] != ',' {
        Fail(BadSyntax, next);
        ok := false;
        return;
      }
      next := next + 1;
    }
  }

  /** What is emitted after a with x still to come is what is emitted after b with y still to come. */
  predicate Continues(a: seq<string>, x: Option<seq<string>>, b: seq<string>, y: Option<seq<string>>) {
    (x.Some? <==> y.Some?) && (x.Some? ==> a + x.value == b + y.value)
  }

  ghost predicate FitsAll(a: seq<string>, x: Option<seq<string>>, outSize: nat) {
    x.Some? && FitsOutput(a + x.value, outSize)
  }

  lemma NothingYet(a: seq<string>, x: Option<seq<string>>)
    ensures Continues(a, x, a, x)
  {
  }

  lemma ContinuesOn(a: seq<string>, x: Option<seq<string>>, b: seq<string>, y: Option<seq<string>>, c: seq<string>,
                    z: Option<seq<string>>)
    requires Continues(a, x, b, y) && Continues(b, y, c, z)
    ensures Continues(a, x, c, z)
  {
  }

  lemma StillFits(a: seq<string>, x: Option<seq<string>>, b: seq<string>, y: Option<seq<string>>, outSize: nat)
    requires Continues(a, x, b, y)
    ensures FitsAll(a, x, outSize) <==> FitsAll(b, y, outSize)
  {
    hide FitsOutput;
  }

  lemma AllDone(a: seq<string>, x: Option<seq<string>>, b: seq<string>, s: string, end: nat, depth: nat)
    requires end <= |s| && Continues(a, x, b, Items(s[end..end], depth))
    ensures x.Some? && b == a + x.value
  {
    assert s[end..end] == "";
    NoItems(depth);
    assert b + [] == b;
  }

  lemma HeadMustFit(before: seq<string>, item: Option<(seq<string>, nat)>, whole: Option<seq<string>>, outSize: nat)
    requires whole.Some? ==> item.Some? && item.value.0 <= whole.value
    requires !(item.Some? && FitsOutput(before + item.value.0, outSize))
    ensures !FitsAll(before, whole, outSize)
  {
    hide FitsOutput;
    if FitsAll(before, whole, outSize) {
      HeadFits(before, item.value.0, whole.value, outSize);
    }
  }

  lemma GroupItem(t: string, depth: nat)
    requires t != [] && t[0] == '('
    ensures var item, close := Item(t, depth), CloseAt(t[1..], 1);
            if depth + 1 > MAX_DEPTH || close.None? then item.None?
            else
              var count, body := CountAt(t[2 + close.value..]), Items(t[1..1 + close.value], depth + 1);
              (item.Some? <==> count.Some? && body.Some? && body.value != [])
              && (item.Some? ==> item.value == (Repeat(body.value, count.value.0), 2 + close.value + count.value.1))
  {
    hide Repeat, CloseAt, CountAt, Items;
  }

  lemma ItemsUnfold(t: string, depth: nat)
    requires t != []
    ensures var items, item := Items(t, depth), Item(t, depth);
            && (items.Some? ==> item.Some? && item.value.0 <= items.value)
            && (item.Some? && item.value.1 == |t| ==> items == Some(item.value.0 + Items("", depth).value))
            && (item.Some? && item.value.1 < |t| && t[item.value.1] != ',' ==> items.None?)
            && (item.Some? && item.value.1 < |t| && t[item.value.1] == ',' ==>
                  var rest := Items(t[item.value.1 + 1..], depth);
                  (items.Some? <==> rest.Some?) && (items.Some? ==> items.value == item.value.0 + rest.value))
  {
    hide Item;
    assert Items("", depth) == Some([]);
    if Item(t, depth).Some? {
      assert Item(t, depth).value.0 + [] == Item(t, depth).value.0;
    }
  }

  lemma SliceOfSlice(s: string, a: nat, b: nat, c: nat, d: nat)
    requires a <= b <= |s| && c <= d <= b - a
    ensures s[a..b][c..d] == s[a + c..a + d]
  {
    assert |s[a..b][c..d]| == |s[a + c..a + d]|;
    forall i | 0 <= i < d - c
      ensures s[a..b][c..d][i] == s[a + c..a + d][i]
    {
    }
  }

  lemma NoItems(depth: nat)
    ensures Items("", depth) == Some([])
  {
  }

  lemma HeadFits(before: seq<string>, head: seq<string>, whole: seq<string>, outSize: nat)
    requires head <= whole && FitsOutput(before + whole, outSize)
    ensures FitsOutput(before + head, outSize)
  {
    assert before + whole == (before + head) + whole[|head|..];
    FitsOutputPrefix(before + head, whole[|head|..], outSize);
  }

  lemma {:induction false} RepeatSplit(tokens: seq<string>, i: nat, n: nat)
    requires i <= n
    ensures Repeat(tokens, n) == Repeat(tokens, i) + Repeat(tokens, n - i)
  {
    if i == n {
      assert Repeat(tokens, 0) == [];
    } else {
      RepeatSplit(tokens, i, n - 1);
    }
  }

  lemma BodiesStart(start: seq<string>, body: seq<string>)
    ensures start + Repeat(body, 0) == start
  {
  }

  /** One body more of a repetition that fits, fits. */
  lemma NextBodyFits(start: seq<string>, body: seq<string>, i: nat, count: nat, outSize: nat)
    requires i < count
    ensures start + Repeat(body, i + 1) == (start + Repeat(body, i)) + body
    ensures FitsOutput(start + Repeat(body, count), outSize) ==> FitsOutput((start + Repeat(body, i)) + body, outSize)
  {
    hide Join;
    RepeatSplit(body, i + 1, count);
    var next, rest := (start + Repeat(body, i)) + body, Repeat(body, count - i - 1);
    assert start + Repeat(body, count) == next + rest;
    if FitsOutput(next + rest, outSize) {
      FitsOutputPrefix(next, rest, outSize);
    }
  }

  lemma EntriesAdd(a: Entries, b: Entries, c: Entries, depth: nat, m: int, n: int, failed: bool)
    requires depth < MAX_DEPTH && EntriesGrow(a, b, depth, m, false)
    requires c[depth + 1] == b[depth + 1] + 1 && EntriesGrow(b, c, depth + 1, n, failed)
    requires n >= 0 && (n >= 1 || failed)
    ensures EntriesGrow(a, c, depth, m + n, failed)
  {
  }

  lemma CloseStep(s: string, at: nat, end: nat, nesting: nat)
    requires at < end <= |s| && nesting > 0
    ensures var c := s[at];
            if IsControl(c) then CloseAt(s[at..end], nesting).None?
            else if c == ')' && nesting == 1 then CloseAt(s[at..end], nesting) == Some(0)
            else
              var rest := CloseAt(s[at + 1..end],
                                  if c == '(' then nesting + 1 else if c == ')' then nesting - 1 else nesting);
              CloseAt(s[at..end], nesting)
              == if rest.None? then None else Some(1 + rest.value)
  {
    assert s[at..end][0] == s[at] && s[at..end][1..] == s[at + 1..end];
  }

  lemma CountUnfolds(s: string, at: nat, end: nat)
    requires at <= end <= |s|
    ensures at == end || s[at] != '*' ==> CountAt(s[at..end]) == Some((1, 0))
    ensures at < end && s[at] == '*' ==>
      var digits := Digits(s[at + 1..end], 0);
      if digits.None? || digits.value.1 == 0 || digits.value.0 == 0 then CountAt(s[at..end]).None?
      else CountAt(s[at..end]) == Some((digits.value.0, 1 + digits.value.1))
  {
    hide Digits;
    assert at < end ==> s[at..end][0] == s[at] && s[at..end][1..] == s[at + 1..end];
  }

  lemma DigitsUnfold(s: string, at: nat, end: nat, value: nat)
    requires at <= end <= |s|
    ensures at == end || !IsDigit(s[at]) ==> Digits(s[at..end], value) == Some((value, 0))
    ensures at < end && IsDigit(s[at]) ==>
      var next := 10 * value + DigitValue(s[at]);
      var rest := Digits(s[at + 1..end], next);
      if next > MAX_COUNT || rest.None? then Digits(s[at..end], value).None?
      else Digits(s[at..end], value) == Some((rest.value.0, 1 + rest.value.1))
  {
    assert at < end ==> s[at..end][0] == s[at] && s[at..end][1..] == s[at + 1..end];
  }

  lemma CloseNothing(nesting: nat)
    requires nesting > 0
    ensures CloseAt("", nesting).None?
  {
  }

  lemma JoinNothing()
    ensures Join([]) == ""
  {
  }

  lemma ModSum(a: nat, b: nat)
    ensures (a % U64_LIMIT + b) % U64_LIMIT == (a + b) % U64_LIMIT
  {
  }

  lemma EntriesBounded(before: Entries, after: Entries, depth: nat, emitted: int, failed: bool)
    requires depth <= MAX_DEPTH && after[depth] == before[depth] + 1
    requires EntriesGrow(before, after, depth, emitted, failed)
    ensures depth == 0 && emitted <= MAX_TOKENS ==>
      AllEntries(after) <= AllEntries(before) + MAX_DEPTH * (MAX_TOKENS + 1) + 1
  {
  }

  /** How often expandItems was entered in all. */
  ghost function AllEntries(entries: Entries): nat {
    entries[0] + entries[1] + entries[2] + entries[3] + entries[4]
  }

  /** sequenceExpand. Whatever the counts say, the work is bounded by the two limits. */
  method Expand(sequence: Option<string>, out: array<char>, clickCostMs: nat)
    returns (result: Result, tokenCount: nat, estimatedMs: nat, errorIndex: nat, ghost entries: Entries)
    modifies out
    ensures out.Length == 0 ==> result == TooLong
    ensures out.Length > 0 && sequence.None? ==> result == Ok && out[0] == '\0' && tokenCount == 0
    ensures out.Length > 0 && sequence.Some? ==>
      (result == Ok <==> Items(sequence.value, 0).Some? && FitsOutput(Items(sequence.value, 0).value, out.Length))
    ensures out.Length > 0 && sequence.Some? && result == Ok ==>
      var tokens := Items(sequence.value, 0).value;
      && out[..|Join(tokens)|] == Join(tokens) && out[|Join(tokens)|] == '\0'
      && tokenCount == |tokens|
      && NoEmpty(tokens) && estimatedMs == Cost(tokens, clickCostMs).0 % U64_LIMIT
    ensures out.Length > 0 && result != Ok ==> out[0] == '\0'
    ensures result != Ok || sequence.None? ==> estimatedMs == 0
    ensures AllEntries(entries) <= MAX_DEPTH * (MAX_TOKENS + 1) + 1
  {
    tokenCount, estimatedMs, errorIndex, entries := 0, 0, 0, [0, 0, 0, 0, 0];
    if out.Length == 0 {
      return TooLong, tokenCount, estimatedMs, errorIndex, entries;
    }
    out[0] := '\0';
    if sequence.None? {
      return Ok, tokenCount, estimatedMs, errorIndex, entries;
    }
    var s := sequence.value;
    var state := new ExpandState(s, out, clickCostMs);
    var ok := state.ExpandItems(0, |s|, 0);
    assert s[0..|s|] == s;
    entries := state.entries;
    if Items(s, 0).Some? {
      assert [] + Items(s, 0).value == Items(s, 0).value;
    }
    if !ok {
      out[0] := '\0';
      return state.result, state.tokens, 0, state.errorIndex, entries;
    }
    result, tokenCount, estimatedMs := Ok, state.tokens, state.estimatedMs;
  }
}
