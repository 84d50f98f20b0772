/** The exact search session: its status counters, its result buffer and the worker's scan. */
module SearchManager {
  import opened Bytes
  import opened SearchScan

  const MAX_RESULTS := 65536
  const MAX_PAGE := 256

  type u64 = x: int | 0 <= x < U64_LIMIT

  datatype State = Idle | Queued | Running | Done | Cancelled | Error

  datatype StartResult = Started(sessionId: u64) | Unavailable | Busy | NoMemory

  ghost predicate Holds(w: World, buffer: array<byte>, base: int, size: nat)
    reads buffer
  {
    size <= buffer.Length && forall i :: 0 <= i < size ==> buffer[i] == w.memory(base + i)
  }

  /** Copies `amount` bytes of the process at `address` behind the first `carry` bytes; a failed read may
      leave any of them behind. */
  method ReadMemory(w: World, buffer: array<byte>, carry: nat, address: u64, amount: nat) returns (ok: bool)
    requires carry + amount <= buffer.Length && Holds(w, buffer, address - carry, carry)
    modifies buffer
    ensures ok == w.canRead(address, amount)
    ensures Holds(w, buffer, address - carry, if ok then carry + amount else 0)
  {
    ok := w.canRead(address, amount);
    var i := 0;
    while i < amount
      invariant i <= amount && Holds(w, buffer, address - carry, carry + i)
    {
      if !ok {
        if * {
          return;
        }
      }
      buffer[carry + i] := w.memory(address + i);
      i := i + 1;
    }
  }

  /** memmove of the last `carry` of the first `size` bytes, which lie at `base`, to the front. */
  method KeepTail(w: World, buffer: array<byte>, base: int, size: nat, carry: nat)
    requires carry <= size && Holds(w, buffer, base, size)
    modifies buffer
    ensures Holds(w, buffer, base + size - carry, carry)
  {
    var i := 0;
    while i < carry
      invariant i <= carry && Holds(w, buffer, base + size - carry, i)
      invariant forall j :: i <= j < size ==> buffer[j] == w.memory(base + j)
    {
      buffer[i] := buffer[size - carry + i];
      i := i + 1;
    }
  }

  /** How much of the run [run, cursor) is kept in front of the next chunk. */
  ghost predicate Carried(p: Pattern, run: int, cursor: int, carry: int) {
    carry == Min(cursor - run, |p.bytes| - 1)
  }

  class Manager {
    var state: State
    var sessionId: u64
    var nextSessionId: u64
    var start: u64
    var end: u64
    var pattern: Pattern
    var scanned: nat
    var totalMatches: nat
    var storedMatches: nat
    var readErrors: nat
    var truncated: bool
    var cancelRequested: bool
    var threadStarted: bool
    const results: array<int>
    /** Every match recorded in this session, in the order of recording. */
    ghost var found: seq<int>
    /** No memory was left, or another process took over, during the scan. */
    ghost var faulted: bool

    /** The result buffer holds the first MAX_RESULTS matches, and the counters say so. */
    ghost predicate Recorded()
      reads `totalMatches, `storedMatches, `truncated, `found, results
    {
      && results.Length == MAX_RESULTS
      && totalMatches == |found|
      && storedMatches == Min(|found|, MAX_RESULTS)
      && results[..storedMatches] == found[..storedMatches]
      && (truncated <==> |found| > MAX_RESULTS)
    }

    /** A queued search has a range and a pattern. */
    ghost predicate Valid()
      reads this, results
    {
      && Recorded()
      && nextSessionId != 0
      && (state in {Queued, Running} ==> start <= end && pattern.Valid())
    }

    constructor (started: bool)
      ensures Valid() && fresh(results) && state == Idle && threadStarted == started && found == []
    {
      state, sessionId, nextSessionId, start, end := Idle, 0, 1, 0, 0;
      pattern := Pattern([], 0);
      scanned, totalMatches, storedMatches, readErrors := 0, 0, 0, 0;
      truncated, cancelRequested, threadStarted := false, false, started;
      results := new int[MAX_RESULTS];
      found, faulted := [], false;
    }

    /** queueSearch; an unknown-value session and a failed allocation come from outside. */
    method Queue(first: u64, last: u64, sought: Pattern, unknownSession: bool, haveMemory: bool)
      returns (r: StartResult)
      requires Valid() && first <= last && sought.Valid()
      modifies this
      ensures Valid()
      ensures r.Started? <==> old(threadStarted && state !in {Queued, Running}) && !unknownSession && haveMemory
      ensures r.Busy? <==> old(threadStarted) && (unknownSession || old(state in {Queued, Running}))
      ensures !r.Started? ==>
        unchanged(`state) && unchanged(`found) && unchanged(`sessionId) && unchanged(`nextSessionId)
        && unchanged(`start) && unchanged(`end) && unchanged(`pattern) && unchanged(`cancelRequested)
        && unchanged(`scanned) && unchanged(`readErrors)
      ensures r.Started? ==>
        && r.sessionId == sessionId == old(nextSessionId) != 0
        && nextSessionId == (if sessionId + 1 == U64_LIMIT then 1 else sessionId + 1)
        && state == Queued && found == [] && scanned == readErrors == 0 && !cancelRequested
        && start == first && end == last && pattern == sought
    {
      if !threadStarted {
        r := Unavailable;
      } else if unknownSession || state == Queued || state == Running {
        r := Busy;
      } else if !haveMemory {
        r := NoMemory;
      } else {
        Reset();
        pattern, cancelRequested := sought, false;
        sessionId := nextSessionId;
        nextSessionId := if nextSessionId + 1 == U64_LIMIT then 1 else nextSessionId + 1;
        state, start, end := Queued, first, last;
        r := Started(sessionId);
      }
    }

    method Reset()
      requires results.Length == MAX_RESULTS
      modifies `totalMatches, `storedMatches, `truncated, `found, `scanned, `readErrors
      ensures Recorded() && found == [] && scanned == 0 && readErrors == 0
    {
      scanned, totalMatches, storedMatches, readErrors, truncated := 0, 0, 0, 0, false;
      found := [];
    }

    /** recordMatch. */
    method RecordMatch(address: u64)
      requires Recorded()
      modifies `totalMatches, `storedMatches, `truncated, `found, results
      ensures Recorded() && found == old(found) + [address]
    {
      found := found + [address];
      totalMatches := totalMatches + 1;
      if storedMatches < MAX_RESULTS {
        results[storedMatches] := address;
        storedMatches := storedMatches + 1;
      } else {
        truncated := true;
      }
    }

    /** searchExactBufferAligned over the first `size` bytes, which lie at `base` in the process. */
    method SearchExact(w: World, buffer: array<byte>, size: nat, base: u64)
      requires Recorded() && pattern.Valid()
      requires Holds(w, buffer, base, size) && base + size < U64_LIMIT
      modifies `totalMatches, `storedMatches, `truncated, `found, results
      ensures Recorded()
      ensures found == old(found) + Hits(w, pattern, base, base + size - |pattern.bytes| + 1)
    {
      hide Hit, Hits;
      var length := |pattern.bytes|;
      assert found == found + [];
      if size < length {
        NoHits(w, pattern, base, base + size - length + 1);
        return;
      }
      NoHits(w, pattern, base, base);
      var last := size - length;
      var offset := 0;
      while offset <= last
        invariant 0 <= offset <= last + 1
        invariant Recorded()
        invariant found == old(found) + Hits(w, pattern, base, base + offset)
      {
        NextHit(w, pattern, base, base + offset);
        HitInBuffer(w, pattern, buffer, base, size, offset);
        if (base + offset) % pattern.alignment == 0 && buffer[offset..offset + length] == pattern.bytes {
          RecordMatch(base + offset);
        }
        offset := offset + 1;
      }
    }

    /** One pass of the inner loop: a chunk is read behind the carried bytes, searched, and its tail carried on. */
    method ScanChunk(w: World, buffer: array<byte>, ghost run: int, cursor: u64, mappingEnd: u64, carry: nat)
      returns (next: u64, nextCarry: nat, ghost nextRun: int)
      requires Recorded() && pattern.Valid() && 0 <= run <= cursor < mappingEnd
      requires buffer.Length == CHUNK_SIZE + MAX_PATTERN - 1
      requires Carried(pattern, run, cursor, carry) && Holds(w, buffer, cursor - carry, carry)
      modifies buffer, results, `totalMatches, `storedMatches, `truncated, `found, `scanned, `readErrors
      ensures Recorded() && cursor < next <= mappingEnd && run <= nextRun <= next
      ensures scanned == old(scanned) + (next - cursor)
      ensures Carried(pattern, nextRun, next, nextCarry) && Holds(w, buffer, next - nextCarry, nextCarry)
      ensures old(found) <= found
      ensures Advances(w, pattern, mappingEnd, run, cursor, old(found), old(readErrors), nextRun, next, found, readErrors)
    {
      var amount := CHUNK_SIZE;
      if amount > mappingEnd - cursor {
        amount := mappingEnd - cursor;
      }
      assert amount == Amount(cursor, mappingEnd) <= CHUNK_SIZE && carry < MAX_PATTERN;
      hide Hits, ScanMapping, FailedChunks, Manager.Recorded, Pattern.Valid, Holds, Carried, Amount, Min, Max;
      hide ChunkFound, RunAfter, Failures, Advances;
      next := cursor + amount;
      ghost var before, errors := found, readErrors;
      NextChunk(w, run, cursor, next, mappingEnd);
      nextCarry, nextRun := ReadAndSearch(w, buffer, run, cursor, amount, carry);
      scanned := scanned + amount;
      ChunkJoins(w, pattern, run, cursor, next, mappingEnd, before, errors, found);
    }

    /** A chunk that cannot be read ends the run, and nothing is carried on. */
    method ReadAndSearch(w: World, buffer: array<byte>, ghost run: int, cursor: u64, amount: nat, carry: nat)
      returns (nextCarry: nat, ghost nextRun: int)
      requires Recorded() && pattern.Valid() && 0 <= run <= cursor && cursor + amount < U64_LIMIT
      requires carry + amount <= buffer.Length
      requires Carried(pattern, run, cursor, carry) && Holds(w, buffer, cursor - carry, carry)
      modifies buffer, results, `totalMatches, `storedMatches, `truncated, `found, `readErrors
      ensures Recorded()
      ensures nextRun == RunAfter(w, run, cursor, amount)
      ensures Carried(pattern, nextRun, cursor + amount, nextCarry)
      ensures Holds(w, buffer, cursor + amount - nextCarry, nextCarry)
      ensures readErrors == old(readErrors) + Failures(w, cursor, amount)
      ensures ChunkFound(w, pattern, run, cursor, amount, old(found), found) && old(found) <= found
    {
      hide Hits, Manager.Recorded, Pattern.Valid, Holds, Carried, Min, Max;
      var ok := ReadMemory(w, buffer, carry, cursor, amount);
      if ok {
        nextRun := run;
        nextCarry := SearchCombined(w, buffer, run, cursor, carry, amount);
      } else {
        readErrors := readErrors + 1;
        NothingCarried(w, pattern, buffer, cursor + amount);
        nextCarry, nextRun := 0, cursor + amount;
        assert found == old(found) + [];
      }
    }

    /** The carried bytes and the chunk behind them are searched as one buffer. */
    method SearchCombined(w: World, buffer: array<byte>, ghost run: int, cursor: u64, carry: nat, amount: nat)
      returns (nextCarry: nat)
      requires Recorded() && pattern.Valid() && 0 <= run <= cursor && cursor + amount < U64_LIMIT
      requires Carried(pattern, run, cursor, carry)
      requires Holds(w, buffer, cursor - carry, carry + amount)
      modifies buffer, results, `totalMatches, `storedMatches, `truncated, `found
      ensures Recorded()
      ensures Carried(pattern, run, cursor + amount, nextCarry)
      ensures Holds(w, buffer, cursor + amount - nextCarry, nextCarry)
      ensures found == old(found) + Hits(w, pattern, Max(run, cursor - |pattern.bytes| + 1),
                                         Max(run, cursor + amount - |pattern.bytes| + 1))
    {
      assert |pattern.bytes| > 0;
      hide Hits, Manager.Recorded, Pattern.Valid, Holds;
      var combined := carry + amount;
      SearchExact(w, buffer, combined, cursor - carry);
      ReportedByChunk(w, pattern, run, cursor, amount, carry);
      var overlap := if |pattern.bytes| > 1 then |pattern.bytes| - 1 else 0;
      nextCarry := if combined < overlap then combined else overlap;
      KeepTail(w, buffer, cursor - carry, combined, nextCarry);
    }

    /** The inner loop of runSearch: one readable mapping, already clipped. */
    method ScanOneMapping(w: World, buffer: array<byte>, from: u64, mappingEnd: u64) returns (cursor: u64)
      requires Recorded() && pattern.Valid() && from < mappingEnd
      requires buffer.Length == CHUNK_SIZE + MAX_PATTERN - 1
      modifies buffer, results
      modifies `totalMatches, `storedMatches, `truncated, `found, `scanned, `readErrors, `cancelRequested
      ensures Recorded() && from <= cursor <= mappingEnd
      ensures scanned == old(scanned) + (cursor - from)
      ensures old(cancelRequested) ==> cancelRequested
      ensures old(found) <= found <= old(found) + ScanMapping(w, pattern, from, from, mappingEnd)
      ensures !cancelRequested ==>
        && cursor == mappingEnd
        && found == old(found) + ScanMapping(w, pattern, from, from, mappingEnd)
        && readErrors == old(readErrors) + FailedChunks(w, from, mappingEnd)
    {
      assert |pattern.bytes| > 0;
      hide Hits, ScanMapping, FailedChunks, Manager.Recorded, Pattern.Valid;
      cursor := from;
      var carry := 0;
      ghost var run: int := from;
      while cursor < mappingEnd
        invariant Recorded() && from <= run <= cursor <= mappingEnd
        invariant Carried(pattern, run, cursor, carry)
        invariant Holds(w, buffer, cursor - carry, carry)
        invariant scanned == old(scanned) + (cursor - from)
        invariant old(cancelRequested) ==> cancelRequested
        invariant old(found) <= found
        invariant found + ScanMapping(w, pattern, run, cursor, mappingEnd)
               == old(found) + ScanMapping(w, pattern, from, from, mappingEnd)
        invariant readErrors + FailedChunks(w, cursor, mappingEnd)
               == old(readErrors) + FailedChunks(w, from, mappingEnd)
      {
        var cancel := ShouldCancel();
        if cancel {
          return;
        }
        cursor, carry, run := ScanChunk(w, buffer, run, cursor, mappingEnd, carry);
      }
      NoChunk(w, pattern, run, mappingEnd);
      assert found + [] == found;
    }

    /** A cancel request may arrive at any moment; it is never withdrawn while the worker runs. */
    method ShouldCancel() returns (cancel: bool)
      modifies `cancelRequested
      ensures cancel == cancelRequested
      ensures old(cancelRequested) ==> cancelRequested
    {
      if * {
        cancelRequested := true;
      }
      cancel := cancelRequested;
    }

    /** One pass of the outer loop: the mapping at the cursor is skipped or scanned. */
    method ScanNext(w: World, buffer: array<byte>, cursor: u64) returns (next: u64, failed: bool)
      requires Recorded() && pattern.Valid() && cursor < end
      requires buffer.Length == CHUNK_SIZE + MAX_PATTERN - 1
      modifies buffer, results
      modifies `totalMatches, `storedMatches, `truncated, `found, `scanned, `readErrors, `cancelRequested, `faulted
      ensures Recorded() && cursor <= next <= end
      ensures failed ==> faulted || !CanPlan(w, cursor, end)
      ensures failed ==> next == cursor
      ensures old(faulted) ==> faulted
      ensures !failed ==> faulted == old(faulted)
      ensures scanned == old(scanned) + (next - cursor)
      ensures old(cancelRequested) ==> cancelRequested
      ensures old(found) <= found <= old(found) + Scan(w, pattern, cursor, end)
      ensures !failed && !cancelRequested ==>
        && CanPlan(w, cursor, end) && next == PlanAt(w, cursor, end).end
        && found + Scan(w, pattern, next, end) == old(found) + Scan(w, pattern, cursor, end)
        && readErrors + ReadErrors(w, next, end) == old(readErrors) + ReadErrors(w, cursor, end)
    {
      hide Scan, ScanMapping, FailedChunks, ReadErrors, PlanMapping, Hits, Manager.Recorded, Pattern.Valid;
      next, failed := cursor, true;
      if * {
        faulted := true;  // another process is running
        return;
      }
      var info := w.query(cursor);
      if info.None? {
        return;
      }
      var plan := PlanMapping(cursor, end, info.value);
      if plan.Invalid? {
        return;
      }
      failed := false;
      NextPlan(w, pattern, cursor, end);
      if plan.Skip? {
        scanned := scanned + (plan.end - cursor);
        next := plan.end;
        assert [] + Scan(w, pattern, next, end) == Scan(w, pattern, next, end);
      } else {
        next := ScanOneMapping(w, buffer, cursor, plan.end);
        ConcatAssociates(old(found), ScanMapping(w, pattern, cursor, cursor, plan.end),
                         Scan(w, pattern, plan.end, end));
      }
    }

    /** The outer loop of runSearch. */
    method ScanRange(w: World, buffer: array<byte>) returns (failed: bool)
      requires Recorded() && pattern.Valid() && start <= end && found == [] && scanned == 0 && readErrors == 0
      requires buffer.Length == CHUNK_SIZE + MAX_PATTERN - 1
      modifies buffer, results
      modifies `totalMatches, `storedMatches, `truncated, `found, `scanned, `readErrors, `cancelRequested, `faulted
      ensures Recorded() && scanned <= end - start
      ensures found <= Scan(w, pattern, start, end)
      ensures old(cancelRequested) ==> cancelRequested
      ensures failed ==> faulted || !Completes(w, start, end)
      ensures !failed ==> faulted == old(faulted)
      ensures !failed && !cancelRequested ==>
        && Completes(w, start, end)
        && found == Scan(w, pattern, start, end)
        && scanned == end - start
        && readErrors == ReadErrors(w, start, end)
    {
      hide Scan, ScanMapping, FailedChunks, ReadErrors, Completes, PlanMapping, Hits, Manager.Recorded, Pattern.Valid;
      failed := false;
      var cursor := start;
      while cursor < end && !failed
        invariant Recorded() && start <= cursor <= end
        invariant scanned == cursor - start
        invariant found <= Scan(w, pattern, start, end)
        invariant old(cancelRequested) ==> cancelRequested
        invariant failed ==> faulted || !Completes(w, start, end)
        invariant !failed ==> faulted == old(faulted)
        invariant !failed ==>
          && found + Scan(w, pattern, cursor, end) == Scan(w, pattern, start, end)
          && readErrors + ReadErrors(w, cursor, end) == ReadErrors(w, start, end)
          && Completes(w, start, end) == Completes(w, cursor, end)
        decreases end - cursor, !failed
      {
        var cancel := ShouldCancel();
        if cancel {
          return;
        }
        NextPlan(w, pattern, cursor, end);
        cursor, failed := ScanNext(w, buffer, cursor);
        if cancelRequested {
          return;
        }
      }
      NoPlan(w, pattern, end);
      assert found + [] == found;
    }

    /** runSearch. */
    method RunSearch(w: World)
      requires Valid() && state == Queued && found == [] && scanned == 0 && readErrors == 0
      modifies results, `state, `totalMatches, `storedMatches, `truncated, `found, `scanned, `readErrors,
               `cancelRequested, `faulted
      ensures Valid() && pattern.Valid() && start <= end
      ensures state in {Done, Cancelled, Error}
      ensures state == Cancelled ==> cancelRequested
      ensures cancelRequested && state != Cancelled ==> state == Error && faulted && found == []  // no memory
      ensures state == Error ==> faulted || !Completes(w, start, end)
      ensures found <= Scan(w, pattern, start, end)
      ensures scanned <= end - start
      ensures state == Done ==>
        && faulted == old(faulted) && Completes(w, start, end)
        && found == Scan(w, pattern, start, end)
        && scanned == end - start
        && readErrors == ReadErrors(w, start, end)
      // against the naive search: only reported matches, ascending and none twice; all of them once Done
      ensures Ascending(found) && |found| <= end - start
      ensures WellMapped(w, start, end) ==> forall a <- found :: Reported(w, pattern, start, end, a)
      ensures WellMapped(w, start, end) && state == Done ==>
        forall a :: a in found <==> Reported(w, pattern, start, end, a)
      ensures WellMapped(w, start, end) ==> state != Error || faulted
    {
      assert start <= end && pattern.Valid();
      hide Scan, ReadErrors, Completes, Hits, Manager.Recorded, Pattern.Valid, WellMapped, Reported, Ascending;
      if * {
        faulted, state := true, Error;  // no memory for the buffer
        FoundIsNaive(w, pattern, start, end, found);
        return;
      }
      var buffer := new byte[CHUNK_SIZE + MAX_PATTERN - 1];
      state := Running;
      var failed := ScanRange(w, buffer);
      var cancelled := ShouldCancel();
      state := if cancelled then Cancelled else if failed then Error else Done;
      FoundIsNaive(w, pattern, start, end, found);
    }

    /** searchCopyResults, for a session of this manager. */
    method CopyResults(session: u64, offset: u64, wanted: u64, addresses: array<int>)
      returns (ok: bool, copied: nat, totalStored: nat)
      requires Valid() && addresses != results && addresses.Length >= MAX_PAGE
      modifies addresses
      ensures ok <==> session != 0 && session == sessionId
      ensures ok ==>
        && totalStored == storedMatches
        && copied == Max(0, Min(Min(wanted, MAX_PAGE), storedMatches - offset))
        && (copied > 0 ==> offset + copied <= |found| && addresses[..copied] == found[offset..offset + copied])
      ensures addresses[if ok then copied else 0..] == old(addresses[if ok then copied else 0..])
    {
      ok, copied, totalStored := session != 0 && session == sessionId, 0, 0;
      if !ok {
        return;
      }
      var count := if wanted > MAX_PAGE then MAX_PAGE else wanted;
      totalStored := storedMatches;
      if offset >= storedMatches {
        count := 0;
      } else if count > storedMatches - offset {
        count := storedMatches - offset;
      }
      while copied < count
        invariant copied <= count
        invariant forall k :: 0 <= k < copied ==> addresses[k] == results[offset + k]
        invariant forall k :: copied <= k < addresses.Length ==> addresses[k] == old(addresses[k])
      {
        addresses[copied] := results[offset + copied];
        copied := copied + 1;
      }
      if copied > 0 {
        assert addresses[..copied] == results[offset..offset + copied];
        assert results[..][..storedMatches] == results[..storedMatches];
        assert results[..][offset..offset + copied] == results[offset..offset + copied];
        SamePage(results[..], found, storedMatches, offset, offset + copied);
      }
    }
  }

  /** What was found before the search ended is what the naive search finds first. */
  lemma FoundIsNaive(w: World, p: Pattern, start: nat, end: nat, found: seq<int>)
    requires p.Valid() && start <= end < U64_LIMIT && found <= Scan(w, p, start, end)
    ensures Ascending(found) && |found| <= end - start
    ensures WellMapped(w, start, end) ==> forall a <- found :: Reported(w, p, start, end, a)
    ensures WellMapped(w, start, end) && found == Scan(w, p, start, end) ==>
      forall a :: a in found <==> Reported(w, p, start, end, a)
    ensures WellMapped(w, start, end) ==> Completes(w, start, end)
  {
    hide Scan, Completes, WellMapped, Reported;
    ScanAscends(w, p, start, end);
    ScanIsShort(w, p, start, end);
    forall a | a in found ensures a in Scan(w, p, start, end) {
      var i :| 0 <= i < |found| && found[i] == a;
      assert Scan(w, p, start, end)[i] == a;
    }
    if WellMapped(w, start, end) {
      ScanIsNaive(w, p, start, end);
    }
  }

  lemma NoHits(w: World, p: Pattern, from: int, stop: int)
    requires p.Valid() && stop <= from
    ensures Hits(w, p, from, stop) == []
  {
  }

  lemma NextHit(w: World, p: Pattern, from: int, a: int)
    requires p.Valid() && from <= a
    ensures Hits(w, p, from, a + 1) == Hits(w, p, from, a) + (if Hit(w, p, a) then [a] else [])
  {
    hide Hit;
  }

  lemma HitInBuffer(w: World, p: Pattern, buffer: array<byte>, base: int, size: nat, offset: nat)
    requires p.Valid() && Holds(w, buffer, base, size) && offset + |p.bytes| <= size
    ensures Hit(w, p, base + offset)
      <==> (base + offset) % p.alignment == 0 && buffer[offset..offset + |p.bytes|] == p.bytes
  {
    var part := buffer[offset..offset + |p.bytes|];
    forall i | 0 <= i < |p.bytes| ensures part[i] == w.memory(base + offset + i) {
      assert part[i] == buffer[offset + i];
    }
  }

  lemma NothingCarried(w: World, p: Pattern, buffer: array<byte>, at: int)
    requires p.Valid()
    ensures Carried(p, at, at, 0) && Holds(w, buffer, at, 0)
  {
  }

  lemma SamePage(s: seq<int>, t: seq<int>, n: nat, i: nat, j: nat)
    requires i <= j <= n <= |s| && n <= |t| && s[..n] == t[..n]
    ensures s[i..j] == t[i..j]
  {
    forall k | i <= k < j ensures s[k] == t[k] {
      assert s[..n][k] == t[..n][k];
    }
  }

  lemma ConcatAssociates(a: seq<int>, b: seq<int>, c: seq<int>)
    ensures a + (b + c) == (a + b) + c
  {
  }

  /** Where the run of read chunks begins after the chunk at `at`. */
  function RunAfter(w: World, run: int, at: int, amount: nat): int {
    if w.canRead(at, amount) then run else at + amount
  }

  function Failures(w: World, at: int, amount: nat): nat {
    if w.canRead(at, amount) then 0 else 1
  }

  /** The chunk at `at` adds the matches that end in it, or nothing if it could not be read. */
  ghost predicate ChunkFound(w: World, p: Pattern, run: int, at: int, amount: nat, before: seq<int>, after: seq<int>)
    requires p.Valid()
  {
    after == before
             + if w.canRead(at, amount)
               then Hits(w, p, Max(run, at - |p.bytes| + 1), Max(run, at + amount - |p.bytes| + 1)) else []
  }

  lemma NextChunk(w: World, run: int, at: int, next: int, end: int)
    requires run <= at < end && next == at + Amount(at, end)
    ensures at < next <= end && run <= RunAfter(w, run, at, next - at) <= next
  {
  }

  /** What is found and what fails from `at` on is what was added on the way to `next`, and what follows from there. */
  ghost predicate Advances(w: World, p: Pattern, end: int, run: int, at: int, before: seq<int>, errors: nat,
                           nextRun: int, next: int, after: seq<int>, nextErrors: nat)
    requires p.Valid() && run <= at <= end && nextRun <= next <= end
  {
    && after + ScanMapping(w, p, nextRun, next, end) == before + ScanMapping(w, p, run, at, end)
    && nextErrors + FailedChunks(w, next, end) == errors + FailedChunks(w, at, end)
  }

  lemma ChunkJoins(w: World, p: Pattern, run: int, at: int, next: int, end: int, before: seq<int>, errors: nat,
                   after: seq<int>)
    requires p.Valid() && run <= at < end && next == at + Amount(at, end)
    requires ChunkFound(w, p, run, at, next - at, before, after)
    ensures at < next <= end && run <= RunAfter(w, run, at, next - at) <= next
    ensures Advances(w, p, end, run, at, before, errors,
                     RunAfter(w, run, at, next - at), next, after, errors + Failures(w, at, next - at))
  {
    hide Hits;
    if w.canRead(at, next - at) {
      ConcatAssociates(before, Hits(w, p, Max(run, at - |p.bytes| + 1), Max(run, next - |p.bytes| + 1)),
                       ScanMapping(w, p, run, next, end));
    } else {
      assert after == before;
    }
  }

  lemma NoChunk(w: World, p: Pattern, run: int, end: int)
    requires p.Valid() && run <= end
    ensures ScanMapping(w, p, run, end, end) == [] && FailedChunks(w, end, end) == 0
  {
  }

  /** The buffer scan from the carried bytes on reports what the chunk at `at` completes. */
  lemma ReportedByChunk(w: World, p: Pattern, run: int, at: int, amount: nat, carry: int)
    requires p.Valid() && run <= at && carry == Min(at - run, |p.bytes| - 1)
    ensures Hits(w, p, at - carry, at + amount - |p.bytes| + 1)
         == Hits(w, p, Max(run, at - |p.bytes| + 1), Max(run, at + amount - |p.bytes| + 1))
  {
    hide Hit, Hits;
    if at + amount - |p.bytes| + 1 < run {
      NoHits(w, p, run, run);
      NoHits(w, p, run, at + amount - |p.bytes| + 1);
    }
  }

  lemma NextPlan(w: World, p: Pattern, cursor: nat, end: nat)
    requires p.Valid() && cursor < end
    ensures !CanPlan(w, cursor, end) ==>
      Scan(w, p, cursor, end) == [] && ReadErrors(w, cursor, end) == 0 && !Completes(w, cursor, end)
    ensures CanPlan(w, cursor, end) ==>
      var plan := PlanAt(w, cursor, end);
      && Completes(w, cursor, end) == Completes(w, plan.end, end)
      && Scan(w, p, cursor, end)
         == (if plan.Read? then ScanMapping(w, p, cursor, cursor, plan.end) else []) + Scan(w, p, plan.end, end)
      && ReadErrors(w, cursor, end)
         == (if plan.Read? then FailedChunks(w, cursor, plan.end) else 0) + ReadErrors(w, plan.end, end)
  {
    hide ScanMapping, FailedChunks, PlanMapping;
  }

  lemma NoPlan(w: World, p: Pattern, end: nat)
    requires p.Valid()
    ensures Scan(w, p, end, end) == [] && ReadErrors(w, end, end) == 0 && Completes(w, end, end)
  {
  }
}
