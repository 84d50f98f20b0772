/** The naive meaning of an exact search, and the chunk by chunk enumeration that must equal it. */
module SearchScan {
  import opened Bytes
  import opened Options

  const CHUNK_SIZE := 0x40000
  const MAX_PATTERN := 256

  /** One entry of the process's memory map. */
  datatype Mapping = Mapping(address: nat, size: nat, readable: bool)

  /** Unchanging memory: its bytes, its map (a query may fail), and which reads succeed. */
  datatype World = World(memory: int -> byte, query: int -> Option<Mapping>, canRead: (int, int) -> bool)

  datatype Pattern = Pattern(bytes: seq<byte>, alignment: nat) {
    predicate Valid() {
      0 < |bytes| <= MAX_PATTERN && alignment > 0
    }
  }

  // ----- searchPlanMapping -----

  datatype Plan = Invalid | Skip(end: nat) | Read(end: nat)

  function Min(a: int, b: int): int {
    if a < b then a else b
  }

  function Max(a: int, b: int): int {
    if a < b then b else a
  }

  /** The end of a mapping as the 64-bit addition computes it. */
  function WrappedEnd(m: Mapping): nat {
    (m.address + m.size) % U64_LIMIT
  }

  function PlanMapping(cursor: nat, end: nat, m: Mapping): Plan {
    if cursor >= end || m.size == 0 || WrappedEnd(m) <= m.address then Invalid
    else if m.address > cursor then
      var stop := if m.address < end then m.address else end;
      if stop > cursor then Skip(stop) else Invalid
    else
      var stop := if WrappedEnd(m) > end then end else WrappedEnd(m);
      if stop <= cursor then Invalid else if m.readable then Read(stop) else Skip(stop)
  }

  /** A plan makes progress and stays in range, a read stays inside its readable mapping, and the only
      refusals are an empty mapping, one that reaches the end of the address space, and one already passed. */
  lemma PlanIsSound(cursor: nat, end: nat, m: Mapping)
    requires cursor < end && m.address < U64_LIMIT && m.size < U64_LIMIT
    ensures var plan := PlanMapping(cursor, end, m);
            && (plan.Invalid? <==>
                 m.size == 0 || m.address + m.size >= U64_LIMIT || m.address + m.size <= cursor)
            && (!plan.Invalid? ==> cursor < plan.end <= end)
            && (plan.Read? ==>
                 && m.readable && m.address <= cursor
                 && plan.end == Min(end, m.address + m.size))
            && (plan.Skip? ==>
                 if cursor < m.address then plan.end == Min(end, m.address)
                 else !m.readable && plan.end == Min(end, m.address + m.size))
  {
    if m.address + m.size >= U64_LIMIT {
      assert WrappedEnd(m) == m.address + m.size - U64_LIMIT;
    } else {
      assert WrappedEnd(m) == m.address + m.size;
    }
  }

  // ----- matches -----

  ghost predicate Hit(w: World, p: Pattern, a: int)
    requires p.Valid()
  {
    a % p.alignment == 0 && forall i :: 0 <= i < |p.bytes| ==> w.memory(a + i) == p.bytes[i]
  }

  /** The matches that begin in [from, stop), ascending. */
  ghost function Hits(w: World, p: Pattern, from: int, stop: int): seq<int>
    requires p.Valid()
    decreases stop - from
  {
    if stop <= from then [] else Hits(w, p, from, stop - 1) + (if Hit(w, p, stop - 1) then [stop - 1] else [])
  }

  ghost predicate Ascending(s: seq<int>) {
    forall i, j :: 0 <= i < j < |s| ==> s[i] < s[j]
  }

  ghost predicate Within(s: seq<int>, from: int, stop: int) {
    forall a :: a in s ==> from <= a < stop
  }

  lemma {:induction false} HitsExact(w: World, p: Pattern, from: int, stop: int)
    requires p.Valid()
    ensures Ascending(Hits(w, p, from, stop)) && Within(Hits(w, p, from, stop), from, stop)
    ensures forall a :: a in Hits(w, p, from, stop) <==> from <= a < stop && Hit(w, p, a)
    ensures |Hits(w, p, from, stop)| <= Max(0, stop - from)
    decreases stop - from
  {
    hide Hit;
    if stop <= from {
    } else {
      HitsExact(w, p, from, stop - 1);
      var front := Hits(w, p, from, stop - 1);
      assert forall i :: 0 <= i < |front| ==> front[i] in front;
    }
  }

  lemma AscendingJoin(a: seq<int>, b: seq<int>, from: int, middle: int, stop: int)
    requires Ascending(a) && Ascending(b) && Within(a, from, middle) && Within(b, middle, stop)
    requires from <= middle <= stop
    ensures Ascending(a + b) && Within(a + b, from, stop)
  {
    assert forall i :: 0 <= i < |a| ==> a[i] in a;
    assert forall i :: 0 <= i < |b| ==> b[i] in b;
  }

  // ----- one mapping, chunk by chunk -----

  /** The size of the chunk at `at` of a mapping that ends at `end`. */
  function Amount(at: int, end: int): int {
    Min(CHUNK_SIZE, end - at)
  }

  /** Matches found from `at` on, when [run, at) was read without a failure: a chunk reports what ends in it. */
  ghost function ScanMapping(w: World, p: Pattern, run: int, at: int, end: int): seq<int>
    requires p.Valid() && run <= at <= end
    decreases end - at
  {
    if at == end then []
    else
      var next := at + Amount(at, end);
      if w.canRead(at, next - at) then
        Hits(w, p, Max(run, at - |p.bytes| + 1), Max(run, next - |p.bytes| + 1)) + ScanMapping(w, p, run, next, end)
      else ScanMapping(w, p, next, next, end)
  }

  function FailedChunks(w: World, at: int, end: int): nat
    requires at <= end
    decreases end - at
  {
    if at == end then 0
    else
      var next := at + Amount(at, end);
      (if w.canRead(at, next - at) then 0 else 1) + FailedChunks(w, next, end)
  }

  /** Chunk k of the segment [start, end) was read. */
  predicate ChunkRead(w: World, start: int, end: int, k: int) {
    var at := start + k * CHUNK_SIZE;
    w.canRead(at, Amount(at, end))
  }

  predicate Overlaps(start: int, k: int, a: int, size: int) {
    start + k * CHUNK_SIZE < a + size && a < start + (k + 1) * CHUNK_SIZE
  }

  /** The match at a lies in the segment, and every chunk from number `first` on that it touches was read. */
  ghost predicate InRun(w: World, p: Pattern, start: int, end: int, first: int, a: int) {
    && a + |p.bytes| <= end
    && forall k :: k >= first && Overlaps(start, k, a, |p.bytes|) ==> ChunkRead(w, start, end, k)
  }

  /** The carry finds exactly the matches whose chunks were all read, none twice. */
  lemma {:induction false} ScanMappingFinds(w: World, p: Pattern, start: int, run: int, k: nat, end: int)
    requires p.Valid() && start <= run <= start + k * CHUNK_SIZE < end
    ensures var at, from := start + k * CHUNK_SIZE, Max(run, start + k * CHUNK_SIZE - |p.bytes| + 1);
            var found := ScanMapping(w, p, run, at, end);
            && Ascending(found) && Within(found, from, Max(from, end - |p.bytes| + 1))
            && (forall a :: a in found <==> from <= a && Hit(w, p, a) && InRun(w, p, start, end, k, a))
    decreases end - start - k * CHUNK_SIZE
  {
    hide Hit, Hits, InRun;
    var at, size := start + k * CHUNK_SIZE, |p.bytes|;
    var next := at + Amount(at, end);
    var from := Max(run, at - size + 1);
    var found := ScanMapping(w, p, run, at, end);
    assert (k + 1) * CHUNK_SIZE == k * CHUNK_SIZE + CHUNK_SIZE;
    if w.canRead(at, next - at) {
      assert ChunkRead(w, start, end, k);
      var middle := Max(run, next - size + 1);
      HitsExact(w, p, from, middle);
      var rest := ScanMapping(w, p, run, next, end);
      if next < end {
        ScanMappingFinds(w, p, start, run, k + 1, end);
      }
      AscendingJoin(Hits(w, p, from, middle), rest, from, middle, Max(middle, end - size + 1));
      forall a ensures a in found <==> from <= a && Hit(w, p, a) && InRun(w, p, start, end, k, a) {
        FirstChunkRead(w, p, start, k, end, a);
      }
    } else {
      assert !ChunkRead(w, start, end, k);
      if next < end {
        ScanMappingFinds(w, p, start, next, k + 1, end);
      }
      forall a ensures a in found <==> from <= a && Hit(w, p, a) && InRun(w, p, start, end, k, a) {
        FirstChunkFailed(w, p, start, k, end, a);
      }
    }
  }

  lemma FirstChunkFailed(w: World, p: Pattern, start: int, k: nat, end: int, a: int)
    requires p.Valid() && start + k * CHUNK_SIZE < end && !ChunkRead(w, start, end, k)
    ensures var next := Min(end, start + (k + 1) * CHUNK_SIZE);
            a >= start + k * CHUNK_SIZE - |p.bytes| + 1 ==>
              (InRun(w, p, start, end, k, a) <==> next < end && a >= next && InRun(w, p, start, end, k + 1, a))
  {
    if InRun(w, p, start, end, k, a) && a >= start + k * CHUNK_SIZE - |p.bytes| + 1 {
      assert !Overlaps(start, k, a, |p.bytes|);
    }
  }

  lemma FirstChunkRead(w: World, p: Pattern, start: int, k: nat, end: int, a: int)
    requires p.Valid() && start + k * CHUNK_SIZE < end && ChunkRead(w, start, end, k)
    ensures InRun(w, p, start, end, k, a) <==> InRun(w, p, start, end, k + 1, a)
    ensures a + |p.bytes| <= Min(end, start + (k + 1) * CHUNK_SIZE) ==> InRun(w, p, start, end, k, a)
    ensures start + (k + 1) * CHUNK_SIZE >= end ==> (InRun(w, p, start, end, k, a) <==> a + |p.bytes| <= end)
  {
  }

  // ----- the whole range -----

  /** Everything an uncancelled search finds from `cursor` on; it stops where a query fails or makes no sense. */
  ghost function Scan(w: World, p: Pattern, cursor: nat, end: nat): seq<int>
    requires p.Valid()
    decreases end - cursor
  {
    if cursor >= end || !CanPlan(w, cursor, end) then []
    else
      match PlanAt(w, cursor, end)
      case Skip(stop) => Scan(w, p, stop, end)
      case Read(stop) => ScanMapping(w, p, cursor, cursor, stop) + Scan(w, p, stop, end)
  }

  predicate CanPlan(w: World, cursor: nat, end: nat) {
    w.query(cursor).Some? && !PlanMapping(cursor, end, w.query(cursor).value).Invalid?
  }

  function PlanAt(w: World, cursor: nat, end: nat): (plan: Plan)
    requires cursor < end && CanPlan(w, cursor, end)
    ensures !plan.Invalid? && cursor < plan.end <= end
  {
    PlanMapping(cursor, end, w.query(cursor).value)
  }

  /** No query fails and every plan is valid. */
  predicate Completes(w: World, cursor: nat, end: nat)
    decreases end - cursor
  {
    cursor >= end || (CanPlan(w, cursor, end) && Completes(w, PlanAt(w, cursor, end).end, end))
  }

  function ReadErrors(w: World, cursor: nat, end: nat): nat
    decreases end - cursor
  {
    if cursor >= end || !CanPlan(w, cursor, end) then 0
    else
      var plan := PlanAt(w, cursor, end);
      (if plan.Read? then FailedChunks(w, cursor, plan.end) else 0) + ReadErrors(w, plan.end, end)
  }

  lemma MappingScan(w: World, p: Pattern, cursor: int, end: int)
    requires p.Valid() && cursor < end
    ensures var found := ScanMapping(w, p, cursor, cursor, end);
            && Ascending(found) && Within(found, cursor, end)
            && forall a :: a in found <==> cursor <= a && Hit(w, p, a) && InRun(w, p, cursor, end, 0, a)
  {
    hide Hit, InRun;
    ScanMappingFinds(w, p, cursor, cursor, 0, end);
  }

  /** Reported ascending, so none twice, and inside the range. */
  lemma {:induction false} ScanAscends(w: World, p: Pattern, cursor: nat, end: nat)
    requires p.Valid()
    ensures Ascending(Scan(w, p, cursor, end)) && Within(Scan(w, p, cursor, end), cursor, Max(cursor, end))
    decreases end - cursor
  {
    hide ScanMapping, PlanMapping, InRun, Hit;
    if cursor < end && CanPlan(w, cursor, end) {
      var plan := PlanAt(w, cursor, end);
      ScanAscends(w, p, plan.end, end);
      if plan.Read? {
        MappingScan(w, p, cursor, plan.end);
        AscendingJoin(ScanMapping(w, p, cursor, cursor, plan.end), Scan(w, p, plan.end, end), cursor, plan.end, end);
      }
    }
  }

  lemma {:induction false} AscendingIsShort(s: seq<int>, from: int, stop: int)
    requires Ascending(s) && Within(s, from, stop) && from <= stop
    ensures |s| <= stop - from
    decreases |s|
  {
    if s == [] {
    } else {
      var last := s[|s| - 1];
      var front := s[..|s| - 1];
      assert last in s;
      forall a | a in front ensures from <= a < last {
        var i :| 0 <= i < |front| && front[i] == a;
        assert s[i] == a && a in s;
      }
      AscendingIsShort(front, from, last);
    }
  }

  /** The match counter cannot wrap: there are no more matches than addresses. */
  lemma ScanIsShort(w: World, p: Pattern, start: nat, end: nat)
    requires p.Valid() && start <= end
    ensures |Scan(w, p, start, end)| <= end - start
  {
    hide Scan;
    ScanAscends(w, p, start, end);
    AscendingIsShort(Scan(w, p, start, end), start, end);
  }

  // ----- against the memory map -----

  predicate Contains(m: Mapping, a: int) {
    m.address <= a < m.address + m.size
  }

  /** What the kernel's query promises on [start, end): each address lies in one mapping, below the end of
      the address space, and every address of that mapping is answered alike. */
  ghost predicate WellMapped(w: World, start: nat, end: nat) {
    forall a: int :: start <= a < end ==>
      && w.query(a).Some?
      && Contains(w.query(a).value, a) && w.query(a).value.address + w.query(a).value.size < U64_LIMIT
      && forall b: int :: start <= b < end && Contains(w.query(a).value, b) ==> w.query(b) == w.query(a)
  }

  /** The naive search: an aligned match inside one readable mapping clipped to the range, all of whose
      chunks were read. */
  ghost predicate Reported(w: World, p: Pattern, start: nat, end: nat, a: int)
    requires p.Valid()
  {
    && start <= a < end && Hit(w, p, a)
    && w.query(a).Some? && w.query(a).value.readable
    && InRun(w, p, Max(start, w.query(a).value.address), Min(end, w.query(a).value.address + w.query(a).value.size), 0, a)
  }

  lemma PlanOfMapping(w: World, cursor: nat, end: nat)
    requires cursor < end <= U64_LIMIT && WellMapped(w, cursor, end)
    ensures var m := w.query(cursor).value;
            var stop := Min(end, m.address + m.size);
            && CanPlan(w, cursor, end) && cursor < stop
            && PlanAt(w, cursor, end) == (if m.readable then Read(stop) else Skip(stop))
  {
    PlanIsSound(cursor, end, w.query(cursor).value);
  }

  lemma NextMapping(w: World, cursor: nat, end: nat, a: int)
    requires WellMapped(w, cursor, end) && cursor < end
    requires Min(end, w.query(cursor).value.address + w.query(cursor).value.size) <= a < end
    ensures w.query(a).value.address >= Min(end, w.query(cursor).value.address + w.query(cursor).value.size)
  {
    var m, n := w.query(cursor).value, w.query(a).value;
    SharedAddress(w, cursor, end, cursor, a, m.address + m.size - 1);
  }

  lemma SharedAddress(w: World, cursor: nat, end: nat, a: int, b: int, shared: int)
    requires WellMapped(w, cursor, end) && cursor <= a < end && cursor <= b < end
    ensures cursor <= shared < end && Contains(w.query(a).value, shared) && Contains(w.query(b).value, shared) ==>
              w.query(a) == w.query(b)
  {
  }

  lemma {:induction false} ScanIsNaive(w: World, p: Pattern, cursor: nat, end: nat)
    requires p.Valid() && end <= U64_LIMIT && WellMapped(w, cursor, end)
    ensures Completes(w, cursor, end)
    ensures forall a :: a in Scan(w, p, cursor, end) <==> Reported(w, p, cursor, end, a)
    decreases end - cursor
  {
    hide ScanMapping, PlanMapping, InRun, Hit, WellMapped, CanPlan;
    if end <= cursor {
    } else {
      PlanOfMapping(w, cursor, end);
      var m := w.query(cursor).value;
      var stop := Min(end, m.address + m.size);
      SubRange(w, cursor, stop, end);
      ScanIsNaive(w, p, stop, end);
      MappingScan(w, p, cursor, stop);
      forall a ensures a in Scan(w, p, cursor, end) <==> Reported(w, p, cursor, end, a) {
        ReportedSplits(w, p, cursor, stop, end, a);
      }
    }
  }

  lemma SubRange(w: World, cursor: nat, stop: nat, end: nat)
    requires cursor <= stop && WellMapped(w, cursor, end)
    ensures WellMapped(w, stop, end)
  {
  }

  /** The range's matches are the first mapping's and those behind it. */
  lemma ReportedSplits(w: World, p: Pattern, cursor: nat, stop: nat, end: nat, a: int)
    requires p.Valid() && cursor < end <= U64_LIMIT && WellMapped(w, cursor, end)
    requires stop == Min(end, w.query(cursor).value.address + w.query(cursor).value.size)
    ensures cursor < stop
    ensures Reported(w, p, cursor, end, a) <==>
      || Reported(w, p, stop, end, a)
      || (w.query(cursor).value.readable && cursor <= a && Hit(w, p, a) && InRun(w, p, cursor, stop, 0, a))
  {
    hide Hit, Overlaps, ChunkRead;
    if stop <= a < end {
      NextMapping(w, cursor, end, a);
    } else if cursor <= a < stop {
      assert Contains(w.query(cursor).value, a);
      assert w.query(a) == w.query(cursor);
    }
  }
}
