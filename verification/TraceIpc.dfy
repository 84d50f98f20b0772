/** How trace-ipc pairs responses with requests: two linked families of queues against one list of open requests. */
module TraceIpc {
  import opened Options

  /** A session with the entry and return targets of one profile pair; every queue key contains them. */
  datatype Channel = Channel(session: string, entry: string, ret: string)

  /** A pair's ipc.correlation: is the thread part of the key, and is thread-fifo the fallback. */
  datatype Correlation = Correlation(sameThread: bool, fifoFallback: bool)

  type Config = Channel -> Option<Correlation>

  /** A decoded snapshot at a pair's entry or return target; `key` is what the pair's expression extracts. */
  datatype Snapshot =
    | Entry(channel: Channel, thread: Option<string>, key: Option<string>)
    | Return(channel: Channel, thread: Option<string>, key: Option<string>)

  /** A queued request record; `id` stands for the identity of the record object. */
  datatype Request =
    Request(id: nat, channel: Channel, thread: Option<string>, key: Option<string>, outstanding: nat)

  datatype Kind = ThreadFifo | ProfileKey | ThreadFifoFallback

  datatype Transaction = Transaction(request: Request, thread: Option<string>, outstanding: nat, kind: Kind)

  datatype FifoKey = FifoKey(channel: Channel, thread: string)
  datatype KeyedKey = KeyedKey(channel: Channel, thread: Option<string>, key: string)

  /** The thread of an event, as the queue keys spell it. */
  function ThreadName(thread: Option<string>): string {
    if thread.None? then "0" else thread.value
  }

  /** The thread of a request record, as the purge spells it: the record holds None where the event had none. */
  function PurgeName(thread: Option<string>): string {
    if thread.None? then "None" else thread.value
  }

  function FifoOf(channel: Channel, thread: Option<string>): FifoKey {
    FifoKey(channel, ThreadName(thread))
  }

  /** The correlation key of a snapshot; None without a correlation or when the expression extracts nothing. */
  function KeyedOf(cfg: Config, channel: Channel, thread: Option<string>, key: Option<string>): Option<KeyedKey> {
    if cfg(channel).None? || key.None? then None
    else Some(KeyedKey(channel, if cfg(channel).value.sameThread then Some(ThreadName(thread)) else None, key.value))
  }

  // ----- the queues -----

  datatype Queues = Queues(
    fifo: map<FifoKey, seq<Request>>, keyed: map<KeyedKey, seq<Request>>,
    transactions: seq<Transaction>, unmatchedResponses: nat, next: nat)

  const NO_QUEUES := Queues(map[], map[], [], 0, 0)

  function Get<K>(m: map<K, seq<Request>>, k: K): seq<Request> {
    if k in m then m[k] else []
  }

  /** Without the record with this identity. */
  function Remove(list: seq<Request>, id: nat): (r: seq<Request>)
    ensures |r| <= |list|
  {
    if list == [] then [] else if list[0].id == id then list[1..] else [list[0]] + Remove(list[1..], id)
  }

  function EnterQueues(cfg: Config, q: Queues, channel: Channel, thread: Option<string>, key: Option<string>): Queues {
    var fifoKey, keyedKey := FifoOf(channel, thread), KeyedOf(cfg, channel, thread, key);
    var ahead := if keyedKey.Some? then Get(q.keyed, keyedKey.value) else Get(q.fifo, fifoKey);
    var request := Request(q.next, channel, thread, if cfg(channel).Some? then key else None, |ahead| + 1);
    q.(fifo := q.fifo[fifoKey := Get(q.fifo, fifoKey) + [request]],
       keyed := if keyedKey.Some? then q.keyed[keyedKey.value := ahead + [request]] else q.keyed,
       next := q.next + 1)
  }

  /** A keyed match pops the keyed queue and purges the thread queue. */
  function TakeKeyed(q: Queues, keyedKey: KeyedKey, thread: Option<string>): Queues
    requires Get(q.keyed, keyedKey) != []
  {
    var queue := q.keyed[keyedKey];
    var purged := FifoKey(queue[0].channel, PurgeName(queue[0].thread));
    q.(keyed := if |queue| == 1 then q.keyed - {keyedKey} else q.keyed[keyedKey := queue[1..]],
       fifo := if purged in q.fifo then q.fifo[purged := Remove(q.fifo[purged], queue[0].id)] else q.fifo,
       transactions := q.transactions + [Transaction(queue[0], thread, |queue|, ProfileKey)])
  }

  function TakeFifo(cfg: Config, q: Queues, channel: Channel, thread: Option<string>): Queues {
    var queue := Get(q.fifo, FifoOf(channel, thread));
    if (cfg(channel).Some? && !cfg(channel).value.fifoFallback) || queue == [] then
      q.(unmatchedResponses := q.unmatchedResponses + 1)
    else
      var kind := if cfg(channel).None? then ThreadFifo else ThreadFifoFallback;
      q.(fifo := q.fifo[FifoOf(channel, thread) := queue[1..]],
         transactions := q.transactions + [Transaction(queue[0], thread, |queue|, kind)])
  }

  function Step(cfg: Config, q: Queues, s: Snapshot): Queues {
    match s
    case Entry(channel, thread, key) => EnterQueues(cfg, q, channel, thread, key)
    case Return(channel, thread, key) =>
      var keyedKey := KeyedOf(cfg, channel, thread, key);
      if keyedKey.Some? && Get(q.keyed, keyedKey.value) != [] then TakeKeyed(q, keyedKey.value, thread)
      else TakeFifo(cfg, q, channel, thread)
  }

  function Run(cfg: Config, trace: seq<Snapshot>): Queues {
    if trace == [] then NO_QUEUES else Step(cfg, Run(cfg, trace[..|trace| - 1]), trace[|trace| - 1])
  }

  /** The requests still queued by thread: what the report calls unmatchedRequests. */
  ghost function Total(m: map<FifoKey, seq<Request>>): nat
    decreases |m|
  {
    if m == map[] then 0
    else
      var k :| k in m;
      |m[k]| + Total(m - {k})
  }

  // ----- one list of open requests -----

  /** The naive bookkeeping: `open` are the unanswered requests; `waiting` also holds the answered ones that
      were not purged. */
  datatype Ledger = Ledger(
    open: seq<Request>, waiting: seq<Request>,
    transactions: seq<Transaction>, unmatchedResponses: nat, next: nat)

  const NO_LEDGER := Ledger([], [], [], 0, 0)

  datatype Query = ByFifo(fifoKey: FifoKey) | ByKey(keyedKey: KeyedKey)

  predicate Answers(cfg: Config, r: Request, query: Query) {
    match query
    case ByFifo(k) => FifoOf(r.channel, r.thread) == k
    case ByKey(k) => KeyedOf(cfg, r.channel, r.thread, r.key) == Some(k)
  }

  /** The requests of the list that a query asks for, oldest first. */
  function Filter(cfg: Config, list: seq<Request>, query: Query): (r: seq<Request>)
    ensures |r| <= |list|
  {
    if list == [] then []
    else
      var front := Filter(cfg, list[..|list| - 1], query);
      if Answers(cfg, list[|list| - 1], query) then front + [list[|list| - 1]] else front
  }

  /** What a response looks for: its key where the pair has a correlation, else its thread. */
  function QueryOf(cfg: Config, channel: Channel, thread: Option<string>, key: Option<string>): Option<Query> {
    if cfg(channel).None? then Some(ByFifo(FifoOf(channel, thread)))
    else
      var keyedKey := KeyedOf(cfg, channel, thread, key);
      if keyedKey.None? then None else Some(ByKey(keyedKey.value))
  }

  function Candidates(cfg: Config, l: Ledger, s: Snapshot): seq<Request> {
    var query := QueryOf(cfg, s.channel, s.thread, s.key);
    if query.None? then [] else Filter(cfg, l.open, query.value)
  }

  /** An answered request leaves its thread queue unless it was matched by key and its event had no thread. */
  predicate Purged(cfg: Config, r: Request) {
    cfg(r.channel).None? || r.thread.Some?
  }

  function Answer(cfg: Config, l: Ledger, s: Snapshot): Ledger
    requires s.Return?
  {
    var candidates := Candidates(cfg, l, s);
    if candidates == [] then l.(unmatchedResponses := l.unmatchedResponses + 1)
    else
      var kind := if cfg(s.channel).None? then ThreadFifo else ProfileKey;
      l.(open := Remove(l.open, candidates[0].id),
         waiting := if Purged(cfg, candidates[0]) then Remove(l.waiting, candidates[0].id) else l.waiting,
         transactions := l.transactions + [Transaction(candidates[0], s.thread, |candidates|, kind)])
  }

  function Ask(cfg: Config, l: Ledger, s: Snapshot): Ledger
    requires s.Entry?
  {
    var keyedKey := KeyedOf(cfg, s.channel, s.thread, s.key);
    var ahead := if keyedKey.Some? then Filter(cfg, l.open, ByKey(keyedKey.value))
                 else Filter(cfg, l.waiting, ByFifo(FifoOf(s.channel, s.thread)));
    var request := Request(l.next, s.channel, s.thread, if cfg(s.channel).Some? then s.key else None, |ahead| + 1);
    l.(open := l.open + [request], waiting := l.waiting + [request], next := l.next + 1)
  }

  function NaiveStep(cfg: Config, l: Ledger, s: Snapshot): Ledger {
    if s.Entry? then Ask(cfg, l, s) else Answer(cfg, l, s)
  }

  function Naive(cfg: Config, trace: seq<Snapshot>): Ledger {
    if trace == [] then NO_LEDGER else NaiveStep(cfg, Naive(cfg, trace[..|trace| - 1]), trace[|trace| - 1])
  }

  /** No pair falls back from its key to the thread queue. */
  ghost predicate Strict(cfg: Config) {
    forall c: Channel :: cfg(c).Some? ==> !cfg(c).value.fifoFallback
  }

  // ----- lists of requests -----

  ghost predicate Ascending(list: seq<Request>) {
    forall i, j :: 0 <= i < j < |list| ==> list[i].id < list[j].id
  }

  ghost predicate Below(list: seq<Request>, next: nat) {
    forall i :: 0 <= i < |list| ==> list[i].id < next
  }

  lemma FilterGrows(cfg: Config, list: seq<Request>, r: Request, query: Query)
    ensures Filter(cfg, list + [r], query) == Filter(cfg, list, query) + (if Answers(cfg, r, query) then [r] else [])
  {
    assert (list + [r])[..|list|] == list;
  }

  lemma {:induction false} FilterMembers(cfg: Config, list: seq<Request>, query: Query)
    ensures forall r :: r in Filter(cfg, list, query) <==> r in list && Answers(cfg, r, query)
  {
    hide Answers;
    if list == [] {
    } else {
      var n := |list| - 1;
      FilterMembers(cfg, list[..n], query);
      assert list == list[..n] + [list[n]];
    }
  }

  lemma {:induction false} FilterAscends(cfg: Config, list: seq<Request>, query: Query)
    requires Ascending(list)
    ensures Ascending(Filter(cfg, list, query))
  {
    hide Answers;
    if list == [] {
    } else {
      var n := |list| - 1;
      FilterAscends(cfg, list[..n], query);
      FilterMembers(cfg, list[..n], query);
      var front := Filter(cfg, list[..n], query);
      forall i | 0 <= i < |front| ensures front[i].id < list[n].id {
        assert front[i] in front && front[i] in list[..n];
      }
    }
  }

  lemma {:induction false} RemoveMissing(list: seq<Request>, id: nat)
    requires forall i :: 0 <= i < |list| ==> list[i].id != id
    ensures Remove(list, id) == list
  {
    if list == [] {
    } else {
      RemoveMissing(list[1..], id);
    }
  }

  lemma {:induction false} RemoveJoins(a: seq<Request>, b: seq<Request>, id: nat)
    requires forall i :: 0 <= i < |a| ==> a[i].id != id
    ensures Remove(a + b, id) == a + Remove(b, id)
  {
    if a == [] {
      assert a + b == b;
    } else {
      RemoveJoins(a[1..], b, id);
      assert (a + b)[1..] == a[1..] + b;
    }
  }

  lemma {:induction false} RemoveFirstPart(a: seq<Request>, b: seq<Request>, id: nat)
    requires exists i :: 0 <= i < |a| && a[i].id == id
    ensures Remove(a + b, id) == Remove(a, id) + b && |Remove(a, id)| == |a| - 1
  {
    assert (a + b)[1..] == a[1..] + b;
    if a[0].id != id {
      var i :| 0 <= i < |a| && a[i].id == id;
      assert a[1..][i - 1].id == id;
      RemoveFirstPart(a[1..], b, id);
    }
  }

  /** Removing the last of the list. */
  lemma RemoveLast(list: seq<Request>, r: Request)
    requires Ascending(list + [r])
    ensures Remove(list + [r], r.id) == list
  {
    forall i | 0 <= i < |list| ensures list[i].id != r.id {
      assert (list + [r])[i].id < (list + [r])[|list|].id;
    }
    RemoveJoins(list, [r], r.id);
    assert Remove([r], r.id) == [];
  }

  /** Removing a request from the list removes it from the answer of every query it answers. */
  lemma {:induction false} FilterRemove(cfg: Config, list: seq<Request>, r: Request, query: Query)
    requires Ascending(list) && r in list
    ensures Filter(cfg, Remove(list, r.id), query)
         == if Answers(cfg, r, query) then Remove(Filter(cfg, list, query), r.id) else Filter(cfg, list, query)
  {
    hide Answers, Remove, Filter;
    var n := |list| - 1;
    var front, last := list[..n], list[n];
    assert list == front + [last];
    FilterGrows(cfg, front, last, query);
    FilterAscends(cfg, list, query);
    if last == r {
      RemoveLast(front, r);
      if Answers(cfg, r, query) {
        RemoveLast(Filter(cfg, front, query), r);
      }
    } else {
      assert r in front;
      var i :| 0 <= i < |front| && front[i] == r;
      RemoveFirstPart(front, [last], r.id);
      FilterGrows(cfg, Remove(front, r.id), last, query);
      FilterRemove(cfg, front, r, query);
      FilterMembers(cfg, front, query);
      if Answers(cfg, r, query) {
        var part := Filter(cfg, front, query);
        assert r in part;
        RemoveFirstPart(part, if Answers(cfg, last, query) then [last] else [], r.id);
        assert part + [] == part && Remove(part, r.id) + [] == Remove(part, r.id);
      }
      assert Filter(cfg, front, query) + [] == Filter(cfg, front, query);
    }
  }

  lemma {:induction false} RemoveMembers(list: seq<Request>, id: nat)
    requires Ascending(list)
    ensures forall r :: r in Remove(list, id) <==> r in list && r.id != id
  {
    if list == [] {
    } else {
      RemoveMembers(list[1..], id);
      assert list == [list[0]] + list[1..];
      if list[0].id == id {
        forall r | r in list[1..] ensures r.id != id {
          var j :| 0 <= j < |list[1..]| && list[1..][j] == r;
          assert list[j + 1] == r;
        }
      }
    }
  }

  lemma {:induction false} RemoveAscends(list: seq<Request>, id: nat)
    requires Ascending(list)
    ensures Ascending(Remove(list, id))
  {
    if list != [] && list[0].id != id {
      RemoveAscends(list[1..], id);
      var rest := Remove(list[1..], id);
      RemoveMembers(list[1..], id);
      forall i | 0 <= i < |rest| ensures list[0].id < rest[i].id {
        assert rest[i] in rest;
        var j :| 0 <= j < |list[1..]| && list[1..][j] == rest[i];
        assert list[j + 1] == rest[i];
      }
    }
  }

  lemma RemoveOne(list: seq<Request>, r: Request)
    requires r in list
    ensures |Remove(list, r.id)| == |list| - 1
  {
    var i :| 0 <= i < |list| && list[i] == r;
    assert list + [] == list;
    RemoveFirstPart(list, [], r.id);
  }

  // ----- the refinement -----

  /** Each queue family is the list, asked for its key. */
  ghost predicate Linked(cfg: Config, q: Queues, l: Ledger) {
    && (forall k: KeyedKey :: Get(q.keyed, k) == Filter(cfg, l.open, ByKey(k)))
    && (forall k: FifoKey :: Get(q.fifo, k) == Filter(cfg, l.waiting, ByFifo(k)))
    && q.transactions == l.transactions && q.unmatchedResponses == l.unmatchedResponses && q.next == l.next
  }

  /** The two lists are in order, agree where there is no correlation, and hold only what was queued. */
  ghost predicate Orderly(cfg: Config, l: Ledger) {
    && Ascending(l.open) && Ascending(l.waiting) && Below(l.open, l.next) && Below(l.waiting, l.next)
    && (forall r :: r in l.open ==> r in l.waiting)
    && (forall r :: r in l.waiting && r !in l.open ==> !Purged(cfg, r))
  }

  lemma AskKeepsOrder(cfg: Config, l: Ledger, s: Snapshot)
    requires s.Entry? && Orderly(cfg, l)
    ensures Orderly(cfg, Ask(cfg, l, s))
  {
    hide Filter, Answers;
  }

  lemma CandidateIsOpen(cfg: Config, l: Ledger, s: Snapshot)
    requires Orderly(cfg, l) && Candidates(cfg, l, s) != []
    ensures var r := Candidates(cfg, l, s)[0];
            && r in l.open && r in l.waiting && r.channel == s.channel
            && Answers(cfg, r, QueryOf(cfg, s.channel, s.thread, s.key).value)
  {
    FilterMembers(cfg, l.open, QueryOf(cfg, s.channel, s.thread, s.key).value);
    assert Candidates(cfg, l, s)[0] in Candidates(cfg, l, s);
  }

  lemma AnswerKeepsOrder(cfg: Config, l: Ledger, s: Snapshot)
    requires s.Return? && Orderly(cfg, l)
    ensures Orderly(cfg, Answer(cfg, l, s))
  {
    hide Filter, Answers, Remove, Candidates;
    if Candidates(cfg, l, s) != [] {
      CandidateIsOpen(cfg, l, s);
      var r := Candidates(cfg, l, s)[0];
      RemoveMembers(l.open, r.id);
      RemoveAscends(l.open, r.id);
      RemoveMembers(l.waiting, r.id);
      RemoveAscends(l.waiting, r.id);
      StaysBelow(l.open, Remove(l.open, r.id), l.next);
      StaysBelow(l.waiting, Remove(l.waiting, r.id), l.next);
      SameRecord(l.waiting, r);
    }
  }

  lemma StaysBelow(list: seq<Request>, part: seq<Request>, next: nat)
    requires Below(list, next) && forall r :: r in part ==> r in list
    ensures Below(part, next)
  {
    forall i | 0 <= i < |part| ensures part[i].id < next {
      assert part[i] in part && part[i] in list;
    }
  }

  lemma SameRecord(list: seq<Request>, r: Request)
    requires Ascending(list) && r in list
    ensures forall x :: x in list && x.id == r.id ==> x == r
  {
  }

  lemma AskLinks(cfg: Config, q: Queues, l: Ledger, s: Snapshot)
    requires s.Entry? && Linked(cfg, q, l)
    ensures Linked(cfg, Step(cfg, q, s), Ask(cfg, l, s))
  {
    hide Filter;
    var next, after := Ask(cfg, l, s), Step(cfg, q, s);
    var request := next.open[|l.open|];
    forall k: KeyedKey ensures Get(after.keyed, k) == Filter(cfg, next.open, ByKey(k)) {
      FilterGrows(cfg, l.open, request, ByKey(k));
    }
    forall k: FifoKey ensures Get(after.fifo, k) == Filter(cfg, next.waiting, ByFifo(k)) {
      FilterGrows(cfg, l.waiting, request, ByFifo(k));
    }
  }

  lemma {:induction false} SameMembers(a: seq<Request>, b: seq<Request>)
    requires Ascending(a) && Ascending(b) && forall r :: r in a <==> r in b
    ensures a == b
  {
    if a == [] {
      HeadIsMember(b);
    } else {
      assert a[0] in b && b[0] in a;
      LeastFirst(a, b[0]);
      LeastFirst(b, a[0]);
      SameRecord(a, a[0]);
      assert a[0] == b[0];
      forall r ensures r in a[1..] <==> r in b[1..] {
        AfterFirst(a, r);
        AfterFirst(b, r);
      }
      SameMembers(a[1..], b[1..]);
    }
  }

  lemma HeadIsMember(list: seq<Request>)
    ensures list != [] ==> list[0] in list
  {
  }

  lemma LeastFirst(list: seq<Request>, r: Request)
    requires Ascending(list) && r in list
    ensures list[0].id <= r.id
  {
  }

  lemma AfterFirst(list: seq<Request>, r: Request)
    requires Ascending(list) && list != []
    ensures r in list[1..] <==> r in list && r.id != list[0].id
  {
    if r in list[1..] {
      var i :| 0 <= i < |list[1..]| && list[1..][i] == r;
      assert list[i + 1] == r;
    }
    if r in list && r.id != list[0].id {
      var i :| 0 <= i < |list| && list[i] == r;
      assert list[1..][i - 1] == r;
    }
  }

  /** Without a correlation every answered request is purged, so both lists give the same thread queue. */
  lemma OpenIsWaiting(cfg: Config, l: Ledger, k: FifoKey)
    requires Orderly(cfg, l) && cfg(k.channel).None?
    ensures Filter(cfg, l.open, ByFifo(k)) == Filter(cfg, l.waiting, ByFifo(k))
  {
    hide Filter;
    FilterMembers(cfg, l.open, ByFifo(k));
    FilterMembers(cfg, l.waiting, ByFifo(k));
    FilterAscends(cfg, l.open, ByFifo(k));
    FilterAscends(cfg, l.waiting, ByFifo(k));
    SameMembers(Filter(cfg, l.open, ByFifo(k)), Filter(cfg, l.waiting, ByFifo(k)));
  }

  lemma FirstRemoved(list: seq<Request>)
    requires list != []
    ensures Remove(list, list[0].id) == list[1..]
  {
  }

  /** A key match: the keyed queue loses its head, and the purge finds it in its thread queue or nowhere. */
  lemma KeyedLinks(cfg: Config, q: Queues, l: Ledger, s: Snapshot, keyedKey: KeyedKey)
    requires s.Return? && Linked(cfg, q, l) && Orderly(cfg, l)
    requires KeyedOf(cfg, s.channel, s.thread, s.key) == Some(keyedKey) && Get(q.keyed, keyedKey) != []
    ensures Linked(cfg, Step(cfg, q, s), Answer(cfg, l, s))
  {
    hide Filter, Remove;
    CandidateIsOpen(cfg, l, s);
    var queue := q.keyed[keyedKey];
    var r := queue[0];
    var next, after := Answer(cfg, l, s), Step(cfg, q, s);
    FirstRemoved(queue);
    forall k: KeyedKey ensures Get(after.keyed, k) == Filter(cfg, next.open, ByKey(k)) {
      FilterRemove(cfg, l.open, r, ByKey(k));
    }
    var purged := FifoKey(r.channel, PurgeName(r.thread));
    forall k: FifoKey ensures Get(after.fifo, k) == Filter(cfg, next.waiting, ByFifo(k)) {
      FilterRemove(cfg, l.waiting, r, ByFifo(k));
      if k == purged {
        PurgeExact(cfg, l, r, k);
      }
    }
  }

  lemma PurgeExact(cfg: Config, l: Ledger, r: Request, k: FifoKey)
    requires Orderly(cfg, l) && r in l.waiting && cfg(r.channel).Some?
    requires k == FifoKey(r.channel, PurgeName(r.thread))
    ensures r.thread.Some? ==> Answers(cfg, r, ByFifo(k)) && Filter(cfg, l.waiting, ByFifo(k)) != []
    ensures r.thread.None? ==> Remove(Filter(cfg, l.waiting, ByFifo(k)), r.id) == Filter(cfg, l.waiting, ByFifo(k))
    ensures Remove([], r.id) == []
  {
    FilterMembers(cfg, l.waiting, ByFifo(k));
    if r.thread.None? {
      var queue := Filter(cfg, l.waiting, ByFifo(k));
      forall i | 0 <= i < |queue| ensures queue[i].id != r.id {
        assert queue[i] in queue;
        SameRecord(l.waiting, r);
      }
      RemoveMissing(queue, r.id);
    }
  }

  lemma FifoLinks(cfg: Config, q: Queues, l: Ledger, s: Snapshot)
    requires s.Return? && Linked(cfg, q, l) && Orderly(cfg, l) && cfg(s.channel).None?
    ensures Linked(cfg, Step(cfg, q, s), Answer(cfg, l, s))
  {
    hide Filter, Remove;
    var fifoKey := FifoOf(s.channel, s.thread);
    OpenIsWaiting(cfg, l, fifoKey);
    var queue := Get(q.fifo, fifoKey);
    var next, after := Answer(cfg, l, s), Step(cfg, q, s);
    if queue != [] {
      CandidateIsOpen(cfg, l, s);
      var r := queue[0];
      FirstRemoved(queue);
      forall k: KeyedKey ensures Get(after.keyed, k) == Filter(cfg, next.open, ByKey(k)) {
        FilterRemove(cfg, l.open, r, ByKey(k));
      }
      forall k: FifoKey ensures Get(after.fifo, k) == Filter(cfg, next.waiting, ByFifo(k)) {
        FilterRemove(cfg, l.waiting, r, ByFifo(k));
      }
    }
  }

  lemma StepLinks(cfg: Config, q: Queues, l: Ledger, s: Snapshot)
    requires Strict(cfg) && Linked(cfg, q, l) && Orderly(cfg, l)
    ensures Linked(cfg, Step(cfg, q, s), NaiveStep(cfg, l, s)) && Orderly(cfg, NaiveStep(cfg, l, s))
  {
    hide Filter, Remove, Orderly;
    if s.Entry? {
      AskLinks(cfg, q, l, s);
      AskKeepsOrder(cfg, l, s);
    } else {
      AnswerKeepsOrder(cfg, l, s);
      var keyedKey := KeyedOf(cfg, s.channel, s.thread, s.key);
      if cfg(s.channel).None? {
        FifoLinks(cfg, q, l, s);
      } else if keyedKey.Some? && Get(q.keyed, keyedKey.value) != [] {
        KeyedLinks(cfg, q, l, s, keyedKey.value);
      }
    }
  }

  /** Without the fallback, the two queue families do what one list of open requests would. */
  lemma {:induction false} QueuesRefineList(cfg: Config, trace: seq<Snapshot>)
    requires Strict(cfg)
    ensures Linked(cfg, Run(cfg, trace), Naive(cfg, trace)) && Orderly(cfg, Naive(cfg, trace))
  {
    hide Step, NaiveStep, Strict;
    if trace == [] {
      NothingLinked(cfg);
    } else {
      QueuesRefineList(cfg, trace[..|trace| - 1]);
      StepLinks(cfg, Run(cfg, trace[..|trace| - 1]), Naive(cfg, trace[..|trace| - 1]), trace[|trace| - 1]);
    }
  }

  lemma NothingLinked(cfg: Config)
    ensures Linked(cfg, NO_QUEUES, NO_LEDGER) && Orderly(cfg, NO_LEDGER)
  {
  }

  // ----- what a report may claim -----

  function Entries(trace: seq<Snapshot>): nat {
    if trace == [] then 0 else Entries(trace[..|trace| - 1]) + (if trace[|trace| - 1].Entry? then 1 else 0)
  }

  function Returns(trace: seq<Snapshot>): nat {
    if trace == [] then 0 else Returns(trace[..|trace| - 1]) + (if trace[|trace| - 1].Return? then 1 else 0)
  }

  /** Every response becomes one transaction or one unmatched response, whatever the pairs say. */
  lemma {:induction false} ResponsesAccounted(cfg: Config, trace: seq<Snapshot>)
    ensures |Run(cfg, trace).transactions| + Run(cfg, trace).unmatchedResponses == Returns(trace)
  {
    if trace == [] {
    } else {
      ResponsesAccounted(cfg, trace[..|trace| - 1]);
    }
  }

  /** No request is in two transactions. */
  ghost predicate EachOnce(transactions: seq<Transaction>) {
    forall i, j :: 0 <= i < j < |transactions| ==> transactions[i].request.id != transactions[j].request.id
  }

  /** How many answered requests were left in their thread queue. */
  function Stale(cfg: Config, transactions: seq<Transaction>): nat {
    if transactions == [] then 0
    else
      var last := |transactions| - 1;
      Stale(cfg, transactions[..last]) + (if Purged(cfg, transactions[last].request) then 0 else 1)
  }

  ghost predicate Accounts(cfg: Config, l: Ledger, entries: nat) {
    && entries == |l.transactions| + |l.open|
    && |l.waiting| == |l.open| + Stale(cfg, l.transactions)
    && EachOnce(l.transactions)
    && (forall i :: 0 <= i < |l.transactions| ==> l.transactions[i].request.id < l.next)
    && (forall i, r :: 0 <= i < |l.transactions| && r in l.open ==> l.transactions[i].request.id != r.id)
  }

  lemma StaleGrows(cfg: Config, transactions: seq<Transaction>, t: Transaction)
    ensures Stale(cfg, transactions + [t]) == Stale(cfg, transactions) + (if Purged(cfg, t.request) then 0 else 1)
  {
    assert (transactions + [t])[..|transactions|] == transactions;
  }

  lemma StepAccounts(cfg: Config, l: Ledger, s: Snapshot, entries: nat)
    requires Orderly(cfg, l) && Accounts(cfg, l, entries)
    ensures Accounts(cfg, NaiveStep(cfg, l, s), entries + if s.Entry? then 1 else 0)
  {
    hide Filter, Remove, Candidates, Stale;
    if s.Return? && Candidates(cfg, l, s) != [] {
      CandidateIsOpen(cfg, l, s);
      var r := Candidates(cfg, l, s)[0];
      RemoveOne(l.open, r);
      RemoveOne(l.waiting, r);
      RemoveMembers(l.open, r.id);
      var next := NaiveStep(cfg, l, s);
      StaleGrows(cfg, l.transactions, next.transactions[|l.transactions|]);
    }
  }

  lemma {:induction false} RunAccounts(cfg: Config, trace: seq<Snapshot>)
    requires Strict(cfg)
    ensures Accounts(cfg, Naive(cfg, trace), Entries(trace))
  {
    hide NaiveStep, Strict;
    if trace == [] {
    } else {
      RunAccounts(cfg, trace[..|trace| - 1]);
      QueuesRefineList(cfg, trace[..|trace| - 1]);
      StepAccounts(cfg, Naive(cfg, trace[..|trace| - 1]), trace[|trace| - 1], Entries(trace[..|trace| - 1]));
    }
  }

  /** The request a response takes is the oldest unanswered one with its key, and the transaction says how many
      there were. */
  lemma OldestFirst(cfg: Config, trace: seq<Snapshot>, s: Snapshot)
    requires Strict(cfg) && s.Return?
    ensures var l, q, after := Naive(cfg, trace), Run(cfg, trace), Step(cfg, Run(cfg, trace), s);
            var query := QueryOf(cfg, s.channel, s.thread, s.key);
            if query.None? || forall r :: r in l.open ==> !Answers(cfg, r, query.value) then
              after == q.(unmatchedResponses := q.unmatchedResponses + 1)
            else
              && |after.transactions| == |q.transactions| + 1
              && var t := after.transactions[|q.transactions|];
              && t.request in l.open && Answers(cfg, t.request, query.value)
              && (forall r :: r in l.open && Answers(cfg, r, query.value) ==> t.request.id <= r.id)
              && t.outstanding == |Filter(cfg, l.open, query.value)|
  {
    hide Filter, Remove, Strict;
    var l, q := Naive(cfg, trace), Run(cfg, trace);
    QueuesRefineList(cfg, trace);
    StepLinks(cfg, q, l, s);
    var query := QueryOf(cfg, s.channel, s.thread, s.key);
    if query.Some? {
      var candidates := Filter(cfg, l.open, query.value);
      FilterMembers(cfg, l.open, query.value);
      FilterAscends(cfg, l.open, query.value);
      if candidates == [] {
        if cfg(s.channel).None? {
          OpenIsWaiting(cfg, l, FifoOf(s.channel, s.thread));
        }
      } else {
        assert candidates[0] in candidates;
        forall r | r in candidates ensures candidates[0].id <= r.id {
          LeastFirst(candidates, r);
        }
      }
    }
    StrictStops(cfg, q, s);
  }

  /** Which requests a response may take: those of its session and targets; without a correlation those of its thread,
      with one those with its key, and of its thread too if the profile asks for that. */
  lemma CandidatesSpelled(cfg: Config, l: Ledger, s: Snapshot, r: Request)
    requires s.Return?
    ensures r in Candidates(cfg, l, s) <==>
      && r in l.open && r.channel == s.channel
      && (cfg(s.channel).None? ==> ThreadName(r.thread) == ThreadName(s.thread))
      && (cfg(s.channel).Some? ==> r.key.Some? && r.key == s.key)
      && (cfg(s.channel).Some? && cfg(s.channel).value.sameThread ==> ThreadName(r.thread) == ThreadName(s.thread))
  {
    hide Filter;
    var query := QueryOf(cfg, s.channel, s.thread, s.key);
    if query.Some? {
      FilterMembers(cfg, l.open, query.value);
    }
  }

  /** The key of a transaction's request is the response's, whatever trace led to it. */
  lemma TakenByKey(cfg: Config, trace: seq<Snapshot>, s: Snapshot)
    requires Strict(cfg) && s.Return?
    ensures var q, after := Run(cfg, trace), Step(cfg, Run(cfg, trace), s);
            |after.transactions| > |q.transactions| ==>
              var r := after.transactions[|q.transactions|].request;
              && r in Naive(cfg, trace).open && r.channel == s.channel
              && (cfg(s.channel).None? ==> ThreadName(r.thread) == ThreadName(s.thread))
              && (cfg(s.channel).Some? ==> r.key.Some? && r.key == s.key)
              && (cfg(s.channel).Some? && cfg(s.channel).value.sameThread ==>
                    ThreadName(r.thread) == ThreadName(s.thread))
  {
    hide Filter, Remove, Strict, Run, Naive, Linked, Orderly;
    OldestFirst(cfg, trace, s);
  }

  lemma StrictStops(cfg: Config, q: Queues, s: Snapshot)
    requires Strict(cfg) && s.Return?
    ensures var query := QueryOf(cfg, s.channel, s.thread, s.key);
            (query.None?
             || (query.value.ByFifo? && Get(q.fifo, query.value.fifoKey) == [])
             || (query.value.ByKey? && Get(q.keyed, query.value.keyedKey) == [])) ==>
              Step(cfg, q, s) == q.(unmatchedResponses := q.unmatchedResponses + 1)
  {
  }

  // ----- unmatchedRequests -----

  predicate AllFrom(list: seq<Request>, m: map<FifoKey, seq<Request>>) {
    forall i :: 0 <= i < |list| ==> FifoOf(list[i].channel, list[i].thread) in m
  }

  lemma HeadFrom(list: seq<Request>, m: map<FifoKey, seq<Request>>)
    requires AllFrom(list, m)
    ensures list != [] ==> FifoOf(list[0].channel, list[0].thread) in m
  {
  }

  /** The requests that are not in queue k. */
  function Others(list: seq<Request>, k: FifoKey): seq<Request> {
    if list == [] then []
    else
      var last := list[|list| - 1];
      Others(list[..|list| - 1], k) + (if FifoOf(last.channel, last.thread) == k then [] else [last])
  }

  lemma {:induction false} OthersSplit(cfg: Config, list: seq<Request>, k: FifoKey, m: map<FifoKey, seq<Request>>)
    requires AllFrom(list, m)
    ensures |list| == |Filter(cfg, list, ByFifo(k))| + |Others(list, k)|
    ensures AllFrom(Others(list, k), m - {k})
    ensures forall j :: j != k ==> Filter(cfg, Others(list, k), ByFifo(j)) == Filter(cfg, list, ByFifo(j))
  {
    if list == [] {
    } else {
      var front, last := list[..|list| - 1], list[|list| - 1];
      OthersSplit(cfg, front, k, m);
      forall j | j != k ensures Filter(cfg, Others(list, k), ByFifo(j)) == Filter(cfg, list, ByFifo(j)) {
        FilterGrows(cfg, Others(front, k), last, ByFifo(j));
        assert Others(front, k) + [] == Others(front, k);
      }
    }
  }

  /** The lengths of the thread queues add up to the list they are drawn from. */
  lemma {:induction false} TotalIsList(cfg: Config, m: map<FifoKey, seq<Request>>, list: seq<Request>)
    requires AllFrom(list, m) && forall k :: k in m ==> m[k] == Filter(cfg, list, ByFifo(k))
    ensures Total(m) == |list|
    decreases |m|
  {
    hide Filter, Others;
    if m == map[] {
      HeadFrom(list, m);
    } else {
      var k :| k in m && Total(m) == |m[k]| + Total(m - {k});
      OthersSplit(cfg, list, k, m);
      TotalIsList(cfg, m - {k}, Others(list, k));
    }
  }

  lemma QueuesTotal(cfg: Config, q: Queues, l: Ledger)
    requires Linked(cfg, q, l)
    ensures Total(q.fifo) == |l.waiting|
  {
    hide Filter;
    forall i | 0 <= i < |l.waiting| ensures FifoOf(l.waiting[i].channel, l.waiting[i].thread) in q.fifo {
      var k := FifoOf(l.waiting[i].channel, l.waiting[i].thread);
      FilterMembers(cfg, l.waiting, ByFifo(k));
      assert l.waiting[i] in Get(q.fifo, k);
    }
    forall k | k in q.fifo ensures q.fifo[k] == Filter(cfg, l.waiting, ByFifo(k)) {
      assert q.fifo[k] == Get(q.fifo, k);
    }
    TotalIsList(cfg, q.fifo, l.waiting);
  }

  lemma {:induction false} StaleNone(cfg: Config, transactions: seq<Transaction>)
    ensures Stale(cfg, transactions) == 0 <==>
      forall i :: 0 <= i < |transactions| ==> Purged(cfg, transactions[i].request)
  {
    if transactions == [] {
    } else {
      var last := |transactions| - 1;
      StaleNone(cfg, transactions[..last]);
      assert transactions == transactions[..last] + [transactions[last]];
    }
  }

  /** Queued requests are transactions and unmatched requests, exactly when every request that was answered
      by its key came from an event with a thread. */
  lemma RequestsConserved(cfg: Config, trace: seq<Snapshot>)
    requires Strict(cfg)
    ensures var q := Run(cfg, trace);
            && EachOnce(q.transactions)
            && Total(q.fifo) == Entries(trace) - |q.transactions| + Stale(cfg, q.transactions)
            && (Entries(trace) == |q.transactions| + Total(q.fifo) <==>
                forall i :: 0 <= i < |q.transactions| ==>
                  cfg(q.transactions[i].request.channel).Some? ==> q.transactions[i].request.thread.Some?)
  {
    hide Strict, Run, Naive, Stale, Total;
    QueuesRefineList(cfg, trace);
    RunAccounts(cfg, trace);
    QueuesTotal(cfg, Run(cfg, trace), Naive(cfg, trace));
    StaleNone(cfg, Run(cfg, trace).transactions);
  }

  // ----- requests without a thread -----

  /** A request that can be matched by its key and, once it is, cannot be purged. */
  predicate Threadless(cfg: Config, channel: Channel, thread: Option<string>, key: Option<string>) {
    cfg(channel).Some? && key.Some? && thread.None?
  }

  predicate Unpurgeable(cfg: Config, r: Request) {
    Threadless(cfg, r.channel, r.thread, r.key)
  }

  /** Every request with a key came from an event with a thread. */
  ghost predicate Threaded(cfg: Config, trace: seq<Snapshot>) {
    forall s <- trace :: s.Entry? ==> !Threadless(cfg, s.channel, s.thread, s.key)
  }

  ghost predicate OnlyReturns(trace: seq<Snapshot>) {
    forall s <- trace :: s.Return?
  }

  ghost predicate Conserved(cfg: Config, trace: seq<Snapshot>) {
    Entries(trace) == |Run(cfg, trace).transactions| + Total(Run(cfg, trace).fifo)
  }

  /** An unpurgeable request is still open, or its transaction is one that left it behind. */
  ghost predicate Tracks(cfg: Config, l: Ledger, threaded: bool) {
    && (forall i :: 0 <= i < |l.transactions| ==>
          (Purged(cfg, l.transactions[i].request) <==> !Unpurgeable(cfg, l.transactions[i].request)))
    && (threaded <==>
          && (forall r <- l.open :: !Unpurgeable(cfg, r))
          && (forall i :: 0 <= i < |l.transactions| ==> !Unpurgeable(cfg, l.transactions[i].request)))
  }

  lemma StepTracks(cfg: Config, l: Ledger, s: Snapshot, threaded: bool)
    requires Orderly(cfg, l) && Tracks(cfg, l, threaded)
    ensures Tracks(cfg, NaiveStep(cfg, l, s),
                   threaded && (s.Entry? ==> !Threadless(cfg, s.channel, s.thread, s.key)))
  {
    hide Filter, Remove, Orderly;
    if s.Return? && Candidates(cfg, l, s) != [] {
      CandidateIsOpen(cfg, l, s);
      var r := Candidates(cfg, l, s)[0];
      OpenAfter(cfg, l, r);
      var next := NaiveStep(cfg, l, s);
      var last := |l.transactions|;
      assert next.transactions[last].request == r;
      assert Purged(cfg, r) <==> !Unpurgeable(cfg, r);
      assert forall i :: 0 <= i < last ==> next.transactions[i] == l.transactions[i];
      if !Unpurgeable(cfg, r) && !threaded && forall x <- next.open :: !Unpurgeable(cfg, x) {
        var i :| 0 <= i < last && Unpurgeable(cfg, l.transactions[i].request);
        assert Unpurgeable(cfg, next.transactions[i].request);
      }
    } else if s.Entry? {
      var next := NaiveStep(cfg, l, s);
      assert next.open[|l.open|] in next.open;
    }
  }

  lemma OpenAfter(cfg: Config, l: Ledger, r: Request)
    requires Orderly(cfg, l) && r in l.open
    ensures forall x :: x in Remove(l.open, r.id) <==> x in l.open && x != r
  {
    RemoveMembers(l.open, r.id);
    SameRecord(l.open, r);
  }

  lemma {:induction false} RunTracks(cfg: Config, trace: seq<Snapshot>)
    requires Strict(cfg)
    ensures Tracks(cfg, Naive(cfg, trace), Threaded(cfg, trace))
  {
    hide NaiveStep, Strict;
    if trace == [] {
    } else {
      var front, last := trace[..|trace| - 1], trace[|trace| - 1];
      assert trace == front + [last];
      RunTracks(cfg, front);
      QueuesRefineList(cfg, front);
      StepTracks(cfg, Naive(cfg, front), last, Threaded(cfg, front));
    }
  }

  /** An open request is answered by as many responses with its key as there are requests ahead of it. */
  lemma {:induction false} EventuallyAnswered(cfg: Config, trace: seq<Snapshot>, r: Request) returns (rest: seq<Snapshot>)
    requires Strict(cfg) && r in Naive(cfg, trace).open && Unpurgeable(cfg, r)
    ensures OnlyReturns(rest) && Stale(cfg, Naive(cfg, trace + rest).transactions) > 0
    decreases |Naive(cfg, trace).open|
  {
    hide NaiveStep, Naive, Strict, Filter, Candidates, Stale;
    var s := Return(r.channel, None, r.key);
    var l := Naive(cfg, trace);
    QueuesRefineList(cfg, trace);
    NaiveGrows(cfg, trace, s);
    OneAnswered(cfg, l, s, r);
    if Stale(cfg, Naive(cfg, trace + [s]).transactions) > 0 {
      rest := [s];
    } else {
      var more := EventuallyAnswered(cfg, trace + [s], r);
      rest := [s] + more;
      assert trace + rest == (trace + [s]) + more;
    }
  }

  lemma NaiveGrows(cfg: Config, trace: seq<Snapshot>, s: Snapshot)
    ensures Naive(cfg, trace + [s]) == NaiveStep(cfg, Naive(cfg, trace), s)
  {
    assert (trace + [s])[..|trace|] == trace;
  }

  lemma OneAnswered(cfg: Config, l: Ledger, s: Snapshot, r: Request)
    requires Orderly(cfg, l) && r in l.open && Unpurgeable(cfg, r) && s == Return(r.channel, None, r.key)
    ensures var next := NaiveStep(cfg, l, s);
            && |next.open| < |l.open|
            && (Stale(cfg, next.transactions) > 0 || r in next.open)
  {
    hide Filter, Remove, Stale;
    FilterMembers(cfg, l.open, QueryOf(cfg, s.channel, s.thread, s.key).value);
    assert r in Candidates(cfg, l, s);
    CandidateIsOpen(cfg, l, s);
    var first := Candidates(cfg, l, s)[0];
    RemoveOne(l.open, first);
    OpenAfter(cfg, l, first);
    StaleGrows(cfg, l.transactions, NaiveStep(cfg, l, s).transactions[|l.transactions|]);
  }

  lemma ConservedIffNoneStale(cfg: Config, trace: seq<Snapshot>)
    requires Strict(cfg)
    ensures Conserved(cfg, trace) <==> Stale(cfg, Naive(cfg, trace).transactions) == 0
  {
    hide Strict, Run, Naive, Stale, Total;
    QueuesRefineList(cfg, trace);
    RequestsConserved(cfg, trace);
  }

  lemma {:induction false} StillThreaded(cfg: Config, trace: seq<Snapshot>, rest: seq<Snapshot>)
    requires OnlyReturns(rest)
    ensures Threaded(cfg, trace + rest) <==> Threaded(cfg, trace)
  {
    hide Threadless;
    forall s | s in trace ensures s in trace + rest {
    }
  }

  /** Whatever responses follow, the requests are transactions and unmatched requests, exactly when every request with
      a key came from an event with a thread. */
  lemma ConservedIffThreaded(cfg: Config, trace: seq<Snapshot>)
    requires Strict(cfg)
    ensures Threaded(cfg, trace) <==> forall rest | OnlyReturns(rest) :: Conserved(cfg, trace + rest)
  {
    hide Strict, Run, Naive, Stale, Total, Threaded, Conserved;
    if Threaded(cfg, trace) {
      forall rest | OnlyReturns(rest) ensures Conserved(cfg, trace + rest) {
        StillThreaded(cfg, trace, rest);
        RunTracks(cfg, trace + rest);
        StaleNone(cfg, Naive(cfg, trace + rest).transactions);
        ConservedIffNoneStale(cfg, trace + rest);
      }
    } else {
      RunTracks(cfg, trace);
      var rest: seq<Snapshot> := [];
      if i :| 0 <= i < |Naive(cfg, trace).transactions| && Unpurgeable(cfg, Naive(cfg, trace).transactions[i].request) {
        StaleNone(cfg, Naive(cfg, trace).transactions);
        assert trace + rest == trace;
      } else {
        var r :| r in Naive(cfg, trace).open && Unpurgeable(cfg, r);
        rest := EventuallyAnswered(cfg, trace, r);
      }
      ConservedIffNoneStale(cfg, trace + rest);
      assert OnlyReturns(rest) && !Conserved(cfg, trace + rest);
    }
  }

  /** One request without a thread, answered by its key: a transaction, and an unmatched request as well. */
  lemma ThreadlessCountsTwice(cfg: Config, channel: Channel)
    requires Strict(cfg) && cfg(channel).Some?
    ensures var trace := [Entry(channel, None, Some("A")), Return(channel, None, Some("A"))];
            && Entries(trace) == 1 && |Run(cfg, trace).transactions| == 1 && Total(Run(cfg, trace).fifo) == 1
  {
    hide Total;
    var trace := [Entry(channel, None, Some("A")), Return(channel, None, Some("A"))];
    var request := Request(0, channel, None, Some("A"), 1);
    assert trace[..1][..0] == [] && Run(cfg, []) == NO_QUEUES;
    var one := Run(cfg, trace[..1]);
    assert one == Step(cfg, NO_QUEUES, trace[0]);
    var keyedKey := KeyedOf(cfg, channel, None, Some("A")).value;
    assert Get(one.keyed, keyedKey) == [request];
    assert Run(cfg, trace) == TakeKeyed(one, keyedKey, None);
    assert Run(cfg, trace).transactions[0].request == request;
    assert Entries(trace[..1]) == 1;
    StaleGrows(cfg, [], Run(cfg, trace).transactions[0]);
    assert Run(cfg, trace).transactions == [] + [Run(cfg, trace).transactions[0]];
    RequestsConserved(cfg, trace);
  }

  // ----- the fallback -----

  /** A keyed request, a response whose key cannot be read, and the response that belongs to the request. */
  function FallbackTrace(channel: Channel): seq<Snapshot> {
    [Entry(channel, Some("1"), Some("A")), Return(channel, Some("1"), None), Return(channel, Some("1"), Some("A"))]
  }

  /** With the fallback the second response takes the request again: the keyed queue was not purged. */
  lemma FallbackUsesTwice(cfg: Config, channel: Channel)
    requires cfg(channel).Some? && cfg(channel).value.fifoFallback
    ensures !EachOnce(Run(cfg, FallbackTrace(channel)).transactions)
  {
    var trace := FallbackTrace(channel);
    var request := Request(0, channel, Some("1"), Some("A"), 1);
    assert trace[..2][..1] == trace[..1] && trace[..1][..0] == [];
    assert Run(cfg, []) == NO_QUEUES;
    var one, two := Run(cfg, trace[..1]), Run(cfg, trace[..2]);
    assert one == Step(cfg, NO_QUEUES, trace[0]);
    assert two == Step(cfg, one, trace[1]);
    var keyedKey := KeyedOf(cfg, channel, Some("1"), Some("A")).value;
    assert Get(two.keyed, keyedKey) == [request] && two.transactions[0].request == request;
    assert Run(cfg, trace) == TakeKeyed(two, keyedKey, Some("1"));
    var ts := Run(cfg, trace).transactions;
    assert |ts| == 2 && ts[0].request.id == ts[1].request.id;
  }

  /** No trace uses a request twice exactly when no pair has both a correlation and the fallback. */
  lemma NoRequestTwice(cfg: Config)
    ensures Strict(cfg) <==> forall trace :: EachOnce(Run(cfg, trace).transactions)
  {
    hide Run, EachOnce;
    if Strict(cfg) {
      forall trace ensures EachOnce(Run(cfg, trace).transactions) {
        RequestsConserved(cfg, trace);
      }
    } else {
      var channel: Channel :| cfg(channel).Some? && cfg(channel).value.fifoFallback;
      FallbackUsesTwice(cfg, channel);
    }
  }
}
