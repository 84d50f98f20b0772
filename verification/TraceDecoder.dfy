/** decode_trace_ipc's pairing loop: the dictionaries of pending requests, changed snapshot by snapshot. */
module TraceDecoder {
  import opened Options
  import opened TraceIpc

  /** _remove_pending_request: drops the first record with this identity. */
  method RemovePending(requests: seq<Request>, request: Request) returns (rest: seq<Request>)
    ensures rest == Remove(requests, request.id)
  {
    var index := 0;
    while index < |requests|
      invariant index <= |requests|
      invariant forall i :: 0 <= i < index ==> requests[i].id != request.id
    {
      if requests[index].id == request.id {
        rest := requests[..index] + requests[index + 1..];
        RemoveJoins(requests[..index], requests[index..], request.id);
        assert requests == requests[..index] + requests[index..];
        return;
      }
      index := index + 1;
    }
    RemoveMissing(requests, request.id);
    rest := requests;
  }

  lemma {:induction false} TotalRemove(m: map<FifoKey, seq<Request>>, k: FifoKey)
    requires k in m
    ensures Total(m) == |m[k]| + Total(m - {k})
    decreases |m|
  {
    var j :| j in m && Total(m) == |m[j]| + Total(m - {j});
    if j != k {
      TotalRemove(m - {j}, k);
      TotalRemove(m - {k}, j);
      assert m - {j} - {k} == m - {k} - {j};
    }
  }

  class Decoder {
    const cfg: Config
    var pendingRequests: map<FifoKey, seq<Request>>
    var pendingKeyed: map<KeyedKey, seq<Request>>
    var transactions: seq<Transaction>
    var unmatchedResponses: nat
    var records: nat

    constructor (config: Config)
      ensures cfg == config && State() == NO_QUEUES
    {
      cfg, pendingRequests, pendingKeyed := config, map[], map[];
      transactions, unmatchedResponses, records := [], 0, 0;
    }

    ghost function State(): Queues
      reads this
    {
      Queues(pendingRequests, pendingKeyed, transactions, unmatchedResponses, records)
    }

    method OnRequest(channel: Channel, thread: Option<string>, key: Option<string>)
      modifies this
      ensures State() == Step(cfg, old(State()), Entry(channel, thread, key))
    {
      var fifoKey := FifoOf(channel, thread);
      var requests := if fifoKey in pendingRequests then pendingRequests[fifoKey] else [];
      var request := Request(records, channel, thread, None, |requests| + 1);
      if cfg(channel).Some? {
        request := request.(key := key);
        var correlationKey := KeyedOf(cfg, channel, thread, key);
        if correlationKey.Some? {
          var keyed := if correlationKey.value in pendingKeyed then pendingKeyed[correlationKey.value] else [];
          request := request.(outstanding := |keyed| + 1);
          pendingKeyed := pendingKeyed[correlationKey.value := keyed + [request]];
        }
      }
      pendingRequests := pendingRequests[fifoKey := requests + [request]];
      records := records + 1;
    }

    method OnResponse(channel: Channel, thread: Option<string>, key: Option<string>)
      modifies this
      ensures State() == Step(cfg, old(State()), Return(channel, thread, key))
    {
      var found: Option<Request>, outstanding: nat, kind := None, 0, ThreadFifo;
      if cfg(channel).Some? {
        var correlationKey := KeyedOf(cfg, channel, thread, key);
        if correlationKey.Some? {
          var queue := if correlationKey.value in pendingKeyed then pendingKeyed[correlationKey.value] else [];
          if queue != [] {
            outstanding := |queue|;
            var request := queue[0];
            queue := queue[1..];
            pendingKeyed := if queue == [] then pendingKeyed - {correlationKey.value}
                            else pendingKeyed[correlationKey.value := queue];
            var fifoKey := FifoKey(request.channel, PurgeName(request.thread));
            if fifoKey in pendingRequests {
              var rest := RemovePending(pendingRequests[fifoKey], request);
              pendingRequests := pendingRequests[fifoKey := rest];
            }
            found, kind := Some(request), ProfileKey;
          }
        }
      }
      if found.None? {
        var fifoKey := FifoOf(channel, thread);
        var queue := if fifoKey in pendingRequests then pendingRequests[fifoKey] else [];
        var fallback := cfg(channel).None? || cfg(channel).value.fifoFallback;
        if !fallback || queue == [] {
          unmatchedResponses := unmatchedResponses + 1;
          return;
        }
        outstanding := |queue|;
        found := Some(queue[0]);
        pendingRequests := pendingRequests[fifoKey := queue[1..]];
        kind := if cfg(channel).None? then ThreadFifo else ThreadFifoFallback;
      }
      transactions := transactions + [Transaction(found.value, thread, outstanding, kind)];
    }

    /** The sum over pending_requests.values(). */
    method CountUnmatched() returns (unmatchedRequests: nat)
      ensures unmatchedRequests == Total(pendingRequests)
    {
      unmatchedRequests := 0;
      var left := pendingRequests;
      while left != map[]
        invariant unmatchedRequests + Total(left) == Total(pendingRequests)
        decreases |left|
      {
        var k :| k in left;
        TotalRemove(left, k);
        unmatchedRequests := unmatchedRequests + |left[k]|;
        left := left - {k};
      }
    }
  }

  /** The pairing part of decode_trace_ipc. */
  method Decode(cfg: Config, trace: seq<Snapshot>)
    returns (transactions: seq<Transaction>, unmatchedRequests: nat, unmatchedResponses: nat)
    ensures transactions == Run(cfg, trace).transactions
    ensures unmatchedRequests == Total(Run(cfg, trace).fifo)
    ensures unmatchedResponses == Run(cfg, trace).unmatchedResponses
    ensures |transactions| + unmatchedResponses == Returns(trace)
    ensures Strict(cfg) ==>
      && transactions == Naive(cfg, trace).transactions
      && unmatchedResponses == Naive(cfg, trace).unmatchedResponses
      && EachOnce(transactions)
      && unmatchedRequests == Entries(trace) - |transactions| + Stale(cfg, transactions)
  {
    hide Step, Total, Strict, Naive;
    var decoder := new Decoder(cfg);
    var i := 0;
    assert trace[..0] == [];
    while i < |trace|
      invariant i <= |trace| && decoder.cfg == cfg
      invariant decoder.State() == Run(cfg, trace[..i])
    {
      assert trace[..i + 1][..i] == trace[..i];
      match trace[i] {
        case Entry(channel, thread, key) => decoder.OnRequest(channel, thread, key);
        case Return(channel, thread, key) => decoder.OnResponse(channel, thread, key);
      }
      i := i + 1;
    }
    assert trace[..i] == trace;
    unmatchedRequests := decoder.CountUnmatched();
    transactions, unmatchedResponses := decoder.transactions, decoder.unmatchedResponses;
    ResponsesAccounted(cfg, trace);
    if Strict(cfg) {
      QueuesRefineList(cfg, trace);
      RequestsConserved(cfg, trace);
    }
  }
}
