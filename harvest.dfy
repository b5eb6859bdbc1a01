/**
 * `harvest_records_async`: the resumption-token work queue. The tokens
 * waiting to be fetched form a FIFO list, the fetches in flight a list
 * bounded by `max_concurrent`, and the records an append-only list.
 *
 * The event loop is replaced by explicit steps: `Fill` dispatches tokens,
 * `Complete` finishes a non-empty set of in-flight fetches (which set is
 * the scheduler's choice, so it is a parameter), and `Drain` gathers what
 * is left once the queue is empty. Each fetch is given as the outcomes of
 * its attempts.
 */
module Harvest {

  import opened Wrappers
  import opened OaiRecords
  import opened Retry

  type Attempts = seq<Attempt<Payload>>

  /** Every fetch has an outcome for each of the default number of attempts. */
  predicate LongEnough(results: seq<Attempts>)
  {
    forall j :: 0 <= j < |results| ==> DefaultRetryCount <= |results[j]|
  }

  /**
   * What the harvester takes from one `fetch_records` call: the batch of
   * a non-empty body, and nothing at all from a failed fetch or an empty
   * body.
   */
  function Response(attempts: Attempts): (b: Batch)
    requires DefaultRetryCount <= |attempts|
    ensures Fetched(attempts, DefaultRetryCount).body.None? ==> b == Batch([], None)
    ensures b.token.Some? ==> b.token.value != []
  {
    var f := Fetched(attempts, DefaultRetryCount);
    if f.body.Some? && f.body.value != Empty then Extracted(f.body.value) else Batch([], None)
  }

  function TokenList(t: Option<string>): seq<string>
  {
    if t.Some? then [t.value] else []
  }

  /** The records of completed fetches, in the order they are processed. */
  function NewRecords(batches: seq<Batch>): seq<Record>
  {
    if batches == [] then []
    else NewRecords(batches[..|batches| - 1]) + batches[|batches| - 1].records
  }

  /** The tokens of completed fetches, in the order they are processed: at most one per fetch. */
  function NewTokens(batches: seq<Batch>): (ts: seq<string>)
    ensures |ts| <= |batches|
  {
    if batches == [] then []
    else NewTokens(batches[..|batches| - 1]) + TokenList(batches[|batches| - 1].token)
  }

  /**
   * `s` without the positions listed in `done`: no element is gained, all
   * go when every position is done, and none when no position is.
   */
  function Without<T>(s: seq<T>, done: seq<nat>): (r: seq<T>)
    ensures |r| <= |s| && multiset(r) <= multiset(s)
    ensures (forall i :: 0 <= i < |s| ==> i in done) ==> r == []
    ensures (forall i :: i in done ==> |s| <= i) ==> r == s
  {
    if s == [] then []
    else
      assert s == s[..|s| - 1] + [s[|s| - 1]];
      Without(s[..|s| - 1], done) + (if |s| - 1 in done then [] else [s[|s| - 1]])
  }

  lemma FirstTwoDistinct(done: seq<nat>)
    requires forall a, b :: 0 <= a < b < |done| ==> done[a] != done[b]
    ensures |done| >= 2 ==> done[0] != done[1]
  {
  }

  /**
   * With at most one token queued or in flight, a non-empty set of
   * distinct finished positions is the one fetch in flight, and no token
   * is queued beside it.
   */
  lemma OneInFlight(inFlight: seq<string>, pending: seq<string>, done: seq<nat>)
    requires |inFlight| + |pending| <= 1
    requires done != [] && forall j :: 0 <= j < |done| ==> done[j] < |inFlight|
    requires forall a, b :: 0 <= a < b < |done| ==> done[a] != done[b]
    ensures done == [0] && |inFlight| == 1 && pending == []
    ensures Without(inFlight, done) == []
  {
    FirstTwoDistinct(done);
    assert done[0] < |inFlight|;
    assert |done| == 1;
    assert forall i :: 0 <= i < |inFlight| ==> i in done;
  }

  /** One more completed fetch extends the records and tokens by its own. */
  lemma NewStep(batches: seq<Batch>, j: nat)
    requires j < |batches|
    ensures NewRecords(batches[..j + 1]) == NewRecords(batches[..j]) + batches[j].records
    ensures NewTokens(batches[..j + 1]) == NewTokens(batches[..j]) + TokenList(batches[j].token)
  {
    assert batches[..j + 1][..j] == batches[..j];
  }

  /**
   * `task.result()` followed by `if response_text: extract_records(...)`:
   * the batch one finished fetch contributes.
   */
  method Receive(attempts: Attempts) returns (b: Batch)
    requires DefaultRetryCount <= |attempts|
    ensures b == Response(attempts)
  {
    var body, _, _ := FetchRecords(attempts, DefaultRetryCount);
    if body.Some? && body.value != Empty {
      var records, token := ExtractRecords(body.value);
      b := Batch(records, token);
    } else {
      b := Batch([], None);
    }
  }

  /** The batch of each fetch, in order. */
  function Batches(responses: seq<Attempts>): (bs: seq<Batch>)
    requires LongEnough(responses)
    ensures |bs| == |responses|
  {
    if responses == [] then []
    else Batches(responses[..|responses| - 1]) + [Response(responses[|responses| - 1])]
  }

  /** Batch `i` is what fetch `i` gave. */
  lemma {:induction false} BatchesAt(responses: seq<Attempts>, i: nat)
    requires LongEnough(responses) && i < |responses|
    ensures Batches(responses)[i] == Response(responses[i])
    decreases |responses|
  {
    if i < |responses| - 1 {
      var init := responses[..|responses| - 1];
      BatchesAt(init, i);
      assert Batches(responses)[i] == Batches(init)[i];
    }
  }

  /** The batches of several finished fetches (`asyncio.gather` in the drain). */
  method ReceiveAll(results: seq<Attempts>) returns (batches: seq<Batch>)
    requires LongEnough(results)
    ensures batches == Batches(results)
  {
    batches := [];
    for j := 0 to |results|
      invariant batches == Batches(results[..j])
    {
      var b := Receive(results[j]);
      assert results[..j + 1][..j] == results[..j];
      batches := batches + [b];
    }
    assert results[..|results|] == results;
  }

  /**
   * The loop over finished fetches: every batch's records, and every
   * batch's token, in the order processed.
   */
  method Collect(batches: seq<Batch>) returns (records: seq<Record>, tokens: seq<string>)
    ensures records == NewRecords(batches) && tokens == NewTokens(batches)
  {
    records, tokens := [], [];
    for j := 0 to |batches|
      invariant records == NewRecords(batches[..j]) && tokens == NewTokens(batches[..j])
    {
      NewStep(batches, j);
      records := records + batches[j].records;
      // `if next_token`: a token is never blank, so this is `token.Some?`.
      if batches[j].token.Some? {
        tokens := tokens + [batches[j].token.value];
      }
    }
    assert batches[..|batches|] == batches;
  }

  class Harvester {

    const maxConcurrent: int
    /** `resumption_tokens`: the tokens still to be fetched, oldest first. */
    var pending: seq<string>
    /** `tasks`: the token of each fetch in flight. */
    var inFlight: seq<string>
    /** `all_records`. */
    var records: seq<Record>
    /** Every token ever queued, and every token ever dispatched, in order. */
    ghost var enqueued: seq<string>
    ghost var dispatched: seq<string>

    /**
     * Tokens leave the queue in the order they entered it; the fetches in
     * flight never exceed `maxConcurrent`; and, since each response
     * yields at most one token, a queued token and a fetch in flight never
     * exist together, let alone two of either.
     */
    ghost predicate Valid()
      reads this
      ensures Valid() ==> |dispatched| <= |enqueued| && enqueued[..|dispatched|] == dispatched && |inFlight| <= 1
    {
      && dispatched + pending == enqueued
      && (inFlight == [] || |inFlight| <= maxConcurrent)
      && |inFlight| + |pending| <= 1
    }

    /**
     * The first batch: its records, and its token queued when there is
     * one. A failed first fetch leaves nothing to do.
     */
    constructor (maxConcurrent: int, first: Attempts)
      requires DefaultRetryCount <= |first|
      ensures this.maxConcurrent == maxConcurrent
      ensures Valid() && inFlight == [] && dispatched == []
      ensures records == Response(first).records && pending == TokenList(Response(first).token)
    {
      this.maxConcurrent := maxConcurrent;
      var body, _, _ := FetchRecords(first, DefaultRetryCount);
      inFlight := [];
      dispatched := [];
      if body.None? || body.value == Empty {
        records := [];
        pending := [];
      } else {
        var recs, token := ExtractRecords(body.value);
        records := recs;
        pending := if token.Some? then [token.value] else [];
      }
      enqueued := pending;
    }

    /**
     * Dispatch queued tokens, oldest first, while fewer than
     * `maxConcurrent` fetches are in flight.
     */
    method Fill()
      requires Valid()
      modifies this
      ensures Valid()
      ensures records == old(records) && enqueued == old(enqueued)
      ensures |pending| <= |old(pending)|
      ensures var k := |old(pending)| - |pending|;
              && pending == old(pending)[k..]
              && inFlight == old(inFlight) + old(pending)[..k]
              && dispatched == old(dispatched) + old(pending)[..k]
      ensures pending == [] || maxConcurrent <= |inFlight|
      ensures maxConcurrent <= |old(inFlight)| ==> pending == old(pending)
    {
      while |inFlight| < maxConcurrent && pending != []
        invariant Valid()
        invariant records == old(records) && enqueued == old(enqueued)
        invariant |pending| <= |old(pending)|
        invariant var k := |old(pending)| - |pending|;
                  && pending == old(pending)[k..]
                  && inFlight == old(inFlight) + old(pending)[..k]
                  && dispatched == old(dispatched) + old(pending)[..k]
        invariant maxConcurrent <= |old(inFlight)| ==> pending == old(pending)
        decreases |pending|
      {
        var token := pending[0];
        ghost var k := |old(pending)| - |pending|;
        assert old(pending)[..k + 1] == old(pending)[..k] + [token];
        assert dispatched + [token] + pending[1..] == dispatched + pending;
        pending := pending[1..];
        inFlight := inFlight + [token];
        dispatched := dispatched + [token];
      }
    }

    /**
     * The fetches at positions `done` of `inFlight` have finished, with
     * `batches[j]` the batch of fetch `done[j]`: each one's records are
     * appended and its token, if any, queued; the finished fetches leave
     * `inFlight`.
     */
    method Complete(done: seq<nat>, batches: seq<Batch>)
      requires Valid()
      requires done != [] && |batches| == |done|
      requires forall j :: 0 <= j < |done| ==> done[j] < |inFlight|
      requires forall a, b :: 0 <= a < b < |done| ==> done[a] != done[b]
      modifies this
      ensures Valid()
      ensures records == old(records) + NewRecords(batches)
      ensures pending == old(pending) + NewTokens(batches)
      ensures inFlight == Without(old(inFlight), done)
      ensures enqueued == old(enqueued) + NewTokens(batches) && dispatched == old(dispatched)
    {
      OneInFlight(inFlight, pending, done);
      var recs, tokens := Collect(batches);
      assert |tokens| <= 1;
      assert dispatched + tokens == enqueued + tokens;
      records := records + recs;
      pending := pending + tokens;
      enqueued := enqueued + tokens;
      inFlight := Without(inFlight, done);
    }

    /**
     * One pass of `while resumption_tokens:`: fill the in-flight list,
     * then wait for a fetch to finish. With no positive `maxConcurrent`
     * nothing is dispatched and the pass changes nothing; otherwise the
     * one queued token is fetched and replaced by the token of its batch.
     */
    method Pass(response: Attempts)
      requires Valid() && inFlight == [] && pending != []
      requires DefaultRetryCount <= |response|
      modifies this
      ensures Valid() && inFlight == []
      ensures maxConcurrent <= 0 ==> records == old(records) && pending == old(pending)
      ensures maxConcurrent > 0 ==>
                && records == old(records) + Response(response).records
                && pending == TokenList(Response(response).token)
    {
      Fill();
      if inFlight != [] {
        CompleteOne(response);
      }
    }

    /** `asyncio.wait(..., FIRST_COMPLETED)` with the one fetch in flight, whose attempts are `response`. */
    method CompleteOne(response: Attempts)
      requires Valid() && inFlight != [] && DefaultRetryCount <= |response|
      modifies this
      ensures Valid() && inFlight == []
      ensures records == old(records) + Response(response).records
      ensures pending == old(pending) + TokenList(Response(response).token)
    {
      assert |inFlight| == 1 && pending == [];
      var b := Receive(response);
      Complete([0], [b]);
      OneBatch(b);
    }

    /**
     * The token queue is empty: gather every fetch still in flight, whose
     * attempts are `results`, appending its records and discarding its
     * token.
     */
    method Drain(results: seq<Attempts>)
      requires Valid() && pending == []
      requires LongEnough(results) && |results| == |inFlight|
      modifies this
      ensures Valid() && inFlight == [] && pending == []
      ensures records == old(records) + NewRecords(Batches(results))
      ensures enqueued == old(enqueued) && dispatched == old(dispatched)
    {
      var batches := ReceiveAll(results);
      var recs, _ := Collect(batches);
      records := records + recs;
      inFlight := [];
    }
  }

  // ---------------------------------------------------------------------
  // The whole harvest, against the sequential token chain

  function PendingToken(pending: seq<string>): Option<string>
  {
    if pending == [] then None else Some(pending[0])
  }

  /**
   * The records a chain of batches yields from `token` on, one batch per
   * pass of the loop: with no positive `maxConcurrent` nothing is ever
   * fetched.
   */
  function Chain(maxConcurrent: int, token: Option<string>, batches: seq<Batch>): (rs: seq<Record>)
    ensures rs == NewRecords(batches[..ChainLength(maxConcurrent, token, batches)])
    decreases |batches|
  {
    if token.None? || batches == [] || maxConcurrent <= 0 then []
    else
      var n := ChainLength(maxConcurrent, batches[0].token, batches[1..]);
      assert batches[..n + 1] == [batches[0]] + batches[1..][..n];
      NewRecordsCons(batches[0], batches[1..][..n]);
      batches[0].records + Chain(maxConcurrent, batches[0].token, batches[1..])
  }

  /** How many batches the chain from `token` takes: one fetch each. */
  function ChainLength(maxConcurrent: int, token: Option<string>, batches: seq<Batch>): (n: nat)
    ensures n <= |batches|
    ensures n == 0 <==> token.None? || batches == [] || maxConcurrent <= 0
    decreases |batches|
  {
    if token.None? || batches == [] || maxConcurrent <= 0 then 0
    else 1 + ChainLength(maxConcurrent, batches[0].token, batches[1..])
  }

  /**
   * The chain stops right after the first batch without a token: with a
   * positive `maxConcurrent` and a token, it takes batches `0..k` when
   * batch `k` is the first tokenless one.
   */
  lemma {:induction false} ChainStopsAtTokenless(maxConcurrent: int, token: Option<string>, batches: seq<Batch>, k: nat)
    requires maxConcurrent > 0 && token.Some? && k < |batches|
    requires batches[k].token.None? && forall j :: 0 <= j < k ==> batches[j].token.Some?
    ensures ChainLength(maxConcurrent, token, batches) == k + 1
    decreases k
  {
    if k > 0 {
      var rest := batches[1..];
      assert forall j :: 0 <= j < k - 1 ==> rest[j] == batches[j + 1];
      ChainStopsAtTokenless(maxConcurrent, batches[0].token, rest, k - 1);
    }
  }

  /** With a token on every batch, the chain takes them all. */
  lemma {:induction false} ChainTakesAll(maxConcurrent: int, token: Option<string>, batches: seq<Batch>)
    requires maxConcurrent > 0 && token.Some?
    requires forall j :: 0 <= j < |batches| ==> batches[j].token.Some?
    ensures ChainLength(maxConcurrent, token, batches) == |batches|
    decreases |batches|
  {
    if batches != [] {
      var rest := batches[1..];
      assert forall j :: 0 <= j < |rest| ==> rest[j] == batches[j + 1];
      ChainTakesAll(maxConcurrent, batches[0].token, rest);
    }
  }

  lemma {:induction false} NewRecordsCons(b: Batch, batches: seq<Batch>)
    ensures NewRecords([b] + batches) == b.records + NewRecords(batches)
    decreases |batches|
  {
    if batches == [] {
      OneBatch(b);
      assert [b] + batches == [b];
    } else {
      var init := batches[..|batches| - 1];
      NewRecordsCons(b, init);
      assert ([b] + batches)[..|batches|] == [b] + init;
    }
  }

  /** The chain from `token` reaches a batch without a token within `batches`. */
  predicate Ends(maxConcurrent: int, token: Option<string>, batches: seq<Batch>)
    decreases |batches|
  {
    token.None? || (batches != [] && maxConcurrent > 0 && Ends(maxConcurrent, batches[0].token, batches[1..]))
  }

  function Harvested(maxConcurrent: int, first: Attempts, responses: seq<Attempts>): (rs: seq<Record>)
    requires DefaultRetryCount <= |first| && LongEnough(responses)
    ensures var bs := Batches(responses);
            rs == Response(first).records + NewRecords(bs[..ChainLength(maxConcurrent, Response(first).token, bs)])
    ensures maxConcurrent <= 0 ==> rs == Response(first).records
  {
    Response(first).records + Chain(maxConcurrent, Response(first).token, Batches(responses))
  }

  /** One pass of the loop, seen from the chain: a batch, then the chain from its token. */
  lemma ChainStep(maxConcurrent: int, token: Option<string>, batches: seq<Batch>, k: nat)
    requires k < |batches|
    ensures var b := batches[k];
            && Chain(maxConcurrent, token, batches[k..])
               == (if token.None? || maxConcurrent <= 0 then [] else b.records + Chain(maxConcurrent, b.token, batches[k + 1..]))
            && Ends(maxConcurrent, token, batches[k..])
               == (token.None? || (maxConcurrent > 0 && Ends(maxConcurrent, b.token, batches[k + 1..])))
            && ChainLength(maxConcurrent, token, batches[k..])
               == (if token.None? || maxConcurrent <= 0 then 0 else 1 + ChainLength(maxConcurrent, b.token, batches[k + 1..]))
  {
    assert batches[k..][1..] == batches[k + 1..];
  }

  /**
   * A pass that takes the records and the token of batch `k` (or, with
   * no positive `maxConcurrent`, changes nothing) leaves the records plus
   * the rest of the chain as they were.
   */
  lemma PassFollowsChain(maxConcurrent: int, token: Option<string>, before: seq<Record>, after: seq<Record>,
                         next: Option<string>, batches: seq<Batch>, k: nat)
    requires k < |batches| && token.Some?
    requires maxConcurrent > 0 ==> after == before + batches[k].records && next == batches[k].token
    requires maxConcurrent <= 0 ==> after == before && next == token
    ensures after + Chain(maxConcurrent, next, batches[k + 1..]) == before + Chain(maxConcurrent, token, batches[k..])
    ensures Ends(maxConcurrent, next, batches[k + 1..]) == Ends(maxConcurrent, token, batches[k..])
    ensures (if maxConcurrent > 0 then 1 else 0) + ChainLength(maxConcurrent, next, batches[k + 1..])
            == ChainLength(maxConcurrent, token, batches[k..])
  {
    ChainStep(maxConcurrent, token, batches, k);
    if maxConcurrent > 0 {
      assert (before + batches[k].records) + Chain(maxConcurrent, next, batches[k + 1..])
          == before + (batches[k].records + Chain(maxConcurrent, next, batches[k + 1..]));
    }
  }

  lemma OneBatch(b: Batch)
    ensures NewRecords([b]) == b.records && NewTokens([b]) == TokenList(b.token)
  {
    assert [b][..0] == [];
  }

  /**
   * The harvest loop, its passes bounded by the responses supplied: each
   * pass fills the in-flight list and completes one fetch. The result is
   * the sequential chain of batches; the loop ends exactly when the chain
   * reaches a batch without a token, and never with no positive
   * `maxConcurrent` once a token is queued. A failed first fetch yields
   * no records. `fetches` counts the resumption fetches made: one per
   * batch the chain takes.
   */
  method HarvestRecords(maxConcurrent: int, first: Attempts, responses: seq<Attempts>)
    returns (all: seq<Record>, finished: bool, fetches: nat)
    requires DefaultRetryCount <= |first| && LongEnough(responses)
    ensures all == Harvested(maxConcurrent, first, responses)
    ensures finished <==> Ends(maxConcurrent, Response(first).token, Batches(responses))
    ensures Fetched(first, DefaultRetryCount).body.None? ==> all == [] && finished
    ensures maxConcurrent <= 0 ==> all == Response(first).records
    ensures fetches == ChainLength(maxConcurrent, Response(first).token, Batches(responses)) <= |responses|
  {
    var h := new Harvester(maxConcurrent, first);
    ghost var bs, b0 := Batches(responses), Response(first);
    assert PendingToken(h.pending) == b0.token;
    var k := Run(h, responses);
    fetches := if maxConcurrent > 0 then k else 0;
    ghost var rest := Chain(maxConcurrent, PendingToken(h.pending), bs[k..]);
    assert h.records + rest == b0.records + Chain(maxConcurrent, b0.token, bs);
    finished := h.pending == [];
    if !finished {
      assert bs[k..] == [];
    }
    assert rest == [] && ChainLength(maxConcurrent, PendingToken(h.pending), bs[k..]) == 0;
    if finished {
      h.Drain([]);
    }
    all := h.records;
  }

  /**
   * The passes of `while resumption_tokens:`, one per supplied response,
   * until the queue is empty or the responses run out. The records so far
   * plus the chain still ahead never change, and neither does whether the
   * chain ends.
   */
  method Run(h: Harvester, responses: seq<Attempts>) returns (k: nat)
    requires h.Valid() && h.inFlight == [] && LongEnough(responses)
    modifies h
    ensures h.Valid() && h.inFlight == [] && k <= |responses|
    ensures h.pending == [] || k == |responses|
    ensures var bs, mc := Batches(responses), h.maxConcurrent;
            && h.records + Chain(mc, PendingToken(h.pending), bs[k..])
               == old(h.records) + Chain(mc, PendingToken(old(h.pending)), bs)
            && Ends(mc, PendingToken(h.pending), bs[k..]) == Ends(mc, PendingToken(old(h.pending)), bs)
            && (if mc > 0 then k else 0) + ChainLength(mc, PendingToken(h.pending), bs[k..])
               == ChainLength(mc, PendingToken(old(h.pending)), bs)
  {
    ghost var bs := Batches(responses);
    ghost var target := h.records + Chain(h.maxConcurrent, PendingToken(h.pending), bs);
    ghost var ends := Ends(h.maxConcurrent, PendingToken(h.pending), bs);
    ghost var length := ChainLength(h.maxConcurrent, PendingToken(h.pending), bs);
    k := 0;
    while h.pending != [] && k < |responses|
      invariant 0 <= k <= |responses|
      invariant h.Valid() && h.inFlight == []
      invariant h.records + Chain(h.maxConcurrent, PendingToken(h.pending), bs[k..]) == target
      invariant Ends(h.maxConcurrent, PendingToken(h.pending), bs[k..]) == ends
      invariant (if h.maxConcurrent > 0 then k else 0) + ChainLength(h.maxConcurrent, PendingToken(h.pending), bs[k..]) == length
      decreases |responses| - k
    {
      ghost var before, token := h.records, PendingToken(h.pending);
      BatchesAt(responses, k);
      h.Pass(responses[k]);
      PassFollowsChain(h.maxConcurrent, token, before, h.records, PendingToken(h.pending), bs, k);
      k := k + 1;
    }
  }
}
