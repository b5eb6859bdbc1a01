/**
 * `fetch_records`: up to `retry_count` GET attempts with capped
 * exponential backoff. The network is replaced by the outcome each
 * attempt would have, and the sleeps by the list of waits performed.
 */
module Retry {

  import opened Wrappers

  /**
   * What one attempt ends in: a response that passes `raise_for_status`,
   * a 503, a timeout, or any other error (a non-503 HTTP error status
   * included: `raise_for_status` raises into the generic branch).
   */
  datatype Attempt<T> = Ok(body: T) | Busy503 | Timeout | OtherError

  /** The body returned (or None), the waits slept in order, and the number of attempts made. */
  datatype Fetch<T> = Fetch(body: Option<T>, waits: seq<nat>, attempts: nat)

  /** `fetch_records`' default `retry_count`. */
  const DefaultRetryCount: nat := 3

  /** The backoff cap, in seconds. */
  const MaxWait: nat := 30

  function Pow2(i: nat): (p: nat)
    ensures p >= 1
  {
    if i == 0 then 1 else 2 * Pow2(i - 1)
  }

  lemma {:induction false} Pow2Monotone(i: nat, j: nat)
    requires i <= j
    ensures Pow2(i) <= Pow2(j)
    decreases j
  {
    if i < j {
      Pow2Monotone(i, j - 1);
    }
  }

  /** `min(2 ** i, 30)`: the wait after attempt `i` (0-based). */
  function Backoff(i: nat): (w: nat)
    ensures 1 <= w <= MaxWait && w <= Pow2(i)
    ensures w == Pow2(i) || w == MaxWait
  {
    if Pow2(i) < MaxWait then Pow2(i) else MaxWait
  }

  /** The wait doubles from 1 s through attempt 4 and stays at the 30 s cap from attempt 5 on. */
  lemma BackoffSchedule(i: nat)
    ensures i < 5 ==> Backoff(i) == Pow2(i)
    ensures i >= 5 ==> Backoff(i) == MaxWait
  {
    if i < 5 {
      Pow2Monotone(i, 4);
      assert Pow2(4) == 16;
    } else {
      Pow2Monotone(5, i);
      assert Pow2(5) == 32;
    }
  }

  /** Waits never shrink from one attempt to the next. */
  lemma BackoffMonotone(i: nat, j: nat)
    requires i <= j
    ensures Backoff(i) <= Backoff(j)
  {
    Pow2Monotone(i, j);
  }

  /** The waits after attempts 0 .. k-1. */
  function Backoffs(k: nat): (ws: seq<nat>)
    ensures |ws| == k && forall j :: 0 <= j < k ==> ws[j] == Backoff(j)
  {
    if k == 0 then [] else Backoffs(k - 1) + [Backoff(k - 1)]
  }

  /** The first attempt among `outcomes[from..n]` that succeeds. */
  function FirstOk<T>(outcomes: seq<Attempt<T>>, from: nat, n: nat): (r: Option<nat>)
    requires from <= n <= |outcomes|
    ensures r.Some? ==> from <= r.value < n && outcomes[r.value].Ok?
                        && forall j :: from <= j < r.value ==> !outcomes[j].Ok?
    ensures r.None? ==> forall j :: from <= j < n ==> !outcomes[j].Ok?
    decreases n - from
  {
    if from == n then None
    else if outcomes[from].Ok? then Some(from)
    else FirstOk(outcomes, from + 1, n)
  }

  /**
   * The result of `fetch_records`, stated without its loop: the first
   * successful attempt's body, after waiting for every earlier attempt;
   * otherwise None after `retry_count` attempts, having waited after each
   * of them except a last attempt that ends in an error other than 503 or
   * a timeout.
   */
  function Fetched<T>(outcomes: seq<Attempt<T>>, retryCount: int): (f: Fetch<T>)
    requires retryCount <= |outcomes|
    ensures f.attempts <= if retryCount < 0 then 0 else retryCount
    ensures f.attempts == 0 <==> retryCount <= 0
    ensures f.body.Some? <==> exists j :: 0 <= j < retryCount && outcomes[j].Ok?
    ensures f.body.Some? ==> outcomes[f.attempts - 1] == Ok(f.body.value) && |f.waits| == f.attempts - 1
    ensures f.body.Some? ==> forall j :: 0 <= j < f.attempts - 1 ==> !outcomes[j].Ok?
    ensures f.body.None? && retryCount > 0 ==>
              && f.attempts == retryCount
              && (|f.waits| == retryCount <==> !outcomes[retryCount - 1].OtherError?)
              && retryCount - 1 <= |f.waits|
    ensures |f.waits| <= f.attempts && f.waits == Backoffs(|f.waits|)
  {
    if retryCount <= 0 then Fetch(None, [], 0)
    else
      match FirstOk(outcomes, 0, retryCount)
      case Some(k) => Fetch(Some(outcomes[k].body), Backoffs(k), k + 1)
      case None =>
        var waited := if outcomes[retryCount - 1].OtherError? then retryCount - 1 else retryCount;
        Fetch(None, Backoffs(waited), retryCount)
  }

  /** The retry loop: at most `retryCount` attempts, the outcomes taken in order. */
  method FetchRecords<T>(outcomes: seq<Attempt<T>>, retryCount: int) returns (body: Option<T>, waits: seq<nat>, attempts: nat)
    requires retryCount <= |outcomes|
    ensures Fetch(body, waits, attempts) == Fetched(outcomes, retryCount)
  {
    body, waits, attempts := None, [], 0;
    var i := 0;
    while i < retryCount
      invariant 0 <= i <= if retryCount < 0 then 0 else retryCount
      invariant attempts == i && waits == Backoffs(i) && body == None
      invariant forall j :: 0 <= j < i ==> !outcomes[j].Ok?
      invariant 0 < i ==> i < retryCount || !outcomes[i - 1].OtherError?
      decreases retryCount - i
    {
      attempts := i + 1;
      match outcomes[i] {
        case Ok(b) =>
          body := Some(b);
          return;
        case Busy503 =>
          waits := waits + [Backoff(i)];
        case Timeout =>
          waits := waits + [Backoff(i)];
        case OtherError =>
          if i < retryCount - 1 {
            waits := waits + [Backoff(i)];
          } else {
            return;
          }
      }
      i := i + 1;
    }
  }
}
