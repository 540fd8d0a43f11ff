/**
  The retry loop shared by `get_image` and `get_chapter_info`.

  The real loop repeats an HTTP GET until it succeeds. Here the outcome of
  each attempt is an input: a finite sequence of attempts, consulted in order.
  After a transient failure the loop sleeps for `random.randint(1, 5)` time
  units; that draw is also an input, one candidate delay per attempt, each
  constrained to the inclusive range [1, 5].
 */
module Retry {

  /** The five exception kinds the `except` clause catches. */
  datatype TransientKind =
    | ClientResponseError     // raised by `raise_for_status` on an error status
    | ServerDisconnectedError
    | ServerTimeoutError
    | ClientConnectorError
    | AsyncioTimeoutError

  /** What one attempt of the GET does. */
  datatype Attempt<+P, +E> =
    | Success(payload: P)        // the body was read (bytes or decoded JSON)
    | Transient(kind: TransientKind)
    | Fatal(error: E)            // any exception outside the caught five

  /** What the fetcher has done after consulting the finite attempt sequence. */
  datatype Fetch<+P, +E> =
    | Fetched(payload: P, sleeps: seq<int>)
    | Raised(error: E, sleeps: seq<int>)
    | StillRetrying(sleeps: seq<int>)

  const MinDelay := 1
  const MaxDelay := 5

  predicate ValidDelay(d: int) {
    MinDelay <= d <= MaxDelay
  }

  predicate ValidDelays(delays: seq<int>) {
    forall i :: 0 <= i < |delays| ==> ValidDelay(delays[i])
  }

  /** Every attempt in `attempts` failed with one of the caught kinds. */
  predicate AllTransient<P, E>(attempts: seq<Attempt<P, E>>) {
    forall i :: 0 <= i < |attempts| ==> attempts[i].Transient?
  }

  /**
    Runs the loop over `attempts`; `delays[i]` is the sleep drawn if attempt
    `i` is transient. The first success is returned, the first fatal error is
    raised, and every transient attempt before them costs exactly one sleep.
   */
  function RetryLoop<P, E>(attempts: seq<Attempt<P, E>>, delays: seq<int>): (r: Fetch<P, E>)
    requires |delays| == |attempts| && ValidDelays(delays)
    ensures ValidDelays(r.sleeps)
    ensures |r.sleeps| <= |attempts|
    ensures r.sleeps == delays[..|r.sleeps|]
    ensures AllTransient(attempts[..|r.sleeps|])
    ensures r.Fetched? ==> |r.sleeps| < |attempts| && attempts[|r.sleeps|] == Success(r.payload)
    ensures r.Raised? ==> |r.sleeps| < |attempts| && attempts[|r.sleeps|] == Fatal(r.error)
    ensures r.StillRetrying? ==> |r.sleeps| == |attempts|
    decreases |attempts|
  {
    if |attempts| == 0 then
      StillRetrying([])
    else
      match attempts[0]
      case Success(p) => Fetched(p, [])
      case Fatal(e) => Raised(e, [])
      case Transient(_) =>
        var rest := RetryLoop(attempts[1..], delays[1..]);
        assert attempts[1..][..|rest.sleeps|] == attempts[1..|rest.sleeps| + 1];
        match rest
        case Fetched(p, s) => Fetched(p, [delays[0]] + s)
        case Raised(e, s) => Raised(e, [delays[0]] + s)
        case StillRetrying(s) => StillRetrying([delays[0]] + s)
  }

  /**
    If every attempt before the first success is transient, the loop returns
    that success after exactly one valid sleep per preceding attempt.
   */
  lemma ReturnsFirstSuccess<P, E>(attempts: seq<Attempt<P, E>>, delays: seq<int>, k: nat, p: P)
    requires |delays| == |attempts| && ValidDelays(delays)
    requires k < |attempts| && AllTransient(attempts[..k]) && attempts[k] == Success(p)
    ensures RetryLoop(attempts, delays) == Fetched(p, delays[..k])
    ensures |RetryLoop(attempts, delays).sleeps| == k
  {
  }

  /**
    If every attempt before the first fatal error is transient, the error
    propagates after one valid sleep per preceding attempt.
   */
  lemma RaisesFirstFatal<P, E>(attempts: seq<Attempt<P, E>>, delays: seq<int>, k: nat, e: E)
    requires |delays| == |attempts| && ValidDelays(delays)
    requires k < |attempts| && AllTransient(attempts[..k]) && attempts[k] == Fatal(e)
    ensures RetryLoop(attempts, delays) == Raised(e, delays[..k])
  {
  }

  /** When every attempt is transient the loop has not returned: it is still retrying. */
  lemma AllTransientKeepsRetrying<P, E>(attempts: seq<Attempt<P, E>>, delays: seq<int>)
    requires |delays| == |attempts| && ValidDelays(delays)
    ensures RetryLoop(attempts, delays).StillRetrying? <==> AllTransient(attempts)
    ensures AllTransient(attempts) ==> RetryLoop(attempts, delays).sleeps == delays
  {
  }

  /**
    The loop never looks past the first non-transient attempt: whatever
    follows it, and whatever delays are drawn for those later attempts, the
    result is the same.
   */
  lemma {:induction false} IgnoresLaterAttempts<P, E>(attempts: seq<Attempt<P, E>>, delays: seq<int>,
                                                      later: seq<Attempt<P, E>>, laterDelays: seq<int>, k: nat)
    requires |delays| == |attempts| && ValidDelays(delays)
    requires |laterDelays| == |later| && ValidDelays(laterDelays)
    requires k < |attempts| && AllTransient(attempts[..k]) && !attempts[k].Transient?
    ensures RetryLoop(attempts[..k + 1] + later, delays[..k + 1] + laterDelays) == RetryLoop(attempts, delays)
  {
    var a := attempts[..k + 1] + later;
    var d := delays[..k + 1] + laterDelays;
    assert a[..k] == attempts[..k];
    assert a[k] == attempts[k];
    assert d[..k] == delays[..k];
    assert ValidDelays(d) by {
      forall i | 0 <= i < |d| ensures ValidDelay(d[i]) {
        if i <= k { assert d[i] == delays[i]; } else { assert d[i] == laterDelays[i - k - 1]; }
      }
    }
    match attempts[k]
    case Success(p) =>
      ReturnsFirstSuccess(a, d, k, p);
      ReturnsFirstSuccess(attempts, delays, k, p);
    case Fatal(e) =>
      RaisesFirstFatal(a, d, k, e);
      RaisesFirstFatal(attempts, delays, k, e);
  }
}
