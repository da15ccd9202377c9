/**
  The retry loop of `RequestBuilder::send` over the redirect loop, and the backoff of `retry.rs`. Each
  attempt meets its own arbitrary server, and may be cut off by the request timeout after any number of
  requests. Delays are whole nanoseconds.
 */
module Retries {
  import opened Wrappers
  import opened Redirects
  import opened RedirectRuns

  const U32_MAX: nat := 0xFFFF_FFFF
  /** `Duration::MAX` in nanoseconds. */
  const DURATION_MAX: nat := 0xFFFF_FFFF_FFFF_FFFF * 1_000_000_000 + 999_999_999

  datatype RetryPolicy = RetryPolicy(maxRetries: nat, backoffBase: nat, backoffMax: nat, retryable: set<nat>,
                                     retryOnConnectionError: bool, retryOnTimeout: bool)

  // ---- Backoff ----

  function Pow2(n: nat): nat {
    if n == 0 then 1 else 2 * Pow2(n - 1)
  }

  function Min(a: nat, b: nat): nat {
    if a < b then a else b
  }

  /** `min(base.saturating_mul(2u32.saturating_pow(attempt)), max)`. */
  function BackoffDelay(p: RetryPolicy, attempt: nat): nat {
    Min(Min(p.backoffBase * Min(Pow2(attempt), U32_MAX), DURATION_MAX), p.backoffMax)
  }

  lemma {:induction false} Pow2Grows(a: nat, b: nat)
    requires a <= b
    ensures 1 <= Pow2(a) <= Pow2(b)
  {
    if a < b {
      Pow2Grows(a, b - 1);
    } else if a > 0 {
      Pow2Grows(a - 1, b - 1);
    }
  }

  lemma Pow2Of32()
    ensures Pow2(31) == 0x8000_0000 && Pow2(32) == 0x1_0000_0000
  {
    assert Pow2(8) == 256;
    assert Pow2(16) == 65536;
    assert Pow2(24) == 0x100_0000;
  }

  lemma MulMono(a: nat, b: nat, c: nat)
    requires b <= c
    ensures a * b <= a * c
  {
  }

  /** The delay doubles with each attempt up to the cap, never shrinks, and never exceeds the cap. It is
      the exact capped power exactly when the `u32` power of two has not saturated, or its saturated value
      is already enough to reach the cap. */
  lemma BackoffIsCappedDoubling(p: RetryPolicy, attempt: nat)
    requires p.backoffMax <= 0xFFFF_FFFF_FFFF_FFFF * 1_000_000_000 + 999_999_999
    ensures Pow2(0) == 1 && Pow2(attempt + 1) == 2 * Pow2(attempt)
    ensures BackoffDelay(p, attempt) <= BackoffDelay(p, attempt + 1) <= p.backoffMax
    ensures var exact := p.backoffBase * Pow2(attempt);
            BackoffDelay(p, attempt) == (if exact < p.backoffMax then exact else p.backoffMax)
            <==> attempt < 32 || p.backoffBase == 0 || p.backoffMax <= p.backoffBase * 0xFFFF_FFFF
  {
    Pow2Of32();
    Pow2Grows(attempt, attempt + 1);
    MulMono(p.backoffBase, Min(Pow2(attempt), U32_MAX), Min(Pow2(attempt + 1), U32_MAX));
    if attempt < 32 {
      Pow2Grows(attempt, 31);
    } else {
      Pow2Grows(32, attempt);
      MulMono(p.backoffBase, U32_MAX + 1, Pow2(attempt));
    }
  }

  // ---- The attempt loop ----

  /** The server an attempt meets, what the cookie jar has during it, and after how many requests the timeout
      strikes, if it does. */
  datatype Attempt = Attempt(replies: seq<Reply>, jar: JarCookies, cutAfter: Option<nat>)

  datatype Call = Call(verb: Method, uri: Uri, headers: Headers, streaming: bool, policy: Policy, resolve: Resolver,
                       retry: Option<RetryPolicy>)

  /** The number of attempts. `max_retries + 1` is a `u32` addition; with `u32::MAX` it wraps to zero in a
      build without overflow checks. */
  function MaxAttempts(c: Call): nat {
    if c.streaming then 1
    else if c.retry.None? then 1
    else (c.retry.value.maxRetries + 1) % (U32_MAX + 1)
  }

  function StartBody(c: Call): OutgoingBody {
    if c.streaming then OneShot(Some(Original)) else Reusable(Original)
  }

  function AttemptExchange(c: Call, a: Attempt): Exchange {
    var whole := Follow(Env(c.policy, c.uri, c.resolve, a.jar), LoopState(c.verb, c.uri, c.headers, StartBody(c), 0),
                        a.replies);
    match a.cutAfter
    case Some(n) => if n <= |whole.log| then Exchange(whole.log[..n], Err(TimedOut)) else whole
    case None => whole
  }

  /** Whether a result is of a kind that the policy retries. */
  predicate WorthRetrying(p: RetryPolicy, result: Result<nat, SendError>) {
    match result
    case Ok(status) => status in p.retryable
    case Err(Transport) => p.retryOnConnectionError
    case Err(TimedOut) => p.retryOnTimeout
    case Err(_) => false
  }

  predicate TriesAgain(c: Call, k: nat, result: Result<nat, SendError>) {
    c.retry.Some? && k + 1 < MaxAttempts(c) && WorthRetrying(c.retry.value, result)
  }

  /** The logs of the attempts from number `k` on, and the final result. */
  function SendFrom(c: Call, attempts: nat -> Attempt, k: nat): (seq<seq<Hop>>, Result<nat, SendError>)
    decreases MaxAttempts(c) - k
  {
    if k >= MaxAttempts(c) then ([], Err(RetriesExceeded))
    else
      var x := AttemptExchange(c, attempts(k));
      if TriesAgain(c, k, x.result) then
        var (logs, result) := SendFrom(c, attempts, k + 1);
        ([x.log] + logs, result)
      else ([x.log], x.result)
  }

  lemma JoinLogs(a: seq<seq<Hop>>, log: seq<Hop>, b: seq<seq<Hop>>)
    ensures a + [log] + b == a + ([log] + b)
  {
  }

  /** One attempt of `send`, with its timeout. */
  method RunAttempt(c: Call, outgoing: OutgoingBody, a: Attempt)
    returns (log: seq<Hop>, outcome: Result<nat, SendError>)
    requires outgoing == StartBody(c)
    ensures Exchange(log, outcome) == AttemptExchange(c, a)
  {
    hide Follow;
    log, outcome := SendInner(c.verb, c.uri, outgoing, c.headers, c.policy, c.resolve, a.jar, a.replies);
    if a.cutAfter.Some? && a.cutAfter.value <= |log| {
      log, outcome := log[..a.cutAfter.value], Err(TimedOut);
    }
  }

  /** Whether `send` goes round its loop again after attempt `k`. */
  method GoesAgain(c: Call, k: nat, maxAttempts: nat, outcome: Result<nat, SendError>) returns (again: bool)
    requires maxAttempts == MaxAttempts(c)
    ensures again == TriesAgain(c, k, outcome)
  {
    again := false;
    if c.retry.Some? && k < maxAttempts - 1 {
      match outcome {
        case Ok(status) => again := status in c.retry.value.retryable;
        case Err(Transport) => again := c.retry.value.retryOnConnectionError;
        case Err(TimedOut) => again := c.retry.value.retryOnTimeout;
        case Err(_) => again := false;
      }
    }
  }

  lemma SendFromUnfold(c: Call, attempts: nat -> Attempt, k: nat, log: seq<Hop>, outcome: Result<nat, SendError>)
    requires k < MaxAttempts(c) && Exchange(log, outcome) == AttemptExchange(c, attempts(k))
    ensures SendFrom(c, attempts, k) ==
            if TriesAgain(c, k, outcome)
            then ([log] + SendFrom(c, attempts, k + 1).0, SendFrom(c, attempts, k + 1).1) else ([log], outcome)
  {
    hide AttemptExchange, TriesAgain;
  }

  /** `send`. */
  method Send(c: Call, attempts: nat -> Attempt) returns (logs: seq<seq<Hop>>, result: Result<nat, SendError>)
    ensures (logs, result) == SendFrom(c, attempts, 0)
  {
    logs := [];
    var slot: Option<Payload> := if c.streaming then Some(Original) else None;
    var maxAttempts := MaxAttempts(c);
    assert c.streaming ==> maxAttempts == 1;
    ghost var all := SendFrom(c, attempts, 0);
    assert logs + all.0 == all.0;
    assert SendFrom(c, attempts, maxAttempts) == ([], Err(RetriesExceeded));
    hide AttemptExchange, MaxAttempts, SendFrom, TriesAgain;
    var k := 0;
    while k < maxAttempts
      invariant k <= maxAttempts
      invariant c.streaming ==> maxAttempts == 1 && (k == 0 ==> slot == Some(Original))
      invariant all == (logs + SendFrom(c, attempts, k).0, SendFrom(c, attempts, k).1)
    {
      var outgoing := if c.streaming then OneShot(slot) else Reusable(Original);
      slot := None;
      var log, outcome := RunAttempt(c, outgoing, attempts(k));
      SendFromUnfold(c, attempts, k, log, outcome);
      JoinLogs(logs, log, SendFrom(c, attempts, k + 1).0);
      logs := logs + [log];
      var again := GoesAgain(c, k, maxAttempts, outcome);
      if !again {
        return logs, outcome;
      }
      k := k + 1;
    }
    assert logs + [] == logs;
    return logs, Err(RetriesExceeded);
  }

  // ---- What a whole send does ----

  function Requests(logs: seq<seq<Hop>>): nat {
    if logs == [] then 0 else |logs[0]| + Requests(logs[1..])
  }

  /** An attempt is the redirect loop from the caller's own request on, with the caller's body; a timeout after `n`
      requests keeps these requests and is an error. */
  lemma AttemptIs(c: Call, a: Attempt)
    ensures var body := if c.streaming then OneShot(Some(Original)) else Reusable(Original);
            var whole := Follow(Env(c.policy, c.uri, c.resolve, a.jar), LoopState(c.verb, c.uri, c.headers, body, 0),
                                a.replies);
            && AttemptExchange(c, a) == (
               if a.cutAfter.Some? && a.cutAfter.value <= |whole.log|
               then Exchange(whole.log[..a.cutAfter.value], Err(TimedOut)) else whole)
            && (AttemptExchange(c, a).log != [] ==>
                  AttemptExchange(c, a).log[0].(headers := c.headers) == Hop(c.verb, c.uri, c.headers, Original))
  {
    hide SameOrigin, RedirectMethod;
  }

  lemma AttemptIsBounded(c: Call, a: Attempt)
    requires !c.policy.All?
    ensures |AttemptExchange(c, a).log| <= Limit(c.policy) + 1
  {
    RequestsAreBounded(Env(c.policy, c.uri, c.resolve, a.jar), LoopState(c.verb, c.uri, c.headers, StartBody(c), 0),
                       a.replies);
  }

  /** How many attempts there may be. `max_retries + 1` is computed in 32 bits. */
  lemma AttemptCount(c: Call)
    ensures MaxAttempts(c) ==
            if c.streaming || c.retry.None? then 1 else (c.retry.value.maxRetries + 1) % 0x1_0000_0000
    ensures MaxAttempts(c) <= if c.streaming || c.retry.None? then 1 else c.retry.value.maxRetries + 1
  {
  }

  lemma {:induction false} SendIsBoundedFrom(c: Call, attempts: nat -> Attempt, k: nat)
    requires !c.policy.All? && k <= MaxAttempts(c)
    ensures var logs := SendFrom(c, attempts, k).0;
            && |logs| <= MaxAttempts(c) - k
            && Requests(logs) <= (MaxAttempts(c) - k) * (Limit(c.policy) + 1)
    decreases MaxAttempts(c) - k
  {
    hide AttemptExchange, MaxAttempts, WorthRetrying, Limit;
    var n := Limit(c.policy) + 1;
    if k < MaxAttempts(c) {
      var log := AttemptExchange(c, attempts(k)).log;
      AttemptIsBounded(c, attempts(k));
      SendIsBoundedFrom(c, attempts, k + 1);
      var left := MaxAttempts(c) - k - 1;
      assert (left + 1) * n == left * n + n;
      MulMono(n, 0, left);
      var logs := SendFrom(c, attempts, k).0;
      assert logs[0] == log;
      if |logs| == 1 {
        assert logs[1..] == [];
      } else {
        assert logs[1..] == SendFrom(c, attempts, k + 1).0;
      }
    }
  }

  /** At most max_retries + 1 attempts, and with a redirect limit of n at most (max_retries + 1)(n + 1)
      requests, whatever the servers do; without a retry policy, or with a streaming body, one attempt. */
  lemma SendIsBounded(c: Call, attempts: nat -> Attempt)
    requires !c.policy.All?
    ensures var logs := SendFrom(c, attempts, 0).0;
            var most := if c.streaming || c.retry.None? then 1 else c.retry.value.maxRetries + 1;
            |logs| <= most && Requests(logs) <= most * (Limit(c.policy) + 1)
  {
    hide MaxAttempts, Limit, SendFrom, Requests;
    AttemptCount(c);
    SendIsBoundedFrom(c, attempts, 0);
    var most := if c.streaming || c.retry.None? then 1 else c.retry.value.maxRetries + 1;
    MoreAllow(Requests(SendFrom(c, attempts, 0).0), MaxAttempts(c) - 0, most, Limit(c.policy) + 1);
  }

  lemma MoreAllow(requests: nat, a: nat, b: nat, each: nat)
    requires requests <= a * each && a <= b
    ensures requests <= b * each
  {
  }

  function OriginalsSent(log: seq<Hop>): nat {
    if log == [] then 0 else (if log[0].body == Original then 1 else 0) + OriginalsSent(log[1..])
  }

  lemma {:induction false} NoOriginals(log: seq<Hop>)
    requires forall i :: 0 <= i < |log| ==> log[i].body == Nothing
    ensures OriginalsSent(log) == 0
  {
    if log != [] {
      assert forall i :: 0 <= i < |log| - 1 ==> log[1..][i] == log[i + 1];
      NoOriginals(log[1..]);
    }
  }

  /** A streaming body is sent at most once in a whole send: there is one attempt, and its first request
      is the only one with the body. */
  lemma StreamingIsSentOnce(c: Call, attempts: nat -> Attempt)
    requires c.streaming
    ensures var logs := SendFrom(c, attempts, 0).0;
            |logs| == 1 && OriginalsSent(logs[0]) <= 1
  {
    var env := Env(c.policy, c.uri, c.resolve, attempts(0).jar);
    var st := LoopState(c.verb, c.uri, c.headers, StartBody(c), 0);
    OneShotIsSentOnce(env, st, attempts(0).replies);
    var log := AttemptExchange(c, attempts(0)).log;
    if log != [] {
      assert forall i :: 1 <= i < |log| ==> log[i].body == Nothing;
      NoOriginals(log[1..]);
    }
  }

  lemma {:induction false} RetriesFrom(c: Call, attempts: nat -> Attempt, from: nat, k: nat)
    requires from <= k && k - from < |SendFrom(c, attempts, from).0|
    ensures k < MaxAttempts(c)
    ensures var (logs, result) := SendFrom(c, attempts, from);
            var x := AttemptExchange(c, attempts(k));
            && logs[k - from] == x.log
            && (k + 1 - from < |logs|
                <==> k + 1 < MaxAttempts(c) && c.retry.Some? && WorthRetrying(c.retry.value, x.result))
            && (k + 1 - from == |logs| ==> result == x.result)
    decreases k - from
  {
    hide AttemptExchange, WorthRetrying;
    if from < MaxAttempts(c) && from < k {
      assert TriesAgain(c, from, AttemptExchange(c, attempts(from)).result);
      RetriesFrom(c, attempts, from + 1, k);
    } else if from + 1 < MaxAttempts(c) {
      assert |SendFrom(c, attempts, from + 1).0| >= 1;
    }
  }

  /** Attempt `k` is followed by another one exactly when its number allows it and the policy retries its
      result: a listed status, a transport failure or a timeout, each where the policy says so. The result of the
      last attempt is the result of the send. */
  lemma RetriesExactly(c: Call, attempts: nat -> Attempt, k: nat)
    requires k < |SendFrom(c, attempts, 0).0|
    ensures var (logs, result) := SendFrom(c, attempts, 0);
            var x := AttemptExchange(c, attempts(k));
            && logs[k] == x.log
            && (k + 1 < |logs|
                <==> && !c.streaming && c.retry.Some? && k + 1 < (c.retry.value.maxRetries + 1) % 0x1_0000_0000
                     && ((x.result.Ok? && x.result.value in c.retry.value.retryable)
                         || (x.result == Err(Transport) && c.retry.value.retryOnConnectionError)
                         || (x.result == Err(TimedOut) && c.retry.value.retryOnTimeout)))
            && (k + 1 == |logs| ==> result == x.result)
  {
    RetriesFrom(c, attempts, 0, k);
    AttemptCount(c);
    hide AttemptExchange, SendFrom, MaxAttempts;
  }

  /** A send makes at least one attempt, except with `max_retries` at the largest `u32`, where the count
      wraps to zero and the send fails without a request. */
  lemma AlwaysTriesExactly(c: Call, attempts: nat -> Attempt)
    requires c.retry.Some? ==> c.retry.value.maxRetries <= 0xFFFF_FFFF
    ensures SendFrom(c, attempts, 0) == ([], Err(RetriesExceeded)) || SendFrom(c, attempts, 0).0 != []
    ensures SendFrom(c, attempts, 0).0 == []
       <==> !c.streaming && c.retry.Some? && c.retry.value.maxRetries == 0xFFFF_FFFF
  {
    hide AttemptExchange, WorthRetrying;
  }
}
