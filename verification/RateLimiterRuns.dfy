/**
  The rate limiter over whole runs: how much a key can get through in a window of time, and when the
  idle sweep cannot be noticed.
 */
module RateLimiterRuns {
  import opened RateLimiter

  // ---- Runs ----

  /** The clock never runs backwards. */
  predicate Timely(calls: seq<Call>, from: real) {
    calls != [] ==> from <= calls[0].now && Timely(calls[1..], calls[0].now)
  }

  function EndTime(calls: seq<Call>, from: real): real {
    if calls == [] then from else EndTime(calls[1..], calls[0].now)
  }

  function Next(l: Limits, st: State, c: Call): State {
    CheckSpec(l, st, c.key, c.now, c.victim).0
  }

  function After(l: Limits, st: State, calls: seq<Call>): State
    decreases |calls|
  {
    if calls == [] then st else After(l, Next(l, st, calls[0]), calls[1..])
  }

  function Answers(l: Limits, st: State, calls: seq<Call>): seq<bool>
    decreases |calls|
  {
    if calls == [] then []
    else
      [CheckSpec(l, st, calls[0].key, calls[0].now, calls[0].victim).1]
      + Answers(l, Next(l, st, calls[0]), calls[1..])
  }

  predicate GoodVictims(l: Limits, st: State, calls: seq<Call>)
    decreases |calls|
  {
    calls != [] ==> GoodVictim(l, st, calls[0]) && GoodVictims(l, Next(l, st, calls[0]), calls[1..])
  }

  /** How many calls of key `k` are allowed in a run. */
  function AllowedFor(l: Limits, st: State, calls: seq<Call>, k: string): nat
    decreases |calls|
  {
    if calls == [] then 0
    else
      (if calls[0].key == k && CheckSpec(l, st, k, calls[0].now, calls[0].victim).1 then 1 else 0)
      + AllowedFor(l, Next(l, st, calls[0]), calls[1..], k)
  }

  /** How often the bucket of `k` is swept or evicted in a run. */
  function DropsOf(l: Limits, st: State, calls: seq<Call>, k: string): nat
    decreases |calls|
  {
    if calls == [] then 0
    else
      (if k in st.buckets && k !in Kept(l, st, calls[0].key, calls[0].now, calls[0].victim) then 1 else 0)
      + DropsOf(l, Next(l, st, calls[0]), calls[1..], k)
  }

  lemma {:induction false} RunKeepsValid(l: Limits, st: State, calls: seq<Call>, from: real)
    requires Sane(l) && Valid(l, st, from) && Timely(calls, from) && GoodVictims(l, st, calls)
    ensures Valid(l, After(l, st, calls), EndTime(calls, from))
    decreases |calls|
  {
    hide Valid, CheckSpec, GoodVictim;
    if calls != [] {
      CheckKeepsValid(l, st, from, calls[0]);
      RunKeepsValid(l, Next(l, st, calls[0]), calls[1..], calls[0].now);
    }
  }

  // ---- The bound ----

  lemma RefillIs(l: Limits, d: real)
    ensures Refill(l, d) == l.refillRate * d
  {
  }

  /** The bound with its products written out. */
  lemma BoundIs(l: Limits, a: real, x: real, d: real, n: nat)
    requires a <= x + Refill(l, d) + FullTimes(l, n)
    ensures a <= x + l.refillRate * d + n as real * l.maxTokens as real
  {
  }

  /** What `n` full buckets hold. */
  function FullTimes(l: Limits, n: nat): real {
    n as real * Full(l)
  }

  lemma TokensGrow(l: Limits, buckets: map<string, Bucket>, k: string, from: real, now: real)
    requires Sane(l) && from <= now
    requires forall j :: j in buckets ==> WithinBounds(l, buckets[j], from)
    ensures TokensOf(l, buckets, k, from) <= TokensOf(l, buckets, k, now)
    ensures TokensOf(l, buckets, k, now) <= TokensOf(l, buckets, k, from) + Refill(l, now - from)
  {
    hide Refill;
    RefillIsMonotone(l, 0.0, now - from);
    if k in buckets {
      RefillAdds(l, from - buckets[k].lastRefill, now - from);
    }
  }

  /** A bucket that has just been written holds what was written. */
  lemma JustRefilled(l: Limits, tokens: real, now: real)
    requires tokens <= Full(l)
    ensures TokensAt(l, Bucket(tokens, now), now) == tokens
  {
    hide Refill;
    RefillAdds(l, 0.0, 0.0);
  }

  lemma TakeCosts(l: Limits, buckets: map<string, Bucket>, c: Call, k: string)
    requires Sane(l) && forall j :: j in buckets ==> WithinBounds(l, buckets[j], c.now)
    ensures var (after, allowed) := Take(l, buckets, c.key, c.now);
            TokensOf(l, after, k, c.now) ==
            TokensOf(l, buckets, k, c.now) - (if c.key == k && allowed then 1.0 else 0.0)
  {
    TokensWithin(l, buckets, c.key, c.now);
    hide TokensAt;
    var tokens := TokensOf(l, buckets, c.key, c.now);
    JustRefilled(l, if tokens >= 1.0 then tokens - 1.0 else tokens, c.now);
  }

  lemma CallCostsWithin(l: Limits, st: State, c: Call, from: real, k: string)
    requires Sane(l) && Valid(l, st, from) && from <= c.now && GoodVictim(l, st, c)
    ensures var allowed := if c.key == k && CheckSpec(l, st, k, c.now, c.victim).1 then 1.0 else 0.0;
            var drop := if k in st.buckets && k !in Kept(l, st, c.key, c.now, c.victim) then Full(l) else 0.0;
            allowed + TokensOf(l, Next(l, st, c).buckets, k, c.now)
            <= TokensOf(l, st.buckets, k, from) + Refill(l, c.now - from) + drop
  {
    hide TokensOf, Swept, Take, Kept, WithinBounds, GoodVictim, Refill;
    var kept := Kept(l, st, c.key, c.now, c.victim);
    assert TokensOf(l, st.buckets, k, c.now) <= TokensOf(l, st.buckets, k, from) + Refill(l, c.now - from) by {
      TokensGrow(l, st.buckets, k, from, c.now);
    }
    assert 0.0 <= TokensOf(l, st.buckets, k, c.now) by {
      BoundsLater(l, st.buckets, from, c.now);
      TokensWithin(l, st.buckets, k, c.now);
    }
    KeptIsSmall(l, st, c);
    KeptTokens(l, st.buckets, kept, k, c.now);
    BoundsLater(l, st.buckets, from, c.now);
    assert forall j :: j in kept ==> WithinBounds(l, kept[j], c.now);
    TakeCosts(l, kept, c, k);
  }

  /** The potential argument for one call. */
  lemma CallCosts(l: Limits, st: State, c: Call, from: real, k: string)
    requires Sane(l) && Valid(l, st, from) && from <= c.now && GoodVictim(l, st, c)
    ensures var allowed := if c.key == k && CheckSpec(l, st, k, c.now, c.victim).1 then 1.0 else 0.0;
            var drop := if k in st.buckets && k !in Kept(l, st, c.key, c.now, c.victim) then 1 else 0;
            allowed + TokensOf(l, Next(l, st, c).buckets, k, c.now)
            <= TokensOf(l, st.buckets, k, from) + l.refillRate * (c.now - from) + drop as real * l.maxTokens as real
  {
    hide Valid, TokensOf, CheckSpec, Kept, Next, Refill, FullTimes, GoodVictim;
    CallCostsWithin(l, st, c, from, k);
    var allowed := if c.key == k && CheckSpec(l, st, k, c.now, c.victim).1 then 1.0 else 0.0;
    var drop := if k in st.buckets && k !in Kept(l, st, c.key, c.now, c.victim) then 1 else 0;
    FullTimesAdds(l, 0, 0);
    BoundIs(l, allowed + TokensOf(l, Next(l, st, c).buckets, k, c.now), TokensOf(l, st.buckets, k, from),
            c.now - from, drop);
  }

  lemma BoundsLater(l: Limits, buckets: map<string, Bucket>, from: real, now: real)
    requires from <= now && forall j :: j in buckets ==> WithinBounds(l, buckets[j], from)
    ensures forall j :: j in buckets ==> WithinBounds(l, buckets[j], now)
  {
  }

  lemma KeptTokens(l: Limits, buckets: map<string, Bucket>, kept: map<string, Bucket>, k: string, now: real)
    requires forall j :: j in kept ==> j in buckets && buckets[j] == kept[j]
    ensures TokensOf(l, kept, k, now) == if k in buckets && k !in kept then Full(l) else TokensOf(l, buckets, k, now)
  {
  }

  lemma {:induction false} AllowedWithin(l: Limits, st: State, calls: seq<Call>, from: real, k: string)
    requires Sane(l) && Valid(l, st, from) && Timely(calls, from) && GoodVictims(l, st, calls)
    ensures AllowedFor(l, st, calls, k) as real
         <= TokensOf(l, st.buckets, k, from) + Refill(l, EndTime(calls, from) - from)
            + FullTimes(l, DropsOf(l, st, calls, k))
    decreases |calls|
  {
    hide Valid, CheckSpec, Kept, TokensOf, GoodVictim, Refill, FullTimes, Next;
    if calls == [] {
      TokensAreNatural(l, st, k, from);
      RefillAdds(l, 0.0, 0.0);
      FullTimesAdds(l, 0, 0);
    } else {
      var c, next := calls[0], Next(l, st, calls[0]);
      CallCostsWithin(l, st, c, from, k);
      NextKeepsValid(l, st, from, c);
      AllowedWithin(l, next, calls[1..], c.now, k);
      RefillAdds(l, c.now - from, EndTime(calls, from) - c.now);
      FullTimesAdds(l, if k in st.buckets && k !in Kept(l, st, c.key, c.now, c.victim) then 1 else 0,
                    DropsOf(l, next, calls[1..], k));
    }
  }

  lemma NextKeepsValid(l: Limits, st: State, from: real, c: Call)
    requires Sane(l) && Valid(l, st, from) && from <= c.now && GoodVictim(l, st, c)
    ensures Valid(l, Next(l, st, c), c.now)
  {
    CheckKeepsValid(l, st, from, c);
  }

  lemma TokensAreNatural(l: Limits, st: State, k: string, from: real)
    requires Sane(l) && Valid(l, st, from)
    ensures 0.0 <= TokensOf(l, st.buckets, k, from) <= Full(l)
  {
    TokensWithin(l, st.buckets, k, from);
  }

  lemma FullTimesAdds(l: Limits, a: nat, b: nat)
    ensures FullTimes(l, a + b) == FullTimes(l, a) + FullTimes(l, b)
    ensures FullTimes(l, 1) == Full(l) && FullTimes(l, 0) == 0.0
  {
  }

  /** From any state on, a key gets through at most the tokens it has, plus what the rate refills until the
      end, plus a full bucket for each time its bucket is dropped. */
  lemma AllowedIsBounded(l: Limits, st: State, calls: seq<Call>, from: real, k: string)
    requires Sane(l) && Valid(l, st, from) && Timely(calls, from) && GoodVictims(l, st, calls)
    ensures AllowedFor(l, st, calls, k) as real
         <= TokensOf(l, st.buckets, k, from) + l.refillRate * (EndTime(calls, from) - from)
            + DropsOf(l, st, calls, k) as real * l.maxTokens as real
  {
    hide Valid, TokensOf, GoodVictims, Timely, DropsOf, AllowedFor, Refill, FullTimes, EndTime;
    AllowedWithin(l, st, calls, from, k);
    BoundIs(l, AllowedFor(l, st, calls, k) as real, TokensOf(l, st.buckets, k, from), EndTime(calls, from) - from,
            DropsOf(l, st, calls, k));
  }

  /** In any window of any run, a key that is not swept or evicted in it gets through at most
      max_tokens + refill_rate * (length of the window); each drop allows max_tokens more. */
  lemma WindowBound(l: Limits, calls: seq<Call>, i: nat, j: nat, k: string)
    requires Sane(l) && i < j <= |calls|
    requires Timely(calls, calls[0].now) && GoodVictims(l, State(map[], 0), calls)
    ensures var st, window := After(l, State(map[], 0), calls[..i]), calls[i..j];
            AllowedFor(l, st, window, k) as real
            <= l.maxTokens as real + l.refillRate * (calls[j - 1].now - calls[i].now)
               + DropsOf(l, st, window, k) as real * l.maxTokens as real
  {
    hide Valid, TokensOf, GoodVictims, Timely, DropsOf, AllowedFor, After, Refill, FullTimes, EndTime;
    var st, window := After(l, State(map[], 0), calls[..i]), calls[i..j];
    WindowIsRun(l, calls, i, j);
    AllowedWithin(l, st, window, calls[i].now, k);
    TokensAreNatural(l, st, k, calls[i].now);
    EndOfRun(window, calls[i].now);
    BoundIs(l, AllowedFor(l, st, window, k) as real, l.maxTokens as real, calls[j - 1].now - calls[i].now,
            DropsOf(l, st, window, k));
  }

  /** A window is a run of its own from a valid state. */
  lemma WindowIsRun(l: Limits, calls: seq<Call>, i: nat, j: nat)
    requires Sane(l) && i < j <= |calls|
    requires Timely(calls, calls[0].now) && GoodVictims(l, State(map[], 0), calls)
    ensures var st, window := After(l, State(map[], 0), calls[..i]), calls[i..j];
            Valid(l, st, calls[i].now) && Timely(window, calls[i].now) && GoodVictims(l, st, window)
  {
    hide Valid, CheckSpec, GoodVictim;
    var start, t := State(map[], 0), calls[0].now;
    EmptyIsValid(l, t);
    SplitRun(l, start, calls, t, i);
    RunKeepsValid(l, start, calls[..i], t);
    var st := After(l, start, calls[..i]);
    var mid := EndTime(calls[..i], t);
    SplitRun(l, st, calls[i..], mid, j - i);
    assert calls[i..][..j - i] == calls[i..j];
    LaterIsValid(l, st, mid, calls[i].now);
  }

  lemma EmptyIsValid(l: Limits, now: real)
    requires Sane(l)
    ensures Valid(l, State(map[], 0), now)
  {
  }

  lemma LaterIsValid(l: Limits, st: State, from: real, now: real)
    requires Valid(l, st, from) && from <= now
    ensures Valid(l, st, now)
  {
  }

  lemma {:induction false} EndOfRun(calls: seq<Call>, from: real)
    requires calls != []
    ensures EndTime(calls, from) == calls[|calls| - 1].now
  {
    if |calls| > 1 {
      EndOfRun(calls[1..], calls[0].now);
    }
  }

  lemma {:induction false} SplitRun(l: Limits, st: State, calls: seq<Call>, from: real, i: nat)
    requires i <= |calls| && Timely(calls, from) && GoodVictims(l, st, calls)
    ensures Timely(calls[..i], from) && GoodVictims(l, st, calls[..i])
    ensures Timely(calls[i..], EndTime(calls[..i], from)) && GoodVictims(l, After(l, st, calls[..i]), calls[i..])
    decreases i
  {
    hide CheckSpec, GoodVictim;
    if i == 0 {
      assert calls[..0] == [] && calls[0..] == calls;
    } else {
      SplitRun(l, Next(l, st, calls[0]), calls[1..], calls[0].now, i - 1);
      assert calls[..i][1..] == calls[1..][..i - 1] && calls[1..][i - 1..] == calls[i..];
    }
  }

  /** The bucket count never exceeds the cap, and tokens stay within their bounds, in every run. */
  lemma AlwaysValid(l: Limits, calls: seq<Call>, i: nat)
    requires Sane(l) && 0 < |calls| && i <= |calls|
    requires Timely(calls, calls[0].now) && GoodVictims(l, State(map[], 0), calls)
    ensures var st := After(l, State(map[], 0), calls[..i]);
            && |st.buckets| <= l.maxBuckets
            && forall k :: k in st.buckets ==> 0.0 <= st.buckets[k].tokens <= Full(l)
  {
    hide CheckSpec, GoodVictim;
    EmptyIsValid(l, calls[0].now);
    SplitRun(l, State(map[], 0), calls, calls[0].now, i);
    RunKeepsValid(l, State(map[], 0), calls[..i], calls[0].now);
  }

  // ---- A limiter that never forgets ----

  function KeepAnswers(l: Limits, buckets: map<string, Bucket>, calls: seq<Call>): seq<bool>
    decreases |calls|
  {
    if calls == [] then []
    else
      var (after, allowed) := Take(l, buckets, calls[0].key, calls[0].now);
      [allowed] + KeepAnswers(l, after, calls[1..])
  }

  function KeysOf(calls: seq<Call>): set<string> {
    if calls == [] then {} else {calls[0].key} + KeysOf(calls[1..])
  }

  /** The limiter has the same buckets, except for some that would be full again anyway. */
  ghost predicate Covers(l: Limits, buckets: map<string, Bucket>, all: map<string, Bucket>, now: real) {
    && (forall k :: k in buckets ==> k in all && all[k] == buckets[k])
    && (forall k :: k in all && k !in buckets ==> TokensAt(l, all[k], now) == Full(l))
  }

  /** The condition under which a bucket may be dropped when it has been idle for the timeout. */
  predicate RefillsWhileIdle(l: Limits) {
    l.maxTokens as real <= l.refillRate * l.idleTimeout
  }

  predicate InBounds(l: Limits, all: map<string, Bucket>, now: real) {
    forall k :: k in all ==> WithinBounds(l, all[k], now)
  }

  lemma IdleIsFull(l: Limits, b: Bucket, now: real)
    requires Sane(l) && RefillsWhileIdle(l) && 0.0 <= b.tokens && l.idleTimeout <= Elapsed(now, b.lastRefill)
    ensures TokensAt(l, b, now) == Full(l)
  {
    RefillIs(l, l.idleTimeout);
    hide Elapsed, Refill;
    RefillIsMonotone(l, l.idleTimeout, Elapsed(now, b.lastRefill));
  }

  lemma SweepCovers(l: Limits, st: State, all: map<string, Bucket>, from: real, now: real)
    requires Sane(l) && RefillsWhileIdle(l) && from <= now && InBounds(l, all, from)
    requires Covers(l, st.buckets, all, from)
    ensures Covers(l, Swept(l, st, now), all, now)
  {
    var swept := Swept(l, st, now);
    forall k | k in all && k !in swept
      ensures TokensAt(l, all[k], now) == Full(l)
    {
      if k in st.buckets {
        IdleIsFull(l, all[k], now);
      } else {
        TokensGrow(l, all, k, from, now);
      }
    }
  }

  lemma CoverAgrees(l: Limits, buckets: map<string, Bucket>, all: map<string, Bucket>, key: string, now: real)
    requires Sane(l) && Covers(l, buckets, all, now) && InBounds(l, all, now)
    ensures var (after, allowed) := Take(l, buckets, key, now);
            var (afterAll, allowedAll) := Take(l, all, key, now);
            allowed == allowedAll && Covers(l, after, afterAll, now) && InBounds(l, afterAll, now)
  {
    hide TokensOf, TokensAt;
    SameTokens(l, buckets, all, key, now);
    TokensWithin(l, all, key, now);
  }

  lemma SameTokens(l: Limits, buckets: map<string, Bucket>, all: map<string, Bucket>, key: string, now: real)
    requires Covers(l, buckets, all, now)
    ensures TokensOf(l, buckets, key, now) == TokensOf(l, all, key, now)
  {
  }

  /** No call of the run finds the limiter full and without a bucket for its key, so nothing is evicted. */
  predicate CapNeverReached(l: Limits, st: State, calls: seq<Call>)
    decreases |calls|
  {
    calls != [] ==>
      && !MustEvict(l, Swept(l, st, calls[0].now), calls[0].key)
      && CapNeverReached(l, Next(l, st, calls[0]), calls[1..])
  }

  lemma {:induction false} SameAnswers(l: Limits, st: State, all: map<string, Bucket>, calls: seq<Call>, from: real)
    requires Sane(l) && RefillsWhileIdle(l) && Timely(calls, from) && CapNeverReached(l, st, calls)
    requires Covers(l, st.buckets, all, from) && InBounds(l, all, from)
    ensures Answers(l, st, calls) == KeepAnswers(l, all, calls)
    decreases |calls|
  {
    hide Covers, Swept, RefillsWhileIdle, Take, MustEvict;
    if calls != [] {
      var c := calls[0];
      SweepCovers(l, st, all, from, c.now);
      InBoundsLater(l, all, from, c.now);
      CoverAgrees(l, Swept(l, st, c.now), all, c.key, c.now);
      SameAnswers(l, Next(l, st, c), Take(l, all, c.key, c.now).0, calls[1..], c.now);
    }
  }

  lemma InBoundsLater(l: Limits, all: map<string, Bucket>, from: real, now: real)
    requires InBounds(l, all, from) && from <= now
    ensures InBounds(l, all, now)
  {
  }

  /** While no eviction happens, the limiter gives the answers of one that never forgets a bucket, provided
      a bucket refills completely within the idle timeout. */
  lemma SweepIsInvisible(l: Limits, calls: seq<Call>)
    requires Sane(l) && RefillsWhileIdle(l) && 0 < |calls|
    requires Timely(calls, calls[0].now) && CapNeverReached(l, State(map[], 0), calls)
    ensures Answers(l, State(map[], 0), calls) == KeepAnswers(l, map[], calls)
  {
    SameAnswers(l, State(map[], 0), map[], calls, calls[0].now);
  }

  /** No eviction happens when all keys of the run fit under the cap together; but a longer list of keys may
      also do, because the sweep makes room. */
  lemma {:induction false} FewKeysFit(l: Limits, st: State, calls: seq<Call>)
    requires |st.buckets.Keys + KeysOf(calls)| <= l.maxBuckets
    ensures CapNeverReached(l, st, calls)
    decreases |calls|
  {
    if calls != [] {
      var c, swept := calls[0], Swept(l, st, calls[0].now);
      var keys := st.buckets.Keys + KeysOf(calls);
      assert swept.Keys <= st.buckets.Keys;
      if c.key !in swept {
        SubsetSize(swept.Keys + {c.key}, keys);
        assert |swept.Keys + {c.key}| == |swept.Keys| + 1 && |swept| == |swept.Keys|;
      }
      assert Kept(l, st, c.key, c.now, c.victim) == swept;
      hide Swept, Take, MustEvict, CheckSpec;
      NextAddsKey(l, st, c);
      SubsetSize(Next(l, st, c).buckets.Keys + KeysOf(calls[1..]), keys);
      FewKeysFit(l, Next(l, st, c), calls[1..]);
    }
  }

  lemma NextAddsKey(l: Limits, st: State, c: Call)
    ensures Next(l, st, c).buckets.Keys <= st.buckets.Keys + {c.key}
  {
    hide TokensOf;
  }

  // ---- Keys do not affect each other ----

  /** A single bucket on its own, for a key that is called at the given times. */
  function LoneAnswers(l: Limits, bucket: map<string, Bucket>, key: string, times: seq<real>): seq<bool>
    decreases |times|
  {
    if times == [] then []
    else
      var (after, allowed) := Take(l, bucket, key, times[0]);
      [allowed] + LoneAnswers(l, after, key, times[1..])
  }

  function TimesOf(calls: seq<Call>, k: string): seq<real> {
    if calls == [] then []
    else (if calls[0].key == k then [calls[0].now] else []) + TimesOf(calls[1..], k)
  }

  /** The answers to the calls of one key. */
  function AnswersTo(calls: seq<Call>, answers: seq<bool>, k: string): seq<bool>
    requires |answers| == |calls|
  {
    if calls == [] then []
    else (if calls[0].key == k then [answers[0]] else []) + AnswersTo(calls[1..], answers[1..], k)
  }

  lemma {:induction false} KeepAnswersLength(l: Limits, buckets: map<string, Bucket>, calls: seq<Call>)
    ensures |KeepAnswers(l, buckets, calls)| == |calls|
    decreases |calls|
  {
    if calls != [] {
      KeepAnswersLength(l, Take(l, buckets, calls[0].key, calls[0].now).0, calls[1..]);
    }
  }

  /** Two bucket maps that look the same to one key. */
  predicate SameFor(a: map<string, Bucket>, b: map<string, Bucket>, k: string) {
    (k in a <==> k in b) && (k in a && k in b ==> a[k] == b[k])
  }

  lemma {:induction false} KeysAreSeparate(l: Limits, buckets: map<string, Bucket>, lone: map<string, Bucket>,
                                           calls: seq<Call>, k: string)
    requires SameFor(buckets, lone, k)
    ensures |KeepAnswers(l, buckets, calls)| == |calls|
    ensures AnswersTo(calls, KeepAnswers(l, buckets, calls), k) == LoneAnswers(l, lone, k, TimesOf(calls, k))
    decreases |calls|
  {
    KeepAnswersLength(l, buckets, calls);
    if calls != [] {
      var c, rest := calls[0], calls[1..];
      var (after, allowed) := Take(l, buckets, c.key, c.now);
      assert KeepAnswers(l, buckets, calls)[1..] == KeepAnswers(l, after, rest);
      if c.key == k {
        var loneAfter := Take(l, lone, k, c.now).0;
        KeysAreSeparate(l, after, loneAfter, rest, k);
        assert TimesOf(calls, k)[1..] == TimesOf(rest, k);
      } else {
        KeysAreSeparate(l, after, lone, rest, k);
        assert TimesOf(calls, k) == [] + TimesOf(rest, k) == TimesOf(rest, k);
      }
    }
  }

  /** Under the same conditions a key's answers depend on nothing but the times of its own calls. */
  lemma KeysAreIndependent(l: Limits, calls: seq<Call>, k: string)
    requires Sane(l) && RefillsWhileIdle(l) && 0 < |calls|
    requires Timely(calls, calls[0].now) && CapNeverReached(l, State(map[], 0), calls)
    ensures |Answers(l, State(map[], 0), calls)| == |calls|
    ensures AnswersTo(calls, Answers(l, State(map[], 0), calls), k) == LoneAnswers(l, map[], k, TimesOf(calls, k))
  {
    SweepIsInvisible(l, calls);
    KeysAreSeparate(l, map[], map[], calls, k);
  }

  // ---- When the sweep shows ----

  function Repeat(key: string, now: real, n: nat): (r: seq<Call>)
    ensures |r| == n
  {
    if n == 0 then [] else [Call(key, now, key)] + Repeat(key, now, n - 1)
  }

  function KeepAfter(l: Limits, buckets: map<string, Bucket>, calls: seq<Call>): map<string, Bucket>
    decreases |calls|
  {
    if calls == [] then buckets else KeepAfter(l, Take(l, buckets, calls[0].key, calls[0].now).0, calls[1..])
  }

  lemma {:induction false} AnswersJoin(l: Limits, st: State, a: seq<Call>, b: seq<Call>)
    ensures Answers(l, st, a + b) == Answers(l, st, a) + Answers(l, After(l, st, a), b)
    ensures After(l, st, a + b) == After(l, After(l, st, a), b)
    decreases |a|
  {
    hide CheckSpec;
    if a == [] {
      assert a + b == b;
    } else {
      assert (a + b)[1..] == a[1..] + b;
      AnswersJoin(l, Next(l, st, a[0]), a[1..], b);
    }
  }

  lemma {:induction false} KeepAnswersJoin(l: Limits, buckets: map<string, Bucket>, a: seq<Call>, b: seq<Call>)
    ensures KeepAnswers(l, buckets, a + b) == KeepAnswers(l, buckets, a) + KeepAnswers(l, KeepAfter(l, buckets, a), b)
    ensures KeepAfter(l, buckets, a + b) == KeepAfter(l, KeepAfter(l, buckets, a), b)
    decreases |a|
  {
    hide Take;
    if a == [] {
      assert a + b == b;
    } else {
      assert (a + b)[1..] == a[1..] + b;
      KeepAnswersJoin(l, Take(l, buckets, a[0].key, a[0].now).0, a[1..], b);
    }
  }

  lemma {:induction false} AnswersLength(l: Limits, st: State, calls: seq<Call>)
    ensures |Answers(l, st, calls)| == |calls|
    decreases |calls|
  {
    hide CheckSpec;
    if calls != [] {
      AnswersLength(l, Next(l, st, calls[0]), calls[1..]);
    }
  }

  const A: string := "a"

  /** Only a bucket of A, from time zero. */
  predicate OldA(st: State) {
    && st.buckets.Keys <= {A} && st.checksSinceSweep < SWEEP_INTERVAL
    && (A in st.buckets ==> st.buckets[A].lastRefill == 0.0)
  }

  lemma OneKeyFits(l: Limits, st: State, now: real)
    requires 1 <= l.maxBuckets && st.buckets.Keys <= {A}
    ensures Kept(l, st, A, now, A) == Swept(l, st, now)
  {
    var swept := Swept(l, st, now);
    if A !in swept {
      assert swept.Keys == {} && |swept| == |swept.Keys|;
    }
  }

  lemma {:induction false} CallsAtZero(l: Limits, st: State, n: nat)
    requires 1 <= l.maxBuckets && OldA(st)
    ensures var end := After(l, st, Repeat(A, 0.0, n));
            OldA(end) && end.checksSinceSweep == (st.checksSinceSweep + n) % SWEEP_INTERVAL
    decreases n
  {
    if n > 0 {
      OneKeyFits(l, st, 0.0);
      CallsAtZero(l, Next(l, st, Call(A, 0.0, A)), n - 1);
    }
  }

  /** The 256th call comes after the idle timeout: it sweeps its own key's bucket before it looks it up. */
  lemma SweepsItself(l: Limits, st: State, n: nat)
    requires Sane(l) && OldA(st) && st.checksSinceSweep == SWEEP_INTERVAL - 1
    ensures Answers(l, st, Repeat(A, l.idleTimeout, n)) ==
            Answers(l, State(map[], SWEEP_INTERVAL - 1), Repeat(A, l.idleTimeout, n))
  {
    if n > 0 {
      OneKeyFits(l, st, l.idleTimeout);
      assert Swept(l, st, l.idleTimeout) == map[] == Swept(l, State(map[], SWEEP_INTERVAL - 1), l.idleTimeout);
    }
  }

  /** A forgotten key is given a full bucket. */
  lemma {:induction false} ForgottenIsAllowed(l: Limits, st: State, now: real, used: nat, n: nat)
    requires 1 <= l.maxBuckets && st.buckets.Keys <= {A} && used + n <= l.maxTokens
    requires A in st.buckets ==> st.buckets[A].lastRefill == now && (l.maxTokens - used) as real <= st.buckets[A].tokens
    ensures false !in Answers(l, st, Repeat(A, now, n))
    decreases n
  {
    if n > 0 {
      ForgottenTakes(l, st, now, used);
      hide CheckSpec;
      ForgottenIsAllowed(l, Next(l, st, Call(A, now, A)), now, used + 1, n - 1);
    }
  }

  lemma ForgottenTakes(l: Limits, st: State, now: real, used: nat)
    requires 1 <= l.maxBuckets && st.buckets.Keys <= {A} && used < l.maxTokens
    requires A in st.buckets ==> st.buckets[A].lastRefill == now && (l.maxTokens - used) as real <= st.buckets[A].tokens
    ensures var (next, allowed) := CheckSpec(l, st, A, now, A);
            && allowed && next.buckets.Keys <= {A} && A in next.buckets && next.buckets[A].lastRefill == now
            && (l.maxTokens - used - 1) as real <= next.buckets[A].tokens
  {
    OneKeyFits(l, st, now);
    RefillAdds(l, 0.0, 0.0);
  }

  /** What is left of a full bucket after a number of calls at one moment. */
  function LeftOver(l: Limits, used: nat): real {
    if used < l.maxTokens then (l.maxTokens - used) as real else 0.0
  }

  lemma {:induction false} KeptRunsDry(l: Limits, buckets: map<string, Bucket>, used: nat, n: nat)
    requires A in buckets ==> buckets[A] == Bucket(LeftOver(l, used), 0.0)
    requires A !in buckets ==> used == 0
    ensures var end := KeepAfter(l, buckets, Repeat(A, 0.0, n));
            0 < n ==> A in end && end[A] == Bucket(LeftOver(l, used + n), 0.0)
    decreases n
  {
    if n > 0 {
      RefillAdds(l, 0.0, 0.0);
      var after := Take(l, buckets, A, 0.0).0;
      KeptRunsDry(l, after, used + 1, n - 1);
      if n == 1 {
        assert KeepAfter(l, after, []) == after;
      }
    }
  }

  lemma {:induction false} TooFewTokens(l: Limits, buckets: map<string, Bucket>, now: real, n: nat)
    requires A in buckets && 0.0 <= TokensAt(l, buckets[A], now) < n as real
    ensures false in KeepAnswers(l, buckets, Repeat(A, now, n))
    decreases n
  {
    RefillAdds(l, 0.0, 0.0);
    var (after, allowed) := Take(l, buckets, A, now);
    if allowed {
      TooFewTokens(l, after, now, n - 1);
    }
    var rest := KeepAnswers(l, after, Repeat(A, now, n - 1));
    assert KeepAnswers(l, buckets, Repeat(A, now, n)) == [allowed] + rest;
  }

  lemma {:induction false} RepeatIsTimely(key: string, now: real, n: nat, rest: seq<Call>, from: real)
    requires from <= now && Timely(rest, now)
    ensures Timely(Repeat(key, now, n) + rest, from)
    ensures KeysOf(Repeat(key, now, n) + rest) <= {key} + KeysOf(rest)
    decreases n
  {
    if n == 0 {
      assert Repeat(key, now, 0) + rest == rest;
    } else {
      RepeatIsTimely(key, now, n - 1, rest, now);
      assert (Repeat(key, now, n) + rest)[1..] == Repeat(key, now, n - 1) + rest;
    }
  }

  lemma {:induction false} CapJoin(l: Limits, st: State, a: seq<Call>, b: seq<Call>)
    requires CapNeverReached(l, st, a) && CapNeverReached(l, After(l, st, a), b)
    ensures CapNeverReached(l, st, a + b)
    decreases |a|
  {
    hide CheckSpec, MustEvict, Swept;
    if a == [] {
      assert a + b == b;
    } else {
      assert (a + b)[1..] == a[1..] + b;
      CapJoin(l, Next(l, st, a[0]), a[1..], b);
    }
  }

  lemma RoomAfterSweep(l: Limits, st: State, c: Call)
    requires Sane(l) && OldA(st) && st.checksSinceSweep == SWEEP_INTERVAL - 1 && c.now == l.idleTimeout
    ensures CapNeverReached(l, st, [c])
  {
    assert Swept(l, st, c.now) == map[];
    assert [c][1..] == [];
  }

  /** The sweep makes room: with space for one bucket only, two keys may take turns without an eviction. */
  lemma SweepMakesRoom(l: Limits)
    requires Sane(l) && l.maxBuckets == 1
    ensures var calls := Repeat(A, 0.0, SWEEP_INTERVAL - 1) + [Call("b", l.idleTimeout, "b")];
            CapNeverReached(l, State(map[], 0), calls) && l.maxBuckets < |KeysOf(calls)|
  {
    hide CapNeverReached, After;
    var start, first, c := State(map[], 0), Repeat(A, 0.0, SWEEP_INTERVAL - 1), Call("b", l.idleTimeout, "b");
    RepeatIsTimely(A, 0.0, SWEEP_INTERVAL - 1, [], 0.0);
    assert first + [] == first;
    SubsetSize(start.buckets.Keys + KeysOf(first), {A});
    FewKeysFit(l, start, first);
    CallsAtZero(l, start, SWEEP_INTERVAL - 1);
    RoomAfterSweep(l, After(l, start, first), c);
    CapJoin(l, start, first, [c]);
    KeysOfJoin(first, [c]);
    assert first[0] == Call(A, 0.0, A);
    SubsetSize({A, "b"}, KeysOf(first + [c]));
  }

  lemma {:induction false} KeysOfJoin(a: seq<Call>, b: seq<Call>)
    ensures KeysOf(a + b) == KeysOf(a) + KeysOf(b)
  {
    if a == [] {
      assert a + b == b;
    } else {
      assert (a + b)[1..] == a[1..] + b;
      KeysOfJoin(a[1..], b);
    }
  }

  /** A number of calls that empties the bucket and leaves the next one to sweep. */
  function CallsBeforeSweep(l: Limits): nat {
    l.maxTokens * SWEEP_INTERVAL + SWEEP_INTERVAL - 1
  }

  /** Use all tokens at time zero, let the timeout pass just before a sweep is due, and ask again. */
  function Revealing(l: Limits): seq<Call> {
    Repeat(A, 0.0, CallsBeforeSweep(l)) + Repeat(A, l.idleTimeout, l.maxTokens)
  }

  lemma RevealingRun(l: Limits)
    requires Sane(l)
    ensures var calls := Revealing(l);
            0 < |calls| && Timely(calls, calls[0].now) && CapNeverReached(l, State(map[], 0), calls)
  {
    hide CapNeverReached;
    var last := Repeat(A, l.idleTimeout, l.maxTokens);
    RepeatIsTimely(A, l.idleTimeout, l.maxTokens, [], l.idleTimeout);
    assert last + [] == last;
    RepeatIsTimely(A, 0.0, CallsBeforeSweep(l), last, 0.0);
    SubsetSize(KeysOf(Revealing(l)), {A});
    assert State(map[], 0).buckets.Keys + KeysOf(Revealing(l)) == KeysOf(Revealing(l));
    FewKeysFit(l, State(map[], 0), Revealing(l));
    assert Revealing(l)[0] == Repeat(A, 0.0, CallsBeforeSweep(l))[0] == Call(A, 0.0, A);
  }

  lemma HasTokens(l: Limits)
    requires Sane(l) && !RefillsWhileIdle(l)
    ensures 1 <= l.maxTokens && 0.0 <= Refill(l, l.idleTimeout) < Full(l)
  {
    RefillIs(l, l.idleTimeout);
    RefillIsMonotone(l, 0.0, l.idleTimeout);
  }

  lemma SweptEndsAllowed(l: Limits)
    requires Sane(l)
    ensures var answers, n := Answers(l, State(map[], 0), Revealing(l)), CallsBeforeSweep(l);
            n <= |answers| && false !in answers[n..]
  {
    hide CheckSpec, Answers, After, Repeat;
    var start := State(map[], 0);
    var first, second := Repeat(A, 0.0, CallsBeforeSweep(l)), Repeat(A, l.idleTimeout, l.maxTokens);
    AnswersJoin(l, start, first, second);
    CallsAtZero(l, start, CallsBeforeSweep(l));
    SweepsItself(l, After(l, start, first), l.maxTokens);
    ForgottenIsAllowed(l, State(map[], SWEEP_INTERVAL - 1), l.idleTimeout, 0, l.maxTokens);
    AnswersLength(l, start, first);
    var answers := Answers(l, start, Revealing(l));
    assert answers[CallsBeforeSweep(l)..] == Answers(l, After(l, start, first), second);
  }

  lemma KeptEndsDenied(l: Limits)
    requires Sane(l) && !RefillsWhileIdle(l)
    ensures var answers, n := KeepAnswers(l, map[], Revealing(l)), CallsBeforeSweep(l);
            n <= |answers| && false in answers[n..]
  {
    hide KeepAnswers, KeepAfter, Repeat, Take;
    var first, second := Repeat(A, 0.0, CallsBeforeSweep(l)), Repeat(A, l.idleTimeout, l.maxTokens);
    HasTokens(l);
    KeepAnswersJoin(l, map[], first, second);
    KeptRunsDry(l, map[], 0, CallsBeforeSweep(l));
    var end := KeepAfter(l, map[], first);
    assert end[A] == Bucket(0.0, 0.0);
    TooFewTokens(l, end, l.idleTimeout, l.maxTokens);
    KeepAnswersLength(l, map[], first);
    var answers := KeepAnswers(l, map[], Revealing(l));
    assert answers[CallsBeforeSweep(l)..] == KeepAnswers(l, end, second);
  }

  ghost predicate Unnoticed(l: Limits, calls: seq<Call>) {
    0 < |calls| && Timely(calls, calls[0].now) && CapNeverReached(l, State(map[], 0), calls)
    ==> Answers(l, State(map[], 0), calls) == KeepAnswers(l, map[], calls)
  }

  /** The sweep goes unnoticed in every run without an eviction exactly when a bucket refills completely
      within the idle timeout. */
  lemma SweepUnnoticedExactly(l: Limits)
    requires Sane(l)
    ensures (forall calls: seq<Call> :: Unnoticed(l, calls)) <==> RefillsWhileIdle(l)
  {
    hide Answers, KeepAnswers, Timely, CapNeverReached, RefillsWhileIdle;
    if RefillsWhileIdle(l) {
      forall calls: seq<Call>
        ensures Unnoticed(l, calls)
      {
        if 0 < |calls| && Timely(calls, calls[0].now) && CapNeverReached(l, State(map[], 0), calls) {
          SweepIsInvisible(l, calls);
        }
      }
    } else {
      RevealingRun(l);
      SweptEndsAllowed(l);
      KeptEndsDenied(l);
      assert Answers(l, State(map[], 0), Revealing(l)) != KeepAnswers(l, map[], Revealing(l));
      assert !Unnoticed(l, Revealing(l));
    }
  }
}
