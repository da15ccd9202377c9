/**
  The token-bucket rate limiter of `middleware.rs`: a bucket per key, refilled lazily, with an idle sweep
  every 256 calls and eviction at a cap. Times and tokens are real numbers, the clock is an input, and
  which bucket an eviction hits is an arbitrary choice.
 */
module RateLimiter {

  const SWEEP_INTERVAL: nat := 256

  datatype Bucket = Bucket(tokens: real, lastRefill: real)

  /** The cap is at least 1: `with_limits` raises it. */
  datatype Limits = Limits(maxTokens: nat, refillRate: real, idleTimeout: real, maxBuckets: nat)

  datatype State = State(buckets: map<string, Bucket>, checksSinceSweep: nat)

  predicate Sane(l: Limits) {
    0.0 <= l.refillRate && 0.0 <= l.idleTimeout && 1 <= l.maxBuckets
  }

  // ---- One check ----

  /** `duration_since`: never negative. */
  function Elapsed(now: real, since: real): real {
    if now < since then 0.0 else now - since
  }

  function Full(l: Limits): real {
    l.maxTokens as real
  }

  /** What time refills. */
  function Refill(l: Limits, duration: real): real {
    duration * l.refillRate
  }

  /** The tokens of a bucket at a later time. */
  function TokensAt(l: Limits, b: Bucket, now: real): real {
    var t := b.tokens + Refill(l, Elapsed(now, b.lastRefill));
    if t < Full(l) then t else Full(l)
  }

  /** The tokens a key has: a key without a bucket would get a full one. */
  function TokensOf(l: Limits, buckets: map<string, Bucket>, key: string, now: real): real {
    if key in buckets then TokensAt(l, buckets[key], now) else Full(l)
  }

  /** Refill and take a token if there is one. */
  function Take(l: Limits, buckets: map<string, Bucket>, key: string, now: real): (map<string, Bucket>, bool) {
    var tokens := TokensOf(l, buckets, key, now);
    var allowed := tokens >= 1.0;
    (buckets[key := Bucket(if allowed then tokens - 1.0 else tokens, now)], allowed)
  }

  predicate SweepDue(st: State) {
    st.checksSinceSweep + 1 >= SWEEP_INTERVAL
  }

  function Swept(l: Limits, st: State, now: real): map<string, Bucket> {
    if SweepDue(st) then
      map k | k in st.buckets && Elapsed(now, st.buckets[k].lastRefill) < l.idleTimeout :: st.buckets[k]
    else st.buckets
  }

  predicate MustEvict(l: Limits, buckets: map<string, Bucket>, key: string) {
    key !in buckets && |buckets| >= l.maxBuckets
  }

  /** The buckets that are left when the key's own is looked up. */
  function Kept(l: Limits, st: State, key: string, now: real, victim: string): map<string, Bucket> {
    var swept := Swept(l, st, now);
    if MustEvict(l, swept, key) then swept - {victim} else swept
  }

  function CheckSpec(l: Limits, st: State, key: string, now: real, victim: string): (State, bool) {
    var (buckets, allowed) := Take(l, Kept(l, st, key, now, victim), key, now);
    (State(buckets, if SweepDue(st) then 0 else st.checksSinceSweep + 1), allowed)
  }

  class RateLimiter {
    const limits: Limits
    var buckets: map<string, Bucket>
    var checksSinceSweep: nat

    ghost function CurrentState(): State
      reads this
    {
      State(buckets, checksSinceSweep)
    }

    constructor WithLimits(maxTokens: nat, refillRate: real, idleTimeout: real, maxBuckets: nat)
      ensures limits == Limits(maxTokens, refillRate, idleTimeout, if maxBuckets < 1 then 1 else maxBuckets)
      ensures CurrentState() == State(map[], 0)
    {
      limits := Limits(maxTokens, refillRate, idleTimeout, if maxBuckets < 1 then 1 else maxBuckets);
      buckets := map[];
      checksSinceSweep := 0;
    }

    method Check(key: string, now: real) returns (allowed: bool)
      requires 1 <= limits.maxBuckets
      modifies this
      ensures exists victim ::
                && (MustEvict(limits, Swept(limits, old(CurrentState()), now), key)
                    ==> victim in Swept(limits, old(CurrentState()), now))
                && (CurrentState(), allowed) == CheckSpec(limits, old(CurrentState()), key, now, victim)
    {
      hide Take;
      ghost var victim := key;
      checksSinceSweep := checksSinceSweep + 1;
      if checksSinceSweep >= SWEEP_INTERVAL {
        checksSinceSweep := 0;
        buckets := map k | k in buckets && Elapsed(now, buckets[k].lastRefill) < limits.idleTimeout :: buckets[k];
      }
      ghost var swept := buckets;
      if key !in buckets && |buckets| >= limits.maxBuckets {
        assert buckets.Keys != {};
        var evict :| evict in buckets;
        victim := evict;
        buckets := buckets - {evict};
      }
      assert buckets == Kept(limits, old(CurrentState()), key, now, victim);
      allowed := TakeToken(key, now);
    }

    /** The end of `check`: look the bucket up or make a full one, refill it, take a token. */
    method TakeToken(key: string, now: real) returns (allowed: bool)
      modifies this`buckets
      ensures (buckets, allowed) == Take(limits, old(buckets), key, now)
    {
      var bucket := if key in buckets then buckets[key] else Bucket(limits.maxTokens as real, now);
      var refilled := bucket.tokens + Elapsed(now, bucket.lastRefill) * limits.refillRate;
      var tokens := if refilled < limits.maxTokens as real then refilled else limits.maxTokens as real;
      assert Refill(limits, 0.0) == 0.0;
      assert tokens == TokensOf(limits, buckets, key, now);
      allowed := tokens >= 1.0;
      if allowed {
        tokens := tokens - 1.0;
      }
      buckets := buckets[key := Bucket(tokens, now)];
    }
  }

  // ---- What every check keeps ----

  predicate WithinBounds(l: Limits, b: Bucket, now: real) {
    0.0 <= b.tokens <= Full(l) && b.lastRefill <= now
  }

  /** Tokens stay between zero and the maximum, no bucket is from the future, and there are never more
      buckets than the cap. */
  predicate Valid(l: Limits, st: State, now: real) {
    && |st.buckets| <= l.maxBuckets
    && st.checksSinceSweep < SWEEP_INTERVAL
    && forall k :: k in st.buckets ==> WithinBounds(l, st.buckets[k], now)
  }

  /** A call: the key, the time, and the bucket an eviction would hit. */
  datatype Call = Call(key: string, now: real, victim: string)

  predicate GoodVictim(l: Limits, st: State, c: Call) {
    MustEvict(l, Swept(l, st, c.now), c.key) ==> c.victim in Swept(l, st, c.now)
  }

  lemma RefillIsMonotone(l: Limits, d: real, e: real)
    requires 0.0 <= l.refillRate && d <= e
    ensures Refill(l, d) <= Refill(l, e) && Refill(l, 0.0) == 0.0
  {
  }

  lemma RefillAdds(l: Limits, d: real, e: real)
    ensures Refill(l, d + e) == Refill(l, d) + Refill(l, e) && Refill(l, 0.0) == 0.0
  {
  }

  lemma SmallerMap(a: map<string, Bucket>, b: map<string, Bucket>)
    requires a.Keys <= b.Keys
    ensures |a| <= |b|
  {
    SubsetSize(a.Keys, b.Keys);
    assert |a| == |a.Keys| && |b| == |b.Keys|;
  }

  lemma {:induction false} SubsetSize(a: set<string>, b: set<string>)
    requires a <= b
    ensures |a| <= |b|
  {
    if a != {} {
      var x :| x in a;
      SubsetSize(a - {x}, b - {x});
    }
  }

  lemma KeptIsSmall(l: Limits, st: State, c: Call)
    requires |st.buckets| <= l.maxBuckets && GoodVictim(l, st, c)
    ensures var kept := Kept(l, st, c.key, c.now, c.victim);
            |kept[c.key := Bucket(0.0, 0.0)]| <= l.maxBuckets || l.maxBuckets == 0
    ensures forall k :: k in Kept(l, st, c.key, c.now, c.victim) ==>
              k in st.buckets && st.buckets[k] == Kept(l, st, c.key, c.now, c.victim)[k]
  {
    var swept, kept := Swept(l, st, c.now), Kept(l, st, c.key, c.now, c.victim);
    SmallerMap(swept, st.buckets);
    assert |swept| == |swept.Keys| && |kept| == |kept.Keys|;
    if MustEvict(l, swept, c.key) {
      assert kept.Keys == swept.Keys - {c.victim};
    }
    var after := kept[c.key := Bucket(0.0, 0.0)];
    assert after.Keys == kept.Keys + {c.key};
    assert |after| == |after.Keys|;
  }

  lemma TokensWithin(l: Limits, buckets: map<string, Bucket>, key: string, now: real)
    requires Sane(l) && forall k :: k in buckets ==> WithinBounds(l, buckets[k], now)
    ensures 0.0 <= TokensOf(l, buckets, key, now) <= Full(l)
  {
    if key in buckets {
      RefillIsMonotone(l, 0.0, Elapsed(now, buckets[key].lastRefill));
    }
  }

  lemma CheckKeepsValid(l: Limits, st: State, now: real, c: Call)
    requires Sane(l) && Valid(l, st, now) && now <= c.now && GoodVictim(l, st, c)
    ensures Valid(l, CheckSpec(l, st, c.key, c.now, c.victim).0, c.now)
  {
    hide TokensOf, Swept;
    var kept := Kept(l, st, c.key, c.now, c.victim);
    KeptIsSmall(l, st, c);
    hide Kept;
    TokensWithin(l, kept, c.key, c.now);
    var after := Take(l, kept, c.key, c.now).0;
    assert after.Keys == kept[c.key := Bucket(0.0, 0.0)].Keys;
    assert |after| == |after.Keys| && |kept[c.key := Bucket(0.0, 0.0)]| == |kept[c.key := Bucket(0.0, 0.0)].Keys|;
  }
}
