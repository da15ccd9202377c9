/**
  Which calls the rate limiter lets through, exactly: what one call and one wait do to a bucket, when a bucket is
  forgotten, and which streams of calls are never refused.
 */
module RateLimiterConformance {
  import opened RateLimiter
  import opened RateLimiterRuns

  // ---- One call ----

  function Lesser(x: real, y: real): real {
    if x < y then x else y
  }

  /** What a bucket holds at another time: what was left in it and what the rate has brought since, up to the
      maximum. An earlier time brings nothing. */
  function Held(l: Limits, b: Bucket, now: real): real {
    if b.lastRefill <= now then Lesser(l.maxTokens as real, b.tokens + l.refillRate * (now - b.lastRefill))
    else Lesser(l.maxTokens as real, b.tokens)
  }

  /** A call finds what its key had left and what the rate has refilled since, but no more than the maximum; a key
      without a bucket finds the maximum. It is let through if that is at least one token, and then costs one. The
      other keys keep their buckets as they are, unless these are dropped. */
  lemma CallExactly(l: Limits, st: State, c: Call)
    ensures var kept := Kept(l, st, c.key, c.now, c.victim);
            var b := if c.key in kept then kept[c.key] else Bucket(l.maxTokens as real, c.now);
            var had := Held(l, b, c.now);
            var (next, allowed) := CheckSpec(l, st, c.key, c.now, c.victim);
            && (allowed <==> 1.0 <= had)
            && next.buckets == kept[c.key := Bucket(if allowed then had - 1.0 else had, c.now)]
            && forall k :: k in kept ==> k in st.buckets && kept[k] == st.buckets[k]
  {
    var kept := Kept(l, st, c.key, c.now, c.victim);
    var b := if c.key in kept then kept[c.key] else Bucket(l.maxTokens as real, c.now);
    KeptIsOld(l, st, c);
    hide Kept, Held;
    CallGives(l, st, c);
    hide CheckSpec, TokensAt;
    HasTokensAt(l, b, c.now);
  }

  lemma CallGives(l: Limits, st: State, c: Call)
    ensures var kept := Kept(l, st, c.key, c.now, c.victim);
            var had := TokensOf(l, kept, c.key, c.now);
            var (next, allowed) := CheckSpec(l, st, c.key, c.now, c.victim);
            && (allowed <==> 1.0 <= had)
            && next.buckets == kept[c.key := Bucket(if allowed then had - 1.0 else had, c.now)]
            && (c.key !in kept ==> had == TokensAt(l, Bucket(l.maxTokens as real, c.now), c.now))
  {
    hide Kept, TokensAt;
    JustRefilled(l, l.maxTokens as real, c.now);
  }

  lemma KeptIsOld(l: Limits, st: State, c: Call)
    ensures var kept := Kept(l, st, c.key, c.now, c.victim);
            forall k :: k in kept ==> k in st.buckets && kept[k] == st.buckets[k]
  {
  }

  lemma HasTokensAt(l: Limits, b: Bucket, now: real)
    ensures TokensAt(l, b, now) == Held(l, b, now)
  {
    hide Refill;
    RefillAdds(l, 0.0, 0.0);
    if b.lastRefill <= now {
      var d := now - b.lastRefill;
      assert Elapsed(now, b.lastRefill) == d;
      RefillIs(l, d);
      assert TokensAt(l, b, now) == Lesser(l.maxTokens as real, b.tokens + Refill(l, d));
    } else {
      assert Elapsed(now, b.lastRefill) == 0.0;
    }
    hide TokensAt;
  }

  // ---- When a bucket is dropped ----

  lemma {:induction false} CallsAreCounted(l: Limits, st: State, calls: seq<Call>)
    requires st.checksSinceSweep < 256
    ensures After(l, st, calls).checksSinceSweep == (st.checksSinceSweep + |calls|) % 256
    decreases |calls|
  {
    hide Take, Kept;
    if calls != [] {
      CallsAreCounted(l, Next(l, st, calls[0]), calls[1..]);
    }
  }

  /** The keys whose buckets a sweep leaves: all of them, unless it is due. */
  function Left(l: Limits, st: State, now: real, due: bool): set<string> {
    set k | k in st.buckets && (due ==> now - st.buckets[k].lastRefill < l.idleTimeout)
  }

  lemma LeftIsSwept(l: Limits, st: State, now: real)
    requires Valid(l, st, now)
    ensures Left(l, st, now, SweepDue(st)) == Swept(l, st, now).Keys
  {
    forall k | k in st.buckets
      ensures Elapsed(now, st.buckets[k].lastRefill) == now - st.buckets[k].lastRefill
    {
      assert WithinBounds(l, st.buckets[k], now);
    }
  }

  lemma KeptIs(l: Limits, st: State, c: Call)
    ensures var swept := Swept(l, st, c.now).Keys;
            Kept(l, st, c.key, c.now, c.victim).Keys ==
            if c.key !in swept && l.maxBuckets <= |swept| then swept - {c.victim} else swept
  {
    hide Swept;
    assert |Swept(l, st, c.now)| == |Swept(l, st, c.now).Keys|;
  }

  /** A call after `|calls|` others drops a bucket exactly when its number is a multiple of 256 and the
      bucket has been idle for the timeout, or when the caller's key has no bucket, the cap is reached by those that
      are left, and the choice falls on it. */
  lemma DropsExactly(l: Limits, calls: seq<Call>, c: Call, k: string)
    requires Valid(l, After(l, State(map[], 0), calls), c.now) && k in After(l, State(map[], 0), calls).buckets
    ensures var st := After(l, State(map[], 0), calls);
            var left := Left(l, st, c.now, (|calls| + 1) % 256 == 0);
            k !in Kept(l, st, c.key, c.now, c.victim)
            <==> k !in left || (k == c.victim && c.key !in left && l.maxBuckets <= |left|)
  {
    hide After, Left, Swept, Kept, SweepDue, Valid;
    var st := After(l, State(map[], 0), calls);
    DueExactly(l, calls);
    LeftIsSwept(l, st, c.now);
    KeptIs(l, st, c);
  }

  lemma DueExactly(l: Limits, calls: seq<Call>)
    ensures SweepDue(After(l, State(map[], 0), calls)) <==> (|calls| + 1) % 256 == 0
  {
    CallsAreCounted(l, State(map[], 0), calls);
    hide After;
  }

  // ---- A wait ----

  /** A call that finds `had` tokens is let through if that is at least one, and then costs one. */
  predicate Gives(answer: (State, bool), c: Call, had: real) {
    && (answer.1 <==> 1.0 <= had)
    && c.key in answer.0.buckets
    && answer.0.buckets[c.key] == Bucket(if answer.1 then had - 1.0 else had, c.now)
  }

  lemma {:induction false} WaitGives(l: Limits, st: State, calls: seq<Call>, c: Call)
    requires c.key in st.buckets && DropsOf(l, st, calls + [c], c.key) == 0
    requires forall i :: 0 <= i < |calls| ==> calls[i].key != c.key
    ensures Gives(CheckSpec(l, After(l, st, calls), c.key, c.now, c.victim), c, TokensAt(l, st.buckets[c.key], c.now))
    decreases |calls|
  {
    hide Kept, Refill, CheckSpec;
    var run := calls + [c];
    if calls == [] {
      assert run == [c];
      KeptIsOld(l, st, c);
      CallGives(l, st, c);
      var kept := Kept(l, st, c.key, c.now, c.victim);
      assert After(l, st, calls) == st && c.key in kept;
    } else {
      assert run[0] == calls[0] && run[1..] == calls[1..] + [c];
      OtherKeyStays(l, st, calls[0], c.key);
      var next := Next(l, st, calls[0]);
      WaitGives(l, next, calls[1..], c);
      assert After(l, st, calls) == After(l, next, calls[1..]);
      assert next.buckets[c.key] == st.buckets[c.key];
    }
  }

  /** A key left alone for a time, and not forgotten, has what it had and what the rate refills in that time, up to
      the maximum; its next call is let through exactly when that is at least one token. */
  lemma WaitExactly(l: Limits, st: State, calls: seq<Call>, c: Call)
    requires c.key in st.buckets
    requires DropsOf(l, st, calls + [c], c.key) == 0
    requires forall i :: 0 <= i < |calls| ==> calls[i].key != c.key
    ensures var had := Held(l, st.buckets[c.key], c.now);
            Gives(CheckSpec(l, After(l, st, calls), c.key, c.now, c.victim), c, had)
  {
    hide CheckSpec, After, DropsOf, TokensAt, Held;
    WaitGives(l, st, calls, c);
    HasTokensAt(l, st.buckets[c.key], c.now);
  }

  lemma OtherKeyStays(l: Limits, st: State, c: Call, k: string)
    requires k in Kept(l, st, c.key, c.now, c.victim) && k != c.key
    ensures k in Next(l, st, c).buckets && k in st.buckets && Next(l, st, c).buckets[k] == st.buckets[k]
  {
    KeptIsOld(l, st, c);
    hide Kept;
  }

  // ---- Streams that are never refused ----

  /** The calls at these times fit into `x` tokens at time `t`, refilled at the rate without a maximum. */
  predicate Fits(l: Limits, x: real, t: real, times: seq<real>) {
    forall j :: 0 <= j < |times| ==> (j + 1) as real <= x + Refill(l, times[j] - t)
  }

  /** Every window of calls keeps to the maximum and the rate. */
  predicate Conforms(l: Limits, times: seq<real>) {
    forall i, j :: 0 <= i <= j < |times| ==>
      (j - i + 1) as real <= l.maxTokens as real + l.refillRate * (times[j] - times[i])
  }

  predicate Ascending(times: seq<real>, from: real) {
    times != [] ==> from <= times[0] && Ascending(times[1..], times[0])
  }

  lemma FitsCons(l: Limits, x: real, t: real, times: seq<real>)
    requires times != []
    ensures Fits(l, x, t, times) <==>
            1.0 <= x + Refill(l, times[0] - t) && Fits(l, x + Refill(l, times[0] - t) - 1.0, times[0], times[1..])
  {
    hide Refill;
    var rest, y := times[1..], x + Refill(l, times[0] - t) - 1.0;
    forall j | 0 <= j < |rest|
      ensures (j + 1) as real <= y + Refill(l, rest[j] - times[0])
              <==> (j + 2) as real <= x + Refill(l, times[j + 1] - t)
    {
      RefillAdds(l, times[0] - t, times[j + 1] - times[0]);
    }
    if 1.0 <= x + Refill(l, times[0] - t) && Fits(l, y, times[0], rest) {
      forall j | 0 <= j < |times|
        ensures (j + 1) as real <= x + Refill(l, times[j] - t)
      {
        assert 0 < j ==> times[j] == rest[j - 1];
      }
    }
    if Fits(l, x, t, times) {
      assert 1.0 <= x + Refill(l, times[0] - t);
      forall j | 0 <= j < |rest|
        ensures (j + 1) as real <= y + Refill(l, rest[j] - times[0])
      {
        assert (j + 2) as real <= x + Refill(l, times[j + 1] - t);
      }
    }
  }

  lemma FitsLesser(l: Limits, x: real, y: real, t: real, times: seq<real>)
    ensures Fits(l, Lesser(x, y) - 1.0, t, times) <==> Fits(l, x - 1.0, t, times) && Fits(l, y - 1.0, t, times)
  {
    hide Refill;
  }

  /** The same with the limiter's own refill. */
  predicate ConformsByRefill(l: Limits, times: seq<real>) {
    forall i, j :: 0 <= i <= j < |times| ==> (j - i + 1) as real <= l.maxTokens as real + Refill(l, times[j] - times[i])
  }

  lemma WindowIs(l: Limits, times: seq<real>, i: nat, j: nat)
    requires i <= j < |times|
    ensures (j - i + 1) as real <= l.maxTokens as real + Refill(l, times[j] - times[i])
            <==> (j - i + 1) as real <= l.maxTokens as real + l.refillRate * (times[j] - times[i])
  {
  }

  lemma ConformsIs(l: Limits, times: seq<real>)
    ensures Conforms(l, times) <==> ConformsByRefill(l, times)
  {
    hide Refill, Conforms, ConformsByRefill;
    ConformsOneWay(l, times);
    ConformsOtherWay(l, times);
  }

  lemma ConformsOneWay(l: Limits, times: seq<real>)
    ensures Conforms(l, times) ==> ConformsByRefill(l, times)
  {
    hide Refill;
    if Conforms(l, times) {
      forall i, j | 0 <= i <= j < |times|
        ensures (j - i + 1) as real <= l.maxTokens as real + Refill(l, times[j] - times[i])
      {
        WindowIs(l, times, i, j);
      }
    }
  }

  lemma ConformsOtherWay(l: Limits, times: seq<real>)
    ensures ConformsByRefill(l, times) ==> Conforms(l, times)
  {
    hide Refill;
    if ConformsByRefill(l, times) {
      forall i, j | 0 <= i <= j < |times|
        ensures (j - i + 1) as real <= l.maxTokens as real + l.refillRate * (times[j] - times[i])
      {
        WindowIs(l, times, i, j);
      }
    }
  }

  lemma ConformsCons(l: Limits, times: seq<real>)
    requires times != []
    ensures ConformsByRefill(l, times)
            <==> Fits(l, l.maxTokens as real, times[0], times) && ConformsByRefill(l, times[1..])
  {
    hide Refill;
    var rest := times[1..];
    if ConformsByRefill(l, times) {
      forall j | 0 <= j < |times|
        ensures (j + 1) as real <= l.maxTokens as real + Refill(l, times[j] - times[0])
      {
        assert (j - 0 + 1) as real <= l.maxTokens as real + Refill(l, times[j] - times[0]);
      }
      forall i, j | 0 <= i <= j < |rest|
        ensures (j - i + 1) as real <= l.maxTokens as real + Refill(l, rest[j] - rest[i])
      {
        assert rest[j] == times[j + 1] && rest[i] == times[i + 1];
      }
    }
    if Fits(l, l.maxTokens as real, times[0], times) && ConformsByRefill(l, rest) {
      forall i, j | 0 <= i <= j < |times|
        ensures (j - i + 1) as real <= l.maxTokens as real + Refill(l, times[j] - times[i])
      {
        if 0 < i {
          assert rest[j - 1] == times[j] && rest[i - 1] == times[i];
        }
      }
    }
  }

  /** From `x` tokens at time `t` on. */
  lemma {:induction false} LoneExactly(l: Limits, x: real, t: real, key: string, times: seq<real>)
    requires x <= l.maxTokens as real && Ascending(times, t)
    ensures false !in LoneAnswers(l, map[key := Bucket(x, t)], key, times)
            <==> Fits(l, x, t, times) && ConformsByRefill(l, times)
    decreases |times|
  {
    if times != [] {
      var now, rest, max := times[0], times[1..], l.maxTokens as real;
      var lone := map[key := Bucket(x, t)];
      var (after, allowed) := Take(l, lone, key, now);
      assert LoneAnswers(l, lone, key, times) == [allowed] + LoneAnswers(l, after, key, rest);
      var had := Lesser(max, x + Refill(l, now - t));
      assert TokensOf(l, lone, key, now) == had;
      var left := if allowed then had - 1.0 else had;
      assert after == map[key := Bucket(left, now)];
      hide LoneAnswers, Take, TokensOf, TokensAt, Refill, Fits, ConformsByRefill;
      LoneExactly(l, left, now, key, rest);
      FitsCons(l, x, t, times);
      ConformsCons(l, times);
      FitsCons(l, max, now, times);
      RefillAdds(l, 0.0, 0.0);
      FitsLesser(l, max, x + Refill(l, now - t), now, rest);
    }
  }

  lemma LoneFromFull(l: Limits, key: string, times: seq<real>)
    requires times != []
    ensures LoneAnswers(l, map[], key, times) ==
            LoneAnswers(l, map[key := Bucket(l.maxTokens as real, times[0])], key, times)
  {
    var full := map[key := Bucket(l.maxTokens as real, times[0])];
    JustRefilled(l, l.maxTokens as real, times[0]);
    hide TokensAt;
    assert Take(l, map[], key, times[0]).0 == Take(l, full, key, times[0]).0;
  }

  lemma {:induction false} TimesAscend(calls: seq<Call>, k: string, from: real)
    requires Timely(calls, from)
    ensures Ascending(TimesOf(calls, k), from)
    decreases |calls|
  {
    if calls != [] {
      TimesAscend(calls[1..], k, calls[0].now);
      var times := TimesOf(calls[1..], k);
      if calls[0].key == k {
        assert TimesOf(calls, k)[1..] == times;
      } else {
        assert TimesOf(calls, k) == times;
      }
    }
  }

  /** As long as a key's bucket is not dropped, its answers are those of a bucket on its own. */
  lemma {:induction false} UndroppedIsAlone(l: Limits, st: State, lone: map<string, Bucket>, calls: seq<Call>,
                                            k: string)
    requires SameFor(st.buckets, lone, k) && DropsOf(l, st, calls, k) == 0
    ensures |Answers(l, st, calls)| == |calls|
    ensures AnswersTo(calls, Answers(l, st, calls), k) == LoneAnswers(l, lone, k, TimesOf(calls, k))
    decreases |calls|
  {
    hide TokensAt;
    AnswersLength(l, st, calls);
    if calls != [] {
      var c, rest, next := calls[0], calls[1..], Next(l, st, calls[0]);
      assert Answers(l, st, calls)[1..] == Answers(l, next, rest);
      KeptIsOld(l, st, c);
      hide Kept;
      assert SameFor(Kept(l, st, c.key, c.now, c.victim), lone, k);
      if c.key == k {
        UndroppedIsAlone(l, next, Take(l, lone, k, c.now).0, rest, k);
        assert TimesOf(calls, k)[1..] == TimesOf(rest, k);
      } else {
        UndroppedIsAlone(l, next, lone, rest, k);
        assert TimesOf(calls, k) == TimesOf(rest, k);
      }
    }
  }

  /** In a run in which a key's bucket is not dropped, none of its calls is refused exactly when in every stretch of
      them the number of calls is at most max_tokens + refill_rate * (length of the stretch). */
  lemma NeverRefusedExactly(l: Limits, calls: seq<Call>, k: string)
    requires calls != [] && Timely(calls, calls[0].now) && DropsOf(l, State(map[], 0), calls, k) == 0
    ensures |Answers(l, State(map[], 0), calls)| == |calls|
    ensures var times := TimesOf(calls, k);
            false !in AnswersTo(calls, Answers(l, State(map[], 0), calls), k)
            <==> Conforms(l, times)
  {
    hide Answers, DropsOf, Fits, LoneAnswers, AnswersTo, Conforms, ConformsByRefill;
    var times, max := TimesOf(calls, k), l.maxTokens as real;
    UndroppedIsAlone(l, State(map[], 0), map[], calls, k);
    TimesAscend(calls, k, calls[0].now);
    if times == [] {
      NoAnswers(l, k);
    } else {
      LoneFromFull(l, k, times);
      LoneExactly(l, max, times[0], k, times);
      ConformsIs(l, times);
      ConformsCons(l, times);
    }
  }

  lemma NoAnswers(l: Limits, k: string)
    ensures LoneAnswers(l, map[], k, []) == [] && Conforms(l, [])
  {
  }
}
