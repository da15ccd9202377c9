/**
  The rules of the cookie jar spelled out: which cookies an insertion or a removal leaves, what is stored, which hosts
  a domain covers, and the answer for a URL position by position.
 */
module CookieRules {
  import opened Wrappers
  import opened Text
  import opened CookieText
  import opened CookieJar

  /** `part` is what `all` has at the ascending positions `at`. */
  predicate Picks(all: seq<Cookie>, part: seq<Cookie>, at: seq<nat>) {
    && |at| == |part|
    && (forall k :: 0 <= k < |at| ==> at[k] < |all| && part[k] == all[at[k]])
    && (forall j, k :: 0 <= j < k < |at| ==> at[j] < at[k])
  }

  // ---- What stays in the jar ----

  /** The positions behind a first element. */
  function Shifted(at: seq<nat>): (r: seq<nat>)
    ensures |r| == |at| && forall k :: 0 <= k < |at| ==> r[k] == at[k] + 1
    ensures forall i :: i in r <==> 1 <= i && i - 1 in at
  {
    var r := seq(|at|, k requires 0 <= k < |at| => at[k] + 1);
    assert forall k :: 0 <= k < |at| ==> r[k] - 1 == at[k];
    r
  }

  lemma PicksSkip(all: seq<Cookie>, part: seq<Cookie>, at: seq<nat>)
    requires all != [] && Picks(all[1..], part, at)
    ensures Picks(all, part, Shifted(at))
  {
    hide Shifted;
    var more := Shifted(at);
    forall k | 0 <= k < |more|
      ensures more[k] < |all| && part[k] == all[more[k]]
    {
      assert all[1..][at[k]] == all[at[k] + 1];
    }
  }

  lemma PicksTake(all: seq<Cookie>, part: seq<Cookie>, at: seq<nat>)
    requires all != [] && Picks(all[1..], part, at)
    ensures Picks(all, [all[0]] + part, [0] + Shifted(at))
  {
    PicksSkip(all, part, at);
    hide Shifted;
    var r, more := [all[0]] + part, [0] + Shifted(at);
    assert forall k :: 1 <= k < |more| ==> more[k] == Shifted(at)[k - 1] && r[k] == part[k - 1];
  }

  lemma ConsHas(at: seq<nat>)
    ensures forall i :: i in [0] + at <==> i == 0 || i in at
  {
  }

  lemma PicksCons(all: seq<Cookie>, part: seq<Cookie>, at: seq<nat>, taken: bool) returns (more: seq<nat>)
    requires all != [] && Picks(all[1..], part, at)
    ensures Picks(all, (if taken then [all[0]] else []) + part, more)
    ensures 0 in more <==> taken
    ensures forall i :: 1 <= i ==> (i in more <==> i - 1 in at)
  {
    hide Shifted, Picks;
    if taken {
      PicksTake(all, part, at);
      more := [0] + Shifted(at);
      ConsHas(Shifted(at));
    } else {
      PicksSkip(all, part, at);
      assert [] + part == part;
      more := Shifted(at);
    }
  }

  /** An insertion for a URL keeps every cookie that differs from the stored one in name, domain or path, in order,
      and no other. */
  lemma {:induction false} OthersStay(cookies: seq<Cookie>, c: Cookie) returns (at: seq<nat>)
    ensures Picks(cookies, WithoutKey(cookies, c), at)
    ensures forall i :: 0 <= i < |cookies| ==>
              (i in at <==> cookies[i].name != c.name || cookies[i].domain != c.domain || cookies[i].path != c.path)
  {
    if cookies == [] {
      at := [];
    } else {
      var rest := OthersStay(cookies[1..], c);
      at := PicksCons(cookies, WithoutKey(cookies[1..], c), rest, !SameKey(cookies[0], c));
    }
  }

  /** An insertion by name keeps every cookie of another name, in order, and no other. */
  lemma {:induction false} OtherNamesStay(cookies: seq<Cookie>, name: string) returns (at: seq<nat>)
    ensures Picks(cookies, WithoutName(cookies, name), at)
    ensures forall i :: 0 <= i < |cookies| ==> (i in at <==> cookies[i].name != name)
  {
    if cookies == [] {
      at := [];
    } else {
      var rest := OtherNamesStay(cookies[1..], name);
      at := PicksCons(cookies, WithoutName(cookies[1..], name), rest, cookies[0].name != name);
    }
  }

  /** A removal takes out the first cookie of the name, and nothing if there is none. */
  lemma FirstIsTaken(cookies: seq<Cookie>, name: string, i: nat)
    requires i <= |cookies| && (forall k :: 0 <= k < i ==> cookies[k].name != name)
    requires i < |cookies| ==> cookies[i].name == name
    ensures WithoutFirst(cookies, name) == if i == |cookies| then cookies else cookies[..i] + cookies[i + 1..]
    ensures FirstNamed(cookies, name) == if i == |cookies| then None else Some(i)
  {
  }

  // ---- What is stored ----

  /** `r` is `s` without the dots in front. */
  predicate IsWithoutDots(s: string, r: string) {
    && |r| <= |s| && s[|s| - |r|..] == r
    && (forall i :: 0 <= i < |s| - |r| ==> s[i] == '.')
    && (r != "" ==> r[0] != '.')
  }

  lemma {:induction false} DotsAreDropped(s: string)
    ensures IsWithoutDots(s, DropLeadingDots(s))
  {
    if s != "" && s[0] == '.' {
      DotsAreDropped(s[1..]);
      var r := DropLeadingDots(s[1..]);
      assert s[1..][|s[1..]| - |r|..] == s[|s| - |r|..];
      assert forall i :: 1 <= i < |s| - |r| ==> s[i] == s[1..][i - 1];
    }
  }

  /** The default path stops before the last slash; "/" when that leaves nothing. */
  lemma DefaultPathStops(front: string, back: string)
    requires '/' !in back
    ensures DefaultPath(back) == "/"
    ensures DefaultPath(front + "/" + back) == if front == "" then "/" else front
  {
    LastSlashAt(front, back);
    NoSlash(back);
    assert (front + "/" + back)[..|front|] == front;
  }

  lemma {:induction false} LastSlashAt(front: string, back: string)
    requires '/' !in back
    ensures LastSlash(front + "/" + back) == Some(|front|)
    decreases |back|
  {
    var path := front + "/" + back;
    if back != "" {
      var shorter := back[..|back| - 1];
      assert back[|back| - 1] in back && path[|path| - 1] == back[|back| - 1];
      assert path[..|path| - 1] == front + "/" + shorter;
      LastSlashAt(front, shorter);
    }
  }

  lemma NoSlash(path: string)
    requires '/' !in path
    ensures LastSlash(path).None?
  {
  }

  /** A stored cookie is the given one but for three fields. Its expiry is its Max-Age from now on. A path of its own
      is kept, and the default path of the URL put where there is none. A domain of its own is put into lower case
      without the dots in front of it; where there is none, the host of the URL, if any, in lower case without
      its port. */
  lemma StoredExactly(c: Cookie, url: Url, now: int)
    ensures var s := Normalized(c, url, now);
            && s.(domain := c.domain, path := c.path, expiresAt := c.expiresAt) == c
            && s.expiresAt == (if c.maxAge.Some? then Some(now + c.maxAge.value) else None)
            && s.path == (if c.path.Some? then c.path else Some(DefaultPath(url.path)))
            && (c.domain.Some? ==> exists r :: IsWithoutDots(c.domain.value, r) && s.domain == Some(Lower(r)))
            && (c.domain.None? && url.host.Some? ==>
                  exists r :: IsBeforeColon(url.host.value, r) && s.domain == Some(Lower(r)))
            && (c.domain.None? && url.host.None? ==> s.domain == None)
  {
    hide Lower, DefaultPath, DropLeadingDots, BeforeColon, IsWithoutDots, IsBeforeColon;
    if c.domain.Some? {
      DotsAreDropped(c.domain.value);
    } else if url.host.Some? {
      BeforeColonIs(url.host.value);
    }
  }

  // ---- Which hosts a domain covers ----

  /** A cookie domain covers a host, both in lower case, without the port and without one dot in front of the domain,
      when they are equal, or when the host ends with a dot and the domain and the domain is no IP address. */
  lemma DomainCovers(isIp: string -> bool, cookieDomain: string, requestHost: string, host: string)
    requires IsBeforeColon(Lower(requestHost), host)
    ensures var lower := Lower(cookieDomain);
            var domain := if "." <= lower then lower[1..] else lower;
            DomainMatch(isIp, cookieDomain, requestHost)
            <==> host == domain || (!isIp(domain) && exists front: string :: host == front + ("." + domain))
  {
    BeforeColonIs(Lower(requestHost));
    OneBeforeColon(Lower(requestHost), BeforeColon(Lower(requestHost)), host);
    hide Lower, BeforeColon, IsBeforeColon, EndsWith;
    var lower := Lower(cookieDomain);
    EndsWithMeans(host, "." + (if "." <= lower then lower[1..] else lower));
  }

  lemma EndsWithMeans(s: string, end: string)
    ensures EndsWith(s, end) <==> exists front: string :: s == front + end
  {
    if EndsWith(s, end) {
      assert s == s[..|s| - |end|] + end;
    }
    forall front: string | s == front + end
      ensures EndsWith(s, end)
    {
      assert s[|front|..] == end;
    }
  }

  // ---- The answer for a URL ----

  function PathOf(c: Cookie): string {
    if c.path.Some? then c.path.value else "/"
  }

  /** The test of section 5.4 of RFC 6265 as the code makes it. */
  predicate IsSent(isIp: string -> bool, c: Cookie, url: Url, now: int) {
    && (c.expiresAt.Some? ==> now < c.expiresAt.value)
    && (c.secure ==> url.scheme == Some("https"))
    && (c.domain.Some? && c.domain.value != "" ==> DomainMatch(isIp, c.domain.value, HostOf(url)))
    && PathMatch(PathOf(c), url.path)
  }

  lemma MatchingUnfold(isIp: string -> bool, cookies: seq<Cookie>, url: Url, now: int)
    requires cookies != []
    ensures Matching(isIp, cookies, url, now) ==
            (if IsSent(isIp, cookies[0], url, now) then [cookies[0]] else []) + Matching(isIp, cookies[1..], url, now)
  {
    MatchesExactly(isIp, cookies[0], url, now);
    hide Matches, DomainMatch, PathMatch;
  }

  lemma {:induction false} MatchingPicks(isIp: string -> bool, cookies: seq<Cookie>, url: Url, now: int)
    returns (at: seq<nat>)
    ensures Picks(cookies, Matching(isIp, cookies, url, now), at)
    ensures forall i :: 0 <= i < |cookies| ==> (i in at <==> IsSent(isIp, cookies[i], url, now))
  {
    if cookies == [] {
      at := [];
      assert Picks(cookies, Matching(isIp, cookies, url, now), at);
    } else {
      hide Matches, IsSent, Picks, Matching;
      MatchingUnfold(isIp, cookies, url, now);
      var rest := MatchingPicks(isIp, cookies[1..], url, now);
      at := PicksCons(cookies, Matching(isIp, cookies[1..], url, now), rest, IsSent(isIp, cookies[0], url, now));
    }
  }

  lemma {:induction false} PlacePosition(sorted: seq<Cookie>, c: Cookie) returns (p: nat)
    ensures p <= |sorted| && Place(sorted, c) == sorted[..p] + [c] + sorted[p..]
    ensures forall i :: 0 <= i < p ==> |PathOf(c)| <= |PathOf(sorted[i])|
    ensures p < |sorted| ==> |PathOf(sorted[p])| < |PathOf(c)|
  {
    if sorted == [] || |PathOf(sorted[0])| < |PathOf(c)| {
      p := 0;
    } else {
      var q := PlacePosition(sorted[1..], c);
      p := q + 1;
      assert sorted[..p] == [sorted[0]] + sorted[1..][..q];
    }
  }

  /** `sorted` is `all` rearranged by the positions `at`: longer paths first, and the earlier position first where
      the paths are equally long. */
  predicate Arranges(all: seq<Cookie>, sorted: seq<Cookie>, at: seq<nat>) {
    && |at| == |sorted|
    && (forall k :: 0 <= k < |at| ==> at[k] < |all| && sorted[k] == all[at[k]])
    && (forall j, k :: 0 <= j < k < |at| ==>
          || |PathOf(sorted[k])| < |PathOf(sorted[j])|
          || (|PathOf(sorted[k])| == |PathOf(sorted[j])| && at[j] < at[k]))
  }

  function Inserted<T>(s: seq<T>, p: nat, x: T): (r: seq<T>)
    requires p <= |s|
    ensures |r| == |s| + 1
    ensures forall k :: 0 <= k < |r| ==> r[k] == if k < p then s[k] else if k == p then x else s[k - 1]
  {
    s[..p] + [x] + s[p..]
  }

  lemma InsertedHas<T>(s: seq<T>, p: nat, x: T, y: T)
    requires p <= |s|
    ensures y in Inserted(s, p, x) <==> y == x || y in s
  {
    assert s == s[..p] + s[p..];
  }

  /** Putting the last cookie in its place. */
  lemma PlaceArranges(all: seq<Cookie>, sorted: seq<Cookie>, at: seq<nat>, p: nat)
    requires all != [] && Arranges(all[..|all| - 1], sorted, at) && p <= |sorted|
    requires forall i :: 0 <= i < p ==> |PathOf(all[|all| - 1])| <= |PathOf(sorted[i])|
    requires p < |sorted| ==> |PathOf(sorted[p])| < |PathOf(all[|all| - 1])|
    ensures Arranges(all, Inserted(sorted, p, all[|all| - 1]), Inserted(at, p, |all| - 1))
  {
    hide PathOf;
    var c, n := all[|all| - 1], |all| - 1;
    var r, more := Inserted(sorted, p, c), Inserted(at, p, n);
    forall k | p <= k < |sorted|
      ensures |PathOf(sorted[k])| < |PathOf(c)|
    {
      if p < k {
        assert |PathOf(sorted[k])| <= |PathOf(sorted[p])|;
      }
    }
    forall k | 0 <= k < |more|
      ensures more[k] < |all| && r[k] == all[more[k]]
    {
      if k != p {
        var i := if k < p then k else k - 1;
        assert more[k] == at[i] && r[k] == sorted[i] && all[..n][at[i]] == all[at[i]];
      }
    }
  }

  /** Every position below `n` is among those of `at`. */
  predicate Complete(at: seq<nat>, n: nat) {
    forall i :: 0 <= i < n ==> i in at
  }

  lemma InsertedIsComplete(at: seq<nat>, p: nat, n: nat)
    requires p <= |at| && Complete(at, n)
    ensures Complete(Inserted(at, p, n), n + 1)
  {
    forall i | 0 <= i <= n
      ensures i in Inserted(at, p, n)
    {
      InsertedHas(at, p, n, i);
    }
  }

  lemma SortStep(cookies: seq<Cookie>) returns (p: nat)
    requires cookies != []
    ensures var before, c := SortedByPath(cookies[..|cookies| - 1]), cookies[|cookies| - 1];
            && p <= |before| && SortedByPath(cookies) == Inserted(before, p, c)
            && (forall i :: 0 <= i < p ==> |PathOf(c)| <= |PathOf(before[i])|)
            && (p < |before| ==> |PathOf(before[p])| < |PathOf(c)|)
  {
    p := PlacePosition(SortedByPath(cookies[..|cookies| - 1]), cookies[|cookies| - 1]);
  }

  lemma {:induction false} SortArranges(cookies: seq<Cookie>) returns (at: seq<nat>)
    ensures Arranges(cookies, SortedByPath(cookies), at) && Complete(at, |cookies|)
    decreases |cookies|
  {
    if cookies == [] {
      at := [];
    } else {
      hide SortedByPath, PathOf, Inserted, Place, Complete;
      var front := SortArranges(cookies[..|cookies| - 1]);
      var p := SortStep(cookies);
      PlaceArranges(cookies, SortedByPath(cookies[..|cookies| - 1]), front, p);
      InsertedIsComplete(front, p, |cookies| - 1);
      at := Inserted(front, p, |cookies| - 1);
    }
  }

  /** The answer for a URL, position by position: the cookies of the jar that pass the test, each once, those with
      longer paths first, and in the order of the jar where the paths are equally long. */
  lemma AnswerExactly(isIp: string -> bool, cookies: seq<Cookie>, url: Url, now: int, r: seq<Cookie>)
    returns (at: seq<nat>)
    requires IsAnswer(isIp, cookies, url, now, r)
    ensures Arranges(cookies, r, at)
    ensures forall i :: 0 <= i < |cookies| ==> (i in at <==> IsSent(isIp, cookies[i], url, now))
  {
    hide IsSent, Matching, SortedByPath, IsAnswer;
    var matched := Matching(isIp, cookies, url, now);
    SortedIsAnswer(isIp, cookies, url, now);
    AnswerIsUnique(isIp, cookies, url, now, r, SortedByPath(matched));
    var picks := MatchingPicks(isIp, cookies, url, now);
    var order := SortArranges(matched);
    at := seq(|order|, k requires 0 <= k < |order| => picks[order[k]]);
    forall i | 0 <= i < |cookies|
      ensures i in at <==> i in picks
    {
      if i in picks {
        var j :| 0 <= j < |picks| && picks[j] == i;
        assert Complete(order, |matched|) && j in order;
        var k :| 0 <= k < |order| && order[k] == j;
        assert at[k] == i;
      }
    }
  }
}
