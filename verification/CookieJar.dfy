/**
  The cookie jar of `cookie.rs`: storing and removing cookies in place, and choosing the ones for a URL
  (sections 5.1.3, 5.1.4 and 5.4 of RFC 6265). Times are numbers on one clock; whether a string is an
  IP address is a parameter.
 */
module CookieJar {
  import opened Wrappers
  import opened Text
  import opened CookieText

  datatype Url = Url(scheme: Option<string>, host: Option<string>, path: string)

  // ---- Matching ----

  /** The text before the first colon. */
  function BeforeColon(s: string): string {
    match Find(s, ":")
    case Some(i) => s[..i]
    case None => s
  }

  function DropLeadingDot(s: string): string {
    if s != "" && s[0] == '.' then s[1..] else s
  }

  function DropLeadingDots(s: string): string {
    if s != "" && s[0] == '.' then DropLeadingDots(s[1..]) else s
  }

  predicate EndsWith(s: string, end: string) {
    |end| <= |s| && s[|s| - |end|..] == end
  }

  predicate DomainMatch(isIp: string -> bool, cookieDomain: string, requestHost: string) {
    var host, domain := BeforeColon(Lower(requestHost)), DropLeadingDot(Lower(cookieDomain));
    host == domain || (EndsWith(host, "." + domain) && !isIp(domain))
  }

  predicate PathMatch(cookiePath: string, requestPath: string) {
    || requestPath == cookiePath
    || (cookiePath <= requestPath && ("/" <= requestPath[|cookiePath|..] || EndsWith(cookiePath, "/")))
  }

  /** The path with a slash at its end. */
  function Slashed(path: string): string {
    if EndsWith(path, "/") then path else path + "/"
  }

  /** A cookie path matches itself and everything below it. */
  lemma PathMatchMeansBelow(cookiePath: string, requestPath: string)
    ensures PathMatch(cookiePath, requestPath) <==> requestPath == cookiePath || Slashed(cookiePath) <= requestPath
  {
    if cookiePath <= requestPath {
      assert requestPath == cookiePath + requestPath[|cookiePath|..];
    }
  }

  /** Section 5.1.3 of RFC 6265 lets a domain match only a host *name*. The code asks instead that the
      cookie domain is no IP address; the two differ exactly for a proper suffix when one of host and
      domain is an address and the other is not. */
  lemma DomainMatchAgainstStandard(isIp: string -> bool, cookieDomain: string, requestHost: string)
    ensures var host, domain := BeforeColon(Lower(requestHost)), DropLeadingDot(Lower(cookieDomain));
            var standard := host == domain || (EndsWith(host, "." + domain) && !isIp(host));
            (DomainMatch(isIp, cookieDomain, requestHost) == standard
             <==> !(EndsWith(host, "." + domain) && isIp(host) != isIp(domain)))
  {
    var host, domain := BeforeColon(Lower(requestHost)), DropLeadingDot(Lower(cookieDomain));
    if EndsWith(host, "." + domain) {
      assert |host| > |domain|;
    }
  }

  /** For instance, a cookie for "2.3" goes to the address 10.1.2.3. */
  lemma AddressIsMatched(isIp: string -> bool)
    requires isIp("10.1.2.3") && !isIp("2.3")
    ensures DomainMatch(isIp, "2.3", "10.1.2.3")
    ensures var host, domain := BeforeColon(Lower("10.1.2.3")), DropLeadingDot(Lower("2.3"));
            !(host == domain || (EndsWith(host, "." + domain) && !isIp(host)))
  {
    assert Lower("10.1.2.3") == "10.1.2.3" && Lower("2.3") == "2.3";
    NoOccurrence("10.1.2.3", ':');
    assert "10.1.2.3"[4..] == ".2.3" == "." + "2.3";
  }

  // ---- Storing ----

  function WithoutName(cookies: seq<Cookie>, name: string): seq<Cookie> {
    if cookies == [] then []
    else (if cookies[0].name == name then [] else [cookies[0]]) + WithoutName(cookies[1..], name)
  }

  predicate SameKey(a: Cookie, b: Cookie) {
    a.name == b.name && a.domain == b.domain && a.path == b.path
  }

  function WithoutKey(cookies: seq<Cookie>, c: Cookie): seq<Cookie> {
    if cookies == [] then []
    else (if SameKey(cookies[0], c) then [] else [cookies[0]]) + WithoutKey(cookies[1..], c)
  }

  /** The position of the first cookie with a name. */
  function FirstNamed(cookies: seq<Cookie>, name: string): (r: Option<nat>)
    ensures r.Some? ==> r.value < |cookies| && cookies[r.value].name == name
    ensures r.Some? ==> forall k :: 0 <= k < r.value ==> cookies[k].name != name
    ensures r.None? ==> forall k :: 0 <= k < |cookies| ==> cookies[k].name != name
  {
    if cookies == [] then None
    else if cookies[0].name == name then Some(0)
    else
      var i :- FirstNamed(cookies[1..], name);
      Some(i + 1)
  }

  function WithoutAt(cookies: seq<Cookie>, i: nat): seq<Cookie>
    requires i < |cookies|
  {
    cookies[..i] + cookies[i + 1..]
  }

  function WithoutFirst(cookies: seq<Cookie>, name: string): seq<Cookie> {
    match FirstNamed(cookies, name)
    case Some(i) => WithoutAt(cookies, i)
    case None => cookies
  }

  /** The path up to, not including, its last slash; "/" when that leaves nothing. */
  function DefaultPath(path: string): string {
    match LastSlash(path)
    case Some(i) => if i == 0 then "/" else path[..i]
    case None => "/"
  }

  function LastSlash(path: string): (r: Option<nat>)
    ensures r.Some? ==> r.value < |path| && path[r.value] == '/'
    ensures r.None? ==> '/' !in path
  {
    if path == "" then None
    else if path[|path| - 1] == '/' then Some(|path| - 1)
    else LastSlash(path[..|path| - 1])
  }

  /** Adding a Max-Age to the current instant panics past the last instant of the clock. */
  predicate Overflows(c: Cookie, now: int, last: int) {
    c.maxAge.Some? && now + c.maxAge.value > last
  }

  /** What `insert_for_url` stores for a cookie, if it succeeds. */
  function Normalized(c: Cookie, url: Url, now: int): Cookie {
    var domain :=
      match c.domain
      case Some(d) => Some(Lower(DropLeadingDots(d)))
      case None => (match url.host
                    case Some(h) => Some(Lower(BeforeColon(h)))
                    case None => None);
    var path := if c.path.Some? then c.path else Some(DefaultPath(url.path));
    var expiresAt := if c.maxAge.Some? then Some(now + c.maxAge.value) else None;
    c.(domain := domain, path := path, expiresAt := expiresAt)
  }

  // ---- Choosing ----

  predicate Unexpired(c: Cookie, now: int) {
    c.expiresAt.Some? ==> now < c.expiresAt.value
  }

  predicate Matches(isIp: string -> bool, c: Cookie, url: Url, now: int) {
    var host := if url.host.Some? then url.host.value else "";
    var domain := if c.domain.Some? then c.domain.value else "";
    var path := if c.path.Some? then c.path.value else "/";
    && Unexpired(c, now)
    && (c.secure ==> url.scheme == Some("https"))
    && (domain == "" || DomainMatch(isIp, domain, host))
    && PathMatch(path, url.path)
  }

  function Matching(isIp: string -> bool, cookies: seq<Cookie>, url: Url, now: int): seq<Cookie> {
    if cookies == [] then []
    else
      (if Matches(isIp, cookies[0], url, now) then [cookies[0]] else []) + Matching(isIp, cookies[1..], url, now)
  }

  function PathLength(c: Cookie): nat {
    if c.path.Some? then |c.path.value| else 1
  }

  /** Put `c` behind the cookies with a path at least as long as its own. */
  function Place(sorted: seq<Cookie>, c: Cookie): seq<Cookie> {
    if sorted == [] then [c]
    else if PathLength(sorted[0]) < PathLength(c) then [c] + sorted
    else [sorted[0]] + Place(sorted[1..], c)
  }

  /** The library's stable sort by descending path length. */
  function SortedByPath(cookies: seq<Cookie>): seq<Cookie> {
    if cookies == [] then [] else Place(SortedByPath(cookies[..|cookies| - 1]), cookies[|cookies| - 1])
  }

  predicate Descending(cookies: seq<Cookie>) {
    forall i, j :: 0 <= i < j < |cookies| ==> PathLength(cookies[j]) <= PathLength(cookies[i])
  }

  /** The cookies with a path of one length, in their order. */
  function OfLength(cookies: seq<Cookie>, n: nat): seq<Cookie> {
    if cookies == [] then []
    else (if PathLength(cookies[0]) == n then [cookies[0]] else []) + OfLength(cookies[1..], n)
  }

  /** What a caller gets for a URL: exactly the cookies of the jar that match it, longer paths first, and in
      the order of the jar where paths are equally long. No other list has these properties. */
  ghost predicate IsAnswer(isIp: string -> bool, cookies: seq<Cookie>, url: Url, now: int, r: seq<Cookie>) {
    && (forall c :: c in r <==> c in cookies && Matches(isIp, c, url, now))
    && Descending(r)
    && (forall n :: OfLength(r, n) == Matching(isIp, OfLength(cookies, n), url, now))
  }

  class Jar {
    var cookies: seq<Cookie>

    /** The last instant of the clock. */
    const last: int

    constructor (last: int)
      ensures cookies == [] && this.last == last
    {
      cookies := [];
      this.last := last;
    }

    method Insert(c: Cookie)
      modifies this
      ensures cookies == WithoutName(old(cookies), c.name) + [c]
    {
      cookies := WithoutName(cookies, c.name);
      cookies := cookies + [c];
    }

    method Remove(name: string) returns (r: Option<Cookie>)
      modifies this
      ensures cookies == WithoutFirst(old(cookies), name)
      ensures r == match FirstNamed(old(cookies), name)
                   case Some(i) => Some(old(cookies)[i])
                   case None => None
    {
      var position := FirstNamed(cookies, name);
      if position.None? {
        return None;
      }
      r := Some(cookies[position.value]);
      cookies := cookies[..position.value] + cookies[position.value + 1..];
    }

    /** False stands for the panic; it leaves the cookies as they were. */
    method InsertForUrl(c: Cookie, url: Url, now: int) returns (ok: bool)
      modifies this
      ensures ok <==> !Overflows(c, now, last)
      ensures ok ==> var stored := Normalized(c, url, now);
                     cookies == WithoutKey(old(cookies), stored) + [stored]
      ensures !ok ==> cookies == old(cookies)
    {
      var cookie := c;
      if cookie.domain.None? {
        if url.host.Some? {
          cookie := cookie.(domain := Some(Lower(BeforeColon(url.host.value))));
        }
      } else {
        cookie := cookie.(domain := Some(Lower(DropLeadingDots(cookie.domain.value))));
      }
      if cookie.path.None? {
        cookie := cookie.(path := Some(DefaultPath(url.path)));
      }
      if cookie.maxAge.Some? && now + cookie.maxAge.value > last {
        return false;
      }
      cookie := cookie.(expiresAt := if cookie.maxAge.Some? then Some(now + cookie.maxAge.value) else None);
      cookies := WithoutKey(cookies, cookie);
      cookies := cookies + [cookie];
      return true;
    }

    method CookiesForUrl(isIp: string -> bool, url: Url, now: int) returns (r: seq<Cookie>)
      ensures IsAnswer(isIp, cookies, url, now, r)
    {
      var matched := Matching(isIp, cookies, url, now);
      r := SortedByPath(matched);
      SortedIsAnswer(isIp, cookies, url, now);
    }
  }

  // ---- The order of the answer ----

  lemma HeadAndTail(a: seq<Cookie>, b: seq<Cookie>)
    requires a != []
    ensures a + b != [] && (a + b)[0] == a[0] && (a + b)[1..] == a[1..] + b
  {
  }

  lemma {:induction false} OfLengthJoin(a: seq<Cookie>, b: seq<Cookie>, n: nat)
    ensures OfLength(a + b, n) == OfLength(a, n) + OfLength(b, n)
  {
    if a == [] {
      assert a + b == b;
    } else {
      HeadAndTail(a, b);
      OfLengthJoin(a[1..], b, n);
      var head := if PathLength(a[0]) == n then [a[0]] else [];
      assert OfLength(a + b, n) == head + OfLength(a[1..] + b, n);
      JoinThree(head, OfLength(a[1..], n), OfLength(b, n));
    }
  }

  lemma {:induction false} LongerHaveNone(cookies: seq<Cookie>, n: nat)
    requires forall i :: 0 <= i < |cookies| ==> PathLength(cookies[i]) < n
    ensures OfLength(cookies, n) == []
  {
    if cookies != [] {
      assert forall i :: 0 <= i < |cookies| - 1 ==> cookies[1..][i] == cookies[i + 1];
      LongerHaveNone(cookies[1..], n);
    }
  }

  lemma {:induction false} PlaceMembers(sorted: seq<Cookie>, c: Cookie)
    ensures multiset(Place(sorted, c)) == multiset(sorted) + multiset{c}
  {
    if sorted == [] {
    } else if PathLength(sorted[0]) < PathLength(c) {
    } else {
      PlaceMembers(sorted[1..], c);
      assert sorted == [sorted[0]] + sorted[1..];
    }
  }

  lemma {:induction false} PlaceDescends(sorted: seq<Cookie>, c: Cookie)
    requires Descending(sorted)
    ensures Descending(Place(sorted, c))
  {
    if sorted != [] && PathLength(c) <= PathLength(sorted[0]) {
      assert Descending(sorted[1..]);
      PlaceDescends(sorted[1..], c);
      PlaceMembers(sorted[1..], c);
      var rest := Place(sorted[1..], c);
      forall i | 0 <= i < |rest|
        ensures PathLength(rest[i]) <= PathLength(sorted[0])
      {
        assert rest[i] in multiset(rest);
        if rest[i] != c {
          assert rest[i] in sorted[1..];
        }
      }
    }
  }

  lemma {:induction false} PlaceIsLast(sorted: seq<Cookie>, c: Cookie, n: nat)
    requires Descending(sorted)
    ensures OfLength(Place(sorted, c), n) == OfLength(sorted, n) + OfLength([c], n)
  {
    if sorted == [] {
      assert OfLength([], n) + OfLength([c], n) == OfLength([c], n);
    } else if PathLength(sorted[0]) < PathLength(c) {
      OfLengthJoin([c], sorted, n);
      if PathLength(c) == n {
        LongerHaveNone(sorted, n);
      } else {
        assert OfLength([c], n) == [];
      }
    } else {
      assert Descending(sorted[1..]);
      PlaceIsLast(sorted[1..], c, n);
      assert ([sorted[0]] + Place(sorted[1..], c))[1..] == Place(sorted[1..], c);
    }
  }

  /** The answer is in descending path length, and among cookies with equally long paths the order of the
      jar is kept. */
  lemma {:induction false} SortIsStable(cookies: seq<Cookie>, n: nat)
    ensures Descending(SortedByPath(cookies))
    ensures OfLength(SortedByPath(cookies), n) == OfLength(cookies, n)
    ensures multiset(SortedByPath(cookies)) == multiset(cookies)
    decreases |cookies|
  {
    assert Descending([]);
    hide Place, Descending, OfLength, PathLength;
    if cookies != [] {
      var front, last := cookies[..|cookies| - 1], cookies[|cookies| - 1];
      SortIsStable(front, n);
      PlaceDescends(SortedByPath(front), last);
      PlaceIsLast(SortedByPath(front), last, n);
      PlaceMembers(SortedByPath(front), last);
      OfLengthJoin(front, [last], n);
      assert cookies == front + [last];
    }
  }

  /** Those two properties leave no freedom: any list that has them is the answer. */
  lemma {:induction false} OrderDetermines(a: seq<Cookie>, b: seq<Cookie>)
    requires Descending(a) && Descending(b)
    requires forall n :: OfLength(a, n) == OfLength(b, n)
    ensures a == b
    decreases |a|
  {
    if a == [] {
      HeadHasItsLength(b);
      assert forall n: nat :: OfLength(a, n) == [];
    } else {
      HeadIsInBoth(a, b);
      HeadIsInBoth(b, a);
      var n := PathLength(a[0]);
      assert PathLength(b[0]) == n;
      assert OfLength(a, n)[0] == a[0] && OfLength(b, n)[0] == b[0];
      assert Descending(a[1..]) && Descending(b[1..]);
      forall m: nat
        ensures OfLength(a[1..], m) == OfLength(b[1..], m)
      {
        assert OfLength(a, m) == OfLength(b, m);
        assert OfLength(a[1..], m) == if m == n then OfLength(a, m)[1..] else OfLength(a, m);
        assert OfLength(b[1..], m) == if m == n then OfLength(b, m)[1..] else OfLength(b, m);
      }
      OrderDetermines(a[1..], b[1..]);
    }
  }

  lemma {:induction false} MatchingIsFilter(isIp: string -> bool, cookies: seq<Cookie>, url: Url, now: int)
    ensures forall c :: c in Matching(isIp, cookies, url, now) <==> c in cookies && Matches(isIp, c, url, now)
  {
    hide Matches;
    if cookies != [] {
      MatchingIsFilter(isIp, cookies[1..], url, now);
      assert cookies == [cookies[0]] + cookies[1..];
    }
  }

  lemma {:induction false} MatchingByLength(isIp: string -> bool, cookies: seq<Cookie>, url: Url, now: int, n: nat)
    ensures OfLength(Matching(isIp, cookies, url, now), n) == Matching(isIp, OfLength(cookies, n), url, now)
  {
    if cookies != [] {
      hide Matches, PathLength;
      var rest := cookies[1..];
      MatchingByLength(isIp, rest, url, now, n);
      var kept := if Matches(isIp, cookies[0], url, now) then [cookies[0]] else [];
      OfLengthJoin(kept, Matching(isIp, rest, url, now), n);
      var long := if PathLength(cookies[0]) == n then [cookies[0]] else [];
      MatchingJoin(isIp, long, OfLength(rest, n), url, now);
      assert OfLength(kept, n) == Matching(isIp, long, url, now);
    }
  }

  lemma {:induction false} MatchingJoin(isIp: string -> bool, a: seq<Cookie>, b: seq<Cookie>, url: Url, now: int)
    ensures Matching(isIp, a + b, url, now) == Matching(isIp, a, url, now) + Matching(isIp, b, url, now)
  {
    hide Matches;
    if a == [] {
      assert a + b == b;
    } else {
      HeadAndTail(a, b);
      MatchingJoin(isIp, a[1..], b, url, now);
      var head := if Matches(isIp, a[0], url, now) then [a[0]] else [];
      JoinThree(head, Matching(isIp, a[1..], url, now), Matching(isIp, b, url, now));
    }
  }

  lemma SortedIsAnswer(isIp: string -> bool, cookies: seq<Cookie>, url: Url, now: int)
    ensures IsAnswer(isIp, cookies, url, now, SortedByPath(Matching(isIp, cookies, url, now)))
  {
    hide Matches, Matching, OfLength, SortedByPath, Descending;
    var matched := Matching(isIp, cookies, url, now);
    SortIsStable(matched, 0);
    MatchingIsFilter(isIp, cookies, url, now);
    forall c
      ensures c in SortedByPath(matched) <==> c in matched
    {
      assert c in SortedByPath(matched) <==> c in multiset(SortedByPath(matched));
      assert c in matched <==> c in multiset(matched);
    }
    forall n
      ensures OfLength(SortedByPath(matched), n) == Matching(isIp, OfLength(cookies, n), url, now)
    {
      SortIsStable(matched, n);
      MatchingByLength(isIp, cookies, url, now, n);
    }
  }

  /** Nothing else is an answer. */
  lemma AnswerIsUnique(isIp: string -> bool, cookies: seq<Cookie>, url: Url, now: int, a: seq<Cookie>, b: seq<Cookie>)
    requires IsAnswer(isIp, cookies, url, now, a) && IsAnswer(isIp, cookies, url, now, b)
    ensures a == b
  {
    forall n
      ensures OfLength(a, n) == OfLength(b, n)
    {
      assert OfLength(a, n) == Matching(isIp, OfLength(cookies, n), url, now);
    }
    OrderDetermines(a, b);
  }

  lemma HeadHasItsLength(cookies: seq<Cookie>)
    ensures cookies == [] || OfLength(cookies, PathLength(cookies[0])) != []
  {
  }

  lemma HeadIsInBoth(a: seq<Cookie>, b: seq<Cookie>)
    requires a != [] && Descending(b) && forall n :: OfLength(a, n) == OfLength(b, n)
    ensures b != [] && PathLength(a[0]) <= PathLength(b[0])
  {
    hide OfLength, PathLength;
    var n := PathLength(a[0]);
    HeadHasItsLength(a);
    assert OfLength(b, n) != [];
    if forall i :: 0 <= i < |b| ==> PathLength(b[i]) < n {
      LongerHaveNone(b, n);
    }
  }

  // ---- What the jar holds after any history ----

  datatype Op = Insert(cookie: Cookie) | InsertForUrl(given: Cookie, url: Url, now: int) | Remove(name: string)

  function Performed(cookies: seq<Cookie>, op: Op): seq<Cookie> {
    match op
    case Insert(c) => WithoutName(cookies, c.name) + [c]
    case InsertForUrl(c, url, now) => WithoutKey(cookies, Normalized(c, url, now)) + [Normalized(c, url, now)]
    case Remove(name) => WithoutFirst(cookies, name)
  }

  /** The contents of a jar after a history of operations that succeed. */
  function Contents(ops: seq<Op>): seq<Cookie> {
    if ops == [] then [] else Performed(Contents(ops[..|ops| - 1]), ops[|ops| - 1])
  }

  /** An insertion that panics. */
  predicate Fails(last: int, op: Op) {
    op.InsertForUrl? && Overflows(op.given, op.now, last)
  }

  /** The contents of a jar after any history: an operation that fails changes nothing. */
  function JarAfter(last: int, ops: seq<Op>): seq<Cookie> {
    if ops == [] then []
    else
      var before, op := JarAfter(last, ops[..|ops| - 1]), ops[|ops| - 1];
      if Fails(last, op) then before else Performed(before, op)
  }

  function Succeeding(last: int, ops: seq<Op>): seq<Op> {
    if ops == [] then []
    else
      var op := ops[|ops| - 1];
      Succeeding(last, ops[..|ops| - 1]) + (if Fails(last, op) then [] else [op])
  }

  /** The failed operations of a history may be left out of it. */
  lemma {:induction false} FailuresLeaveNoTrace(last: int, ops: seq<Op>)
    ensures JarAfter(last, ops) == Contents(Succeeding(last, ops))
  {
    if ops != [] {
      hide Performed, Fails;
      var op, before := ops[|ops| - 1], Succeeding(last, ops[..|ops| - 1]);
      FailuresLeaveNoTrace(last, ops[..|ops| - 1]);
      if Fails(last, op) {
        assert before + [] == before;
      } else {
        assert (before + [op])[..|before + [op]| - 1] == before;
      }
    }
  }

  predicate Stores(op: Op) {
    !op.Remove?
  }

  /** The cookie an insertion stores. */
  function Stored(op: Op): Cookie
    requires Stores(op)
  {
    match op
    case Insert(c) => c
    case InsertForUrl(c, url, now) => Normalized(c, url, now)
  }

  /** Whether the cookie that operation `i` stored is still there after the first `n` operations: no later
      insertion has replaced it, and no removal has taken it as the oldest of its name. */
  predicate Survives(ops: seq<Op>, n: nat, i: nat)
    requires n <= |ops|
    decreases n, i
  {
    && i < n && Stores(ops[i])
    && (i == n - 1
        || (Survives(ops, n - 1, i)
            && (match ops[n - 1]
                case Insert(c) => Stored(ops[i]).name != c.name
                case InsertForUrl(_, _, _) =>
                  var a, b := Stored(ops[i]), Stored(ops[n - 1]);
                  !(a.name == b.name && a.domain == b.domain && a.path == b.path)
                case Remove(name) => !(Stored(ops[i]).name == name && OldestNamed(ops, n - 1, i, name)))))
  }

  /** No earlier survivor has the name. */
  predicate OldestNamed(ops: seq<Op>, n: nat, i: nat, name: string)
    requires n <= |ops|
    decreases n, i + 1
  {
    forall k: nat :: k < i && k < n && Stores(ops[k]) && Stored(ops[k]).name == name ==> !Survives(ops, n, k)
  }

  /** What is left of the insertion of operation `i`: its cookie or nothing. */
  function Left(ops: seq<Op>, n: nat, i: nat): seq<Cookie>
    requires n <= |ops|
  {
    if Survives(ops, n, i) then [Stored(ops[i])] else []
  }

  /** The survivors among the first `m` operations, in order. */
  function Survivors(ops: seq<Op>, n: nat, m: nat): seq<Cookie>
    requires m <= n <= |ops|
  {
    if m == 0 then []
    else Survivors(ops, n, m - 1) + Left(ops, n, m - 1)
  }

  lemma {:induction false} WithoutNameJoin(a: seq<Cookie>, b: seq<Cookie>, name: string)
    ensures WithoutName(a + b, name) == WithoutName(a, name) + WithoutName(b, name)
  {
    if a == [] {
      assert a + b == b;
    } else {
      HeadAndTail(a, b);
      WithoutNameJoin(a[1..], b, name);
      var head := if a[0].name == name then [] else [a[0]];
      assert WithoutName(a + b, name) == head + WithoutName(a[1..] + b, name);
      JoinThree(head, WithoutName(a[1..], name), WithoutName(b, name));
    }
  }

  lemma {:induction false} WithoutKeyJoin(a: seq<Cookie>, b: seq<Cookie>, c: Cookie)
    ensures WithoutKey(a + b, c) == WithoutKey(a, c) + WithoutKey(b, c)
  {
    hide SameKey;
    if a == [] {
      assert a + b == b;
    } else {
      HeadAndTail(a, b);
      WithoutKeyJoin(a[1..], b, c);
      var head := if SameKey(a[0], c) then [] else [a[0]];
      assert WithoutKey(a + b, c) == head + WithoutKey(a[1..] + b, c);
      JoinThree(head, WithoutKey(a[1..], c), WithoutKey(b, c));
    }
  }

  lemma FirstNamedTail(a: seq<Cookie>, name: string)
    requires a != [] && a[0].name != name
    ensures FirstNamed(a, name) ==
            match FirstNamed(a[1..], name)
            case Some(i) => Some(i + 1)
            case None => None
  {
  }

  lemma {:induction false} FirstNamedJoin(a: seq<Cookie>, b: seq<Cookie>, name: string)
    ensures FirstNamed(a + b, name) ==
            if FirstNamed(a, name).Some? then FirstNamed(a, name)
            else if FirstNamed(b, name).Some? then Some(|a| + FirstNamed(b, name).value) else None
  {
    if a == [] {
      assert a + b == b;
    } else {
      HeadAndTail(a, b);
      if a[0].name != name {
        FirstNamedJoin(a[1..], b, name);
        FirstNamedTail(a, name);
        FirstNamedTail(a + b, name);
      }
    }
  }

  lemma NothingStored(ops: seq<Op>, n: nat, name: string, c: Cookie)
    requires n <= |ops|
    ensures Survivors(ops, n, 0) == WithoutName([], name) == WithoutKey([], c) == WithoutFirst([], name) == []
    ensures FirstNamed([], name).None?
  {
  }

  lemma SurvivorsUnfold(ops: seq<Op>, n: nat, m: nat)
    requires 0 < m <= n <= |ops|
    ensures Survivors(ops, n, m) == Survivors(ops, n, m - 1) + Left(ops, n, m - 1)
  {
  }

  lemma {:induction false} SurvivorsAfterInsert(ops: seq<Op>, n: nat, m: nat)
    requires m < n <= |ops| && ops[n - 1].Insert?
    ensures Survivors(ops, n, m) == WithoutName(Survivors(ops, n - 1, m), ops[n - 1].cookie.name)
    decreases m
  {
    hide Left, WithoutName, Survivors;
    if m == 0 {
      NothingStored(ops, n, ops[n - 1].cookie.name, ops[n - 1].cookie);
      NothingStored(ops, n - 1, ops[n - 1].cookie.name, ops[n - 1].cookie);
    } else {
      SurvivorsUnfold(ops, n, m);
      SurvivorsUnfold(ops, n - 1, m);
      SurvivorsAfterInsert(ops, n, m - 1);
      LeftAfterInsert(ops, n, m - 1);
      WithoutNameJoin(Survivors(ops, n - 1, m - 1), Left(ops, n - 1, m - 1), ops[n - 1].cookie.name);
    }
  }

  lemma LeftAfterInsert(ops: seq<Op>, n: nat, i: nat)
    requires i + 1 < n <= |ops| && ops[n - 1].Insert?
    ensures Left(ops, n, i) == WithoutName(Left(ops, n - 1, i), ops[n - 1].cookie.name)
  {
    hide OldestNamed, Normalized;
  }

  lemma {:induction false} SurvivorsAfterInsertForUrl(ops: seq<Op>, n: nat, m: nat)
    requires m < n <= |ops| && ops[n - 1].InsertForUrl?
    ensures Survivors(ops, n, m) == WithoutKey(Survivors(ops, n - 1, m), Stored(ops[n - 1]))
    decreases m
  {
    hide Left, WithoutKey, Stored, Survivors;
    if m == 0 {
      NothingStored(ops, n, "", Stored(ops[n - 1]));
      NothingStored(ops, n - 1, "", Stored(ops[n - 1]));
    } else {
      SurvivorsUnfold(ops, n, m);
      SurvivorsUnfold(ops, n - 1, m);
      SurvivorsAfterInsertForUrl(ops, n, m - 1);
      LeftAfterInsertForUrl(ops, n, m - 1);
      WithoutKeyJoin(Survivors(ops, n - 1, m - 1), Left(ops, n - 1, m - 1), Stored(ops[n - 1]));
    }
  }

  lemma LeftAfterInsertForUrl(ops: seq<Op>, n: nat, i: nat)
    requires i + 1 < n <= |ops| && ops[n - 1].InsertForUrl?
    ensures Left(ops, n, i) == WithoutKey(Left(ops, n - 1, i), Stored(ops[n - 1]))
  {
    hide OldestNamed, Stored;
  }

  /** A name is among the first survivors exactly when one of them was stored with it. */
  lemma {:induction false} NamedSurvivors(ops: seq<Op>, n: nat, m: nat, name: string)
    requires m <= n <= |ops|
    ensures FirstNamed(Survivors(ops, n, m), name).None? <==> OldestNamed(ops, n, m, name)
    decreases m
  {
    hide Left, FirstNamed, OldestNamed, Survivors;
    if m == 0 {
      NoneNamedYet(ops, n, name);
    } else {
      SurvivorsUnfold(ops, n, m);
      NamedSurvivors(ops, n, m - 1, name);
      OldestNamedStep(ops, n, m - 1, name);
      FirstNamedJoin(Survivors(ops, n, m - 1), Left(ops, n, m - 1), name);
    }
  }

  lemma NoneNamedYet(ops: seq<Op>, n: nat, name: string)
    requires n <= |ops|
    ensures FirstNamed(Survivors(ops, n, 0), name).None? && OldestNamed(ops, n, 0, name)
  {
    hide Survives;
  }

  lemma OldestNamedStep(ops: seq<Op>, n: nat, i: nat, name: string)
    requires i < n <= |ops|
    ensures OldestNamed(ops, n, i + 1, name) <==>
            OldestNamed(ops, n, i, name) && FirstNamed(Left(ops, n, i), name).None?
  {
    SurvivorsWereStored(ops, n, i);
    hide Survives;
    if Survives(ops, n, i) {
      assert FirstNamed([Stored(ops[i])], name).None? <==> Stored(ops[i]).name != name by {
        assert [Stored(ops[i])][1..] == [];
      }
    }
  }

  lemma SurvivorsWereStored(ops: seq<Op>, n: nat, i: nat)
    requires n <= |ops|
    ensures Survives(ops, n, i) ==> i < n && Stores(ops[i])
  {
  }

  lemma {:induction false} SurvivorsAfterRemove(ops: seq<Op>, n: nat, m: nat)
    requires m < n <= |ops| && ops[n - 1].Remove?
    ensures Survivors(ops, n, m) == WithoutFirst(Survivors(ops, n - 1, m), ops[n - 1].name)
    decreases m
  {
    hide Left, OldestNamed, FirstNamed, WithoutFirst, Survivors;
    if m == 0 {
      NothingStored(ops, n, ops[n - 1].name, NewCookie("", ""));
      NothingStored(ops, n - 1, ops[n - 1].name, NewCookie("", ""));
    } else {
      SurvivorsUnfold(ops, n, m);
      SurvivorsUnfold(ops, n - 1, m);
      var name := ops[n - 1].name;
      SurvivorsAfterRemove(ops, n, m - 1);
      LeftAfterRemove(ops, n, m - 1);
      NamedSurvivors(ops, n - 1, m - 1, name);
      RemoveStep(Survivors(ops, n - 1, m - 1), Left(ops, n - 1, m - 1), Left(ops, n, m - 1), name);
    }
  }

  lemma LeftAfterRemove(ops: seq<Op>, n: nat, i: nat)
    requires i + 1 < n <= |ops| && ops[n - 1].Remove?
    ensures Left(ops, n, i) == if OldestNamed(ops, n - 1, i, ops[n - 1].name)
                               then WithoutFirst(Left(ops, n - 1, i), ops[n - 1].name)
                               else Left(ops, n - 1, i)
  {
    SurvivesRemoval(ops, n, i);
    WithoutFirstOfOne(Left(ops, n - 1, i), ops[n - 1].name);
    hide Survives, OldestNamed, WithoutFirst, FirstNamed;
  }

  lemma RemoveStep(before: seq<Cookie>, last: seq<Cookie>, kept: seq<Cookie>, name: string)
    requires kept == if FirstNamed(before, name).Some? then last else WithoutFirst(last, name)
    ensures WithoutFirst(before, name) + kept == WithoutFirst(before + last, name)
  {
    hide FirstNamed;
    WithoutFirstJoin(before, last, name);
  }

  lemma SurvivesRemoval(ops: seq<Op>, n: nat, i: nat)
    requires i + 1 < n <= |ops| && ops[n - 1].Remove?
    ensures Survives(ops, n, i) <==>
            Survives(ops, n - 1, i)
            && !(Stored(ops[i]).name == ops[n - 1].name && OldestNamed(ops, n - 1, i, ops[n - 1].name))
  {
  }

  lemma WithoutFirstOfOne(a: seq<Cookie>, name: string)
    requires |a| <= 1
    ensures WithoutFirst(a, name) == if a != [] && a[0].name == name then [] else a
  {
    if a != [] {
      assert a[1..] == [] && a == [a[0]];
    }
  }

  lemma WithoutFirstFound(cookies: seq<Cookie>, name: string)
    ensures match FirstNamed(cookies, name)
            case Some(i) => WithoutFirst(cookies, name) == WithoutAt(cookies, i)
            case None => WithoutFirst(cookies, name) == cookies
  {
  }

  lemma WithoutFirstJoin(a: seq<Cookie>, b: seq<Cookie>, name: string)
    ensures WithoutFirst(a + b, name) ==
            if FirstNamed(a, name).Some? then WithoutFirst(a, name) + b else a + WithoutFirst(b, name)
  {
    hide FirstNamed, WithoutFirst, WithoutAt;
    FirstNamedJoin(a, b, name);
    WithoutFirstFound(a, name);
    WithoutFirstFound(b, name);
    WithoutFirstFound(a + b, name);
    match FirstNamed(a, name)
    case Some(i) => WithoutAtLeft(a, b, i);
    case None =>
      match FirstNamed(b, name)
      case Some(i) => WithoutAtRight(a, b, i);
      case None =>
  }

  lemma WithoutAtLeft(a: seq<Cookie>, b: seq<Cookie>, i: nat)
    requires i < |a|
    ensures WithoutAt(a + b, i) == WithoutAt(a, i) + b
  {
    assert (a + b)[..i] == a[..i] && (a + b)[i + 1..] == a[i + 1..] + b;
    JoinThree(a[..i], a[i + 1..], b);
  }

  lemma WithoutAtRight(a: seq<Cookie>, b: seq<Cookie>, i: nat)
    requires i < |b|
    ensures WithoutAt(a + b, |a| + i) == a + WithoutAt(b, i)
  {
    assert (a + b)[..|a| + i] == a + b[..i] && (a + b)[|a| + i + 1..] == b[i + 1..];
    JoinThree(a, b[..i], b[i + 1..]);
  }

  lemma {:induction false} SurvivorsLocal(ops: seq<Op>, front: seq<Op>, n: nat, m: nat)
    requires m <= n <= |front| && front <= ops
    ensures Survivors(ops, n, m) == Survivors(front, n, m)
    decreases m
  {
    if m > 0 {
      SurvivorsLocal(ops, front, n, m - 1);
      SurvivesLocal(ops, front, n, m - 1);
    }
  }

  lemma {:induction false} SurvivesLocal(ops: seq<Op>, front: seq<Op>, n: nat, i: nat)
    requires n <= |front| && front <= ops
    ensures Survives(ops, n, i) == Survives(front, n, i)
    decreases n, i, 0
  {
    if i < n - 1 {
      assert ops[i] == front[i] && ops[n - 1] == front[n - 1];
      SurvivesLocal(ops, front, n - 1, i);
      if front[n - 1].Remove? {
        OldestNamedLocal(ops, front, n - 1, i, front[n - 1].name);
      }
    }
  }

  lemma {:induction false} OldestNamedLocal(ops: seq<Op>, front: seq<Op>, n: nat, i: nat, name: string)
    requires n <= |front| && front <= ops
    ensures OldestNamed(ops, n, i, name) == OldestNamed(front, n, i, name)
    decreases n, i + 1, 0
  {
    forall k: nat | k < i && k < n
      ensures ops[k] == front[k] && Survives(ops, n, k) == Survives(front, n, k)
    {
      SurvivesLocal(ops, front, n, k);
    }
  }

  /** After any history the jar holds exactly the surviving insertions, in the order they were made, of the
      operations that succeeded. */
  lemma HoldsSurvivors(last: int, ops: seq<Op>)
    ensures var done := Succeeding(last, ops); JarAfter(last, ops) == Survivors(done, |done|, |done|)
  {
    FailuresLeaveNoTrace(last, ops);
    ContentsAreSurvivors(Succeeding(last, ops));
  }

  lemma {:induction false} ContentsAreSurvivors(ops: seq<Op>)
    ensures Contents(ops) == Survivors(ops, |ops|, |ops|)
    decreases |ops|
  {
    if ops != [] {
      hide Survivors, Performed;
      var n, front := |ops|, ops[..|ops| - 1];
      ContentsAreSurvivors(front);
      SurvivorsLocal(ops, front, n - 1, n - 1);
      SurvivorsStep(ops);
    }
  }

  lemma SurvivorsStep(ops: seq<Op>)
    requires ops != []
    ensures Performed(Survivors(ops, |ops| - 1, |ops| - 1), ops[|ops| - 1]) == Survivors(ops, |ops|, |ops|)
  {
    hide Left, Performed, Stored, Survivors, WithoutName, WithoutKey, WithoutFirst;
    var n := |ops|;
    LastSurvives(ops);
    SurvivorsUnfold(ops, n, n);
    PerformedIs(Survivors(ops, n - 1, n - 1), ops[n - 1]);
    match ops[n - 1]
    case Insert(_) => SurvivorsAfterInsert(ops, n, n - 1);
    case InsertForUrl(_, _, _) => SurvivorsAfterInsertForUrl(ops, n, n - 1);
    case Remove(_) => SurvivorsAfterRemove(ops, n, n - 1);
  }

  lemma LastSurvives(ops: seq<Op>)
    requires ops != []
    ensures Left(ops, |ops|, |ops| - 1) == if Stores(ops[|ops| - 1]) then [Stored(ops[|ops| - 1])] else []
  {
  }

  lemma PerformedIs(cookies: seq<Cookie>, op: Op)
    ensures op.Insert? ==> Performed(cookies, op) == WithoutName(cookies, op.cookie.name) + [Stored(op)]
    ensures op.InsertForUrl? ==> Performed(cookies, op) == WithoutKey(cookies, Stored(op)) + [Stored(op)]
    ensures op.Remove? ==> Performed(cookies, op) == WithoutFirst(cookies, op.name)
  {
    hide WithoutName, WithoutKey, WithoutFirst, Normalized;
  }

  // ---- One cookie a key ----

  predicate KeysDiffer(cookies: seq<Cookie>) {
    forall i, j :: 0 <= i < j < |cookies| ==>
      var a, b := cookies[i], cookies[j];
      !(a.name == b.name && a.domain == b.domain && a.path == b.path)
  }

  lemma {:induction false} WithoutNameIsPart(cookies: seq<Cookie>, name: string)
    requires KeysDiffer(cookies)
    ensures KeysDiffer(WithoutName(cookies, name))
    ensures forall x :: x in WithoutName(cookies, name) ==> x in cookies && x.name != name
  {
    if cookies != [] {
      assert KeysDiffer(cookies[1..]);
      WithoutNameIsPart(cookies[1..], name);
      HeadStaysApart(cookies, WithoutName(cookies[1..], name));
    }
  }

  lemma HeadStaysApart(cookies: seq<Cookie>, rest: seq<Cookie>)
    requires cookies != [] && KeysDiffer(cookies) && KeysDiffer(rest)
    requires forall x :: x in rest ==> x in cookies[1..]
    ensures KeysDiffer([cookies[0]] + rest)
  {
    forall j | 0 <= j < |rest|
      ensures !SameKey(cookies[0], rest[j])
    {
      assert rest[j] in cookies[1..];
      var k :| 0 <= k < |cookies[1..]| && cookies[1..][k] == rest[j];
      assert cookies[k + 1] == rest[j];
    }
  }

  lemma {:induction false} WithoutKeyIsPart(cookies: seq<Cookie>, c: Cookie)
    requires KeysDiffer(cookies)
    ensures KeysDiffer(WithoutKey(cookies, c))
    ensures forall x :: x in WithoutKey(cookies, c) ==> x in cookies && !SameKey(x, c)
  {
    if cookies != [] {
      assert KeysDiffer(cookies[1..]);
      WithoutKeyIsPart(cookies[1..], c);
      HeadStaysApart(cookies, WithoutKey(cookies[1..], c));
    }
  }

  /** After any history of insertions and removals there is at most one cookie for each name, domain and path. */
  lemma OneCookiePerKey(last: int, ops: seq<Op>)
    ensures KeysDiffer(JarAfter(last, ops))
  {
    FailuresLeaveNoTrace(last, ops);
    KeysStayApart(Succeeding(last, ops));
  }

  lemma {:induction false} KeysStayApart(ops: seq<Op>)
    ensures KeysDiffer(Contents(ops))
    decreases |ops|
  {
    if ops != [] {
      hide SameKey, Normalized;
      var before := Contents(ops[..|ops| - 1]);
      KeysStayApart(ops[..|ops| - 1]);
      match ops[|ops| - 1]
      case Insert(c) =>
        WithoutNameIsPart(before, c.name);
        OtherNameOtherKey(c);
        AppendApart(WithoutName(before, c.name), c);
      case InsertForUrl(c, url, now) =>
        WithoutKeyIsPart(before, Normalized(c, url, now));
        AppendApart(WithoutKey(before, Normalized(c, url, now)), Normalized(c, url, now));
      case Remove(_) =>
    }
  }

  lemma OtherNameOtherKey(c: Cookie)
    ensures forall x: Cookie :: x.name != c.name ==> !SameKey(x, c)
  {
  }

  lemma AppendApart(cookies: seq<Cookie>, c: Cookie)
    requires KeysDiffer(cookies) && forall x :: x in cookies ==> !SameKey(x, c)
    ensures KeysDiffer(cookies + [c])
  {
    var all := cookies + [c];
    forall i, j | 0 <= i < j < |all|
      ensures !SameKey(all[i], all[j])
    {
      assert all[i] in cookies;
    }
  }

  // ---- The answer for a URL ----

  function HostOf(url: Url): string {
    if url.host.Some? then url.host.value else ""
  }

  /** A cookie is sent for a URL exactly when it survived the jar's history and is unexpired, allowed by its
      Secure flag, and matches the domain and the path. */
  lemma SendsExactly(isIp: string -> bool, last: int, ops: seq<Op>, url: Url, now: int, r: seq<Cookie>, c: Cookie)
    requires IsAnswer(isIp, JarAfter(last, ops), url, now, r)
    ensures var done := Succeeding(last, ops);
            c in r <==>
            && (exists i :: 0 <= i < |done| && Survives(done, |done|, i) && Stored(done[i]) == c)
            && (c.expiresAt.Some? ==> now < c.expiresAt.value)
            && (c.secure ==> url.scheme == Some("https"))
            && (c.domain.Some? && c.domain.value != "" ==> DomainMatch(isIp, c.domain.value, HostOf(url)))
            && PathMatch(if c.path.Some? then c.path.value else "/", url.path)
  {
    MatchesExactly(isIp, c, url, now);
    hide Matches, DomainMatch, PathMatch;
    HoldsSurvivors(last, ops);
    var done := Succeeding(last, ops);
    SurvivorsMembers(done, |done|, |done|, c);
  }

  lemma MatchesExactly(isIp: string -> bool, c: Cookie, url: Url, now: int)
    ensures Matches(isIp, c, url, now) <==>
            && (c.expiresAt.Some? ==> now < c.expiresAt.value)
            && (c.secure ==> url.scheme == Some("https"))
            && (c.domain.Some? && c.domain.value != "" ==> DomainMatch(isIp, c.domain.value, HostOf(url)))
            && PathMatch(if c.path.Some? then c.path.value else "/", url.path)
  {
    hide DomainMatch, PathMatch;
  }

  lemma {:induction false} SurvivorsMembers(ops: seq<Op>, n: nat, m: nat, c: Cookie)
    requires m <= n <= |ops|
    ensures c in Survivors(ops, n, m) <==> exists i :: 0 <= i < m && Survives(ops, n, i) && Stored(ops[i]) == c
    decreases m
  {
    if m > 0 {
      SurvivorsMembers(ops, n, m - 1, c);
    }
  }

  // ---- A cookie set by a URL is sent back to it ----

  /** `r` is everything in front of the first colon of `s`. */
  predicate IsBeforeColon(s: string, r: string) {
    && |r| <= |s| && r == s[..|r|]
    && (forall k :: 0 <= k < |r| ==> s[k] != ':')
    && (|r| < |s| ==> s[|r|] == ':')
  }

  lemma BeforeColonIs(s: string)
    ensures IsBeforeColon(s, BeforeColon(s))
  {
    if ':' in s {
      AroundFirst(s, ':');
    } else {
      NoOccurrence(s, ':');
    }
  }

  lemma OneBeforeColon(s: string, a: string, b: string)
    requires IsBeforeColon(s, a) && IsBeforeColon(s, b)
    ensures a == b
  {
    assert |a| == |b|;
  }

  /** Dropping the port and lower-casing commute, and both are idempotent. */
  lemma LowerBeforeColon(s: string)
    ensures BeforeColon(Lower(s)) == Lower(BeforeColon(s))
    ensures Lower(Lower(s)) == Lower(s)
  {
    BeforeColonIs(s);
    BeforeColonIs(Lower(s));
    var r := BeforeColon(s);
    assert Lower(r) == Lower(s)[..|r|];
    OneBeforeColon(Lower(s), BeforeColon(Lower(s)), Lower(r));
  }

  /** The default path of a URL matches that URL's own path unless the path has no slash at all. */
  lemma DefaultPathMatches(path: string)
    ensures PathMatch(DefaultPath(path), path) <==> '/' in path
  {
    match LastSlash(path)
    case Some(i) =>
      if i == 0 {
        assert "/" <= path && EndsWith("/", "/");
      } else {
        assert path[..i] <= path && path[|path[..i]|..] == path[i..];
        assert "/" <= path[i..];
      }
    case None =>
      assert DefaultPath(path) == "/";
      assert path == "" || path[0] in path;
  }

  /** A cookie without a Domain attribute matches the host that set it; the one exception is a host of a
      dot and an IP address, whose dot is dropped from the stored domain. */
  lemma OwnHostMatches(isIp: string -> bool, host: string)
    ensures var domain := Lower(BeforeColon(host));
            DomainMatch(isIp, domain, host) <==> !("." <= domain && isIp(domain[1..]))
  {
    LowerBeforeColon(host);
    LowerBeforeColon(BeforeColon(host));
    var domain := Lower(BeforeColon(host));
    if "." <= domain {
      assert domain == "." + domain[1..];
    }
  }

  /** A cookie set by a URL, with neither Domain nor Path of its own, is stored exactly when its Max-Age stays
      within the clock's range; and it is then sent for the same URL at a later time exactly while it is
      unexpired, if it may travel over the scheme, and the URL's path has a slash. */
  lemma SetThenSent(isIp: string -> bool, last: int, ops: seq<Op>, c: Cookie, url: Url, now: int, later: int,
                    r: seq<Cookie>)
    requires c.domain.None? && c.path.None?
    requires IsAnswer(isIp, JarAfter(last, ops + [InsertForUrl(c, url, now)]), url, later, r)
    ensures var after := JarAfter(last, ops + [InsertForUrl(c, url, now)]);
            if c.maxAge.Some? && last < now + c.maxAge.value then after == JarAfter(last, ops)
            else
              && Normalized(c, url, now) in after
              && (Normalized(c, url, now) in r <==>
                  && (c.maxAge.Some? ==> later < now + c.maxAge.value)
                  && (c.secure ==> url.scheme == Some("https"))
                  && '/' in url.path
                  && (url.host.Some? ==>
                        var domain := Lower(BeforeColon(url.host.value));
                        !("." <= domain && isIp(domain[1..]))))
  {
    var all := ops + [InsertForUrl(c, url, now)];
    assert all[..|all| - 1] == ops && all[|all| - 1] == InsertForUrl(c, url, now);
    OwnCookieMatches(isIp, c, url, now, later);
    hide Matches, Normalized, JarAfter;
    LastOperation(last, ops, c, url, now);
  }

  lemma LastOperation(last: int, ops: seq<Op>, c: Cookie, url: Url, now: int)
    ensures var after := JarAfter(last, ops + [InsertForUrl(c, url, now)]);
            if c.maxAge.Some? && last < now + c.maxAge.value then after == JarAfter(last, ops)
            else after == WithoutKey(JarAfter(last, ops), Normalized(c, url, now)) + [Normalized(c, url, now)]
  {
    var all := ops + [InsertForUrl(c, url, now)];
    assert all[..|all| - 1] == ops && all[|all| - 1] == InsertForUrl(c, url, now);
    hide Normalized, WithoutKey;
  }

  lemma OwnCookieMatches(isIp: string -> bool, c: Cookie, url: Url, now: int, later: int)
    requires c.domain.None? && c.path.None?
    ensures Matches(isIp, Normalized(c, url, now), url, later) <==>
            && (c.maxAge.Some? ==> later < now + c.maxAge.value)
            && (c.secure ==> url.scheme == Some("https"))
            && '/' in url.path
            && (url.host.Some? ==>
                  var domain := Lower(BeforeColon(url.host.value));
                  !("." <= domain && isIp(domain[1..])))
  {
    hide PathMatch, DomainMatch, DefaultPath, BeforeColon, Lower;
    DefaultPathMatches(url.path);
    if url.host.Some? {
      OwnHostMatches(isIp, url.host.value);
    }
  }

  // ---- A Max-Age beyond the clock ----

  /** For instance the largest Max-Age the parser accepts, on a clock that does not reach that far. */
  lemma LargestMaxAge(now: int, last: int)
    requires last < now + U64_MAX * NANOS
    ensures var c := Parsed("a=b; Max-Age=" + Decimal(U64_MAX));
            c.Some? && Overflows(c.value, now, last)
  {
    var c := NewCookie("a", "b").(maxAge := Some(U64_MAX * NANOS));
    LargestIsPrintable(c);
    DisplayParseRoundTrip(c);
  }

  lemma LargestIsPrintable(c: Cookie)
    requires c == NewCookie("a", "b").(maxAge := Some(U64_MAX * NANOS))
    ensures Printable(c) && Display(c) == "a=b; Max-Age=" + Decimal(U64_MAX)
  {
    hide Decimal, Joined, Attributes;
    OnlyMaxAge(c, U64_MAX);
    OneAttribute("Max-Age=" + Decimal(U64_MAX));
    SpelledOut(Decimal(U64_MAX));
  }

  lemma OnlyMaxAge(c: Cookie, secs: nat)
    requires c == NewCookie("a", "b").(maxAge := Some(secs * NANOS))
    ensures Attributes(c) == ["Max-Age=" + Decimal(secs)]
  {
    hide Decimal;
    assert secs * NANOS / NANOS == secs;
    assert MaxAgeText(c) == ["Max-Age=" + Decimal(secs)];
    var none: seq<string> := [];
    assert none + none + MaxAgeText(c) + none + none + none == MaxAgeText(c);
  }

  lemma OneAttribute(a: string)
    ensures Joined([a]) == "; " + a
  {
    assert [a][1..] == [];
  }

  lemma SpelledOut(n: string)
    ensures "a" + "=" + "b" + ("; " + ("Max-Age=" + n)) == "a=b; Max-Age=" + n
  {
  }

  // ---- A cookie without Domain is not kept to its host ----

  /** Section 5.4 of RFC 6265 sends a cookie that was set without a Domain attribute to that very host only.
      The jar stores the host as if it were a Domain. Unless the host starts with a dot, the two differ
      exactly on the names below a host that is no IP address. */
  lemma HostOnlyIsForgotten(isIp: string -> bool, host: string, other: string)
    ensures var stored, request := Lower(BeforeColon(host)), BeforeColon(Lower(other));
            (DomainMatch(isIp, stored, other) == (request == stored))
            <==> if "." <= stored then
                   && request != stored[1..]
                   && (EndsWith(request, stored) ==> (request == stored) == !isIp(stored[1..]))
                 else !(EndsWith(request, "." + stored) && !isIp(stored))
  {
    LowerBeforeColon(BeforeColon(host));
    var stored := Lower(BeforeColon(host));
    assert "." <= stored ==> stored == "." + stored[1..];
  }

  /** For instance, a cookie that b.c set for itself is sent to a.b.c. */
  lemma SentBelowItsHost(isIp: string -> bool)
    requires !isIp("b.c")
    ensures DomainMatch(isIp, Lower(BeforeColon("b.c")), "a.b.c") && Lower(BeforeColon("b.c")) != "a.b.c"
  {
    NoOccurrence("b.c", ':');
    NoOccurrence("a.b.c", ':');
    assert Lower("b.c") == "b.c" && Lower("a.b.c") == "a.b.c";
    assert "a.b.c"[1..] == ".b.c" == "." + "b.c";
  }

  // ---- A Domain attribute is not compared with the host that sends it ----

  /** Sections 5.2.3 and 5.3 of RFC 6265: an empty Domain attribute is ignored, which leaves the cookie to the very
      host that set it; any other must match that host, or the cookie is not stored. */
  predicate StandardDomain(isIp: string -> bool, domain: string, setter: string, host: string) {
    if domain == "" then BeforeColon(Lower(host)) == BeforeColon(Lower(setter))
    else DomainMatch(isIp, domain, setter) && DomainMatch(isIp, domain, host)
  }

  /** A stored cookie that the standard would keep from a host is sent to it exactly when its Domain is empty and
      the host is another, or its Domain matches that host and not the one that set it; and the other
      tests pass. */
  lemma ForeignDomains(isIp: string -> bool, cookies: seq<Cookie>, c: Cookie, url: Url, now: int, target: Url,
                       later: int, r: seq<Cookie>)
    requires c.domain.Some?
    requires var stored := Normalized(c, url, now);
             IsAnswer(isIp, WithoutKey(cookies, stored) + [stored], target, later, r)
    ensures var stored := Normalized(c, url, now);
            var domain, setter, host := stored.domain.value, HostOf(url), HostOf(target);
            stored in r && !StandardDomain(isIp, domain, setter, host)
            <==> && (if domain == "" then BeforeColon(Lower(host)) != BeforeColon(Lower(setter))
                     else DomainMatch(isIp, domain, host) && !DomainMatch(isIp, domain, setter))
                 && Unexpired(stored, later)
                 && (c.secure ==> target.scheme == Some("https"))
                 && PathMatch(stored.path.value, target.path)
  {
    hide PathMatch, DomainMatch, DefaultPath, DropLeadingDots, BeforeColon, Lower, WithoutKey, Unexpired;
    var stored := Normalized(c, url, now);
    assert stored in WithoutKey(cookies, stored) + [stored];
  }

  /** For instance, a.org sets a cookie that is sent to b.com, and one without a domain name that is sent to
      every host. */
  lemma UnrelatedHosts(isIp: string -> bool, host: string, now: int)
    ensures var url, target := Url(None, Some("a.org"), "/"), Url(None, Some("b.com"), "/");
            var c := NewCookie("n", "v").(domain := Some("b.com"), path := Some("/"));
            Matches(isIp, Normalized(c, url, now), target, now) && !DomainMatch(isIp, "b.com", "a.org")
    ensures var c := NewCookie("n", "v").(domain := Some("."), path := Some("/"));
            Matches(isIp, Normalized(c, Url(None, Some("a.org"), "/"), now), Url(None, Some(host), "/"), now)
  {
    assert Lower("b.com") == "b.com" && Lower("a.org") == "a.org" && Lower("") == "";
    assert DropLeadingDots("b.com") == "b.com" && "."[1..] == "" && DropLeadingDots(".") == "";
    NoOccurrence("a.org", ':');
    NoOccurrence("b.com", ':');
    assert "a.org"[4] == 'g' && ".b.com"[5] == 'm';
  }
}
