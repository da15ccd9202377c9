/**
  What each request of a redirect chain carries, against any server.
 */
module RedirectRuns {
  import opened Wrappers
  import opened Text
  import opened Redirects

  // ---- Redirect chains ----

  function Log(env: Env, st: LoopState, replies: seq<Reply>): seq<Hop> {
    Follow(env, st, replies).log
  }

  lemma LogCons(env: Env, st: LoopState, replies: seq<Reply>)
    ensures Log(env, st, replies) ==
            match TakeTurn(env, st, NextReply(replies))
            case Finish(log, _) => log
            case GoOn(hop, next) => [hop] + Log(env, next, replies[1..])
  {
  }

  /** The first request goes where the caller says. Request `i` was made because replies 0, ..., i - 1 were
      redirects with a location, and it goes where the last of them pointed. */
  lemma {:induction false} RedirectsLead(env: Env, st: LoopState, replies: seq<Reply>, i: nat)
    requires i < |Log(env, st, replies)|
    ensures i == 0 ==> Log(env, st, replies)[i].uri == st.uri
    ensures 0 < i ==>
              && i <= |replies| && replies[i - 1].Response? && replies[i - 1].status in {301, 302, 303, 307, 308}
              && replies[i - 1].location.Some?
              && env.resolve(Log(env, st, replies)[i - 1].uri, replies[i - 1].location.value) ==
                 Some(Log(env, st, replies)[i].uri)
    decreases i
  {
    LogCons(env, st, replies);
    if 0 < i {
      var next := TakeTurn(env, st, NextReply(replies)).next;
      LogCons(env, next, replies[1..]);
      RedirectsLead(env, next, replies[1..], i - 1);
    }
  }

  /** What ends an exchange: the answer to its last request, unless a one-shot body was missing for the next. */
  lemma {:induction false} LastReplyDecides(env: Env, st: LoopState, replies: seq<Reply>)
    requires st.body != OneShot(None)
    ensures var n := |Log(env, st, replies)| - 1;
            var last := if 0 <= n < |replies| then replies[n] else TransportFailure;
            && 0 <= n
            && Follow(env, st, replies).result ==
               if last.TransportFailure? then Err(Transport)
               else if last.status !in {301, 302, 303, 307, 308} then Ok(last.status)
               else if env.policy == NoRedirects || env.policy == Limited(0) then Ok(last.status)
               else if env.policy.Limited? && env.policy.n <= st.redirects + n then Err(TooManyRedirects)
               else if last.location.None? then Err(NoLocation)
               else if env.resolve(Log(env, st, replies)[n].uri, last.location.value).None? then Err(BadLocation)
               else Err(BodyGone)
    decreases |replies|
  {
    hide SameOrigin, RedirectMethod;
    LogCons(env, st, replies);
    var turn := TakeTurn(env, st, NextReply(replies));
    if turn.GoOn? {
      if turn.next.body == OneShot(None) {
        LogCons(env, turn.next, replies[1..]);
      } else {
        LastReplyDecides(env, turn.next, replies[1..]);
      }
    }
  }

  /** All of the first `i` replies keep the body: 307 or 308. */
  predicate KeepBody(replies: seq<Reply>, i: nat)
    requires i <= |replies|
  {
    forall j :: 0 <= j < i ==> replies[j].Response? && replies[j].status in {307, 308}
  }

  lemma KeepBodyCons(replies: seq<Reply>, i: nat)
    requires 1 <= i <= |replies|
    ensures KeepBody(replies, i) <==>
            replies[0].Response? && replies[0].status in {307, 308} && KeepBody(replies[1..], i - 1)
  {
    if KeepBody(replies[1..], i - 1) {
      assert forall j :: 1 <= j < i ==> replies[j] == replies[1..][j - 1];
    }
  }

  lemma {:induction false} LogFitsReplies(env: Env, st: LoopState, replies: seq<Reply>)
    ensures |Log(env, st, replies)| <= |replies| + 1
    decreases |replies|
  {
    LogCons(env, st, replies);
    var turn := TakeTurn(env, st, NextReply(replies));
    if turn.GoOn? {
      LogFitsReplies(env, turn.next, replies[1..]);
    }
  }

  function SafeVerb(m: Method): Method {
    if m == Head then Head else Get
  }

  /** The method is the original one while every redirect was 307 or 308; after the first other redirect
      it is GET, or HEAD if that is what it was, on all later requests. */
  lemma {:induction false} VerbOfHop(env: Env, st: LoopState, replies: seq<Reply>, i: nat)
    requires i < |Log(env, st, replies)|
    ensures i <= |replies|
    ensures Log(env, st, replies)[i].verb == if KeepBody(replies, i) then st.verb else SafeVerb(st.verb)
    decreases i
  {
    LogCons(env, st, replies);
    LogFitsReplies(env, st, replies);
    if 0 < i {
      VerbOfHop(env, TakeTurn(env, st, NextReply(replies)).next, replies[1..], i - 1);
      KeepBodyCons(replies, i);
    }
  }

  /** A body that can be resent is sent while every redirect was 307 or 308, and never after another one. */
  lemma {:induction false} BodyOfHop(env: Env, st: LoopState, replies: seq<Reply>, i: nat)
    requires i < |Log(env, st, replies)| && st.body.Reusable?
    ensures i <= |replies|
    ensures Log(env, st, replies)[i].body == if KeepBody(replies, i) then st.body.payload else Nothing
    decreases i
  {
    LogCons(env, st, replies);
    LogFitsReplies(env, st, replies);
    if 0 < i {
      BodyOfHop(env, TakeTurn(env, st, NextReply(replies)).next, replies[1..], i - 1);
      KeepBodyCons(replies, i);
    }
  }

  /** A one-shot body is sent with the first request and with no other. A first redirect that would need
      it again ends the exchange with an error and no second request. */
  lemma OneShotIsSentOnce(env: Env, st: LoopState, replies: seq<Reply>)
    requires st.body == OneShot(Some(Original))
    ensures var log := Log(env, st, replies);
            && log != [] && log[0].body == Original
            && (forall i :: 1 <= i < |log| ==> log[i].body == Nothing)
            && (1 < |log| ==> !KeepBody(replies, 1))
    ensures TakeTurn(env, st, NextReply(replies)).GoOn? && KeepBody(replies, 1)
            ==> Follow(env, st, replies) == Exchange([Log(env, st, replies)[0]], Err(BodyGone))
  {
    LogCons(env, st, replies);
    var turn := TakeTurn(env, st, NextReply(replies));
    if turn.GoOn? {
      var log := Log(env, turn.next, replies[1..]);
      LogCons(env, turn.next, replies[1..]);
      if turn.next.body.Reusable? {
        forall i | 0 <= i < |log|
          ensures log[i].body == Nothing
        {
          BodyOfHop(env, turn.next, replies[1..], i);
        }
      } else {
        assert turn.next.body == OneShot(None);
      }
    }
  }

  /** What of a URI decides about the caller's credentials: the scheme, "http" by default, and the host, both in
      lower case. */
  function SchemeAndHost(u: Uri): (string, Option<string>) {
    (if u.scheme.Some? then Lower(u.scheme.value) else "http",
     if u.host.Some? then Some(Lower(u.host.value)) else None)
  }

  lemma SameOriginIs(a: Uri, b: Uri)
    ensures SameOrigin(a, b) <==> SchemeAndHost(a) == SchemeAndHost(b)
  {
    assert Lower("http") == "http";
    hide Lower;
  }

  /** Every request after the first, up to number `i`, went to the scheme and host of the first. */
  predicate StayedHome(env: Env, log: seq<Hop>, i: nat)
    requires i < |log|
  {
    forall j :: 1 <= j <= i ==> SchemeAndHost(log[j].uri) == SchemeAndHost(env.origin)
  }

  lemma StayedHomeCons(env: Env, hop: Hop, log: seq<Hop>, i: nat)
    requires i < |log|
    ensures StayedHome(env, [hop] + log, i + 1) <==>
            SchemeAndHost(log[0].uri) == SchemeAndHost(env.origin) && StayedHome(env, log, i)
  {
    hide SchemeAndHost;
    var all, home := [hop] + log, SchemeAndHost(env.origin);
    assert forall j :: 0 <= j <= i ==> all[j + 1] == log[j];
    if StayedHome(env, all, i + 1) {
      assert forall j :: 1 <= j <= i ==> all[j + 1] == log[j];
      assert all[1] == log[0];
    }
    if SchemeAndHost(log[0].uri) == home && StayedHome(env, log, i) {
      assert forall j :: 1 <= j <= i + 1 ==> all[j] == log[j - 1];
    }
  }

  /** The caller's Authorization and Cookie headers are on request `i` exactly when no request up to and
      including it has left the first one's scheme and host; coming back does not restore them. The other
      headers are on every request. If the jar has cookies for the request, they replace the caller's Cookie
      header. */
  lemma {:induction false} HeadersOfHop(env: Env, st: LoopState, replies: seq<Reply>, i: nat)
    requires i < |Log(env, st, replies)|
    ensures var log := Log(env, st, replies);
            var home, jar := StayedHome(env, log, i), env.jar(st.redirects + i, log[i].uri);
            && log[i].headers.authorization == (if home then st.headers.authorization else None)
            && log[i].headers.cookie == (if jar.Some? then jar else if home then st.headers.cookie else None)
            && log[i].headers.others == st.headers.others
    decreases i
  {
    hide SameOrigin, SchemeAndHost;
    LogCons(env, st, replies);
    if 0 < i {
      var turn := TakeTurn(env, st, NextReply(replies));
      var log := Log(env, turn.next, replies[1..]);
      LogCons(env, turn.next, replies[1..]);
      HeadersOfHop(env, turn.next, replies[1..], i - 1);
      StayedHomeCons(env, turn.hop, log, i - 1);
      SameOriginIs(env.origin, turn.next.uri);
    }
  }

  /** For instance, a redirect to another host: neither header goes along. */
  lemma AnotherHost(resolve: Resolver, location: string)
    requires resolve(Uri(Some("https"), Some("a"), None, "/"), location)
             == Some(Uri(Some("https"), Some("b"), None, "/"))
    ensures var a, caller := Uri(Some("https"), Some("a"), None, "/"), Headers(Some("secret"), Some("id=1"), []);
            var log := Log(Env(All, a, resolve, (_, _) => None), LoopState(Get, a, caller, Reusable(Nothing), 0),
                           [Response(302, Some(location))]);
            |log| == 2 && log[0].headers == caller && log[1].headers == Headers(None, None, [])
  {
    var a, caller := Uri(Some("https"), Some("a"), None, "/"), Headers(Some("secret"), Some("id=1"), []);
    var jar: JarCookies := (_, _) => None;
    var env, st := Env(All, a, resolve, jar), LoopState(Get, a, caller, Reusable(Nothing), 0);
    var b := Uri(Some("https"), Some("b"), None, "/");
    SameOriginIs(a, b);
    assert Lower("a") != Lower("b") by {
      assert Lower("a")[0] as int == 97 && Lower("b")[0] as int == 98;
    }
    LogCons(env, st, [Response(302, Some(location))]);
    LogCons(env, TakeTurn(env, st, Response(302, Some(location))).next, []);
  }

  /** How many redirects a policy follows, if it is limited. */
  function Limit(p: Policy): nat
    requires !p.All?
  {
    if p.Limited? then p.n else 0
  }

  /** A limit of n redirects allows at most n + 1 requests, whatever the server does. */
  lemma {:induction false} RequestsAreBounded(env: Env, st: LoopState, replies: seq<Reply>)
    requires !env.policy.All? && st.redirects <= Limit(env.policy)
    ensures |Log(env, st, replies)| <= Limit(env.policy) - st.redirects + 1
    decreases |replies|
  {
    LogCons(env, st, replies);
    var turn := TakeTurn(env, st, NextReply(replies));
    if turn.GoOn? {
      RequestsAreBounded(env, turn.next, replies[1..]);
    }
  }

  /** The limit is an error exactly when the server redirects once more than allowed; with a limit of
      zero the redirect itself is the answer. Without a limit there is no such error. */
  lemma {:induction false} LimitReached(env: Env, st: LoopState, replies: seq<Reply>)
    requires env.policy.All? || st.redirects <= Limit(env.policy)
    ensures Follow(env, st, replies).result == Err(TooManyRedirects)
            <==> && !env.policy.All? && Limit(env.policy) != 0
                 && var n := Limit(env.policy) - st.redirects;
                    && |Log(env, st, replies)| == n + 1
                    && n < |replies| && replies[n].Response? && replies[n].status in {301, 302, 303, 307, 308}
    ensures !env.policy.All? && Limit(env.policy) == 0 && st.body != OneShot(None) && NextReply(replies).Response? ==>
              Follow(env, st, replies).result == Ok(NextReply(replies).status)
    decreases |replies|
  {
    hide RedirectMethod, SameOrigin;
    LogCons(env, st, replies);
    var turn := TakeTurn(env, st, NextReply(replies));
    if turn.GoOn? {
      LimitReached(env, turn.next, replies[1..]);
      LogIsNotEmpty(env, turn.next, replies[1..]);
    }
  }

  /** Only a one-shot body that is used up keeps a hop from making its request. */
  lemma LogIsNotEmpty(env: Env, st: LoopState, replies: seq<Reply>)
    ensures Log(env, st, replies) == [] <==> st.body == OneShot(None)
  {
    LogCons(env, st, replies);
  }

  lemma OriginIsAnEquivalence(a: Uri, b: Uri, c: Uri)
    ensures SameOrigin(a, a) && (SameOrigin(a, b) <==> SameOrigin(b, a))
    ensures SameOrigin(a, b) && SameOrigin(b, c) ==> SameOrigin(a, c)
  {
    hide Lower;
  }

  /** Same origin is an equivalence, so "the first one's origin" may be read as "one common origin". */
  lemma OneCommonOrigin(env: Env, log: seq<Hop>, i: nat)
    requires i < |log| && log[0].uri == env.origin
    ensures StayedHome(env, log, i) <==>
            forall j, k :: 0 <= j <= i && 0 <= k <= i ==> SameOrigin(log[j].uri, log[k].uri)
  {
    hide SameOrigin, SchemeAndHost;
    forall j, k | 0 <= j <= i && 0 <= k <= i
      ensures SameOrigin(log[j].uri, log[k].uri) <==> SchemeAndHost(log[j].uri) == SchemeAndHost(log[k].uri)
    {
      SameOriginIs(log[j].uri, log[k].uri);
    }
    if !StayedHome(env, log, i) {
      var j :| 1 <= j <= i && SchemeAndHost(log[j].uri) != SchemeAndHost(env.origin);
      assert !SameOrigin(log[0].uri, log[j].uri);
    }
  }

  // ---- Ports ----

  /** The port of a URI, or the default one of its scheme. */
  function PortOf(u: Uri): Option<nat> {
    if u.port.Some? then u.port
    else if SchemeAndHost(u).0 == "http" then Some(80)
    else if SchemeAndHost(u).0 == "https" then Some(443)
    else None
  }

  /** Section 4.3.1 of RFC 9110: scheme, host and port make an origin. */
  predicate StandardOrigin(a: Uri, b: Uri) {
    SchemeAndHost(a) == SchemeAndHost(b) && PortOf(a) == PortOf(b)
  }

  /** The code leaves the port out. A caller's Authorization header reaches another origin in the standard's
      sense exactly when it goes to another port without having left scheme and host. */
  lemma CredentialsCrossPorts(env: Env, st: LoopState, replies: seq<Reply>, i: nat)
    requires i < |Log(env, st, replies)| && st.headers.authorization.Some? && st.uri == env.origin
    ensures var log := Log(env, st, replies);
            log[i].headers.authorization.Some? && !StandardOrigin(env.origin, log[i].uri)
            <==> StayedHome(env, log, i) && PortOf(log[i].uri) != PortOf(env.origin)
  {
    hide SchemeAndHost, PortOf;
    HeadersOfHop(env, st, replies, i);
    LogCons(env, st, replies);
    assert Log(env, st, replies)[0].uri == st.uri;
  }

  /** For instance, when port 80 of a host redirects to its port 8080. */
  lemma AnotherPort(resolve: Resolver, jar: JarCookies, headers: Headers, location: string)
    requires resolve(Uri(Some("http"), Some("h"), None, "/"), location)
             == Some(Uri(Some("http"), Some("h"), Some(8080), "/"))
    ensures var a, b := Uri(Some("http"), Some("h"), None, "/"), Uri(Some("http"), Some("h"), Some(8080), "/");
            var log := Log(Env(All, a, resolve, jar), LoopState(Get, a, headers, Reusable(Nothing), 0),
                           [Response(302, Some(location))]);
            |log| == 2 && log[1].uri == b && !StandardOrigin(a, b)
            && log[1].headers.authorization == headers.authorization
  {
    var a, b := Uri(Some("http"), Some("h"), None, "/"), Uri(Some("http"), Some("h"), Some(8080), "/");
    var env, st := Env(All, a, resolve, jar), LoopState(Get, a, headers, Reusable(Nothing), 0);
    assert Lower("http") == "http";
    OriginIsAnEquivalence(a, b, a);
    assert SameOrigin(a, b);
    hide SameOrigin;
    LogCons(env, st, [Response(302, Some(location))]);
    LogCons(env, TakeTurn(env, st, Response(302, Some(location))).next, []);
  }
}
