/**
  The request loop of the client (`send_inner` and `send` in `lib.rs`, `redirect.rs`, `retry.rs`) against an
  arbitrary server: one reply per request, and a transport failure when the script of replies ends.
  Resolving a Location against a URI is an arbitrary partial function.
 */
module Redirects {
  import opened Wrappers
  import opened Text

  datatype Method = Get | Head | Other(name: string)

  datatype Uri = Uri(scheme: Option<string>, host: Option<string>, port: Option<nat>, rest: string)

  /** The caller's headers: the two that carry credentials, and the others. */
  datatype Headers = Headers(authorization: Option<string>, cookie: Option<string>, others: seq<(string, string)>)

  /** The caller's body, or an empty one. */
  datatype Payload = Original | Nothing

  datatype OutgoingBody = Reusable(payload: Payload) | OneShot(slot: Option<Payload>)

  datatype Policy = NoRedirects | Limited(n: nat) | All

  datatype Reply = TransportFailure | Response(status: nat, location: Option<string>)

  /** A request as sent. */
  datatype Hop = Hop(verb: Method, uri: Uri, headers: Headers, body: Payload)

  datatype SendError = Transport | TimedOut | TooManyRedirects | NoLocation | BadLocation | BodyGone | RetriesExceeded

  type Resolver = (Uri, string) -> Option<Uri>

  /** The Cookie header that the cookie jar has for a request, if any: by the number of redirects so far, which
      stands for what the jar has learnt by then, and the URI. */
  type JarCookies = (nat, Uri) -> Option<string>

  // ---- redirect.rs ----

  function MaxRedirects(p: Policy): Option<nat> {
    match p
    case NoRedirects => Some(0)
    case Limited(n) => Some(n)
    case All => None
  }

  predicate IsRedirectStatus(status: nat) {
    status == 301 || status == 302 || status == 303 || status == 307 || status == 308
  }

  function RedirectMethod(status: nat, original: Method): Method {
    if 301 <= status <= 303 then (if original == Head then Head else Get) else original
  }

  predicate ShouldPreserveBody(status: nat) {
    status == 307 || status == 308
  }

  // ---- The pieces of send_inner ----

  predicate EqIgnoreAsciiCase(a: string, b: string) {
    Lower(a) == Lower(b)
  }

  function SchemeOf(u: Uri): string {
    if u.scheme.Some? then u.scheme.value else "http"
  }

  predicate SameOrigin(a: Uri, b: Uri) {
    EqIgnoreAsciiCase(SchemeOf(a), SchemeOf(b))
    && (match (a.host, b.host)
        case (Some(x), Some(y)) => EqIgnoreAsciiCase(x, y)
        case (None, None) => true
        case _ => false)
  }

  /** A Cookie header from the jar replaces the caller's on the one request. */
  function WithCookies(headers: Headers, cookies: Option<string>): Headers {
    if cookies.Some? then headers.(cookie := cookies) else headers
  }

  /** `take_for_hop`: what to send, and the body that is left. */
  function TakeForHop(body: OutgoingBody): Option<(Payload, OutgoingBody)> {
    match body
    case Reusable(p) => Some((p, body))
    case OneShot(Some(p)) => Some((p, OneShot(None)))
    case OneShot(None) => None
  }

  // ---- The redirect loop ----

  datatype Env = Env(policy: Policy, origin: Uri, resolve: Resolver, jar: JarCookies)

  datatype LoopState = LoopState(verb: Method, uri: Uri, headers: Headers, body: OutgoingBody, redirects: nat)

  /** The requests made, and the final status or error. */
  datatype Exchange = Exchange(log: seq<Hop>, result: Result<nat, SendError>)

  /** The state after a redirect to `target`. */
  function Redirected(env: Env, st: LoopState, left: OutgoingBody, status: nat, target: Uri): LoopState {
    LoopState(
      RedirectMethod(status, st.verb),
      target,
      if SameOrigin(env.origin, target) then st.headers else st.headers.(authorization := None, cookie := None),
      if ShouldPreserveBody(status) then left else Reusable(Nothing),
      st.redirects + 1)
  }

  /** One turn of the loop: it ends, with the requests it made, or goes on after one request. */
  datatype Turn = Finish(log: seq<Hop>, result: Result<nat, SendError>) | GoOn(hop: Hop, next: LoopState)

  function TakeTurn(env: Env, st: LoopState, reply: Reply): Turn {
    match TakeForHop(st.body)
    case None => Finish([], Err(BodyGone))
    case Some((payload, left)) =>
      var hop := Hop(st.verb, st.uri, WithCookies(st.headers, env.jar(st.redirects, st.uri)), payload);
      if reply.TransportFailure? then Finish([hop], Err(Transport))
      else
        var max := MaxRedirects(env.policy);
        if !IsRedirectStatus(reply.status) || max == Some(0) then Finish([hop], Ok(reply.status))
        else if max.Some? && st.redirects >= max.value then Finish([hop], Err(TooManyRedirects))
        else if reply.location.None? then Finish([hop], Err(NoLocation))
        else
          match env.resolve(st.uri, reply.location.value)
          case None => Finish([hop], Err(BadLocation))
          case Some(target) => GoOn(hop, Redirected(env, st, left, reply.status, target))
  }

  /** The next reply; after the script the server is gone. */
  function NextReply(replies: seq<Reply>): Reply {
    if replies == [] then TransportFailure else replies[0]
  }

  function Follow(env: Env, st: LoopState, replies: seq<Reply>): Exchange
    decreases |replies|
  {
    match TakeTurn(env, st, NextReply(replies))
    case Finish(log, result) => Exchange(log, result)
    case GoOn(hop, next) =>
      if replies == [] then Exchange([hop], Err(Transport))
      else
        var rest := Follow(env, next, replies[1..]);
        rest.(log := [hop] + rest.log)
  }

  lemma JoinLog(a: seq<Hop>, hop: Hop, b: seq<Hop>)
    ensures a + [hop] + b == a + ([hop] + b) && a + [] == a
  {
  }

  /** `send_inner`. */
  method SendInner(verb0: Method, uri0: Uri, body0: OutgoingBody, headers0: Headers, policy: Policy,
                   resolve: Resolver, jar: JarCookies, replies: seq<Reply>)
    returns (log: seq<Hop>, result: Result<nat, SendError>)
    ensures Exchange(log, result) ==
            Follow(Env(policy, uri0, resolve, jar), LoopState(verb0, uri0, headers0, body0, 0), replies)
  {
    var verb, uri, body, headers := verb0, uri0, body0, headers0;
    var maxRedirects := MaxRedirects(policy);
    var redirectCount, hops := 0, 0;
    log := [];
    ghost var env := Env(policy, uri0, resolve, jar);
    ghost var all := Follow(env, LoopState(verb0, uri0, headers0, body0, 0), replies);
    while true
      invariant hops <= |replies|
      invariant var rest := Follow(env, LoopState(verb, uri, headers, body, redirectCount), replies[hops..]);
                all == rest.(log := log + rest.log)
      decreases |replies| - hops
    {
      hide SameOrigin, RedirectMethod, ShouldPreserveBody, IsRedirectStatus;
      ghost var before, st, left := log, LoopState(verb, uri, headers, body, redirectCount), replies[hops..];
      JoinLog(log, Hop(verb, uri, headers, Nothing), []);
      var taken := TakeForHop(body);
      if taken.None? {
        return log, Err(BodyGone);
      }
      var hop := Hop(verb, uri, WithCookies(headers, jar(redirectCount, uri)), taken.value.0);
      log := log + [hop];
      body := taken.value.1;
      if hops == |replies| {
        assert left == [];
        return log, Err(Transport);
      }
      var reply := replies[hops];
      assert left[0] == reply && left[1..] == replies[hops + 1..];
      hops := hops + 1;
      if reply.TransportFailure? {
        return log, Err(Transport);
      }
      if !IsRedirectStatus(reply.status) {
        return log, Ok(reply.status);
      }
      if maxRedirects.Some? && (maxRedirects.value == 0 || redirectCount >= maxRedirects.value) {
        if maxRedirects.value == 0 {
          return log, Ok(reply.status);
        }
        return log, Err(TooManyRedirects);
      }
      redirectCount := redirectCount + 1;
      if reply.location.None? {
        return log, Err(NoLocation);
      }
      var target := resolve(uri, reply.location.value);
      if target.None? {
        return log, Err(BadLocation);
      }
      if !SameOrigin(uri0, target.value) {
        headers := headers.(authorization := None, cookie := None);
      }
      verb := RedirectMethod(reply.status, verb);
      if !ShouldPreserveBody(reply.status) {
        body := Reusable(Nothing);
      }
      uri := target.value;
      assert TakeTurn(env, st, reply) == GoOn(hop, LoopState(verb, uri, headers, body, redirectCount));
      JoinLog(before, hop, Follow(env, LoopState(verb, uri, headers, body, redirectCount), replies[hops..]).log);
    }
  }
}
