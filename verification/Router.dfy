/**
  Route patterns and route choice of `router.rs`: patterns and paths become lists of segments, a pattern
  is matched in a loop that fills in parameters, and a tree of routers picks a handler. Virtual hosts are
  left out. Whether the URI library accepts a rewritten sub-path is a parameter.
 */
module Router {
  import opened Wrappers
  import opened Text

  datatype Segment = Literal(text: string) | Param(name: string) | Wildcard(name: string)

  type Params = map<string, string>

  function NonEmpty(pieces: seq<string>): seq<string> {
    if pieces == [] then []
    else (if pieces[0] == "" then [] else [pieces[0]]) + NonEmpty(pieces[1..])
  }

  function PathSegments(path: string): seq<string> {
    NonEmpty(Split(path, '/'))
  }

  function ParseSegment(s: string): Segment {
    if ":" <= s then Param(s[1..])
    else if "*" <= s then Wildcard(s[1..])
    else Literal(s)
  }

  function ParsePattern(pattern: string): seq<Segment> {
    var pieces := PathSegments(pattern);
    seq(|pieces|, i requires 0 <= i < |pieces| => ParseSegment(pieces[i]))
  }

  function Joined(pieces: seq<string>): string {
    if pieces == [] then ""
    else if |pieces| == 1 then pieces[0]
    else pieces[0] + "/" + Joined(pieces[1..])
  }

  // ---- Matching one pattern ----

  /** The parameters after matching `segments` against `pieces`, starting from `params`. */
  function MatchFrom(segments: seq<Segment>, pieces: seq<string>, params: Params): Option<Params> {
    if segments == [] then (if pieces == [] then Some(params) else None)
    else if pieces == [] then None
    else
      match segments[0]
      case Literal(text) => if pieces[0] == text then MatchFrom(segments[1..], pieces[1..], params) else None
      case Param(name) => MatchFrom(segments[1..], pieces[1..], params[name := pieces[0]])
      case Wildcard(name) => Some(params[name := Joined(pieces)])
  }

  method MatchPattern(segments: seq<Segment>, path: string) returns (r: Option<Params>)
    ensures r == MatchFrom(segments, PathSegments(path), map[])
  {
    var pieces := PathSegments(path);
    var params: Params := map[];
    var at := 0;
    for i := 0 to |segments|
      invariant at == i <= |pieces|
      invariant MatchFrom(segments[i..], pieces[at..], params) == MatchFrom(segments, pieces, map[])
    {
      if at >= |pieces| {
        return None;
      }
      match segments[i] {
        case Literal(text) =>
          if pieces[at] != text {
            return None;
          }
        case Param(name) =>
          params := params[name := pieces[at]];
        case Wildcard(name) =>
          return Some(params[name := Joined(pieces[at..])]);
      }
      assert segments[i..][1..] == segments[i + 1..] && pieces[at..][1..] == pieces[at + 1..];
      at := at + 1;
    }
    r := if at == |pieces| then Some(params) else None;
  }

  /** How many segments stand in front of the first wildcard. */
  function Reach(segments: seq<Segment>): (n: nat)
    ensures n <= |segments|
    ensures n < |segments| ==> segments[n].Wildcard?
    ensures forall k :: 0 <= k < n ==> !segments[k].Wildcard?
  {
    if segments == [] || segments[0].Wildcard? then 0 else 1 + Reach(segments[1..])
  }

  /** The literals in front of the first wildcard are the path's segments at their positions, and the
      wildcard, if there is one, has at least one segment left to take. */
  predicate Fits(segments: seq<Segment>, pieces: seq<string>) {
    var n := Reach(segments);
    && (if n < |segments| then n < |pieces| else n == |pieces|)
    && (forall k :: 0 <= k < n && segments[k].Literal? ==> segments[k].text == pieces[k])
  }

  lemma FitsUnfold(segments: seq<Segment>, pieces: seq<string>)
    requires segments != [] && pieces != [] && !segments[0].Wildcard?
    ensures Fits(segments, pieces) <==>
            (segments[0].Literal? ==> segments[0].text == pieces[0]) && Fits(segments[1..], pieces[1..])
  {
    var n := Reach(segments);
    assert forall k :: 0 <= k < n - 1 ==> segments[1..][k] == segments[k + 1];
    if Fits(segments[1..], pieces[1..]) && (segments[0].Literal? ==> segments[0].text == pieces[0]) {
      forall k | 0 <= k < n && segments[k].Literal?
        ensures segments[k].text == pieces[k]
      {
        if k > 0 {
          assert segments[1..][k - 1] == segments[k];
          assert pieces[1..][k - 1] == pieces[k];
        }
      }
    }
  }

  /** A pattern matches exactly the paths whose segments fit it; what follows its first wildcard is ignored. */
  lemma {:induction false} MatchesExactly(segments: seq<Segment>, pieces: seq<string>, params: Params)
    ensures MatchFrom(segments, pieces, params).Some? <==> Fits(segments, pieces)
    decreases |segments|
  {
    if segments != [] && pieces != [] && !segments[0].Wildcard? {
      FitsUnfold(segments, pieces);
      MatchesExactly(segments[1..], pieces[1..],
                     if segments[0].Param? then params[segments[0].name := pieces[0]] else params);
    }
  }

  // ---- Segments and text ----

  predicate IsPiece(s: string) {
    s != "" && '/' !in s
  }

  predicate ArePieces(pieces: seq<string>) {
    forall p :: p in pieces ==> IsPiece(p)
  }

  lemma {:induction false} NonEmptyIsFilter(pieces: seq<string>)
    ensures forall p :: p in NonEmpty(pieces) <==> p in pieces && p != ""
    ensures "" !in pieces ==> NonEmpty(pieces) == pieces
  {
    if pieces != [] {
      NonEmptyIsFilter(pieces[1..]);
      assert pieces == [pieces[0]] + pieces[1..];
    }
  }

  /** A path's segments are never empty and hold no slash. */
  lemma SegmentsArePieces(path: string)
    ensures ArePieces(PathSegments(path))
  {
    SplitPiecesAvoid(path, '/');
    NonEmptyIsFilter(Split(path, '/'));
  }

  lemma {:induction false} SplitJoined(pieces: seq<string>)
    requires pieces != [] && forall p :: p in pieces ==> '/' !in p
    ensures Split(Joined(pieces), '/') == pieces
  {
    hide Split;
    if |pieces| == 1 {
      SplitOne(pieces[0], '/');
    } else {
      SplitJoined(pieces[1..]);
      SplitCons(pieces[0], '/', Joined(pieces[1..]));
      assert pieces == [pieces[0]] + pieces[1..];
    }
  }

  lemma {:induction false} JoinedSplit(s: string)
    ensures Joined(Split(s, '/')) == s
    decreases |s|
  {
    match Find(s, "/")
    case None =>
    case Some(i) =>
      JoinedSplit(s[i + 1..]);
      assert s[i..i + 1] == "/";
      assert Split(s, '/')[1..] == Split(s[i + 1..], '/');
      assert s == s[..i] + "/" + s[i + 1..];
  }

  lemma PathOfPieces(pieces: seq<string>)
    requires ArePieces(pieces)
    ensures PathSegments("/" + Joined(pieces)) == pieces
  {
    hide Split;
    assert "" + "/" + Joined(pieces) == "/" + Joined(pieces);
    SplitCons("", '/', Joined(pieces));
    if pieces == [] {
      SplitOne("", '/');
      assert Split("/" + Joined(pieces), '/') == ["", ""];
      assert NonEmpty(["", ""]) == NonEmpty([""]) == [];
    } else {
      SplitJoined(pieces);
      NonEmptyIsFilter(pieces);
      assert ([""] + pieces)[1..] == pieces;
    }
  }

  // ---- The parameters of a match ----

  predicate Binds(s: Segment, name: string) {
    !s.Literal? && s.name == name
  }

  /** The last segment, up to and including the first wildcard, that binds a name. */
  function LastBinder(segments: seq<Segment>, name: string): (r: Option<nat>)
    ensures r.Some? ==> r.value < |segments| && r.value <= Reach(segments) && Binds(segments[r.value], name)
    ensures forall k :: 0 <= k < |segments| && k <= Reach(segments) && Binds(segments[k], name) ==>
              r.Some? && k <= r.value
  {
    if segments == [] then None
    else
      var rest := if segments[0].Wildcard? then None else LastBinder(segments[1..], name);
      assert forall k :: 1 <= k < |segments| ==> segments[1..][k - 1] == segments[k];
      if rest.Some? then Some(rest.value + 1)
      else if Binds(segments[0], name) then Some(0)
      else None
  }

  /** What the segment at position `k` takes from the path. */
  function Taken(segments: seq<Segment>, pieces: seq<string>, k: nat): string
    requires k < |segments| && k < |pieces|
  {
    if segments[k].Wildcard? then Joined(pieces[k..]) else pieces[k]
  }

  /** The parameters of a match are those its segments bind, each with what its last binder took. */
  lemma {:induction false} ParamsExactly(segments: seq<Segment>, pieces: seq<string>, params: Params, name: string)
    requires Fits(segments, pieces)
    ensures MatchFrom(segments, pieces, params).Some?
    ensures var r := MatchFrom(segments, pieces, params).value;
            match LastBinder(segments, name)
            case Some(k) => k < |pieces| && name in r && r[name] == Taken(segments, pieces, k)
            case None => (name in r <==> name in params) && (name in r ==> r[name] == params[name])
    decreases |segments|
  {
    MatchesExactly(segments, pieces, params);
    if segments != [] && !segments[0].Wildcard? {
      FitsUnfold(segments, pieces);
      var next := if segments[0].Param? then params[segments[0].name := pieces[0]] else params;
      ParamsExactly(segments[1..], pieces[1..], next, name);
      match LastBinder(segments[1..], name)
      case Some(k) => assert pieces[1..][k..] == pieces[k + 1..];
      case None =>
    } else if segments != [] {
      assert pieces[0..] == pieces;
    }
  }

  // ---- Putting the parameters back ----

  function Lookup(params: Params, name: string): string {
    if name in params then params[name] else ""
  }

  /** The path segments a pattern stands for when its names have these values. */
  function Substituted(segments: seq<Segment>, params: Params): seq<string> {
    if segments == [] then []
    else
      match segments[0]
      case Literal(text) => [text] + Substituted(segments[1..], params)
      case Param(name) => [Lookup(params, name)] + Substituted(segments[1..], params)
      case Wildcard(name) => Split(Lookup(params, name), '/')
  }

  lemma {:induction false} SubstitutedAt(segments: seq<Segment>, params: Params)
    ensures var (s, n) := (Substituted(segments, params), Reach(segments));
            && n <= |s|
            && (n == |segments| ==> |s| == n)
            && (n < |segments| ==> s[n..] == Split(Lookup(params, segments[n].name), '/'))
            && forall k :: 0 <= k < n ==>
                 s[k] == if segments[k].Literal? then segments[k].text else Lookup(params, segments[k].name)
  {
    if segments != [] && !segments[0].Wildcard? {
      SubstitutedAt(segments[1..], params);
      var s, n := Substituted(segments, params), Reach(segments);
      assert s[1..] == Substituted(segments[1..], params);
      assert s[n..] == s[1..][n - 1..];
      forall k | 0 <= k < n
        ensures s[k] == if segments[k].Literal? then segments[k].text else Lookup(params, segments[k].name)
      {
        if k > 0 {
          assert s[1..][k - 1] == s[k] && segments[1..][k - 1] == segments[k];
        }
      }
    }
  }

  /** Every parameter in front of the wildcard took the same text as the last binder of its name. */
  predicate Consistent(segments: seq<Segment>, pieces: seq<string>)
    requires Fits(segments, pieces)
  {
    forall k :: 0 <= k < Reach(segments) && segments[k].Param? ==>
      var last := LastBinder(segments, segments[k].name).value;
      pieces[k] == Taken(segments, pieces, last)
  }

  /** No two of the binding segments share a name. */
  predicate DistinctNames(segments: seq<Segment>) {
    forall i, j :: 0 <= i < j < |segments| && !segments[i].Literal? && !segments[j].Literal? ==>
      segments[i].name != segments[j].name
  }

  lemma DistinctIsConsistent(segments: seq<Segment>, pieces: seq<string>)
    requires Fits(segments, pieces) && DistinctNames(segments)
    ensures Consistent(segments, pieces)
  {
  }

  lemma ParamPutBack(segments: seq<Segment>, pieces: seq<string>, params: Params, k: nat)
    requires Fits(segments, pieces) && MatchFrom(segments, pieces, map[]) == Some(params)
    requires k < |segments| && k <= Reach(segments) && !segments[k].Literal?
    ensures var last := LastBinder(segments, segments[k].name);
            last.Some? && k <= last.value < |pieces| && (segments[k].Wildcard? ==> last.value == k)
            && Lookup(params, segments[k].name) == Taken(segments, pieces, last.value)
  {
    hide MatchFrom, Taken;
    assert Binds(segments[k], segments[k].name);
    ParamsExactly(segments, pieces, map[], segments[k].name);
  }

  /** The text that replaces the wildcard splits into the segments it took. */
  lemma WildcardPutBack(segments: seq<Segment>, pieces: seq<string>, params: Params)
    requires Fits(segments, pieces) && ArePieces(pieces) && MatchFrom(segments, pieces, map[]) == Some(params)
    ensures var (s, n) := (Substituted(segments, params), Reach(segments));
            n <= |s| && s[n..] == pieces[n..]
  {
    hide MatchFrom, Substituted, Split, Joined;
    SubstitutedAt(segments, params);
    var n := Reach(segments);
    if n < |segments| {
      ParamPutBack(segments, pieces, params, n);
      assert forall p :: p in pieces[n..] ==> p in pieces;
      SplitJoined(pieces[n..]);
    }
  }

  /** Substituting the parameters of a match rebuilds the path's segments exactly when a repeated name took
      the same text each time. */
  lemma RebuildsExactly(segments: seq<Segment>, pieces: seq<string>, params: Params)
    requires Fits(segments, pieces) && ArePieces(pieces) && MatchFrom(segments, pieces, map[]) == Some(params)
    ensures Substituted(segments, params) == pieces <==> Consistent(segments, pieces)
  {
    var s, n := Substituted(segments, params), Reach(segments);
    SubstitutedAt(segments, params);
    WildcardPutBack(segments, pieces, params);
    hide MatchFrom, Substituted, Split, Taken;
    forall k | 0 <= k < n && segments[k].Param?
      ensures s[k] == Taken(segments, pieces, LastBinder(segments, segments[k].name).value)
    {
      ParamPutBack(segments, pieces, params, k);
    }
    assert s == s[..n] + s[n..] && pieces == pieces[..n] + pieces[n..];
    if Consistent(segments, pieces) {
      assert s[..n] == pieces[..n];
    }
  }

  /** Literals as a pattern text can hold them. */
  predicate WellFormed(segments: seq<Segment>) {
    forall k :: 0 <= k < |segments| && segments[k].Literal? ==> IsPiece(segments[k].text)
  }

  lemma ParsedIsWellFormed(pattern: string)
    ensures WellFormed(ParsePattern(pattern))
  {
    SegmentsArePieces(pattern);
  }

  /** How `Display` shows one segment, without the slash in front of it. */
  function SegmentText(s: Segment): string {
    match s
    case Literal(text) => text
    case Param(name) => ":" + name
    case Wildcard(name) => "*" + name
  }

  function SegmentTexts(segments: seq<Segment>): (r: seq<string>)
    ensures |r| == |segments|
  {
    seq(|segments|, i requires 0 <= i < |segments| => SegmentText(segments[i]))
  }

  /** Segments that a pattern can have: names hold no slash, and a literal is not empty and starts with neither a colon
      nor a star. */
  predicate Showable(segments: seq<Segment>) {
    forall k :: 0 <= k < |segments| ==>
      if segments[k].Literal? then IsPiece(segments[k].text) && segments[k].text[0] !in {':', '*'}
      else '/' !in segments[k].name
  }

  /** A pattern is read back from the way it is shown, a colon for a parameter and a star for a wildcard, exactly when
      it is one that a pattern text can say; and every parsed pattern is. */
  lemma PatternReadsBack(segments: seq<Segment>, pattern: string)
    ensures ParsePattern("/" + Joined(SegmentTexts(segments))) == segments <==> Showable(segments)
    ensures Showable(ParsePattern(pattern))
  {
    ParsedIsShowable(pattern);
    ParsedIsShowable("/" + Joined(SegmentTexts(segments)));
    if Showable(segments) {
      var texts := SegmentTexts(segments);
      forall t | t in texts
        ensures IsPiece(t)
      {
        var k :| 0 <= k < |texts| && texts[k] == t;
        assert t == SegmentText(segments[k]);
      }
      hide PathSegments, Joined;
      PathOfPieces(texts);
      forall k | 0 <= k < |segments|
        ensures ParseSegment(texts[k]) == segments[k]
      {
        SegmentReadsBack(segments[k]);
      }
    }
  }

  lemma SegmentReadsBack(s: Segment)
    requires s.Literal? ==> s.text != "" && s.text[0] !in {':', '*'}
    ensures ParseSegment(SegmentText(s)) == s
  {
    var t := SegmentText(s);
    assert t[0] == (match s case Literal(text) => text[0] case Param(_) => ':' case Wildcard(_) => '*');
    assert (":" <= t ==> t[0] == ":"[0]) && ("*" <= t ==> t[0] == "*"[0]);
    if !s.Literal? {
      assert t[1..] == s.name;
    }
  }

  lemma ParsedIsShowable(pattern: string)
    ensures Showable(ParsePattern(pattern))
  {
    SegmentsArePieces(pattern);
    hide PathSegments;
    var pieces := PathSegments(pattern);
    forall k | 0 <= k < |pieces|
      ensures IsPiece(pieces[k])
    {
      assert pieces[k] in pieces;
    }
  }

  /** Values that a path can carry: one segment for a parameter, segments between slashes for a wildcard. */
  predicate Fillable(segments: seq<Segment>, values: Params) {
    forall k :: 0 <= k < |segments| && k <= Reach(segments) && !segments[k].Literal? ==>
      && segments[k].name in values
      && (if segments[k].Param? then IsPiece(values[segments[k].name])
          else ArePieces(Split(values[segments[k].name], '/')))
  }

  lemma FilledFits(segments: seq<Segment>, values: Params)
    requires WellFormed(segments) && Fillable(segments, values)
    ensures Fits(segments, Substituted(segments, values)) && ArePieces(Substituted(segments, values))
  {
    var s, n := Substituted(segments, values), Reach(segments);
    SubstitutedAt(segments, values);
    hide Substituted, Split;
    forall k | 0 <= k < |s|
      ensures IsPiece(s[k])
    {
      if n <= k {
        assert s[k] == s[n..][k - n];
        assert s[n..][k - n] in s[n..];
      }
    }
  }

  /** Filling a pattern in with any such values gives a path that it matches, with those values. */
  lemma FilledPathMatches(segments: seq<Segment>, values: Params, name: string)
    requires WellFormed(segments) && Fillable(segments, values)
    ensures var path := "/" + Joined(Substituted(segments, values));
            var r := MatchFrom(segments, PathSegments(path), map[]);
            r.Some? && (name in r.value <==> LastBinder(segments, name).Some?)
            && (name in r.value ==> r.value[name] == values[name])
  {
    var s, n := Substituted(segments, values), Reach(segments);
    FilledFits(segments, values);
    PathOfPieces(s);
    ParamsExactly(segments, s, map[], name);
    SubstitutedAt(segments, values);
    if LastBinder(segments, name).Some? {
      var k := LastBinder(segments, name).value;
      if segments[k].Wildcard? {
        assert k == n;
        JoinedSplit(values[name]);
      }
    }
  }

  // ---- A tree of routers ----

  datatype Route = Route(verb: string, segments: seq<Segment>, handler: nat)

  datatype Mount = Mount(prefix: string, router: Tree)

  datatype Tree = Tree(routes: seq<Route>, nested: seq<Mount>)

  datatype Choice = Handle(handler: nat, params: Params) | MethodNotAllowed | NotFound | BadUri

  function WithoutEndSlashes(prefix: string): string {
    if prefix != "" && prefix[|prefix| - 1] == '/' then WithoutEndSlashes(prefix[..|prefix| - 1]) else prefix
  }

  /** `Router::nest`. */
  function Nest(tree: Tree, prefix: string, sub: Tree): Tree {
    tree.(nested := tree.nested + [Mount(WithoutEndSlashes(prefix), sub)])
  }

  /** The loop over a router's own routes. */
  function Scan(routes: seq<Route>, verb: string, pieces: seq<string>, pathMatched: bool): Choice {
    if routes == [] then (if pathMatched then MethodNotAllowed else NotFound)
    else
      match MatchFrom(routes[0].segments, pieces, map[])
      case Some(params) =>
        if routes[0].verb == verb then Handle(routes[0].handler, params) else Scan(routes[1..], verb, pieces, true)
      case None => Scan(routes[1..], verb, pieces, pathMatched)
  }

  method ScanRoutes(routes: seq<Route>, verb: string, path: string) returns (r: Choice)
    ensures r == Scan(routes, verb, PathSegments(path), false)
  {
    var pathMatched := false;
    for i := 0 to |routes|
      invariant Scan(routes[i..], verb, PathSegments(path), pathMatched)
                == Scan(routes, verb, PathSegments(path), false)
    {
      assert routes[i..][0] == routes[i] && routes[i..][1..] == routes[i + 1..];
      var params := MatchPattern(routes[i].segments, path);
      if params.Some? {
        pathMatched := true;
        if routes[i].verb == verb {
          return Handle(routes[i].handler, params.value);
        }
      }
    }
    r := if pathMatched then MethodNotAllowed else NotFound;
  }

  /** The first route registered for both path and verb is chosen; without one, a route for the path under
      another verb makes it 405, and only then is it a miss. */
  lemma {:induction false} ScanChooses(routes: seq<Route>, verb: string, pieces: seq<string>)
    ensures match Scan(routes, verb, pieces, false)
            case Handle(handler, params) =>
              exists i :: 0 <= i < |routes| && Serves(routes[i], verb, pieces)
                          && handler == routes[i].handler
                          && MatchFrom(routes[i].segments, pieces, map[]) == Some(params)
                          && forall j :: 0 <= j < i ==> !Serves(routes[j], verb, pieces)
            case MethodNotAllowed =>
              && (forall j :: 0 <= j < |routes| ==> !Serves(routes[j], verb, pieces))
              && exists j :: 0 <= j < |routes| && Fits(routes[j].segments, pieces)
            case NotFound => forall j :: 0 <= j < |routes| ==> !Fits(routes[j].segments, pieces)
            case BadUri => false
  {
    ScanFrom(routes, 0, verb, pieces, false);
  }

  predicate Serves(route: Route, verb: string, pieces: seq<string>) {
    route.verb == verb && Fits(route.segments, pieces)
  }

  lemma {:induction false} ScanFrom(routes: seq<Route>, from: nat, verb: string, pieces: seq<string>, pathMatched: bool)
    requires from <= |routes|
    ensures match Scan(routes[from..], verb, pieces, pathMatched)
            case Handle(handler, params) =>
              exists i :: from <= i < |routes| && Serves(routes[i], verb, pieces)
                          && handler == routes[i].handler
                          && MatchFrom(routes[i].segments, pieces, map[]) == Some(params)
                          && forall j :: from <= j < i ==> !Serves(routes[j], verb, pieces)
            case MethodNotAllowed =>
              && (forall j :: from <= j < |routes| ==> !Serves(routes[j], verb, pieces))
              && (pathMatched || exists j :: from <= j < |routes| && Fits(routes[j].segments, pieces))
            case NotFound => !pathMatched && forall j :: from <= j < |routes| ==> !Fits(routes[j].segments, pieces)
            case BadUri => false
    decreases |routes| - from
  {
    hide Fits;
    if from < |routes| {
      assert routes[from..][0] == routes[from] && routes[from..][1..] == routes[from + 1..];
      MatchesExactly(routes[from].segments, pieces, map[]);
      ScanFrom(routes, from + 1, verb, pieces, pathMatched || Fits(routes[from].segments, pieces));
    }
  }

  // ---- Choosing in the tree ----

  /** The first mount whose prefix the path starts with. */
  function FirstMount(nested: seq<Mount>, path: string): (r: Option<nat>)
    ensures match r
            case Some(i) =>
              i < |nested| && nested[i].prefix <= path && forall j :: 0 <= j < i ==> !(nested[j].prefix <= path)
            case None => forall j :: 0 <= j < |nested| ==> !(nested[j].prefix <= path)
  {
    if nested == [] then None
    else if nested[0].prefix <= path then Some(0)
    else
      var r := FirstMount(nested[1..], path);
      assert forall j :: 1 <= j < |nested| ==> nested[1..][j - 1] == nested[j];
      match r
      case Some(i) => Some(i + 1)
      case None => None
  }

  function SubPath(prefix: string, path: string): string
    requires prefix <= path
  {
    if prefix == path then "/" else path[|prefix|..]
  }

  /** What `dispatch_inner` does: a mount is entered with a URI rebuilt from the sub-path, or fails when the
      URI library refuses it. */
  function Choose(accepts: string -> bool, tree: Tree, verb: string, path: string): Choice
    decreases tree
  {
    match FirstMount(tree.nested, path)
    case Some(i) =>
      var sub := SubPath(tree.nested[i].prefix, path);
      if accepts(sub) then Choose(accepts, tree.nested[i].router, verb, sub) else BadUri
    case None => Scan(tree.routes, verb, PathSegments(path), false)
  }

  /** What `resolve` reports: parameters, no parameters for a 405, or nothing. */
  function Report(choice: Choice): Option<Params> {
    match choice
    case Handle(_, params) => Some(params)
    case MethodNotAllowed => Some(map[])
    case NotFound => None
    case BadUri => None
  }

  function Resolved(tree: Tree, verb: string, path: string): Option<Params>
    decreases tree
  {
    match FirstMount(tree.nested, path)
    case Some(i) => Resolved(tree.nested[i].router, verb, SubPath(tree.nested[i].prefix, path))
    case None => Report(Scan(tree.routes, verb, PathSegments(path), false))
  }

  method Dispatch(accepts: string -> bool, tree: Tree, verb: string, path: string) returns (r: Choice)
    ensures r == Choose(accepts, tree, verb, path)
    decreases tree
  {
    hide Scan, PathSegments, FirstMount;
    for i := 0 to |tree.nested|
      invariant forall j :: 0 <= j < i ==> !(tree.nested[j].prefix <= path)
    {
      var prefix := tree.nested[i].prefix;
      if prefix <= path {
        var sub := path[|prefix|..];
        if sub == "" {
          sub := "/";
        }
        if !accepts(sub) {
          return BadUri;
        }
        r := Dispatch(accepts, tree.nested[i].router, verb, sub);
        return;
      }
    }
    r := ScanRoutes(tree.routes, verb, path);
  }

  method Resolve(tree: Tree, verb: string, path: string) returns (r: Option<Params>)
    ensures r == Resolved(tree, verb, path)
    decreases tree
  {
    hide Scan, PathSegments, FirstMount;
    for i := 0 to |tree.nested|
      invariant forall j :: 0 <= j < i ==> !(tree.nested[j].prefix <= path)
    {
      var prefix := tree.nested[i].prefix;
      if prefix <= path {
        var stripped := path[|prefix|..];
        r := Resolve(tree.nested[i].router, verb, if stripped == "" then "/" else stripped);
        return;
      }
    }
    var choice := ScanRoutes(tree.routes, verb, path);
    r := Report(choice);
  }

  /** The URI library accepts the sub-path of every mount on the way down. */
  predicate EveryHopAccepted(accepts: string -> bool, tree: Tree, path: string)
    decreases tree
  {
    match FirstMount(tree.nested, path)
    case Some(i) =>
      var sub := SubPath(tree.nested[i].prefix, path);
      accepts(sub) && EveryHopAccepted(accepts, tree.nested[i].router, sub)
    case None => true
  }

  /** Introspection and dispatch agree at any depth exactly when no hop is refused: a refused one is an
      error of dispatch that introspection does not know. Otherwise introspection gives the parameters of the
      handler that is dispatched to, none for a 405, and nothing for a miss. */
  lemma {:induction false} ResolveAgreesWithDispatch(accepts: string -> bool, tree: Tree, verb: string, path: string)
    ensures Choose(accepts, tree, verb, path) != BadUri <==> EveryHopAccepted(accepts, tree, path)
    ensures EveryHopAccepted(accepts, tree, path) ==>
              Resolved(tree, verb, path) == match Choose(accepts, tree, verb, path)
                                            case Handle(_, params) => Some(params)
                                            case MethodNotAllowed => Some(map[])
                                            case _ => None
    decreases tree
  {
    match FirstMount(tree.nested, path)
    case Some(i) =>
      ResolveAgreesWithDispatch(accepts, tree.nested[i].router, verb, SubPath(tree.nested[i].prefix, path));
    case None => ScanChooses(tree.routes, verb, PathSegments(path));
  }

  /** Which router answers: of the mounts whose prefix the path starts with the first, and for what is left of the
      path, "/" if that is nothing; without one the routes of the tree itself. */
  lemma MountsInOrder(accepts: string -> bool, tree: Tree, verb: string, path: string, i: nat)
    requires i <= |tree.nested| && forall j :: 0 <= j < i ==> !(tree.nested[j].prefix <= path)
    requires i < |tree.nested| ==> tree.nested[i].prefix <= path
    ensures if i < |tree.nested| then
              var m := tree.nested[i];
              var sub := if path == m.prefix then "/" else path[|m.prefix|..];
              && Choose(accepts, tree, verb, path) ==
                 (if accepts(sub) then Choose(accepts, m.router, verb, sub) else BadUri)
              && Resolved(tree, verb, path) == Resolved(m.router, verb, sub)
            else Choose(accepts, tree, verb, path) == Scan(tree.routes, verb, PathSegments(path), false)
  {
    hide Scan, PathSegments;
    var first := FirstMount(tree.nested, path);
    assert first == if i < |tree.nested| then Some(i) else None;
    hide FirstMount;
  }

  /** Mounting puts a router behind the others, under its prefix without the slashes at the end. */
  lemma {:induction false} NestExactly(tree: Tree, prefix: string, sub: Tree, slashes: string)
    requires prefix == "" || prefix[|prefix| - 1] != '/'
    requires forall i :: 0 <= i < |slashes| ==> slashes[i] == '/'
    ensures Nest(tree, prefix + slashes, sub) == Tree(tree.routes, tree.nested + [Mount(prefix, sub)])
    decreases |slashes|
  {
    var whole := prefix + slashes;
    if slashes == "" {
      assert whole == prefix;
    } else {
      var fewer := slashes[..|slashes| - 1];
      assert whole[|whole| - 1] == '/' && whole[..|whole| - 1] == prefix + fewer;
      NestExactly(tree, prefix, sub, fewer);
    }
  }

  /** Every sub-path on the way down starts with a slash. */
  predicate HopsStartWithSlash(tree: Tree, path: string)
    decreases tree
  {
    match FirstMount(tree.nested, path)
    case Some(i) =>
      var sub := SubPath(tree.nested[i].prefix, path);
      "/" <= sub && HopsStartWithSlash(tree.nested[i].router, sub)
    case None => true
  }

  /** A URI library that accepts a path also accepts the rest of it from any slash on. */
  ghost predicate ClosedUnderSuffixes(accepts: string -> bool) {
    && accepts("/")
    && forall p: string, i: nat :: i <= |p| && accepts(p) && "/" <= p[i..] ==> accepts(p[i..])
  }

  /** So they agree whenever each prefix ends where a path segment does, for every path that a URI can have. */
  lemma {:induction false} AgreeAtSegmentEnds(accepts: string -> bool, tree: Tree, verb: string, path: string)
    requires ClosedUnderSuffixes(accepts) && accepts(path)
    requires HopsStartWithSlash(tree, path)
    ensures Choose(accepts, tree, verb, path) != BadUri
    ensures Resolved(tree, verb, path) == match Choose(accepts, tree, verb, path)
                                          case Handle(_, params) => Some(params)
                                          case MethodNotAllowed => Some(map[])
                                          case _ => None
    decreases tree
  {
    match FirstMount(tree.nested, path)
    case Some(i) => AgreeAtSegmentEnds(accepts, tree.nested[i].router, verb, SubPath(tree.nested[i].prefix, path));
    case None => ScanChooses(tree.routes, verb, PathSegments(path));
  }

  // ---- Mounting is prefixing ----

  function AsLiterals(pieces: seq<string>): seq<Segment> {
    if pieces == [] then [] else [Literal(pieces[0])] + AsLiterals(pieces[1..])
  }

  /** The routes of a mounted router, each pattern behind the prefix's segments. */
  function Prefixed(pieces: seq<string>, routes: seq<Route>): seq<Route> {
    if routes == [] then []
    else
      [Route(routes[0].verb, AsLiterals(pieces) + routes[0].segments, routes[0].handler)]
      + Prefixed(pieces, routes[1..])
  }

  lemma AsLiteralsUnfold(pieces: seq<string>)
    requires pieces != []
    ensures AsLiterals(pieces) == [Literal(pieces[0])] + AsLiterals(pieces[1..])
  {
  }

  lemma LiteralConsumes(piece: string, segments: seq<Segment>, pieces: seq<string>, params: Params)
    ensures MatchFrom([Literal(piece)] + segments, [piece] + pieces, params) == MatchFrom(segments, pieces, params)
  {
    assert ([Literal(piece)] + segments)[1..] == segments && ([piece] + pieces)[1..] == pieces;
  }

  lemma {:induction false} LiteralsConsume(pieces: seq<string>, segments: seq<Segment>, rest: seq<string>,
                                           params: Params)
    ensures MatchFrom(AsLiterals(pieces) + segments, pieces + rest, params) == MatchFrom(segments, rest, params)
  {
    if pieces == [] {
      assert AsLiterals(pieces) + segments == segments && pieces + rest == rest;
    } else {
      LiteralsConsume(pieces[1..], segments, rest, params);
      hide AsLiterals, MatchFrom;
      LiteralConsumes(pieces[0], AsLiterals(pieces[1..]) + segments, pieces[1..] + rest, params);
      AsLiteralsUnfold(pieces);
      JoinThree([Literal(pieces[0])], AsLiterals(pieces[1..]), segments);
      JoinThree([pieces[0]], pieces[1..], rest);
      assert pieces == [pieces[0]] + pieces[1..];
    }
  }

  lemma {:induction false} PrefixedScan(pieces: seq<string>, routes: seq<Route>, verb: string, rest: seq<string>,
                                        pathMatched: bool)
    ensures Scan(Prefixed(pieces, routes), verb, pieces + rest, pathMatched) == Scan(routes, verb, rest, pathMatched)
  {
    hide MatchFrom, AsLiterals;
    if routes != [] {
      LiteralsConsume(pieces, routes[0].segments, rest, map[]);
      PrefixedScan(pieces, routes[1..], verb, rest, true);
      PrefixedScan(pieces, routes[1..], verb, rest, pathMatched);
      assert Prefixed(pieces, routes)[1..] == Prefixed(pieces, routes[1..]);
    }
  }

  lemma {:induction false} SplitJoin(a: string, b: string)
    ensures Split(a + "/" + b, '/') == Split(a, '/') + Split(b, '/')
    decreases |a|
  {
    hide Split, Find;
    if '/' !in a {
      SplitCons(a, '/', b);
      SplitOne(a, '/');
    } else {
      AroundFirst(a, '/');
      var i := Find(a, "/").value;
      var front, back := a[..i], a[i + 1..];
      SplitJoin(back, b);
      SplitCons(front, '/', back);
      SplitCons(front, '/', back + "/" + b);
      assert a + "/" + b == front + "/" + (back + "/" + b);
      JoinThree([front], Split(back, '/'), Split(b, '/'));
    }
  }

  lemma {:induction false} NonEmptyJoin(a: seq<string>, b: seq<string>)
    ensures NonEmpty(a + b) == NonEmpty(a) + NonEmpty(b)
  {
    if a == [] {
      assert a + b == b;
    } else {
      NonEmptyJoin(a[1..], b);
      assert (a + b)[1..] == a[1..] + b;
      JoinThree(if a[0] == "" then [] else [a[0]], NonEmpty(a[1..]), NonEmpty(b));
    }
  }

  lemma SegmentsJoin(a: string, b: string)
    ensures PathSegments(a + "/" + b) == PathSegments(a) + PathSegments(b)
  {
    SplitJoin(a, b);
    NonEmptyJoin(Split(a, '/'), Split(b, '/'));
  }

  lemma SegmentsOfSubPath(prefix: string, path: string)
    requires prefix <= path && "/" <= SubPath(prefix, path)
    ensures PathSegments(path) == PathSegments(prefix) + PathSegments(SubPath(prefix, path))
  {
    hide PathSegments;
    var sub := SubPath(prefix, path);
    var rest := sub[1..];
    NoSegments();
    assert sub == "" + "/" + rest;
    SegmentsJoin("", rest);
    if prefix != path {
      assert path == prefix + "/" + rest;
      SegmentsJoin(prefix, rest);
    }
  }

  lemma NoSegments()
    ensures PathSegments("") == []
  {
    SplitOne("", '/');
    assert NonEmpty([""]) == [];
  }

  /** One list of routes for a whole tree: those of the mounts in order, each pattern behind its prefix, and
      then the tree's own. */
  function Flat(tree: Tree): seq<Route>
    decreases tree, |tree.nested| + 1
  {
    FlatFrom(tree, 0)
  }

  function FlatFrom(tree: Tree, i: nat): seq<Route>
    requires i <= |tree.nested|
    decreases tree, |tree.nested| - i
  {
    if i == |tree.nested| then tree.routes else Mounted(tree, i) + FlatFrom(tree, i + 1)
  }

  function Mounted(tree: Tree, i: nat): seq<Route>
    requires i < |tree.nested|
    decreases tree, 0
  {
    Prefixed(PathSegments(tree.nested[i].prefix), Flat(tree.nested[i].router))
  }

  function FlatUpTo(tree: Tree, i: nat): seq<Route>
    requires i <= |tree.nested|
  {
    if i == 0 then [] else FlatUpTo(tree, i - 1) + Mounted(tree, i - 1)
  }

  /** The flat list, cut around the routes of the router that a path leads to. */
  datatype Cut = Cut(before: seq<Route>, entered: seq<Route>, behind: seq<Route>)

  function CutAt(tree: Tree, path: string): Cut
    decreases tree
  {
    match FirstMount(tree.nested, path)
    case Some(i) =>
      var m := tree.nested[i];
      var inner, pieces := CutAt(m.router, SubPath(m.prefix, path)), PathSegments(m.prefix);
      Cut(FlatUpTo(tree, i) + Prefixed(pieces, inner.before), Prefixed(pieces, inner.entered),
          Prefixed(pieces, inner.behind) + FlatFrom(tree, i + 1))
    case None => Cut(FlatUpTo(tree, |tree.nested|), tree.routes, [])
  }

  lemma {:induction false} FlatSplits(tree: Tree, i: nat)
    requires i <= |tree.nested|
    ensures Flat(tree) == FlatUpTo(tree, i) + FlatFrom(tree, i)
  {
    if i == 0 {
      assert [] + FlatFrom(tree, 0) == FlatFrom(tree, 0);
    } else {
      FlatSplits(tree, i - 1);
      JoinThree(FlatUpTo(tree, i - 1), Mounted(tree, i - 1), FlatFrom(tree, i));
    }
  }

  lemma {:induction false} PrefixedJoin(pieces: seq<string>, a: seq<Route>, b: seq<Route>)
    ensures Prefixed(pieces, a + b) == Prefixed(pieces, a) + Prefixed(pieces, b)
  {
    hide AsLiterals;
    if a == [] {
      assert a + b == b;
    } else {
      PrefixedJoin(pieces, a[1..], b);
      assert (a + b)[1..] == a[1..] + b;
      JoinThree([Route(a[0].verb, AsLiterals(pieces) + a[0].segments, a[0].handler)], Prefixed(pieces, a[1..]),
                Prefixed(pieces, b));
    }
  }

  /** Nothing is lost or moved by the cut. */
  lemma {:induction false} CutIsFlat(tree: Tree, path: string)
    ensures var c := CutAt(tree, path); Flat(tree) == c.before + c.entered + c.behind
    decreases tree
  {
    hide Prefixed, PathSegments;
    match FirstMount(tree.nested, path)
    case Some(i) =>
      var m := tree.nested[i];
      var sub, pieces := SubPath(m.prefix, path), PathSegments(m.prefix);
      CutIsFlat(m.router, sub);
      var inner := CutAt(m.router, sub);
      PrefixedJoin(pieces, inner.before + inner.entered, inner.behind);
      PrefixedJoin(pieces, inner.before, inner.entered);
      FlatSplits(tree, i);
      JoinFive(FlatUpTo(tree, i), Prefixed(pieces, inner.before), Prefixed(pieces, inner.entered),
               Prefixed(pieces, inner.behind), FlatFrom(tree, i + 1));
    case None =>
      FlatSplits(tree, |tree.nested|);
  }

  lemma JoinFive<T>(a: seq<T>, b: seq<T>, c: seq<T>, d: seq<T>, e: seq<T>)
    ensures (a + b) + c + (d + e) == a + (b + c + d + e)
  {
  }

  /** The path with a slash put behind each prefix on the way down. */
  function Respelled(tree: Tree, path: string): string
    decreases tree
  {
    match FirstMount(tree.nested, path)
    case Some(i) =>
      var m := tree.nested[i];
      m.prefix + "/" + Respelled(m.router, SubPath(m.prefix, path))
    case None => path
  }

  /** That changes nothing where each prefix ends with a path segment. */
  lemma {:induction false} RespelledAtSegmentEnds(tree: Tree, path: string)
    requires HopsStartWithSlash(tree, path)
    ensures PathSegments(Respelled(tree, path)) == PathSegments(path)
    decreases tree
  {
    hide PathSegments;
    match FirstMount(tree.nested, path)
    case Some(i) =>
      var m := tree.nested[i];
      var sub := SubPath(m.prefix, path);
      RespelledAtSegmentEnds(m.router, sub);
      SegmentsJoin(m.prefix, Respelled(m.router, sub));
      SegmentsOfSubPath(m.prefix, path);
    case None =>
  }

  lemma {:induction false} EnteredAnswers(accepts: string -> bool, tree: Tree, verb: string, path: string)
    requires EveryHopAccepted(accepts, tree, path)
    ensures Choose(accepts, tree, verb, path) ==
            Scan(CutAt(tree, path).entered, verb, PathSegments(Respelled(tree, path)), false)
    decreases tree
  {
    hide PathSegments, Scan;
    match FirstMount(tree.nested, path)
    case Some(i) =>
      var m := tree.nested[i];
      var sub := SubPath(m.prefix, path);
      var rest := Respelled(m.router, sub);
      EnteredAnswers(accepts, m.router, verb, sub);
      SegmentsJoin(m.prefix, rest);
      PrefixedScan(PathSegments(m.prefix), CutAt(m.router, sub).entered, verb, PathSegments(rest), false);
    case None =>
  }

  ghost predicate AnyServes(routes: seq<Route>, verb: string, pieces: seq<string>) {
    exists r :: r in routes && Serves(r, verb, pieces)
  }

  ghost predicate AnyFits(routes: seq<Route>, pieces: seq<string>) {
    exists r :: r in routes && Fits(r.segments, pieces)
  }

  /** No route outside the router that the path leads to interferes: none in front of it serves the request;
      and if it has no route for the request itself, none behind it serves it either, and none makes a 405
      of a miss. */
  ghost predicate Undisturbed(c: Cut, verb: string, pieces: seq<string>) {
    && !AnyServes(c.before, verb, pieces)
    && (!AnyServes(c.entered, verb, pieces) ==>
          && !AnyServes(c.behind, verb, pieces)
          && (!AnyFits(c.entered, pieces) ==> !AnyFits(c.before, pieces) && !AnyFits(c.behind, pieces)))
  }

  /** Every registered route has a handler of its own. */
  predicate DistinctHandlers(routes: seq<Route>) {
    forall i, j :: 0 <= i < j < |routes| ==> routes[i].handler != routes[j].handler
  }

  /** Mounting is prefixing, up to interference: at any depth, a tree answers for a path as the one flat router,
      whose patterns carry the prefixes, does for the path with a slash behind each prefix; if, and with
      distinct handlers only if, no route outside the mount that is entered interferes. The two paths have the
      same segments when each prefix ends where a segment does. */
  lemma MountingIsPrefixing(accepts: string -> bool, tree: Tree, verb: string, path: string)
    requires EveryHopAccepted(accepts, tree, path)
    ensures var pieces := PathSegments(Respelled(tree, path));
            var same := Choose(accepts, tree, verb, path) == Scan(Flat(tree), verb, pieces, false);
            && (Undisturbed(CutAt(tree, path), verb, pieces) ==> same)
            && (same && DistinctHandlers(Flat(tree)) ==> Undisturbed(CutAt(tree, path), verb, pieces))
            && (HopsStartWithSlash(tree, path) ==> pieces == PathSegments(path))
  {
    hide Choose, Scan, PathSegments, Flat, CutAt, Undisturbed, DistinctHandlers, Respelled, HopsStartWithSlash;
    CutIsFlat(tree, path);
    EnteredAnswers(accepts, tree, verb, path);
    SameScanExactly(CutAt(tree, path), verb, PathSegments(Respelled(tree, path)));
    if HopsStartWithSlash(tree, path) {
      RespelledAtSegmentEnds(tree, path);
    }
  }

  lemma SameScanExactly(c: Cut, verb: string, pieces: seq<string>)
    ensures var all := c.before + c.entered + c.behind;
            var same := Scan(c.entered, verb, pieces, false) == Scan(all, verb, pieces, false);
            && (Undisturbed(c, verb, pieces) ==> same)
            && (same && DistinctHandlers(all) ==> Undisturbed(c, verb, pieces))
  {
    hide Scan, AnyServes, AnyFits, DistinctHandlers;
    var all := c.before + c.entered + c.behind;
    ScanJoin(c.before + c.entered, c.behind, verb, pieces, false);
    ScanJoin(c.before, c.entered, verb, pieces, false);
    AnyJoin(c.before, c.entered, verb, pieces);
    ScanKind(c.before, verb, pieces, false);
    ScanKind(c.entered, verb, pieces, false);
    ScanKind(c.entered, verb, pieces, AnyFits(c.before, pieces));
    ScanKind(c.behind, verb, pieces, AnyFits(c.before + c.entered, pieces));
    if AnyServes(c.entered, verb, pieces) {
      FlagIsForgotten(c.entered, verb, pieces, AnyFits(c.before, pieces));
    }
    if DistinctHandlers(all) {
      assert c.before + (c.entered + c.behind) == all;
      HandlersApart(c.before, c.entered + c.behind, all);
      assert forall j :: 0 <= j < |c.entered| ==> (c.entered + c.behind)[j] == c.entered[j];
      HandlersApart(c.before + c.entered, c.behind, all);
    }
  }

  lemma {:induction false} ScanJoin(a: seq<Route>, b: seq<Route>, verb: string, pieces: seq<string>, pathMatched: bool)
    ensures Scan(a + b, verb, pieces, pathMatched) ==
            if AnyServes(a, verb, pieces) then Scan(a, verb, pieces, pathMatched)
            else Scan(b, verb, pieces, pathMatched || AnyFits(a, pieces))
  {
    hide Fits;
    if a == [] {
      assert a + b == b;
    } else {
      assert (a + b)[1..] == a[1..] + b;
      MatchesExactly(a[0].segments, pieces, map[]);
      AnyCons(a, verb, pieces);
      hide AnyServes, AnyFits;
      ScanJoin(a[1..], b, verb, pieces, true);
      ScanJoin(a[1..], b, verb, pieces, pathMatched);
    }
  }

  lemma AnyCons(a: seq<Route>, verb: string, pieces: seq<string>)
    requires a != []
    ensures AnyServes(a, verb, pieces) <==> Serves(a[0], verb, pieces) || AnyServes(a[1..], verb, pieces)
    ensures AnyFits(a, pieces) <==> Fits(a[0].segments, pieces) || AnyFits(a[1..], pieces)
  {
    hide Fits, Serves;
    assert a == [a[0]] + a[1..];
  }

  lemma AnyJoin(a: seq<Route>, b: seq<Route>, verb: string, pieces: seq<string>)
    ensures AnyServes(a + b, verb, pieces) <==> AnyServes(a, verb, pieces) || AnyServes(b, verb, pieces)
    ensures AnyFits(a + b, pieces) <==> AnyFits(a, pieces) || AnyFits(b, pieces)
  {
    hide Fits, Serves;
  }

  /** What kind of answer a scan gives, and that a handler it gives is one of its own. */
  lemma {:induction false} ScanKind(routes: seq<Route>, verb: string, pieces: seq<string>, pathMatched: bool)
    ensures var r := Scan(routes, verb, pieces, pathMatched);
            if AnyServes(routes, verb, pieces) then
              r.Handle? && exists i :: 0 <= i < |routes| && routes[i].handler == r.handler
            else r == if pathMatched || AnyFits(routes, pieces) then MethodNotAllowed else NotFound
  {
    if routes != [] {
      hide Fits;
      MatchesExactly(routes[0].segments, pieces, map[]);
      AnyCons(routes, verb, pieces);
      hide AnyServes, AnyFits;
      ScanKind(routes[1..], verb, pieces, true);
      ScanKind(routes[1..], verb, pieces, pathMatched);
      assert forall i :: 0 <= i < |routes| - 1 ==> routes[1..][i] == routes[i + 1];
    }
  }

  lemma {:induction false} FlagIsForgotten(routes: seq<Route>, verb: string, pieces: seq<string>, pathMatched: bool)
    requires AnyServes(routes, verb, pieces)
    ensures Scan(routes, verb, pieces, pathMatched) == Scan(routes, verb, pieces, false)
  {
    hide Fits;
    MatchesExactly(routes[0].segments, pieces, map[]);
    AnyCons(routes, verb, pieces);
    if !Serves(routes[0], verb, pieces) {
      hide AnyServes;
      FlagIsForgotten(routes[1..], verb, pieces, true);
      FlagIsForgotten(routes[1..], verb, pieces, pathMatched);
    }
  }

  lemma HandlersApart(a: seq<Route>, b: seq<Route>, all: seq<Route>)
    requires all == a + b && DistinctHandlers(all)
    ensures forall i, j :: 0 <= i < |a| && 0 <= j < |b| ==> a[i].handler != b[j].handler
  {
    forall i, j | 0 <= i < |a| && 0 <= j < |b|
      ensures a[i].handler != b[j].handler
    {
      assert all[i] == a[i] && all[|a| + j] == b[j];
    }
  }

  /** For instance, a route beside a mount is not tried for a path below the mount, though its pattern fits. */
  lemma MountShadowsRoute(accepts: string -> bool, handler: nat)
    requires accepts("/b")
    ensures var tree := Tree([Route("GET", [Wildcard("rest")], handler)], [Mount("/a", Tree([], []))]);
            Choose(accepts, tree, "GET", "/a/b") == NotFound
            && Scan(Flat(tree), "GET", PathSegments("/a/b"), false).Handle?
  {
    hide PathSegments, Split, Joined, MatchFrom;
    var own, inner := Route("GET", [Wildcard("rest")], handler), Tree([], []);
    var tree := Tree([own], [Mount("/a", inner)]);
    assert FirstMount(tree.nested, "/a/b") == Some(0) && SubPath("/a", "/a/b") == "/b";
    assert Choose(accepts, inner, "GET", "/b") == NotFound;
    OneRouteIsFlat(own, inner);
    OwnRouteFits(own);
  }

  /** For instance, a prefix that ends inside a segment: the path /ab is answered by a route b mounted at /a,
      whose flat pattern /a/b does not fit it. */
  lemma MountInsideSegment(accepts: string -> bool, handler: nat)
    requires accepts("b")
    ensures var tree := Tree([], [Mount("/a", Tree([Route("GET", [Literal("b")], handler)], []))]);
            && Choose(accepts, tree, "GET", "/ab") == Handle(handler, map[])
            && Scan(Flat(tree), "GET", PathSegments("/ab"), false) == NotFound
  {
    hide PathSegments, Split, Joined, MatchFrom;
    var route := Route("GET", [Literal("b")], handler);
    var inner := Tree([route], []);
    var tree := Tree([], [Mount("/a", inner)]);
    assert FirstMount(tree.nested, "/ab") == Some(0) && SubPath("/a", "/ab") == "b";
    OneSegment("b");
    OneSegment("ab");
    OneSegment("a");
    assert "/" + "ab" == "/ab" && "/" + "a" == "/a";
    MatchOfLiterals();
    ScanOfOne(route, ["b"]);
    assert Choose(accepts, inner, "GET", "b") == Handle(handler, map[]);
    assert Flat(inner) == [route];
    FlatOfOne(route, inner);
    ScanOfOne(Route("GET", [Literal("a"), Literal("b")], handler), ["ab"]);
  }

  lemma OneSegment(s: string)
    requires IsPiece(s)
    ensures PathSegments(s) == [s] && PathSegments("/" + s) == [s]
  {
    SplitOne(s, '/');
    NonEmptyIsFilter([s]);
    assert Joined([s]) == s;
    PathOfPieces([s]);
  }

  lemma ScanOfOne(route: Route, pieces: seq<string>)
    ensures Scan([route], route.verb, pieces, false) ==
            match MatchFrom(route.segments, pieces, map[])
            case Some(params) => Handle(route.handler, params)
            case None => NotFound
  {
    hide MatchFrom;
    assert [route][1..] == [];
  }

  lemma MatchOfLiterals()
    ensures MatchFrom([Literal("b")], ["b"], map[]) == Some(map[])
    ensures MatchFrom([Literal("a"), Literal("b")], ["ab"], map[]).None?
  {
    assert [Literal("b")][1..] == [] && ["b"][1..] == [];
    assert |"ab"| != |"a"|;
  }

  lemma FlatOfOne(route: Route, inner: Tree)
    requires route.segments == [Literal("b")] && Flat(inner) == [route] && PathSegments("/a") == ["a"]
    ensures Flat(Tree([], [Mount("/a", inner)])) ==
            [Route(route.verb, [Literal("a"), Literal("b")], route.handler)]
  {
    hide PathSegments;
    var tree := Tree([], [Mount("/a", inner)]);
    assert ["a"][1..] == [] && AsLiterals(["a"]) == [Literal("a")] + [] == [Literal("a")];
    assert [Literal("a")] + [Literal("b")] == [Literal("a"), Literal("b")];
    assert [route][1..] == [] && Prefixed(["a"], []) == [];
    assert FlatFrom(tree, 1) == [];
    assert Mounted(tree, 0) + [] == Mounted(tree, 0);
  }

  lemma OneRouteIsFlat(own: Route, inner: Tree)
    requires inner == Tree([], [])
    ensures Flat(Tree([own], [Mount("/a", inner)])) == [own]
  {
    hide PathSegments;
    var tree := Tree([own], [Mount("/a", inner)]);
    assert FlatFrom(inner, 0) == [];
    assert Mounted(tree, 0) == [];
    assert FlatFrom(tree, 1) == [own];
    assert [] + [own] == [own];
  }

  lemma OwnRouteFits(own: Route)
    requires own.verb == "GET" && own.segments == [Wildcard("rest")]
    ensures Scan([own], "GET", PathSegments("/a/b"), false).Handle?
  {
    hide PathSegments, Split;
    var pieces := ["a", "b"];
    assert Joined(pieces) == "a/b" by {
      assert pieces[1..] == ["b"];
    }
    PathOfPieces(pieces);
    assert "/" + "a/b" == "/a/b";
    assert MatchFrom(own.segments, pieces, map[]).Some?;
  }

  /** A router mounted at the root takes every path: the routes beside it are never tried. */
  lemma RootMountTakesAll(accepts: string -> bool, tree: Tree, sub: Tree, verb: string, path: string)
    requires tree.nested == [] && path != "" && accepts(path)
    ensures Choose(accepts, Nest(tree, "/", sub), verb, path) == Choose(accepts, sub, verb, path)
  {
    assert WithoutEndSlashes("/") == "" && path[0..] == path;
  }
}
