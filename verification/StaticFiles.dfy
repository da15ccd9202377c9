/**
  Serving a file in `static_files.rs`: the conditional-GET and range decision of `respond_with_file`,
  and the stream that delivers the body. An opened file is its content and a position; what the
  operating system does on each read is an arbitrary schedule of events.
 */
module StaticFiles {
  import opened Wrappers
  import opened Text
  import opened HttpDate
  import opened ByteRange

  const NANOS: nat := 1_000_000_000

  // ---- The decision ----

  /** File metadata: the length, and the modification time in nanoseconds from the epoch when there is one.
      With it, the MIME type and the Cache-Control value that the file is served with. */
  datatype Meta = Meta(len: nat, mtime: Option<int>, mime: string, cacheControl: Option<string>)

  /** The request headers that matter. A header that is absent or not readable as text is None. */
  datatype Request = Request(head: bool, ifNoneMatch: Option<string>, ifModifiedSince: Option<string>,
                             range: Option<string>)

  /** No body for HEAD; otherwise a stretch of the file. */
  datatype Body = Empty | Slice(start: nat, length: nat)

  datatype Response =
    | NotModified(etag: string)
    | PartialContent(contentType: string, contentRange: string, contentLength: nat, body: Body, etag: string,
                     cacheControl: Option<string>)
    | RangeNotSatisfiable(contentRange: string)
    | Full(contentType: string, contentLength: nat, body: Body, etag: string, cacheControl: Option<string>,
           lastModified: Option<string>)

  /** `duration_since(UNIX_EPOCH)`: there is none for a time before the epoch. */
  function SinceEpoch(mtime: Option<int>): Option<nat> {
    match mtime
    case Some(t) => if 0 <= t then Some(t) else None
    case None => None
  }

  function ETag(meta: Meta): string {
    match SinceEpoch(meta.mtime)
    case Some(nanos) => "\"" + (Hex(nanos) + "-" + Hex(meta.len)) + "\""
    case None => "\"" + Hex(meta.len) + "\""
  }

  predicate ETagMatches(ifNoneMatch: string, etag: string) {
    var inm := Trim(ifNoneMatch);
    inm == "*" || exists i :: 0 <= i < |Split(inm, ',')| && Trim(Split(inm, ',')[i]) == etag
  }

  /** The modification time in whole seconds; a time before the epoch counts as the epoch. */
  function WholeSeconds(mtime: int): nat {
    if mtime < 0 then 0 else mtime / NANOS
  }

  predicate IsModifiedSince(mtime: int, since: string) {
    match ParseHttpDate(since)
    case Some(secs) => WholeSeconds(mtime) > secs
    case None => true
  }

  predicate MatchesETag(meta: Meta, req: Request) {
    req.ifNoneMatch.Some? && ETagMatches(req.ifNoneMatch.value, ETag(meta))
  }

  predicate UnmodifiedByDate(meta: Meta, req: Request) {
    meta.mtime.Some? && req.ifModifiedSince.Some? && !IsModifiedSince(meta.mtime.value, req.ifModifiedSince.value)
  }

  function LastModified(meta: Meta): Option<string> {
    match SinceEpoch(meta.mtime)
    case Some(nanos) => Some(FormatHttpDate(nanos / NANOS))
    case None => None
  }

  function Respond(meta: Meta, req: Request): Response {
    var etag := ETag(meta);
    if MatchesETag(meta, req) || UnmodifiedByDate(meta, req) then NotModified(etag)
    else
      match req.range
      case Some(range) =>
        (match ParseSingleRange(range, meta.len)
         case Ok((start, end)) =>
           var length := end - start + 1;
           PartialContent(meta.mime, "bytes " + Decimal(start) + "-" + Decimal(end) + "/" + Decimal(meta.len), length,
                          if req.head then Empty else Slice(start, length), etag, meta.cacheControl)
         case Err(_) => RangeNotSatisfiable("bytes */" + Decimal(meta.len)))
      case None =>
        Full(meta.mime, meta.len, if req.head then Empty else Slice(0, meta.len), etag, meta.cacheControl,
             LastModified(meta))
  }

  /** A client that echoes a Last-Modified date as If-Modified-Since gets 304 exactly when the file's
      modification time, in whole seconds, has not increased (and the date was one that parses back). */
  lemma EchoedDate(was: Meta, now: Meta, req: Request)
    requires SinceEpoch(was.mtime).Some? && SinceEpoch(was.mtime).value / NANOS < 0x1_0000_0000_0000_0000
    ensures Respond(now, req.(ifNoneMatch := None, ifModifiedSince := LastModified(was))).NotModified?
       <==> now.mtime.Some?
            && SinceEpoch(was.mtime).value / NANOS <= LAST_PRINTABLE
            && WholeSeconds(now.mtime.value) <= SinceEpoch(was.mtime).value / NANOS
  {
    hide ParseHttpDate, FormatHttpDate, ParseSingleRange;
    FormatParseRoundTrip(SinceEpoch(was.mtime).value / NANOS);
  }

  function WithoutBody(r: Response): Response {
    match r
    case PartialContent(mime, range, length, _, etag, cache) => PartialContent(mime, range, length, Empty, etag, cache)
    case Full(mime, length, _, etag, cache, modified) => Full(mime, length, Empty, etag, cache, modified)
    case _ => r
  }

  /** HEAD is answered with the status and headers of GET, without the body. */
  lemma HeadMirrorsGet(meta: Meta, req: Request)
    ensures Respond(meta, req.(head := true)) == WithoutBody(Respond(meta, req.(head := false)))
  {
    hide ParseSingleRange, ETagMatches, ParseHttpDate;
  }

  /** Section 13.1.3 of RFC 9110 has a recipient ignore If-Modified-Since when If-None-Match is present.
      The code consults it all the same; the two differ exactly when the date says "unmodified" and the
      entity tag does not match. */
  lemma DateUnderETag(meta: Meta, req: Request)
    requires req.ifNoneMatch.Some?
    ensures Respond(meta, req) == Respond(meta, req.(ifModifiedSince := None))
       <==> !UnmodifiedByDate(meta, req) || MatchesETag(meta, req)
  {
    hide ParseSingleRange;
  }

  /** For instance, for a file from the epoch, the right date next to a wrong tag is answered with 304. */
  lemma DateOverridesETag(meta: Meta, req: Request)
    requires meta.mtime == Some(0)
    requires req.ifNoneMatch == Some("x") && req.range == None
    ensures Respond(meta, req.(ifModifiedSince := LastModified(meta))).NotModified?
    ensures Respond(meta, req.(ifModifiedSince := None)).Full?
  {
    hide ParseHttpDate, FormatHttpDate, ParseSingleRange, ETagMatches, ETag;
    FormatParseRoundTrip(0);
    UnquotedMatchesNoTag(meta);
  }

  lemma UnquotedMatchesNoTag(meta: Meta)
    ensures !ETagMatches("x", ETag(meta))
  {
    hide Split, Hex;
    SplitOne("x", ',');
    assert Trim("x") == "x" && ETag(meta)[0] == '"';
  }

  // ---- Entity tags ----

  lemma HexHasNo(n: nat, c: char)
    requires !IsHex(c)
    ensures c !in Hex(n)
  {
  }

  /** Two versions of a file have the same entity tag exactly when their length and their modification
      time from the epoch on are the same. */
  lemma ETagIsInjective(a: Meta, b: Meta)
    ensures ETag(a) == ETag(b) <==> a.len == b.len && SinceEpoch(a.mtime) == SinceEpoch(b.mtime)
  {
    if ETag(a) == ETag(b) {
      var x, y := ETag(a)[1..|ETag(a)| - 1], ETag(b)[1..|ETag(b)| - 1];
      TagInside(a);
      TagInside(b);
      assert x == y;
      assert SplitOnce(x, "-") == SplitOnce(y, "-");
      HexValueOf(a.len);
      HexValueOf(b.len);
      if SinceEpoch(a.mtime).Some? {
        HexValueOf(SinceEpoch(a.mtime).value);
      }
      if SinceEpoch(b.mtime).Some? {
        HexValueOf(SinceEpoch(b.mtime).value);
      }
    }
  }

  lemma TagInside(a: Meta)
    ensures var x := ETag(a)[1..|ETag(a)| - 1];
            match SinceEpoch(a.mtime)
            case Some(nanos) => SplitOnce(x, "-") == Some((Hex(nanos), Hex(a.len)))
            case None => x == Hex(a.len) && SplitOnce(x, "-").None?
  {
    HexHasNo(a.len, '-');
    match SinceEpoch(a.mtime)
    case Some(nanos) =>
      HexHasNo(nanos, '-');
      SplitOnceChar(Hex(nanos), '-', Hex(a.len));
      assert ETag(a)[1..|ETag(a)| - 1] == Hex(nanos) + "-" + Hex(a.len);
    case None =>
      assert ETag(a)[1..|ETag(a)| - 1] == Hex(a.len);
      NoOccurrence(Hex(a.len), '-');
  }

  lemma ETagShape(a: Meta)
    ensures Trim(ETag(a)) == ETag(a) && ETag(a) != "*" && ',' !in ETag(a)
  {
    var e := ETag(a);
    HexHasNo(a.len, ',');
    if SinceEpoch(a.mtime).Some? {
      HexHasNo(SinceEpoch(a.mtime).value, ',');
    }
    assert e[0] == '"' && e[|e| - 1] == '"';
    TrimTrims(e);
  }

  /** A client that echoes the entity tag as If-None-Match gets 304 exactly when the file's length and
      modification time are unchanged, if it sends no date. */
  lemma EchoedETag(was: Meta, now: Meta, echo: Request)
    requires echo.ifNoneMatch == Some(ETag(was)) && echo.ifModifiedSince == None
    ensures Respond(now, echo).NotModified?
       <==> was.len == now.len && SinceEpoch(was.mtime) == SinceEpoch(now.mtime)
  {
    hide ParseSingleRange, Split, Trim, ETag;
    ETagShape(was);
    SplitOne(ETag(was), ',');
    ETagIsInjective(was, now);
    assert ETagMatches(ETag(was), ETag(now)) <==> ETag(was) == ETag(now) by {
      var pieces := Split(ETag(was), ',');
      assert pieces[0] == ETag(was);
    }
  }

  // ---- The body stream ----

  const CHUNK_SIZE: nat := 65536

  /** What one `poll_read` does: nothing yet, an error, or a read of at most `offer` bytes. A read
      returns no byte only at the end of the file. */
  datatype ReadEvent = ReadPending | ReadError | ReadUpTo(offer: nat)

  datatype Poll<T> = Pending | Chunk(bytes: seq<T>) | Failure | Done

  datatype StreamState = StreamState(pos: nat, remaining: nat)

  function Min(a: nat, b: nat): nat {
    if a < b then a else b
  }

  /** How many bytes a read into a buffer of `want` bytes gets. */
  function ReadCount(offer: nat, want: nat, available: nat): nat {
    Min(if offer == 0 then 1 else offer, Min(want, available))
  }

  /** How much of a file lies behind a position. */
  function Available<T>(content: seq<T>, pos: nat): nat {
    if pos < |content| then |content| - pos else 0
  }

  function Step<T>(content: seq<T>, st: StreamState, ev: ReadEvent): (StreamState, Poll<T>) {
    if st.remaining == 0 then (st, Done)
    else
      match ev
      case ReadPending => (st, Pending)
      case ReadError => (st.(remaining := 0), Failure)
      case ReadUpTo(offer) =>
        var n := ReadCount(offer, Min(st.remaining, CHUNK_SIZE), Available(content, st.pos));
        if n == 0 then (st.(remaining := 0), Done)
        else (StreamState(st.pos + n, st.remaining - n), Chunk(content[st.pos..st.pos + n]))
  }

  class FileRangeStream<T> {
    const content: seq<T>
    var pos: nat
    var remaining: nat

    /** Open the file, seek to `start`, deliver `length` bytes. Seeking past the end is allowed and
        reads nothing there. */
    constructor (content: seq<T>, start: nat, length: nat)
      ensures this.content == content && pos == start && remaining == length
    {
      this.content := content;
      pos := start;
      remaining := length;
    }

    method PollNext(ev: ReadEvent) returns (r: Poll<T>)
      modifies this
      ensures (StreamState(pos, remaining), r) == Step(content, StreamState(old(pos), old(remaining)), ev)
    {
      if remaining == 0 {
        return Done;
      }
      var want := Min(remaining, CHUNK_SIZE);
      match ev {
        case ReadUpTo(offer) =>
          var n := ReadCount(offer, want, Available(content, pos));
          if n == 0 {
            remaining := 0;
            return Done;
          }
          var bytes := content[pos..pos + n];
          pos := pos + n;
          remaining := remaining - n;
          return Chunk(bytes);
        case ReadError =>
          remaining := 0;
          return Failure;
        case ReadPending =>
          return Pending;
      }
    }
  }

  /** The answers to a whole schedule of polls. */
  function Run<T>(content: seq<T>, st: StreamState, schedule: seq<ReadEvent>): (r: seq<Poll<T>>)
    ensures |r| == |schedule|
    decreases |schedule|
  {
    if schedule == [] then []
    else
      var (next, poll) := Step(content, st, schedule[0]);
      [poll] + Run(content, next, schedule[1..])
  }

  /** Everything delivered, in order. */
  function Delivered<T>(polls: seq<Poll<T>>): seq<T> {
    if polls == [] then []
    else (if polls[0].Chunk? then polls[0].bytes else []) + Delivered(polls[1..])
  }

  /** Reads in a schedule that are not Pending. */
  function ReadyCount(schedule: seq<ReadEvent>): nat {
    if schedule == [] then 0 else (if schedule[0].ReadPending? then 0 else 1) + ReadyCount(schedule[1..])
  }

  /** What the file has of the range still to be delivered: all of it, unless the file was truncated after
      its length was taken. */
  function Rest<T>(content: seq<T>, st: StreamState): seq<T> {
    content[Min(st.pos, |content|)..Min(st.pos + st.remaining, |content|)]
  }

  /** Whatever the schedule, the stream delivers bytes of the range in order and nothing else, in
      chunks that are not empty and at most 64 KiB. */
  lemma {:induction false} DeliversPrefix<T>(content: seq<T>, st: StreamState, schedule: seq<ReadEvent>)
    ensures var polls := Run(content, st, schedule);
            && Delivered(polls) <= Rest(content, st)
            && forall p :: p in polls && p.Chunk? ==> 0 < |p.bytes| <= 65536
    decreases |schedule|
  {
    if schedule != [] {
      var (next, poll) := Step(content, st, schedule[0]);
      DeliversPrefix(content, next, schedule[1..]);
      var rest := Run(content, next, schedule[1..]);
      assert Run(content, st, schedule) == [poll] + rest;
      hide Run;
      DeliveredCons(poll, rest);
      StepTakes(content, st, schedule[0]);
      ChunkSize(content, st, schedule[0]);
      hide Delivered, Step, Rest;
    }
  }

  /** When a run without a read error is told that the stream is done, exactly what the file has of the range
      has been delivered. */
  lemma {:induction false} DoneMeansComplete<T>(content: seq<T>, st: StreamState, schedule: seq<ReadEvent>)
    requires Failure !in Run(content, st, schedule) && Done in Run(content, st, schedule)
    ensures Delivered(Run(content, st, schedule)) == Rest(content, st)
    decreases |schedule|
  {
    var (next, poll) := Step(content, st, schedule[0]);
    var rest := Run(content, next, schedule[1..]);
    assert Run(content, st, schedule) == [poll] + rest;
    hide Run;
    DeliveredCons(poll, rest);
    StepTakes(content, st, schedule[0]);
    hide Delivered, Step, Rest;
    assert poll != Failure;
    if poll.Done? {
      DeliversPrefix(content, next, schedule[1..]);
    } else {
      DoneMeansComplete(content, next, schedule[1..]);
    }
  }

  lemma DeliveredCons<T>(poll: Poll<T>, rest: seq<Poll<T>>)
    ensures Delivered([poll] + rest) == (if poll.Chunk? then poll.bytes else []) + Delivered(rest)
    ensures poll in [poll] + rest && forall p :: p in rest ==> p in [poll] + rest
    ensures forall p :: p in [poll] + rest ==> p == poll || p in rest
  {
    assert ([poll] + rest)[1..] == rest;
  }

  /** One poll takes from the front of the range what it delivers; only a failure gives anything up, and Done
      is said only when nothing is left. */
  lemma StepTakes<T>(content: seq<T>, st: StreamState, ev: ReadEvent)
    ensures var (next, poll) := Step(content, st, ev);
            && (if poll == Failure then Rest(content, next) == []
                else Rest(content, st) == (if poll.Chunk? then poll.bytes else []) + Rest(content, next))
            && (poll.Done? ==> Rest(content, st) == Rest(content, next) == [])
  {
    var (next, poll) := Step(content, st, ev);
    if poll.Chunk? {
      SliceJoin(content, st.pos, next.pos, Min(st.pos + st.remaining, |content|));
    } else if poll.Pending? {
      assert next == st;
    }
  }

  lemma SliceJoin<T>(s: seq<T>, a: nat, b: nat, c: nat)
    requires a <= b <= c <= |s|
    ensures s[a..c] == s[a..b] + s[b..c]
  {
  }

  lemma ChunkSize<T>(content: seq<T>, st: StreamState, ev: ReadEvent)
    ensures var poll := Step(content, st, ev).1;
            poll.Chunk? ==> 0 < |poll.bytes| <= 65536
  {
  }

  /** A stream cannot be kept going forever: one more read that is not Pending than there are bytes ends it. */
  lemma {:induction false} Finishes<T>(content: seq<T>, st: StreamState, schedule: seq<ReadEvent>)
    requires st.remaining < ReadyCount(schedule)
    ensures Done in Run(content, st, schedule)
    decreases |schedule|
  {
    var (next, poll) := Step(content, st, schedule[0]);
    var rest := Run(content, next, schedule[1..]);
    assert Run(content, st, schedule) == [poll] + rest;
    if !poll.Done? {
      Finishes(content, next, schedule[1..]);
    }
    assert forall p :: p in rest ==> p in Run(content, st, schedule);
  }

  /** When the file has changed since, the stream still ends, and the body is as long as announced exactly
      when the file still reaches to the end of the range. */
  lemma TruncatedBodyIsShort<T>(content: seq<T>, st: StreamState, schedule: seq<ReadEvent>)
    requires st.remaining < ReadyCount(schedule) && ReadError !in schedule
    ensures var body := Delivered(Run(content, st, schedule));
            && body == Rest(content, st)
            && (|body| == st.remaining <==> st.remaining == 0 || st.pos + st.remaining <= |content|)
  {
    NoErrorNoFailure(content, st, schedule);
    Finishes(content, st, schedule);
    DoneMeansComplete(content, st, schedule);
  }

  lemma {:induction false} NoErrorNoFailure<T>(content: seq<T>, st: StreamState, schedule: seq<ReadEvent>)
    requires ReadError !in schedule
    ensures Failure !in Run(content, st, schedule)
    decreases |schedule|
  {
    if schedule != [] {
      assert schedule[0] in schedule;
      NoErrorNoFailure(content, Step(content, st, schedule[0]).0, schedule[1..]);
    }
  }
}
