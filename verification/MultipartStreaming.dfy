/**
  The streaming serializer of `multipart.rs`: a queue of ready chunks and nested streams, drained one
  chunk a poll. What a nested stream does is an arbitrary finite list of events: it is not ready, it
  has a chunk (possibly empty), or it fails; after the list it has ended.
 */
module MultipartStreaming {
  import opened Wrappers
  import opened Text
  import opened Boundary
  import opened Multipart
  import opened MultipartForm

  datatype SourceEvent = NotReady | Yields(bytes: string) | Fails

  datatype PartOrStream =
    | Buffered(part: Part)
    | Streamed(headers: seq<Header>, source: seq<SourceEvent>)

  datatype PendingChunk = Ready(bytes: string) | Nested(source: seq<SourceEvent>)

  datatype Poll = Pending | Chunk(bytes: string) | Failure | Done

  // ---- One poll ----

  function Weight(queue: seq<PendingChunk>): nat {
    if queue == [] then 0
    else 1 + (if queue[0].Nested? then |queue[0].source| else 0) + Weight(queue[1..])
  }

  /** What one `poll_next` leaves in the queue and answers. */
  function PollQueue(queue: seq<PendingChunk>): (r: (seq<PendingChunk>, Poll))
    ensures r.1.Done? ==> r.0 == []
    ensures !r.1.Done? ==> Weight(r.0) < Weight(queue)
    decreases Weight(queue)
  {
    if queue == [] then ([], Done)
    else
      match queue[0]
      case Ready(b) => if b == "" then PollQueue(queue[1..]) else (queue[1..], Chunk(b))
      case Nested(source) =>
        if source == [] then PollQueue(queue[1..])
        else
          var rest := [Nested(source[1..])] + queue[1..];
          match source[0]
          case Yields(b) => if b == "" then PollQueue(rest) else (rest, Chunk(b))
          case Fails => (queue[1..], Failure)
          case NotReady => (rest, Pending)
  }

  class MultipartStream {
    var queue: seq<PendingChunk>

    constructor (queue: seq<PendingChunk>)
      ensures this.queue == queue
    {
      this.queue := queue;
    }

    method PollNext() returns (r: Poll)
      modifies this
      ensures (queue, r) == PollQueue(old(queue))
    {
      while true
        invariant PollQueue(queue) == PollQueue(old(queue))
        decreases Weight(queue)
      {
        if queue == [] {
          return Done;
        }
        var front := queue[0];
        queue := queue[1..];
        match front {
          case Ready(b) =>
            if b != "" {
              return Chunk(b);
            }
          case Nested(source) =>
            if source != [] {
              match source[0] {
                case Yields(b) =>
                  queue := [Nested(source[1..])] + queue;
                  if b != "" {
                    return Chunk(b);
                  }
                case Fails =>
                  return Failure;
                case NotReady =>
                  queue := [Nested(source[1..])] + queue;
                  return Pending;
              }
            }
        }
      }
    }
  }

  // ---- Draining ----

  /** Polling until the stream is done; pending and failed polls are polled again. */
  function Drain(queue: seq<PendingChunk>): seq<Poll>
    decreases Weight(queue)
  {
    var (rest, poll) := PollQueue(queue);
    if poll.Done? then [Done] else [poll] + Drain(rest)
  }

  /** The answers one nested stream gives rise to: each event its own, none for an empty chunk, and
      nothing more after a failure. */
  function SourcePolls(source: seq<SourceEvent>): seq<Poll> {
    if source == [] then []
    else
      match source[0]
      case NotReady => [Pending] + SourcePolls(source[1..])
      case Yields(b) => (if b == "" then [] else [Chunk(b)]) + SourcePolls(source[1..])
      case Fails => [Failure]
  }

  function ItemPolls(item: PendingChunk): seq<Poll> {
    match item
    case Ready(b) => if b == "" then [] else [Chunk(b)]
    case Nested(source) => SourcePolls(source)
  }

  function AllPolls(queue: seq<PendingChunk>): seq<Poll> {
    if queue == [] then [] else ItemPolls(queue[0]) + AllPolls(queue[1..])
  }

  lemma AllPollsCons(item: PendingChunk, tail: seq<PendingChunk>)
    ensures AllPolls([item] + tail) == ItemPolls(item) + AllPolls(tail)
  {
    assert ([item] + tail)[1..] == tail;
  }

  lemma NestedHead(source: seq<SourceEvent>, tail: seq<PendingChunk>)
    requires source != []
    ensures var all, rest := AllPolls([Nested(source)] + tail), AllPolls([Nested(source[1..])] + tail);
            match source[0]
            case NotReady => all == [Pending] + rest
            case Yields(b) => all == if b == "" then rest else [Chunk(b)] + rest
            case Fails => all == [Failure] + AllPolls(tail)
  {
    AllPollsCons(Nested(source), tail);
    AllPollsCons(Nested(source[1..]), tail);
    hide AllPolls;
    var here, more := SourcePolls(source[1..]), AllPolls(tail);
    match source[0]
    case NotReady => Regrouped([Pending], here, more);
    case Yields(b) =>
      if b == "" {
        Regrouped([], here, more);
      } else {
        Regrouped([Chunk(b)], here, more);
      }
    case Fails =>
  }

  lemma Regrouped(a: seq<Poll>, b: seq<Poll>, c: seq<Poll>)
    ensures a + b + c == a + (b + c) && [] + (b + c) == b + c
  {
  }

  lemma {:induction false} PollIsFirst(queue: seq<PendingChunk>)
    ensures var (rest, poll) := PollQueue(queue);
            if poll.Done? then AllPolls(queue) == []
            else AllPolls(queue) == [poll] + AllPolls(rest)
    decreases Weight(queue)
  {
    if queue != [] {
      var tail := queue[1..];
      assert queue == [queue[0]] + tail;
      AllPollsCons(queue[0], tail);
      assert [] + AllPolls(tail) == AllPolls(tail);
      match queue[0]
      case Ready(b) =>
        if b == "" {
          PollIsFirst(tail);
        }
      case Nested(source) =>
        if source == [] {
          PollIsFirst(tail);
        } else {
          NestedHead(source, tail);
          if source[0] == Yields("") {
            PollIsFirst([Nested(source[1..])] + tail);
          }
        }
    }
  }

  /** Draining gives every item's answers in queue order, and then Done: no chunk is empty, split or
      merged, whatever the schedule, and the drain ends. */
  lemma {:induction false} DrainIsAllPolls(queue: seq<PendingChunk>)
    ensures Drain(queue) == AllPolls(queue) + [Done]
    decreases Weight(queue)
  {
    PollIsFirst(queue);
    var (rest, poll) := PollQueue(queue);
    if !poll.Done? {
      DrainIsAllPolls(rest);
      assert [poll] + (AllPolls(rest) + [Done]) == [poll] + AllPolls(rest) + [Done];
    }
  }

  // ---- The bytes ----

  function Output(polls: seq<Poll>): string {
    if polls == [] then ""
    else (if polls[0].Chunk? then polls[0].bytes else "") + Output(polls[1..])
  }

  /** A nested stream's chunks, joined. */
  function SourceBytes(source: seq<SourceEvent>): string {
    if source == [] then ""
    else (if source[0].Yields? then source[0].bytes else "") + SourceBytes(source[1..])
  }

  function ItemBytes(item: PendingChunk): string {
    match item
    case Ready(b) => b
    case Nested(source) => SourceBytes(source)
  }

  function QueueBytes(queue: seq<PendingChunk>): string {
    if queue == [] then "" else ItemBytes(queue[0]) + QueueBytes(queue[1..])
  }

  predicate NoFailure(queue: seq<PendingChunk>) {
    forall i :: 0 <= i < |queue| && queue[i].Nested? ==> Fails !in queue[i].source
  }

  lemma {:induction false} OutputOfJoin(a: seq<Poll>, b: seq<Poll>)
    ensures Output(a + b) == Output(a) + Output(b)
  {
    if a == [] {
      assert a + b == b && "" + Output(b) == Output(b);
    } else {
      OutputOfJoin(a[1..], b);
      assert (a + b)[1..] == a[1..] + b;
    }
  }

  lemma {:induction false} SourceOutput(source: seq<SourceEvent>)
    requires Fails !in source
    ensures Output(SourcePolls(source)) == SourceBytes(source)
  {
    if source != [] {
      assert source[0] in source;
      assert forall e :: e in source[1..] ==> e in source;
      SourceOutput(source[1..]);
      var rest := SourcePolls(source[1..]);
      match source[0] {
        case NotReady => OutputOfJoin([Pending], rest);
        case Yields(b) =>
          if b == "" {
            assert [] + rest == rest;
          } else {
            OutputOfJoin([Chunk(b)], rest);
            assert Output([Chunk(b)]) == b + "";
          }
        case Fails => assert false;
      }
    }
  }

  lemma {:induction false} QueueOutput(queue: seq<PendingChunk>)
    requires NoFailure(queue)
    ensures Output(AllPolls(queue)) == QueueBytes(queue)
  {
    if queue != [] {
      assert NoFailure(queue[1..]);
      QueueOutput(queue[1..]);
      OutputOfJoin(ItemPolls(queue[0]), AllPolls(queue[1..]));
      match queue[0]
      case Ready(b) =>
        if b != "" {
          assert Output([Chunk(b)]) == b + "";
        }
      case Nested(source) => SourceOutput(source);
    }
  }

  // ---- build_stream ----

  /** The three queue entries of a part. */
  function Entries(boundary: string, p: PartOrStream): seq<PendingChunk> {
    match p
    case Buffered(part) => [Ready(Preamble(boundary, part.headers)), Ready(part.body), Ready(CRLF)]
    case Streamed(headers, source) => [Ready(Preamble(boundary, headers)), Nested(source), Ready(CRLF)]
  }

  function PartsQueue(boundary: string, parts: seq<PartOrStream>): seq<PendingChunk> {
    if parts == [] then [] else Entries(boundary, parts[0]) + PartsQueue(boundary, parts[1..])
  }

  function StreamQueue(boundary: string, parts: seq<PartOrStream>): seq<PendingChunk> {
    PartsQueue(boundary, parts) + [Ready("--" + boundary + "--" + CRLF)]
  }

  /** The part bodies that are in memory: the only ones the boundary search looks at. */
  function BufferedBodies(parts: seq<PartOrStream>): seq<string> {
    if parts == [] then []
    else (if parts[0].Buffered? then [parts[0].part.body] else []) + BufferedBodies(parts[1..])
  }

  method PartPreamble(dashBoundary: string, headers: seq<Header>) returns (out: string)
    ensures out == dashBoundary + CRLF + HeaderLines(headers) + CRLF
  {
    out := dashBoundary;
    out := out + CRLF;
    out := PutHeaders(out, headers);
    out := out + CRLF;
  }

  method PushPart(queue: seq<PendingChunk>, ghost boundary: string, dashBoundary: string, part: PartOrStream)
    returns (out: seq<PendingChunk>)
    requires dashBoundary == "--" + boundary
    ensures out == queue + Entries(boundary, part)
  {
    match part
    case Buffered(p) =>
      var preamble := PartPreamble(dashBoundary, p.headers);
      out := queue + [Ready(preamble)];
      out := out + [Ready(p.body)];
      out := out + [Ready(CRLF)];
    case Streamed(headers, source) =>
      var preamble := PartPreamble(dashBoundary, headers);
      out := queue + [Ready(preamble)];
      out := out + [Nested(source)];
      out := out + [Ready(CRLF)];
  }

  method BuildStream(base: string, parts: seq<PartOrStream>) returns (r: Option<MultipartStream>)
    requires base != ""
    ensures match Picked(base, BufferedBodies(parts))
            case Some(boundary) => r.Some? && fresh(r.value) && r.value.queue == StreamQueue(boundary, parts)
            case None => r.None?
  {
    var picked := FindUniqueBoundary(base, BufferedBodies(parts));
    if picked.None? {
      return None;
    }
    var boundary := picked.value;
    var dashBoundary, finalBoundary := "--" + boundary, "--" + boundary + "--" + CRLF;
    var queue: seq<PendingChunk> := [];
    for i := 0 to |parts|
      invariant queue + PartsQueue(boundary, parts[i..]) == PartsQueue(boundary, parts)
    {
      ghost var before, rest := queue, PartsQueue(boundary, parts[i + 1..]);
      assert parts[i..][1..] == parts[i + 1..];
      queue := PushPart(queue, boundary, dashBoundary, parts[i]);
      assert before + Entries(boundary, parts[i]) + rest == before + (Entries(boundary, parts[i]) + rest);
    }
    assert parts[|parts|..] == [] && queue + [] == queue;
    queue := queue + [Ready(finalBoundary)];
    var stream := new MultipartStream(queue);
    return Some(stream);
  }

  // ---- Refinement of build() ----

  /** The same parts with every streamed body read into memory. */
  function Flattened(parts: seq<PartOrStream>): seq<Part> {
    if parts == [] then []
    else
      [match parts[0]
       case Buffered(part) => part
       case Streamed(headers, source) => Part(headers, SourceBytes(source))]
      + Flattened(parts[1..])
  }

  predicate NoSourceFails(parts: seq<PartOrStream>) {
    forall i :: 0 <= i < |parts| && parts[i].Streamed? ==> Fails !in parts[i].source
  }

  lemma {:induction false} QueueBytesOfJoin(a: seq<PendingChunk>, b: seq<PendingChunk>)
    ensures QueueBytes(a + b) == QueueBytes(a) + QueueBytes(b)
  {
    hide ItemBytes;
    if a == [] {
      assert a + b == b && "" + QueueBytes(b) == QueueBytes(b);
    } else {
      QueueBytesOfJoin(a[1..], b);
      assert (a + b)[1..] == a[1..] + b;
      JoinThree(ItemBytes(a[0]), QueueBytes(a[1..]), QueueBytes(b));
    }
  }

  lemma EntriesBytes(boundary: string, p: PartOrStream)
    ensures var part := Flattened([p])[0];
            QueueBytes(Entries(boundary, p)) == Preamble(boundary, part.headers) + part.body + CRLF
  {
    var e := Entries(boundary, p);
    assert e[1..][1..] == [Ready(CRLF)] && e[1..][1..][1..] == [];
    assert QueueBytes([Ready(CRLF)]) == CRLF + "";
  }

  lemma {:induction false} PartsQueueBytes(boundary: string, parts: seq<PartOrStream>)
    ensures QueueBytes(PartsQueue(boundary, parts)) == PartsWire(boundary, Flattened(parts))
  {
    hide Preamble, Entries, QueueBytes;
    if parts == [] {
      EmptyQueueBytes();
    } else {
      PartsQueueBytes(boundary, parts[1..]);
      EntriesBytes(boundary, parts[0]);
      QueueBytesOfJoin(Entries(boundary, parts[0]), PartsQueue(boundary, parts[1..]));
      assert Flattened(parts)[0] == Flattened([parts[0]])[0] && Flattened(parts)[1..] == Flattened(parts[1..]);
    }
  }

  lemma EmptyQueueBytes()
    ensures QueueBytes([]) == ""
  {
  }

  lemma {:induction false} QueueNeverFails(boundary: string, parts: seq<PartOrStream>)
    requires NoSourceFails(parts)
    ensures NoFailure(StreamQueue(boundary, parts))
  {
    if parts != [] {
      assert NoSourceFails(parts[1..]);
      QueueNeverFails(boundary, parts[1..]);
      assert StreamQueue(boundary, parts) == Entries(boundary, parts[0]) + StreamQueue(boundary, parts[1..]);
    }
  }

  /** Drained under any schedule in which no source fails, the stream writes the bytes that the
      one-shot serializer writes for the same parts and boundary. */
  lemma StreamRefinesWire(boundary: string, parts: seq<PartOrStream>)
    requires NoSourceFails(parts)
    ensures Output(Drain(StreamQueue(boundary, parts))) == Wire(boundary, Flattened(parts))
  {
    var queue := StreamQueue(boundary, parts);
    var end := "--" + boundary + "--" + CRLF;
    assert QueueBytes([Ready(end)]) == end + "";
    assert Output([Done]) == "" + "";
    hide AllPolls, Drain, Output, QueueBytes, PartsQueue, PartsWire, Flattened, NoFailure;
    DrainIsAllPolls(queue);
    OutputOfJoin(AllPolls(queue), [Done]);
    QueueNeverFails(boundary, parts);
    QueueOutput(queue);
    PartsQueueBytes(boundary, parts);
    QueueBytesOfJoin(PartsQueue(boundary, parts), [Ready(end)]);
  }

  // ---- The boundary is picked from fewer bodies ----

  lemma {:induction false} BufferedAreAmongAll(parts: seq<PartOrStream>, boundary: string)
    ensures Collides(BufferedBodies(parts), boundary) ==> Collides(Bodies(Flattened(parts)), boundary)
  {
    if parts != [] && Collides(BufferedBodies(parts), boundary) {
      var some, all := BufferedBodies(parts), Bodies(Flattened(parts));
      var i :| 0 <= i < |some| && Occurs(some[i], boundary);
      if parts[0].Buffered? && i == 0 {
        assert all[0] == some[0];
      } else {
        var rest := BufferedBodies(parts[1..]);
        var j := if parts[0].Buffered? then i - 1 else i;
        assert some[i] == rest[j];
        assert Collides(rest, boundary);
        BufferedAreAmongAll(parts[1..], boundary);
        var restAll := Bodies(Flattened(parts[1..]));
        var k :| 0 <= k < |restAll| && Occurs(restAll[k], boundary);
        assert all[k + 1] == restAll[k];
      }
    }
  }

  /** The boundary of a stream is the first candidate that occurs in none of the bodies in memory; streamed bodies are
      not looked at. */
  lemma PickedForStream(base: string, parts: seq<PartOrStream>, k: nat)
    requires k <= 0xFFFF_FFFF
    ensures FirstFree(base, BufferedBodies(parts), 0) == Some(k) <==>
            && !InMemory(parts, Candidate(base, k)) && forall j: nat :: j < k ==> InMemory(parts, Candidate(base, j))
  {
    hide Candidate, Collides;
    forall boundary: string
      ensures Collides(BufferedBodies(parts), boundary) <==> InMemory(parts, boundary)
    {
      BufferedAreInMemory(parts, boundary);
    }
    var first := FirstFree(base, BufferedBodies(parts), 0);
    if !InMemory(parts, Candidate(base, k)) && forall j: nat :: j < k ==> InMemory(parts, Candidate(base, j)) {
      assert first.Some? && !(first.value < k) && !(k < first.value);
    }
  }

  ghost predicate InMemory(parts: seq<PartOrStream>, boundary: string) {
    exists i :: 0 <= i < |parts| && parts[i].Buffered? && Occurs(parts[i].part.body, boundary)
  }

  lemma {:induction false} BufferedAreInMemory(parts: seq<PartOrStream>, boundary: string)
    ensures Collides(BufferedBodies(parts), boundary) <==> InMemory(parts, boundary)
  {
    if parts != [] {
      var rest := parts[1..];
      BufferedAreInMemory(rest, boundary);
      assert forall i :: 1 <= i < |parts| ==> parts[i] == rest[i - 1];
      var head := if parts[0].Buffered? then [parts[0].part.body] else [];
      CollidesJoin(head, BufferedBodies(rest), boundary);
      assert Collides(head, boundary) <==> parts[0].Buffered? && Occurs(parts[0].part.body, boundary) by {
        if parts[0].Buffered? {
          assert head[0] == parts[0].part.body;
        }
      }
      if InMemory(rest, boundary) {
        var i :| 0 <= i < |rest| && rest[i].Buffered? && Occurs(rest[i].part.body, boundary);
        assert parts[i + 1] == rest[i];
      }
    }
  }

  lemma CollidesJoin(a: seq<string>, b: seq<string>, boundary: string)
    ensures Collides(a + b, boundary) <==> Collides(a, boundary) || Collides(b, boundary)
  {
    if Collides(a, boundary) {
      var i :| 0 <= i < |a| && Occurs(a[i], boundary);
      assert (a + b)[i] == a[i];
    }
    if Collides(b, boundary) {
      var i :| 0 <= i < |b| && Occurs(b[i], boundary);
      assert (a + b)[|a| + i] == b[i];
    }
  }

  lemma WireShowsBoundary(a: string, b: string, parts: seq<Part>)
    requires parts != [] && NoLineBreak(a) && NoLineBreak(b)
    requires Wire(a, parts) == Wire(b, parts)
    ensures a == b
  {
    WireStart(a, parts);
    WireStart(b, parts);
  }

  lemma PreambleOpensWire(a: string, parts: seq<Part>)
    requires parts != []
    ensures Preamble(a, parts[0].headers) <= Wire(a, parts)
  {
    hide Preamble;
  }

  lemma LineOpensPreamble(a: string, headers: seq<Header>)
    ensures "--" + a + "\r" <= Preamble(a, headers)
  {
    hide HeaderLines;
  }

  lemma ReadsToBreak(a: string, w: string)
    requires NoLineBreak(a) && "--" + a + "\r" <= w
    ensures SplitOnce(w[2..], "\r").Some? && SplitOnce(w[2..], "\r").value.0 == a
  {
    var rest := w[3 + |a|..];
    assert w[2..] == a + "\r" + rest;
    SplitOnceChar(a, '\r', rest);
  }

  /** The first boundary line shows the boundary up to its line break. */
  lemma WireStart(a: string, parts: seq<Part>)
    requires parts != [] && NoLineBreak(a)
    ensures var w := Wire(a, parts);
            2 <= |w| && SplitOnce(w[2..], "\r").Some? && SplitOnce(w[2..], "\r").value.0 == a
  {
    hide Wire, Preamble, SplitOnce;
    PreambleOpensWire(a, parts);
    LineOpensPreamble(a, parts[0].headers);
    ReadsToBreak(a, Wire(a, parts));
  }

  /** `build_stream` and `build` on the same content pick the same boundary, and so write the same bytes,
      exactly when the boundary picked without looking at streamed bodies occurs in none of them either. */
  lemma StreamEqualsBuild(base: string, parts: seq<PartOrStream>, streamed: string, built: string)
    requires NoLineBreak(base) && NoSourceFails(parts)
    requires Picked(base, BufferedBodies(parts)) == Some(streamed)
    requires Picked(base, Bodies(Flattened(parts))) == Some(built)
    ensures Output(Drain(StreamQueue(streamed, parts))) == Wire(built, Flattened(parts))
       <==> !Collides(Bodies(Flattened(parts)), streamed)
  {
    hide Wire, StreamQueue, Drain, Output;
    StreamRefinesWire(streamed, parts);
    var all := Bodies(Flattened(parts));
    var k := FirstFree(base, BufferedBodies(parts), 0).value;
    var j := FirstFree(base, all, 0).value;
    CandidateHasNoBreak(base, k);
    CandidateHasNoBreak(base, j);
    if Collides(all, streamed) {
      if Wire(streamed, Flattened(parts)) == Wire(built, Flattened(parts)) {
        WireShowsBoundary(streamed, built, Flattened(parts));
      }
    } else {
      if j < k {
        BufferedAreAmongAll(parts, Candidate(base, j));
      }
      assert j == k;
    }
  }

  /** For instance, one streamed part that delivers the generated boundary as its body. */
  lemma BoundaryInStream()
    ensures var parts := [Streamed([], [Yields("b")])];
            var built := Picked("b", Bodies(Flattened(parts)));
            && Picked("b", BufferedBodies(parts)) == Some("b") && built.Some?
            && Output(Drain(StreamQueue("b", parts))) != Wire(built.value, Flattened(parts))
  {
    hide Flattened, BufferedBodies, Bodies, Output, Drain, StreamQueue, Wire, Picked, Collides;
    var parts := [Streamed([], [Yields("b")])];
    OneStreamedBody("b");
    OwnBoundaryCollides("b");
    StreamEqualsBuild("b", parts, "b", Picked("b", ["b"]).value);
  }

  lemma OneStreamedBody(body: string)
    ensures var parts := [Streamed([], [Yields(body)])];
            NoSourceFails(parts) && BufferedBodies(parts) == [] && Bodies(Flattened(parts)) == [body]
  {
    var source := [Yields(body)];
    var parts := [Streamed([], source)];
    assert source[1..] == [] && SourceBytes(source) == body + "" == body;
    assert parts[1..] == [] && Flattened(parts) == [Part([], body)];
  }
}
