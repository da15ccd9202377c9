/**
  What a client reads in the answer for a file: which status it gets, the headers by their meaning, and the body.
 */
module FileAnswers {
  import opened Wrappers
  import opened Text
  import opened HttpDate
  import opened ByteRange
  import opened StaticFiles

  // ---- Entity tags ----

  /** Splitting a text with white space around it gives the pieces of the text, the first and the last with the white
      space. */
  lemma SplitPadded(a: string, s: string, b: string)
    requires AllWhitespace(a) && AllWhitespace(b)
    ensures var pieces, padded := Split(s, ','), Split(a + s + b, ',');
            |padded| == |pieces| && forall i :: 0 <= i < |pieces| ==> Trim(padded[i]) == Trim(pieces[i])
  {
    hide Split, Trim, AllWhitespace;
    WhitespaceHasNoComma(a);
    WhitespaceHasNoComma(b);
    var pieces := Split(s, ',');
    SplitPiecesAvoid(s, ',');
    JoinSplit(s, ',');
    var n := |pieces| - 1;
    assert forall i :: 0 <= i <= n ==> pieces[i] in pieces;
    NoWhitespace();
    if n == 0 {
      SplitOne(a + s + b, ',');
      TrimPadded(a, s, b);
    } else {
      var padded := [a + pieces[0]] + pieces[1..n] + [pieces[n] + b];
      PaddedJoin(a, pieces, b);
      SplitJoin(padded, ',');
      forall i | 0 <= i <= n
        ensures Trim(padded[i]) == Trim(pieces[i])
      {
        if i == 0 {
          TrimPadded(a, pieces[0], "");
          assert a + pieces[0] + "" == a + pieces[0];
        } else if i == n {
          TrimPadded("", pieces[n], b);
          assert "" + pieces[n] + b == pieces[n] + b;
        }
      }
    }
  }

  lemma NoWhitespace()
    ensures AllWhitespace("")
  {
  }

  lemma WhitespaceHasNoComma(s: string)
    requires AllWhitespace(s)
    ensures ',' !in s
  {
  }

  lemma JoinFirst(a: string, pieces: seq<string>)
    requires pieces != []
    ensures Join([a + pieces[0]] + pieces[1..], ',') == a + Join(pieces, ',')
  {
    assert ([a + pieces[0]] + pieces[1..])[1..] == pieces[1..];
  }

  lemma {:induction false} JoinLast(pieces: seq<string>, b: string)
    requires pieces != []
    ensures Join(pieces[..|pieces| - 1] + [pieces[|pieces| - 1] + b], ',') == Join(pieces, ',') + b
  {
    var n := |pieces| - 1;
    var padded := pieces[..n] + [pieces[n] + b];
    if n == 0 {
      assert padded == [pieces[0] + b];
    } else {
      var rest := pieces[1..];
      JoinLast(rest, b);
      assert padded[1..] == rest[..|rest| - 1] + [rest[|rest| - 1] + b];
      assert padded[0] == pieces[0];
    }
  }

  lemma PaddedJoin(a: string, pieces: seq<string>, b: string)
    requires 1 < |pieces|
    ensures var n := |pieces| - 1;
            Join([a + pieces[0]] + pieces[1..n] + [pieces[n] + b], ',') == a + Join(pieces, ',') + b
  {
    var n := |pieces| - 1;
    var tail := pieces[..n] + [pieces[n] + b];
    JoinLast(pieces, b);
    JoinFirst(a, tail);
    TailOfPadded(pieces, pieces[n] + b);
    hide Join;
    JoinThree([a + pieces[0]], pieces[1..n], [pieces[n] + b]);
    JoinThree(a, Join(pieces, ','), b);
  }

  lemma TailOfPadded(pieces: seq<string>, last: string)
    requires 1 < |pieces|
    ensures var n, tail := |pieces| - 1, pieces[..|pieces| - 1] + [last];
            tail[0] == pieces[0] && tail[1..] == pieces[1..n] + [last]
  {
  }

  /** If-None-Match: a star, or a list of tags with commas between them, of which one is the file's. White space around
      the tags does not matter. */
  lemma TagListMatches(tags: seq<string>, etag: string)
    requires tags != [] && forall t :: t in tags ==> ',' !in t
    ensures ETagMatches(Join(tags, ','), etag) <==>
            Trim(Join(tags, ',')) == "*" || exists i :: 0 <= i < |tags| && Trim(tags[i]) == etag
  {
    hide Split, Trim, AllWhitespace;
    var header := Join(tags, ',');
    SplitJoin(tags, ',');
    var i, j := TrimCuts(header);
    CutsAreWhitespace(header, i, j);
    assert header == header[..i] + Trim(header) + header[j..];
    SplitPadded(header[..i], Trim(header), header[j..]);
  }

  lemma CutsAreWhitespace(s: string, i: nat, j: nat)
    requires i <= j <= |s| && forall k :: 0 <= k < i || j <= k < |s| ==> IsWhitespace(s[k])
    ensures AllWhitespace(s[..i]) && AllWhitespace(s[j..])
  {
  }

  // ---- Content-Range ----

  /** Section 14.4 of RFC 9110: the bytes that are sent, or none of them, and the length of the file. */
  datatype ContentRange = Sent(first: nat, last: nat, complete: nat) | NoneOf(complete: nat)

  function ReadContentRange(s: string): Option<ContentRange> {
    if !("bytes " <= s) then None
    else
      var (range, complete) :- SplitOnce(s[6..], "/");
      if !IsNumber(complete) then None
      else if range == "*" then Some(NoneOf(DigitsValue(complete)))
      else
        var (first, last) :- SplitOnce(range, "-");
        if IsNumber(first) && IsNumber(last) then
          Some(Sent(DigitsValue(first), DigitsValue(last), DigitsValue(complete)))
        else None
  }

  lemma SentReadsBack(first: nat, last: nat, complete: nat)
    ensures ReadContentRange("bytes " + Decimal(first) + "-" + Decimal(last) + "/" + Decimal(complete)) ==
            Some(Sent(first, last, complete))
  {
    hide SplitOnce, Decimal, DigitsValue;
    var a, b, c := Decimal(first), Decimal(last), Decimal(complete);
    var s := "bytes " + a + "-" + b + "/" + c;
    assert s[6..] == a + "-" + b + "/" + c;
    NotInDigits(a, '/');
    NotInDigits(b, '/');
    NotInDigits(a, '-');
    SplitOnceChar(a + "-" + b, '/', c);
    SplitOnceChar(a, '-', b);
    DecimalValue(first);
    DecimalValue(last);
    DecimalValue(complete);
    assert a + "-" + b != "*" by {
      assert a[0] != '*';
    }
  }

  lemma NoneReadsBack(complete: nat)
    ensures ReadContentRange("bytes */" + Decimal(complete)) == Some(NoneOf(complete))
  {
    hide SplitOnce, Decimal, DigitsValue;
    var c := Decimal(complete);
    assert ("bytes */" + c)[6..] == "*" + "/" + c;
    SplitOnceChar("*", '/', c);
    DecimalValue(complete);
  }

  // ---- The answer ----

  /** The file is what the client has already: one of its tags is the file's, or the file has not been modified, in
      whole seconds, since the date it gives; a date that cannot be read counts for nothing. */
  predicate Unchanged(meta: Meta, req: Request) {
    || (req.ifNoneMatch.Some? && ETagMatches(req.ifNoneMatch.value, ETag(meta)))
    || (meta.mtime.Some? && req.ifModifiedSince.Some?
        && match ParseHttpDate(req.ifModifiedSince.value)
           case Some(secs) => (if meta.mtime.value < 0 then 0 else meta.mtime.value / 1_000_000_000) <= secs
           case None => false)
  }

  /** Which answer a request gets. 304 exactly when the file is unchanged; otherwise 200 without a Range header, 206 for
      one that is accepted, with its bounds in Content-Range and their number as Content-Length, and 416 for one
      that is not. All but 416 carry the entity tag, 200 and 206 the type and the caching rule, and
      200 the date of a file that has one. HEAD gets no body. */
  lemma AnswerExactly(meta: Meta, req: Request)
    ensures var r := Respond(meta, req);
            if Unchanged(meta, req) then r.NotModified? && r.etag == ETag(meta)
            else
              match req.range
              case None =>
                && r.Full? && r.contentLength == meta.len && r.etag == ETag(meta)
                && r.body == (if req.head then Empty else Slice(0, meta.len))
                && r.contentType == meta.mime && r.cacheControl == meta.cacheControl
                && (r.lastModified.Some? <==> meta.mtime.Some? && 0 <= meta.mtime.value)
                && (r.lastModified.Some? ==>
                      r.lastModified.value == FormatHttpDate(meta.mtime.value / 1_000_000_000))
              case Some(range) =>
                match ParseSingleRange(range, meta.len)
                case Ok((first, last)) =>
                  && r.PartialContent? && r.contentLength == last - first + 1 && r.etag == ETag(meta)
                  && ReadContentRange(r.contentRange) == Some(Sent(first, last, meta.len))
                  && r.body == (if req.head then Empty else Slice(first, last - first + 1))
                  && r.contentType == meta.mime && r.cacheControl == meta.cacheControl
                case Err(_) =>
                  r.RangeNotSatisfiable? && ReadContentRange(r.contentRange) == Some(NoneOf(meta.len))
  {
    UnchangedIs(meta, req);
    hide Unchanged, MatchesETag, UnmodifiedByDate, ParseSingleRange, FormatHttpDate, ReadContentRange, Decimal, ETag;
    if req.range.Some? && ParseSingleRange(req.range.value, meta.len).Ok? {
      var (first, last) := ParseSingleRange(req.range.value, meta.len).value;
      SentReadsBack(first, last, meta.len);
    } else {
      NoneReadsBack(meta.len);
    }
  }

  lemma UnchangedIs(meta: Meta, req: Request)
    ensures Unchanged(meta, req) <==> MatchesETag(meta, req) || UnmodifiedByDate(meta, req)
  {
    hide ETagMatches, ETag, ParseHttpDate;
  }

  /** What an entity tag says: between quotes the length of the file in hexadecimal, and in front of it, with a dash,
      the modification time in nanoseconds where there is one from the epoch on. */
  lemma ETagReadsBack(meta: Meta)
    ensures var e := ETag(meta);
            && 2 <= |e| && e[0] == '"' && e[|e| - 1] == '"'
            && var inside := e[1..|e| - 1];
               if meta.mtime.Some? && 0 <= meta.mtime.value then
                 match SplitOnce(inside, "-")
                 case Some((nanos, length)) =>
                   AllHex(nanos + length) && HexValue(nanos) == meta.mtime.value && HexValue(length) == meta.len
                 case None => false
               else AllHex(inside) && HexValue(inside) == meta.len
  {
    TagInside(meta);
    HexValueOf(meta.len);
    if SinceEpoch(meta.mtime).Some? {
      HexValueOf(SinceEpoch(meta.mtime).value);
    }
    hide SplitOnce, Hex, HexValue;
  }

  // ---- The body ----

  function BodyOf(r: Response): Body {
    match r
    case Full(_, _, body, _, _, _) => body
    case PartialContent(_, _, _, body, _, _) => body
    case _ => Empty
  }

  /** The bytes that a client gets of a body, over a schedule of reads. */
  function Transferred<T>(content: seq<T>, body: Body, schedule: seq<ReadEvent>): seq<T> {
    match body
    case Empty => []
    case Slice(start, length) => Delivered(Run(content, StreamState(start, length), schedule))
  }

  /** The body of every answer, if the file stays as it is: driven by any schedule with enough reads and no read
      error, it is the selected bytes, the whole file when no range was asked for, and nothing for 304, for 416
      and for HEAD. Its length is the Content-Length, except for HEAD. */
  lemma BodyIsAnnounced<T>(content: seq<T>, meta: Meta, req: Request, schedule: seq<ReadEvent>)
    requires meta.len == |content| < ReadyCount(schedule) && ReadError !in schedule
    ensures var r := Respond(meta, req);
            var body := Transferred(content, BodyOf(r), schedule);
            && body == (if req.head || Unchanged(meta, req) then []
                        else
                          match req.range
                          case None => content
                          case Some(range) =>
                            match ParseSingleRange(range, |content|)
                            case Ok((first, last)) => content[first..last + 1]
                            case Err(_) => [])
            && ((r.Full? || r.PartialContent?) && !req.head ==> |body| == r.contentLength)
  {
    AnswerExactly(meta, req);
    hide Respond, Unchanged, ParseSingleRange, ReadContentRange, Rest;
    var body := BodyOf(Respond(meta, req));
    if body.Slice? {
      SliceIsTransferred(content, body.start, body.length, schedule);
    }
  }

  lemma SliceIsTransferred<T>(content: seq<T>, start: nat, length: nat, schedule: seq<ReadEvent>)
    requires start + length <= |content| < ReadyCount(schedule) && ReadError !in schedule
    ensures Transferred(content, Slice(start, length), schedule) == content[start..start + length]
    ensures content[0..|content|] == content
  {
    var st := StreamState(start, length);
    NoErrorNoFailure(content, st, schedule);
    Finishes(content, st, schedule);
    DoneMeansComplete(content, st, schedule);
  }

  /** How much one read brings: never more than asked for, left, or 64 KiB, and as much as the system offers of that. */
  lemma ChunkExactly<T>(content: seq<T>, st: StreamState, ev: ReadEvent)
    requires ev.ReadUpTo? && 0 < st.remaining && st.pos < |content|
    ensures var poll := Step(content, st, ev).1;
            var most := [if ev.offer == 0 then 1 else ev.offer, st.remaining, 65536, |content| - st.pos];
            && poll.Chunk? && |poll.bytes| in most && forall m :: m in most ==> |poll.bytes| <= m
  {
    var n := |Step(content, st, ev).1.bytes|;
    var most := [if ev.offer == 0 then 1 else ev.offer, st.remaining, 65536, |content| - st.pos];
    assert most[0] in most && most[1] in most && most[2] in most && most[3] in most;
    assert n == most[0] || n == most[1] || n == most[2] || n == most[3];
  }
}
