/**
  The `multipart/form-data` writer of `multipart.rs` (RFC 7578) and the reader that section 5.1.1 of
  RFC 2046 describes. A string stands for its UTF-8 bytes, one character a byte: every byte the
  writer and the reader test for is ASCII, so nothing depends on how longer characters are encoded.
 */
module Multipart {
  import opened Wrappers
  import opened Text
  import opened Boundary

  const CRLF: string := "\r\n"

  datatype Header = Header(name: string, value: string)

  datatype Part = Part(headers: seq<Header>, body: string)

  // ---- Making parts ----

  function SanitizedChar(c: char, escapeQuotes: bool): string {
    if escapeQuotes && c == '"' then "\\\""
    else if escapeQuotes && c == '\\' then "\\\\"
    else if c == '\r' || c == '\n' then ""
    else [c]
  }

  /** What `sanitize_header_param` makes of a parameter. */
  function Sanitized(value: string, escapeQuotes: bool): string {
    if value == "" then "" else SanitizedChar(value[0], escapeQuotes) + Sanitized(value[1..], escapeQuotes)
  }

  lemma SanitizedStep(value: string, escapeQuotes: bool, i: nat)
    requires i < |value|
    ensures Sanitized(value[i..], escapeQuotes) ==
            SanitizedChar(value[i], escapeQuotes) + Sanitized(value[i + 1..], escapeQuotes)
  {
    assert value[i..][1..] == value[i + 1..];
  }

  method SanitizeHeaderParam(value: string, escapeQuotes: bool) returns (out: string)
    ensures out == Sanitized(value, escapeQuotes)
  {
    out := "";
    assert value[0..] == value && "" + Sanitized(value, escapeQuotes) == Sanitized(value, escapeQuotes);
    for i := 0 to |value|
      invariant out + Sanitized(value[i..], escapeQuotes) == Sanitized(value, escapeQuotes)
    {
      SanitizedStep(value, escapeQuotes, i);
      JoinThree(out, SanitizedChar(value[i], escapeQuotes), Sanitized(value[i + 1..], escapeQuotes));
      hide Sanitized;
      ghost var before := out;
      var c := value[i];
      if escapeQuotes && c == '"' {
        out := out + "\\\"";
      } else if escapeQuotes && c == '\\' {
        out := out + "\\\\";
      } else if c == '\r' || c == '\n' {
      } else {
        out := out + [c];
      }
      assert out == before + SanitizedChar(c, escapeQuotes);
    }
    assert value[|value|..] == "" && out + "" == out;
  }

  function TextPart(name: string, value: string): Part {
    Part([Header("Content-Disposition", "form-data; name=\"" + (Sanitized(name, true) + "\""))], value)
  }

  function FilePart(name: string, filename: string, contentType: string, body: string): Part {
    var quotedName, quotedFile := Sanitized(name, true), Sanitized(filename, true);
    Part([Header("Content-Disposition", "form-data; name=\"" + (quotedName + "\"; filename=\"" + (quotedFile + "\""))),
          Header("Content-Type", Sanitized(contentType, false))],
         body)
  }

  // ---- The wire format ----

  function HeaderLine(h: Header): string {
    h.name + ": " + h.value
  }

  function HeaderLines(headers: seq<Header>): string {
    if headers == [] then "" else HeaderLine(headers[0]) + CRLF + HeaderLines(headers[1..])
  }

  function Preamble(boundary: string, headers: seq<Header>): string {
    "--" + boundary + CRLF + HeaderLines(headers) + CRLF
  }

  function PartsWire(boundary: string, parts: seq<Part>): string {
    if parts == [] then ""
    else Preamble(boundary, parts[0].headers) + parts[0].body + CRLF + PartsWire(boundary, parts[1..])
  }

  function Wire(boundary: string, parts: seq<Part>): string {
    PartsWire(boundary, parts) + ("--" + boundary + "--" + CRLF)
  }

  function Bodies(parts: seq<Part>): (r: seq<string>)
    ensures |r| == |parts| && forall i :: 0 <= i < |parts| ==> r[i] == parts[i].body
  {
    seq(|parts|, i requires 0 <= i < |parts| => parts[i].body)
  }

  method PutHeaders(buf: string, headers: seq<Header>) returns (out: string)
    ensures out == buf + HeaderLines(headers)
  {
    out := buf;
    for i := 0 to |headers|
      invariant out + HeaderLines(headers[i..]) == buf + HeaderLines(headers)
    {
      assert headers[i..][1..] == headers[i + 1..];
      out := out + headers[i].name;
      out := out + ": ";
      out := out + headers[i].value;
      out := out + CRLF;
    }
    assert headers[|headers|..] == [];
  }

  method PutPart(buf: string, dashBoundary: string, part: Part) returns (out: string)
    ensures out == buf + (dashBoundary + CRLF + HeaderLines(part.headers) + CRLF + part.body + CRLF)
  {
    out := buf + dashBoundary;
    out := out + CRLF;
    out := PutHeaders(out, part.headers);
    out := out + CRLF;
    out := out + part.body;
    out := out + CRLF;
  }

  /** `build()`: the whole body in one buffer. None when the boundary counter runs out. */
  method Build(base: string, parts: seq<Part>) returns (r: Option<string>)
    requires base != ""
    ensures match Picked(base, Bodies(parts))
            case Some(boundary) => r == Some(Wire(boundary, parts))
            case None => r.None?
  {
    var picked := FindUniqueBoundary(base, Bodies(parts));
    if picked.None? {
      return None;
    }
    var boundary := picked.value;
    var dashBoundary, finalBoundary := "--" + boundary, "--" + boundary + "--" + CRLF;
    var buf := "";
    for i := 0 to |parts|
      invariant buf + PartsWire(boundary, parts[i..]) == PartsWire(boundary, parts)
    {
      ghost var before, rest := buf, PartsWire(boundary, parts[i + 1..]);
      ghost var part := Preamble(boundary, parts[i].headers) + parts[i].body + CRLF;
      assert parts[i..][1..] == parts[i + 1..];
      assert PartsWire(boundary, parts[i..]) == part + rest;
      buf := PutPart(buf, dashBoundary, parts[i]);
      assert buf == before + part;
      assert before + part + rest == before + (part + rest);
    }
    assert parts[|parts|..] == [] && buf + "" == buf;
    buf := buf + finalBoundary;
    return Some(buf);
  }

  // ---- The reader of RFC 2046 ----

  /** The text between the leftmost occurrences of `delimiter`. */
  function SplitAtDelimiter(text: string, delimiter: string): (r: seq<string>)
    requires delimiter != ""
    ensures r != []
    decreases |text|
  {
    match Find(text, delimiter)
    case None => [text]
    case Some(i) => [text[..i]] + SplitAtDelimiter(text[i + |delimiter|..], delimiter)
  }

  /** A part as received: its header lines and its body. */
  datatype Received = Received(lines: seq<string>, body: string)

  /** Header lines, each opened by a CRLF, up to an empty line; then the body. */
  function ReadLines(text: string): Option<Received>
    decreases |text|
  {
    if !(CRLF <= text) then None
    else if CRLF <= text[2..] then Some(Received([], text[4..]))
    else
      var k :- Find(text[2..], CRLF);
      var rest :- ReadLines(text[2..][k..]);
      Some(Received([text[2..][..k]] + rest.lines, rest.body))
  }

  /** Blanks allowed between a boundary and the end of its line. */
  function DropPadding(text: string): string {
    if text != "" && (text[0] == ' ' || text[0] == '\t') then DropPadding(text[1..]) else text
  }

  /** The parts up to the close delimiter. The text after each delimiter starts with "--" for the close
      delimiter, or else with padding and the end of the boundary line. */
  function ReadParts(segments: seq<string>): Option<seq<Received>> {
    if segments == [] then None
    else if "--" <= segments[0] then Some([])
    else
      var part :- ReadLines(DropPadding(segments[0]));
      var rest :- ReadParts(segments[1..]);
      Some([part] + rest)
  }

  /** A delimiter is a line break followed by "--" and the boundary; the first may open the body. */
  function Delimiter(boundary: string): string {
    CRLF + "--" + boundary
  }

  function ReadMultipart(wire: string, boundary: string): Option<seq<Received>> {
    ReadParts(SplitAtDelimiter(CRLF + wire, Delimiter(boundary))[1..])
  }

  // ---- No false delimiter ----

  predicate NoLineBreak(s: string) {
    '\r' !in s && '\n' !in s
  }

  /** Headers that are single lines and do not look like a boundary line. `Part::text` and `Part::file`
      make no others. */
  predicate SafeHeaders(headers: seq<Header>) {
    forall i :: 0 <= i < |headers| ==>
      NoLineBreak(headers[i].name) && NoLineBreak(headers[i].value) && !("-" <= headers[i].name)
  }

  /** The line break that ends the boundary line, the header lines, and the empty line. */
  function HeaderBlock(headers: seq<Header>): string {
    CRLF + HeaderLines(headers) + CRLF
  }

  function Segment(p: Part): string {
    HeaderBlock(p.headers) + p.body
  }

  lemma HeaderBlockCons(headers: seq<Header>)
    requires headers != []
    ensures HeaderBlock(headers) == CRLF + HeaderLine(headers[0]) + HeaderBlock(headers[1..])
  {
  }

  lemma HeaderLineShape(h: Header)
    requires NoLineBreak(h.name) && NoLineBreak(h.value) && !("-" <= h.name)
    ensures var line := HeaderLine(h);
            NoLineBreak(line) && line != "" && line[0] != '-'
  {
    var line := HeaderLine(h);
    assert line[0] == if h.name == "" then ':' else h.name[0];
  }

  /** In a header block, no line break is followed by a dash. */
  lemma {:induction false} NoDashAfterBreak(headers: seq<Header>, j: int)
    requires SafeHeaders(headers)
    requires 0 <= j && j + 2 < |HeaderBlock(headers)| && HeaderBlock(headers)[j] == '\r'
    ensures HeaderBlock(headers)[j + 2] != '-'
    decreases |headers|
  {
    if headers != [] {
      HeaderBlockCons(headers);
      var line, block := HeaderLine(headers[0]), HeaderBlock(headers[1..]);
      HeaderLineShape(headers[0]);
      var n := 2 + |line|;
      forall i | 2 <= i < n
        ensures HeaderBlock(headers)[i] != '\r'
      {
        assert HeaderBlock(headers)[i] == line[i - 2] && line[i - 2] in line;
      }
      if n <= j {
        assert HeaderBlock(headers)[j] == block[j - n] && HeaderBlock(headers)[j + 2] == block[j - n + 2];
        NoDashAfterBreak(headers[1..], j - n);
      }
    }
  }

  lemma SliceOfTail(a: string, b: string, i: nat, n: nat)
    requires |a| <= i && i + n <= |a + b|
    ensures (a + b)[i..i + n] == b[i - |a|..i - |a| + n]
  {
  }

  /** A part whose body is free of the boundary contains no delimiter. */
  lemma SegmentHasNoDelimiter(p: Part, boundary: string)
    requires SafeHeaders(p.headers) && !Occurs(p.body, boundary)
    ensures !Occurs(Segment(p), Delimiter(boundary))
  {
    var s, d, h := Segment(p), Delimiter(boundary), |HeaderBlock(p.headers)|;
    assert d[0] == '\r' && d[2] == '-' && d[4..] == boundary;
    forall j
      ensures !OccursAt(s, d, j)
    {
      if 0 <= j && j + |d| <= |s| {
        var window := s[j..j + |d|];
        assert window[0] == s[j] && window[2] == s[j + 2];
        if j + 2 < h {
          if s[j] == '\r' {
            assert HeaderBlock(p.headers)[j] == '\r';
            NoDashAfterBreak(p.headers, j);
          }
        } else if j + 1 == h {
          assert s[j] == HeaderBlock(p.headers)[h - 1];
        } else {
          var k := j + 4 - h;
          SliceOfTail(HeaderBlock(p.headers), p.body, j + 4, |boundary|);
          assert window[4..] == s[j + 4..j + |d|];
          assert !OccursAt(p.body, boundary, k);
        }
      }
    }
  }

  /** Nor does one arise across the end of the part: a delimiter has a carriage return only at its start. */
  lemma FirstDelimiter(segment: string, boundary: string, rest: string)
    requires NoLineBreak(boundary) && !Occurs(segment, Delimiter(boundary))
    ensures Find(segment + Delimiter(boundary) + rest, Delimiter(boundary)) == Some(|segment|)
  {
    var d := Delimiter(boundary);
    var s := segment + d + rest;
    assert OccursAt(s, d, |segment|);
    forall j | 0 <= j < |segment|
      ensures !OccursAt(s, d, j)
    {
      if j + |d| <= |segment| {
        assert segment[j..j + |d|] == s[j..j + |d|];
        assert !OccursAt(segment, d, j);
      } else if j + |d| <= |s| {
        var m := |segment| - j;
        assert s[j..j + |d|][m] == s[|segment|] == '\r';
        assert 4 <= m ==> d[m] == boundary[m - 4] && boundary[m - 4] in boundary;
        assert d[m] != '\r';
      }
    }
  }

  /** What follows the first delimiter. */
  function AfterDelimiter(boundary: string, parts: seq<Part>): string {
    if parts == [] then "--" + CRLF
    else Segment(parts[0]) + Delimiter(boundary) + AfterDelimiter(boundary, parts[1..])
  }

  lemma {:induction false} WireIsFramed(boundary: string, parts: seq<Part>)
    ensures CRLF + Wire(boundary, parts) == Delimiter(boundary) + AfterDelimiter(boundary, parts)
  {
    if parts == [] {
      assert CRLF + Wire(boundary, []) == Delimiter(boundary) + ("--" + CRLF);
    } else {
      hide Preamble, Segment, Delimiter;
      WireIsFramed(boundary, parts[1..]);
      var p, d := parts[0], Delimiter(boundary);
      var rest, end := PartsWire(boundary, parts[1..]), "--" + boundary + "--" + CRLF;
      var after := AfterDelimiter(boundary, parts[1..]);
      PreambleAndSegment(boundary, p);
      Regroup(Preamble(boundary, p.headers), p.body, rest, end);
      assert CRLF + Wire(boundary, parts) == d + Segment(p) + (d + after);
      JoinFour(d, Segment(p), d, after);
    }
  }

  lemma PreambleAndSegment(boundary: string, p: Part)
    ensures CRLF + (Preamble(boundary, p.headers) + p.body) == Delimiter(boundary) + Segment(p)
  {
    assert CRLF + Preamble(boundary, p.headers) == Delimiter(boundary) + HeaderBlock(p.headers);
    assert CRLF + (Preamble(boundary, p.headers) + p.body) == CRLF + Preamble(boundary, p.headers) + p.body;
  }

  lemma Regroup(preamble: string, body: string, rest: string, end: string)
    ensures CRLF + (preamble + body + CRLF + rest + end) == CRLF + (preamble + body) + (CRLF + (rest + end))
  {
  }

  lemma JoinFour(a: string, b: string, c: string, d: string)
    ensures a + b + (c + d) == a + (b + c + d)
  {
  }

  function Segments(parts: seq<Part>): seq<string> {
    if parts == [] then ["--" + CRLF] else [Segment(parts[0])] + Segments(parts[1..])
  }

  predicate SafeParts(parts: seq<Part>) {
    forall i :: 0 <= i < |parts| ==> SafeHeaders(parts[i].headers)
  }

  ghost predicate FreeOf(parts: seq<Part>, boundary: string) {
    forall i :: 0 <= i < |parts| ==> !Occurs(parts[i].body, boundary)
  }

  /** The delimiters the reader finds are exactly the ones the writer put there. */
  lemma {:induction false} SplitsIntoSegments(boundary: string, parts: seq<Part>)
    requires NoLineBreak(boundary) && SafeParts(parts) && FreeOf(parts, boundary)
    ensures SplitAtDelimiter(AfterDelimiter(boundary, parts), Delimiter(boundary)) == Segments(parts)
  {
    var d := Delimiter(boundary);
    if parts == [] {
      var s := "--" + CRLF;
      forall i
        ensures !OccursAt(s, d, i)
      {
        assert |d| == |s| ==> d[0] != s[0];
      }
    } else {
      SegmentHasNoDelimiter(parts[0], boundary);
      var rest := AfterDelimiter(boundary, parts[1..]);
      FirstDelimiter(Segment(parts[0]), boundary, rest);
      var s := AfterDelimiter(boundary, parts);
      assert s[..|Segment(parts[0])|] == Segment(parts[0]) && s[|Segment(parts[0])| + |d|..] == rest;
      SplitsIntoSegments(boundary, parts[1..]);
    }
  }

  // ---- Reading a part back ----

  function Lines(headers: seq<Header>): (r: seq<string>)
    ensures |r| == |headers| && forall i :: 0 <= i < |headers| ==> r[i] == HeaderLine(headers[i])
  {
    seq(|headers|, i requires 0 <= i < |headers| => HeaderLine(headers[i]))
  }

  function AsReceived(p: Part): Received {
    Received(Lines(p.headers), p.body)
  }

  lemma FirstBreak(line: string, after: string)
    requires NoLineBreak(line) && CRLF <= after
    ensures Find(line + after, CRLF) == Some(|line|)
  {
    var s := line + after;
    assert OccursAt(s, CRLF, |line|);
    forall j | 0 <= j < |line|
      ensures !OccursAt(s, CRLF, j)
    {
      assert s[j] == line[j] && line[j] in line;
      assert j + 2 <= |s| ==> s[j..j + 2][0] == s[j];
    }
  }

  lemma ReadLine(line: string, after: string)
    requires NoLineBreak(line) && line != "" && CRLF <= after && ReadLines(after).Some?
    ensures ReadLines(CRLF + line + after) ==
            Some(Received([line] + ReadLines(after).value.lines, ReadLines(after).value.body))
  {
    var text := CRLF + line + after;
    assert text[2..] == line + after;
    assert text[2..][0] == line[0] && line[0] in line;
    FirstBreak(line, after);
    assert (line + after)[|line|..] == after && (line + after)[..|line|] == line;
  }

  lemma {:induction false} ReadsSegment(headers: seq<Header>, body: string)
    requires SafeHeaders(headers)
    ensures ReadLines(HeaderBlock(headers) + body) == Some(Received(Lines(headers), body))
    decreases |headers|
  {
    var text := HeaderBlock(headers) + body;
    if headers == [] {
      assert text == CRLF + CRLF + body;
      assert text[2..] == CRLF + body;
    } else {
      ReadsSegment(headers[1..], body);
      ReadsOneMore(headers, body);
    }
  }

  lemma ReadsOneMore(headers: seq<Header>, body: string)
    requires headers != [] && SafeHeaders(headers)
    requires ReadLines(HeaderBlock(headers[1..]) + body) == Some(Received(Lines(headers[1..]), body))
    ensures ReadLines(HeaderBlock(headers) + body) == Some(Received(Lines(headers), body))
  {
    hide ReadLines, HeaderBlock, HeaderLine;
    var line, block := HeaderLine(headers[0]), HeaderBlock(headers[1..]);
    HeaderLineShape(headers[0]);
    HeaderBlockStart(headers[1..]);
    assert CRLF <= block + body;
    ReadLine(line, block + body);
    HeaderBlockCons(headers);
    assert CRLF + line + block + body == CRLF + line + (block + body);
    assert Lines(headers) == [line] + Lines(headers[1..]);
  }

  lemma HeaderBlockStart(headers: seq<Header>)
    ensures CRLF <= HeaderBlock(headers)
  {
  }

  function AllReceived(parts: seq<Part>): seq<Received> {
    if parts == [] then [] else [AsReceived(parts[0])] + AllReceived(parts[1..])
  }

  lemma {:induction false} ReadsSegments(parts: seq<Part>)
    requires SafeParts(parts)
    ensures ReadParts(Segments(parts)) == Some(AllReceived(parts))
  {
    if parts != [] {
      var s := Segment(parts[0]);
      assert s[0] == '\r';
      ReadsSegment(parts[0].headers, parts[0].body);
      ReadsSegments(parts[1..]);
    }
  }

  /** The round trip: with a boundary that occurs in no body, the reader recovers every part's header
      lines and its exact body, in order. */
  lemma WireReadsBack(boundary: string, parts: seq<Part>)
    requires NoLineBreak(boundary) && SafeParts(parts) && FreeOf(parts, boundary)
    ensures ReadMultipart(Wire(boundary, parts), boundary) == Some(AllReceived(parts))
  {
    hide ReadParts, Find;
    var d, after := Delimiter(boundary), AfterDelimiter(boundary, parts);
    WireIsFramed(boundary, parts);
    OpeningDelimiter(d, after);
    SplitsIntoSegments(boundary, parts);
    ReadsSegments(parts);
  }

  lemma OpeningDelimiter(d: string, after: string)
    requires d != ""
    ensures SplitAtDelimiter(d + after, d) == [""] + SplitAtDelimiter(after, d)
  {
    assert OccursAt(d + after, d, 0);
    assert Find(d + after, d) == Some(0);
    assert (d + after)[|d|..] == after;
  }

  // ---- One body, spelled out ----

  /** A form with one text field, line by line. */
  lemma WireExample()
    ensures Wire("b", [TextPart("n", "v")]) ==
            "--b\r\n" + "Content-Disposition: form-data; name=\"n\"\r\n" + "\r\n" + "v\r\n" + "--b--\r\n"
  {
    PlainIsKept("n", true);
    TextLineIs();
    hide Sanitized, HeaderLine;
    var text := TextPart("n", "v");
    var h := text.headers[0];
    assert text == Part([h], "v");
    hide TextPart;
    WireOfOne("b", h, "v");
    hide Wire;
    var line := "--" + "b" + CRLF;
    assert line == "--b\r\n" && "--" + "b" + "--" + CRLF == "--b--\r\n" && "v" + CRLF == "v\r\n";
    JoinThree(line + (HeaderLine(h) + CRLF) + CRLF, "v", CRLF);
  }

  /** A parameter with nothing to escape or to drop is kept. */
  lemma {:induction false} PlainIsKept(value: string, escapeQuotes: bool)
    requires forall c :: c in value ==> c !in {'"', '\\', '\r', '\n'}
    ensures Sanitized(value, escapeQuotes) == value
  {
    if value != "" {
      assert value[0] in value;
      assert forall c :: c in value[1..] ==> c in value;
      PlainIsKept(value[1..], escapeQuotes);
      assert value == [value[0]] + value[1..];
    }
  }

  lemma TextLineIs()
    ensures HeaderLine(Header("Content-Disposition", "form-data; name=\"" + ("n" + "\""))) + CRLF ==
            "Content-Disposition: form-data; name=\"n\"\r\n"
  {
  }

  lemma WireOfOne(boundary: string, h: Header, body: string)
    ensures Wire(boundary, [Part([h], body)]) ==
            "--" + boundary + CRLF + (HeaderLine(h) + CRLF) + CRLF + body + CRLF + ("--" + boundary + "--" + CRLF)
  {
    hide HeaderLine;
    var p := Part([h], body);
    assert [h][1..] == [] && HeaderLines([]) == "";
    assert HeaderLines([h]) == HeaderLine(h) + CRLF;
    assert [p][1..] == [] && PartsWire(boundary, []) == "";
    assert PartsWire(boundary, [p]) == Preamble(boundary, [h]) + body + CRLF;
  }
}
