/**
  Form fields end to end: what a receiver of a `multipart/form-data` body written by `multipart.rs`
  gets back, and which boundary it must be told.
 */
module MultipartForm {
  import opened Wrappers
  import opened Text
  import opened Boundary
  import opened Multipart

  /** The fields that `Part::text` and `Part::file` (and the builder methods over them) add. */
  datatype Field =
    | TextField(name: string, value: string)
    | FileField(name: string, filename: string, contentType: string, content: string)

  function MakePart(f: Field): Part {
    match f
    case TextField(name, value) => TextPart(name, value)
    case FileField(name, filename, contentType, content) => FilePart(name, filename, contentType, content)
  }

  function MakeParts(fields: seq<Field>): seq<Part> {
    if fields == [] then [] else [MakePart(fields[0])] + MakeParts(fields[1..])
  }

  // ---- The receiver ----

  /** A quoted string up to its closing quote, with backslash escapes undone (section 5.6.4 of RFC 9110),
      and the text after it. */
  function ReadQuoted(s: string): Option<(string, string)> {
    if s == "" then None
    else if s[0] == '"' then Some(("", s[1..]))
    else if s[0] == '\\' then
      if |s| < 2 then None
      else
        var (value, rest) :- ReadQuoted(s[2..]);
        Some(([s[1]] + value, rest))
    else
      var (value, rest) :- ReadQuoted(s[1..]);
      Some(([s[0]] + value, rest))
  }

  const DISPOSITION: string := "Content-Disposition: form-data; name=\""
  const FILENAME: string := "; filename=\""
  const CONTENT_TYPE: string := "Content-Type: "

  /** The field name and, for a file, its name. */
  function ReadDisposition(line: string): Option<(string, Option<string>)> {
    if !(DISPOSITION <= line) then None
    else
      var (name, rest) :- ReadQuoted(line[|DISPOSITION|..]);
      if rest == "" then Some((name, None))
      else if !(FILENAME <= rest) then None
      else
        var (filename, end) :- ReadQuoted(rest[|FILENAME|..]);
        if end == "" then Some((name, Some(filename))) else None
  }

  datatype Entry = Entry(name: string, filename: Option<string>, contentType: Option<string>, content: string)

  function ReadEntry(r: Received): Option<Entry> {
    if |r.lines| == 1 then
      var (name, filename) :- ReadDisposition(r.lines[0]);
      Some(Entry(name, filename, None, r.body))
    else if |r.lines| == 2 && CONTENT_TYPE <= r.lines[1] then
      var (name, filename) :- ReadDisposition(r.lines[0]);
      Some(Entry(name, filename, Some(r.lines[1][|CONTENT_TYPE|..]), r.body))
    else None
  }

  function ReadEntries(received: seq<Received>): Option<seq<Entry>> {
    if received == [] then Some([])
    else
      var first :- ReadEntry(received[0]);
      var rest :- ReadEntries(received[1..]);
      Some([first] + rest)
  }

  function ReadForm(wire: string, boundary: string): Option<seq<Entry>> {
    var received :- ReadMultipart(wire, boundary);
    ReadEntries(received)
  }

  // ---- What it should get ----

  /** A parameter without its line breaks. */
  function StripBreaks(s: string): string {
    if s == "" then ""
    else (if s[0] == '\r' || s[0] == '\n' then "" else [s[0]]) + StripBreaks(s[1..])
  }

  function EntryOf(f: Field): Entry {
    match f
    case TextField(name, value) => Entry(StripBreaks(name), None, None, value)
    case FileField(name, filename, contentType, content) =>
      Entry(StripBreaks(name), Some(StripBreaks(filename)), Some(StripBreaks(contentType)), content)
  }

  function EntriesOf(fields: seq<Field>): seq<Entry> {
    if fields == [] then [] else [EntryOf(fields[0])] + EntriesOf(fields[1..])
  }

  // ---- Parameters read back ----

  /** One sanitized character is read as itself, or as nothing when it is a line break. */
  lemma CharReadsBack(c: char, more: string, value: string, rest: string)
    requires ReadQuoted(more) == Some((value, rest))
    ensures c == '\r' || c == '\n' ==> ReadQuoted(SanitizedChar(c, true) + more) == Some((value, rest))
    ensures c != '\r' && c != '\n' ==> ReadQuoted(SanitizedChar(c, true) + more) == Some(([c] + value, rest))
  {
    var s := SanitizedChar(c, true) + more;
    if c == '"' || c == '\\' {
      assert s[0] == '\\' && s[1] == c && s[2..] == more;
    } else if c == '\r' || c == '\n' {
      assert s == more;
    } else {
      assert s == [c] + more;
      assert s[0] == c && s[1..] == more;
      assert ReadQuoted(s) == Some(([c] + value, rest));
    }
  }

  /** An escaped parameter cannot close its quotes early: reading it back gives the parameter without
      its line breaks, and what follows the closing quote is untouched. */
  lemma {:induction false} QuotedReadsBack(value: string, rest: string)
    ensures ReadQuoted(Sanitized(value, true) + ("\"" + rest)) == Some((StripBreaks(value), rest))
  {
    hide ReadQuoted, SanitizedChar;
    var tail := "\"" + rest;
    if value == "" {
      ClosingQuote(rest);
      assert "" + tail == tail;
    } else {
      var c, more := SanitizedChar(value[0], true), Sanitized(value[1..], true);
      QuotedReadsBack(value[1..], rest);
      CharReadsBack(value[0], more + tail, StripBreaks(value[1..]), rest);
      assert c + more + tail == c + (more + tail);
      assert "" + StripBreaks(value[1..]) == StripBreaks(value[1..]);
    }
  }

  lemma ClosingQuote(rest: string)
    ensures ReadQuoted("\"" + rest) == Some(("", rest))
  {
    assert ("\"" + rest)[1..] == rest;
  }

  lemma {:induction false} UnquotedIsStripped(value: string)
    ensures Sanitized(value, false) == StripBreaks(value)
  {
    if value != "" {
      UnquotedIsStripped(value[1..]);
    }
  }

  lemma {:induction false} SanitizedHasNoBreak(value: string, escapeQuotes: bool)
    ensures NoLineBreak(Sanitized(value, escapeQuotes))
  {
    if value != "" {
      SanitizedHasNoBreak(value[1..], escapeQuotes);
    }
  }

  lemma JoinHasNoBreak(a: string, b: string)
    requires NoLineBreak(a) && NoLineBreak(b)
    ensures NoLineBreak(a + b)
  {
  }

  lemma DispositionsAreSafe(a: string, b: string)
    requires NoLineBreak(a) && NoLineBreak(b)
    ensures NoLineBreak("form-data; name=\"" + (a + "\""))
    ensures NoLineBreak("form-data; name=\"" + (a + "\"; filename=\"" + (b + "\"")))
  {
    JoinHasNoBreak(a, "\"");
    JoinHasNoBreak("form-data; name=\"", a + "\"");
    JoinHasNoBreak(a, "\"; filename=\"");
    JoinHasNoBreak(b, "\"");
    JoinHasNoBreak(a + "\"; filename=\"", b + "\"");
    JoinHasNoBreak("form-data; name=\"", a + "\"; filename=\"" + (b + "\""));
  }

  lemma FieldIsSafe(f: Field)
    ensures SafeHeaders(MakePart(f).headers)
  {
    hide Sanitized;
    SanitizedHasNoBreak(f.name, true);
    var headers := MakePart(f).headers;
    match f {
      case TextField(name, _) =>
        DispositionsAreSafe(Sanitized(name, true), "");
      case FileField(name, filename, contentType, _) =>
        SanitizedHasNoBreak(filename, true);
        SanitizedHasNoBreak(contentType, false);
        DispositionsAreSafe(Sanitized(name, true), Sanitized(filename, true));
        assert NoLineBreak(headers[1].value);
        HeaderNamesAreSafe(headers[1].name);
    }
    assert NoLineBreak(headers[0].value);
    HeaderNamesAreSafe(headers[0].name);
  }

  lemma HeaderNamesAreSafe(name: string)
    requires name == "Content-Disposition" || name == "Content-Type"
    ensures NoLineBreak(name) && !("-" <= name)
  {
    assert name[0] == 'C';
  }

  lemma TextReadsBack(name: string, value: string)
    ensures ReadEntry(AsReceived(TextPart(name, value))) == Some(EntryOf(TextField(name, value)))
  {
    hide ReadQuoted, Sanitized;
    var r := AsReceived(TextPart(name, value));
    var quoted := Sanitized(name, true) + ("\"" + "");
    assert quoted == Sanitized(name, true) + "\"";
    assert r.lines[0] == DISPOSITION + quoted;
    assert r.lines[0][|DISPOSITION|..] == quoted;
    QuotedReadsBack(name, "");
  }

  /** The Content-Disposition line of a file part. */
  function FileLine(name: string, filename: string): string {
    DISPOSITION + (Sanitized(name, true) + ("\"" + (FILENAME + (Sanitized(filename, true) + "\""))))
  }

  lemma FileDisposition(name: string, filename: string)
    ensures ReadDisposition(FileLine(name, filename)) == Some((StripBreaks(name), Some(StripBreaks(filename))))
  {
    hide ReadQuoted, Sanitized;
    var file := Sanitized(filename, true) + ("\"" + "");
    assert file == Sanitized(filename, true) + "\"";
    var line := DISPOSITION + (Sanitized(name, true) + ("\"" + (FILENAME + file)));
    assert line[|DISPOSITION|..] == Sanitized(name, true) + ("\"" + (FILENAME + file));
    QuotedReadsBack(name, FILENAME + file);
    assert (FILENAME + file)[|FILENAME|..] == file;
    QuotedReadsBack(filename, "");
  }

  lemma FileLines(name: string, filename: string, contentType: string, content: string)
    ensures AsReceived(FilePart(name, filename, contentType, content)) ==
            Received([FileLine(name, filename), CONTENT_TYPE + Sanitized(contentType, false)], content)
  {
    hide Sanitized;
    var lines := AsReceived(FilePart(name, filename, contentType, content)).lines;
    assert lines[0] == FileLine(name, filename);
    assert lines[1] == CONTENT_TYPE + Sanitized(contentType, false);
  }

  lemma FileReadsBack(name: string, filename: string, contentType: string, content: string)
    ensures ReadEntry(AsReceived(FilePart(name, filename, contentType, content))) ==
            Some(EntryOf(FileField(name, filename, contentType, content)))
  {
    hide ReadDisposition, Sanitized, FileLine, FilePart, AsReceived;
    FileLines(name, filename, contentType, content);
    FileDisposition(name, filename);
    UnquotedIsStripped(contentType);
    var line := CONTENT_TYPE + Sanitized(contentType, false);
    assert line[|CONTENT_TYPE|..] == Sanitized(contentType, false);
  }

  lemma {:induction false} FieldsReadBack(fields: seq<Field>)
    ensures SafeParts(MakeParts(fields))
    ensures ReadEntries(AllReceived(MakeParts(fields))) == Some(EntriesOf(fields))
  {
    hide ReadEntry, MakePart;
    if fields != [] {
      var f, rest := fields[0], fields[1..];
      FieldIsSafe(f);
      FieldReadsBack(f);
      FieldsReadBack(rest);
      assert MakeParts(fields)[1..] == MakeParts(rest);
      assert AllReceived(MakeParts(fields)) == [AsReceived(MakePart(f))] + AllReceived(MakeParts(rest));
    }
  }

  lemma FieldReadsBack(f: Field)
    ensures ReadEntry(AsReceived(MakePart(f))) == Some(EntryOf(f))
  {
    match f
    case TextField(name, value) => TextReadsBack(name, value);
    case FileField(name, filename, contentType, content) => FileReadsBack(name, filename, contentType, content);
  }

  // ---- The boundary ----

  lemma CandidateHasNoBreak(base: string, k: nat)
    requires NoLineBreak(base)
    ensures NoLineBreak(Candidate(base, k))
  {
  }

  lemma FreeMeansFree(parts: seq<Part>, boundary: string)
    ensures FreeOf(parts, boundary) <==> !Collides(Bodies(parts), boundary)
  {
    if FreeOf(parts, boundary) {
      assert forall i :: 0 <= i < |parts| ==> Bodies(parts)[i] == parts[i].body;
    } else {
      var i :| 0 <= i < |parts| && Occurs(parts[i].body, boundary);
      assert Bodies(parts)[i] == parts[i].body;
    }
  }

  /** Whatever the fields contain, a receiver that is told the boundary `build()` picked recovers every
      field name and file name (without line breaks) and every value and file content exactly, in order. */
  lemma FormRoundTrip(base: string, fields: seq<Field>, boundary: string)
    requires NoLineBreak(base)
    requires Picked(base, Bodies(MakeParts(fields))) == Some(boundary)
    ensures ReadForm(Wire(boundary, MakeParts(fields)), boundary) == Some(EntriesOf(fields))
  {
    hide ReadMultipart, Wire, AllReceived;
    var parts := MakeParts(fields);
    var k := FirstFree(base, Bodies(parts), 0).value;
    CandidateHasNoBreak(base, k);
    FreeMeansFree(parts, boundary);
    FieldsReadBack(fields);
    WireReadsBack(boundary, parts);
  }

  /** The text after a boundary line that was split too early starts with the hexadecimal suffix. */
  lemma SuffixIsNoLineEnd(base: string, suffix: string, rest: string)
    requires NoLineBreak(base) && suffix != "" && AllHex(suffix)
    ensures ReadParts(SplitAtDelimiter(suffix + rest, Delimiter(base))).None?
  {
    hide ReadLines;
    var text, d := suffix + rest, Delimiter(base);
    assert IsHex(suffix[0]) && text[0] == suffix[0];
    assert d[0] == '\r';
    assert !OccursAt(text, d, 0) by {
      assert |d| <= |text| ==> text[0..|d|][0] == text[0];
    }
    var segment := SplitAtDelimiter(text, d)[0];
    assert segment != "" && segment[0] == text[0];
    assert DropPadding(segment) == segment;
    NotALine(segment);
  }

  lemma NotALine(text: string)
    requires text != "" && text[0] != '\r'
    ensures ReadLines(text).None?
  {
  }

  /** `content_type()` announces the generated boundary, `build()` may have to write another one. A
      receiver that is told the announced boundary recovers the form exactly when no part body contains
      that boundary; otherwise it rejects the body. */
  lemma AnnouncedBoundary(base: string, fields: seq<Field>, boundary: string)
    requires NoLineBreak(base) && base != ""
    requires Picked(base, Bodies(MakeParts(fields))) == Some(boundary)
    ensures ReadForm(Wire(boundary, MakeParts(fields)), base) ==
            if Collides(Bodies(MakeParts(fields)), base) then None else Some(EntriesOf(fields))
  {
    var parts := MakeParts(fields);
    var k := FirstFree(base, Bodies(parts), 0).value;
    if Collides(Bodies(parts), base) {
      assert k != 0;
      MisreadBoundary(base, PaddedHex(k, 4), parts);
    } else {
      assert Candidate(base, 0) == base;
      FormRoundTrip(base, fields, boundary);
    }
  }

  lemma MisreadBoundary(base: string, suffix: string, parts: seq<Part>)
    requires NoLineBreak(base) && suffix != "" && AllHex(suffix)
    ensures ReadMultipart(Wire(base + suffix, parts), base).None?
  {
    hide ReadParts, Wire;
    var after := AfterDelimiter(base + suffix, parts);
    WireIsFramed(base + suffix, parts);
    var text := suffix + after;
    assert Delimiter(base + suffix) + after == Delimiter(base) + text;
    OpeningDelimiter(Delimiter(base), text);
    SuffixIsNoLineEnd(base, suffix, after);
    assert ([""] + SplitAtDelimiter(text, Delimiter(base)))[1..] == SplitAtDelimiter(text, Delimiter(base));
  }

  /** For instance, a text field whose value is the generated boundary. */
  lemma BoundaryAsValue()
    ensures var parts := MakeParts([TextField("n", "b")]);
            var picked := Picked("b", Bodies(parts));
            picked.Some? && ReadForm(Wire(picked.value, parts), "b").None?
  {
    var fields := [TextField("n", "b")];
    var parts := MakeParts(fields);
    assert fields[1..] == [] && parts == [TextPart("n", "b")];
    hide TextPart, MakeParts, Wire, ReadForm;
    BodyOfText("n", "b");
    assert Bodies(parts) == ["b"];
    OwnBoundaryCollides("b");
    hide Picked, Collides;
    AnnouncedBoundary("b", fields, Picked("b", ["b"]).value);
  }

  lemma BodyOfText(name: string, value: string)
    ensures TextPart(name, value).body == value
  {
  }
}
