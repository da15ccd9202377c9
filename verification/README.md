# A verified model of OxiHTTP's hand-written protocol logic

OxiHTTP wraps hyper and rustls, but a good part of its behaviour is its own code: calendar arithmetic, a
multipart serializer, a WebSocket codec and reassembly machine, a rate limiter, a redirect and retry engine,
a gzip header scanner, a cookie jar and a router. This project models that code in Dafny and proves what it
promises, for every input, every run and every schedule.

Code that changes things step by step is modelled imperatively, as classes and loops (`FileRangeStream`,
`MultipartStream`, `WebSocket`, `RateLimiter`, `Jar`, the readers, writers, builders and searches). Each such
method is proved equal to a specification function, and the theorems are about those functions. What one of them
means is said without naming it: with the numbers, texts and comparisons of the code's documentation and of the
standards. Code that is an expression is a function here too. Strings are sequences of characters, bytes are 8-bit
vectors, durations are nanoseconds.

| file | models |
|---|---|
| `Wrappers`, `Bytes`, `Text` | Option and Result, bytes, and the string operations of Rust's library that the code calls |
| `Calendar`, `HttpDate`, `HttpDateLayout`, `ByteRange`, `StaticFiles`, `FileAnswers` | `static_files.rs`: dates, ranges, conditional requests, the file streamer, and the answer as a client reads it |
| `Boundary`, `Multipart`, `MultipartForm`, `MultipartStreaming` | `multipart.rs`: boundary search, serializer, parse-back, the streaming form |
| `WsFrame`, `WsWire`, `WebSocket`, `WebSocketRuns`, `WebSocketPeers` | `ws_frame.rs` and `ws.rs`: frames, their bytes, messages, whole runs, and two sides of a connection |
| `RateLimiter`, `RateLimiterRuns`, `RateLimiterConformance` | `middleware.rs`: the token-bucket limiter, whole runs of it, and exactly which calls it lets through |
| `Redirects`, `RedirectRuns`, `Retries` | `lib.rs`, `redirect.rs` and `retry.rs` of the client: one exchange, and attempts around it |
| `Gzip` | `lib.rs` of the client: header scan, bounded inflate, decompression |
| `CookieText`, `CookieJar`, `CookieRules` | `cookie.rs`: `Set-Cookie` text, the jar, and its rules position by position |
| `Router` | `router.rs`: patterns and route choice |

`dafny verify dfyconfig.toml` checks the whole project.

## Where the code and its promises part

Each of these is a theorem that says exactly when the code keeps the promise.

- `parse_single_range` rejects a last position at or past the end of the file; section 14.1.2 of RFC 9110 has
  it clamped. It rejects a suffix length above `usize::MAX`, and every spelling of the unit but `bytes`, where
  section 14.1 compares unit names without regard to case (`ByteRange.AgreesExactly`, `UnitCaseMatters`).
- `If-Modified-Since` is consulted although `If-None-Match` is present, against section 13.1.3 of RFC 9110
  (`StaticFiles.DateUnderETag`, `DateOverridesETag`).
- A file that is truncated after its length was taken gives a body shorter than the Content-Length
  (`StaticFiles.TruncatedBodyIsShort`).
- A timestamp whose year does not fit a `u32` prints a date that does not parse (`HttpDate.FormatParseRoundTrip`).
  A two-digit year is read back only for 1970 to 2069 (`HttpDate.Rfc850RoundTrip`), and a four-digit one in that form
  is taken for an offset from 1900 (`HttpDateLayout.YearOfRfc850`). Days up to 31 of every month and any time of day
  are read (`HttpDateLayout.FieldsExactly`).
- `content_type()` announces the generated boundary even when `build()` had to write a suffixed one
  (`MultipartForm.AnnouncedBoundary`, `BoundaryAsValue`), and `build_stream()` does not look for the boundary in
  streamed bodies (`MultipartStreaming.StreamEqualsBuild`, `BoundaryInStream`).
- "No message in progress" is tested on the collected bytes, not on the stored opcode, so an interrupted message
  goes unnoticed when it has brought no bytes (`WebSocketRuns.NewDataFrameMidway`, `AbandonedOpcode`), and so do
  stray continuations that are empty and not final (`StrayContinuation`, `EmptyStraysVanish`), against section 5.4
  of RFC 6455. The shortest length encoding of section 5.2 is not enforced (`WsFrame.AcceptsOnlyLegal`,
  `LongLengthIsAccepted`). Stray fragments that bring bytes silence the connection without closing it
  (`StrayBytesJam`): sequence and UTF-8 errors leave it open, where sections 5.4 and 8.1 want it failed
  (`FailuresThatClose`).
- `send` does not look at whether the connection is closed, so data frames can follow a Close, against section 5.5.1
  of RFC 6455 (`WebSocketRuns.DataAfterClose`, `SendAfterClose`). `send` and `close` write control frames longer
  than section 5.5 allows (`SentFrameIsLegal`, `CloseFrameIsLegal`).
- The periodic sweep can be noticed when a bucket does not refill completely within the idle timeout
  (`RateLimiterRuns.SweepUnnoticedExactly`).
- The comment above `redirect_method` speaks of POST becoming GET; the code changes every method but HEAD
  (`RedirectRuns.VerbOfHop`). `max_retries + 1` wraps for `u32::MAX` in a build without overflow checks
  (`Retries.AlwaysTriesExactly`), and the backoff factor saturates at `u32::MAX` (`Retries.BackoffIsCappedDoubling`).
- `same_origin` compares scheme and host, as its comment says; section 4.3.1 of RFC 9110 makes the port part of an
  origin, so credentials follow a redirect to another port (`RedirectRuns.CredentialsCrossPorts`, `AnotherPort`).
- The gzip header scan ignores the reserved flag bits, for which section 2.3.1.2 of RFC 1952 wants an error, and
  does not check the header's CRC16 (`Gzip.StandardExactly`, `NonStandardIsAccepted`).
- Decoding `deflate` bodies in two attempts can give other bytes than one attempt at the cap would
  (`Gzip.FallbackExactly`, `FallbackDisagrees`).
- The trailer comparison that is meant to reject concatenated gzip members misses some (`Gzip.ConcatenatedMembers`).
- `domain_match` asks whether the cookie's domain is an IP address where section 5.1.3 of RFC 6265 asks about
  the host (`CookieJar.DomainMatchAgainstStandard`, `AddressIsMatched`). A cookie set without Domain is sent below
  its host too, where section 5.4 keeps it to the host itself (`CookieJar.HostOnlyIsForgotten`,
  `SentBelowItsHost`), and a Domain is not compared with the host that sets it, where section 5.3 ignores a cookie
  for another host (`CookieJar.ForeignDomains`, `UnrelatedHosts`).
- A Max-Age that leads past the clock's last instant makes `insert_for_url` panic; the parser accepts every `u64`
  (`CookieJar.Jar.InsertForUrl`, `LargestMaxAge`). A negative one is ignored, where section 5.2.2 of RFC 6265 expires
  the cookie at once (`CookieText.MaxAgeExactly`, `NegativeMaxAge`).
- `resolve` does not know about a sub-path that the URI library refuses (`Router.ResolveAgreesWithDispatch`),
  and its answer for a 405 is the same as for a match without parameters. A mount whose prefix a path starts with
  is entered for good: routes beside it are not tried, also when the prefix ends inside a segment of the path
  (`Router.MountingIsPrefixing`, `MountShadowsRoute`, `MountInsideSegment`).

## Model

| member | source | states |
|---|---|---|
| Calendar.ClosedFormIsNaiveCount | crates/oxihttp-server/src/static_files.rs:384-399 | for every date from 1970 on, the era formula equals a count of leap and common years, month lengths and days; the day may even lie past the month's end |
| Calendar.CivilIsValid | crates/oxihttp-server/src/static_files.rs:429-441 | every day number gives a valid Gregorian date, whose day number is the one started from |
| Calendar.CivilInvertsClosedForm | crates/oxihttp-server/src/static_files.rs:384-441 | every valid date from 1970 on comes back from its day number |
| Calendar.CivilIsDateAfter | crates/oxihttp-server/src/static_files.rs:429-441 | the conversion equals stepping a calendar day by day from 1 January 1970 |
| Calendar.ClosedFormIsOrderIsomorphic | crates/oxihttp-server/src/static_files.rs:384-399 | one date is earlier than another exactly when its day number is smaller |
| Calendar.CivilBeforeEpoch | crates/oxihttp-server/src/static_files.rs:429-441 | negative day numbers give valid dates before 1970 |
| Calendar.YearOfEra | crates/oxihttp-server/src/static_files.rs:429-441 | the estimated year of a day within a 400-year era is right: the rest of the days fits that year |
| Calendar.MonthFromDay | crates/oxihttp-server/src/static_files.rs:429-441 | the 153-day formula finds the month a day of the March-based year falls in |
| HttpDate.FormatParseRoundTrip | crates/oxihttp-server/src/static_files.rs:273-306 | for every `u64` timestamp, parsing the printed date gives it back exactly up to the last year that fits a `u32`, and fails beyond |
| HttpDate.ImfTextParses | crates/oxihttp-server/src/static_files.rs:273-306 | a text of IMF-fixdate shape is decided by its own parser: the two other forms reject it |
| HttpDate.Rfc850RoundTrip | crates/oxihttp-server/src/static_files.rs:309-333 | an RFC 850 date is read back as the same second if and only if its year is before 2070 |
| HttpDate.AsctimeRoundTrip | crates/oxihttp-server/src/static_files.rs:336-352 | an asctime date, its day padded with a space or not, is read back as the same second |
| HttpDate.DateToUnixOfCivil | crates/oxihttp-server/src/static_files.rs:374-381 | the timestamp of a civil date and a time of day is the one they were taken from |
| HttpDateLayout.ImfLayout | crates/oxihttp-server/src/static_files.rs:404-426 | up to the year 9999 a date is printed in the 29 characters of an IMF-fixdate, with the right day of the week, day, month name, year and time, each in its place |
| HttpDateLayout.WeekdayIs | crates/oxihttp-server/src/static_files.rs:412-414 | the day of the week is that of counting on from a Thursday, 1 January 1970 |
| HttpDateLayout.YearsExactly | crates/oxihttp-server/src/static_files.rs:420-426 | a year is printed in at least four characters with its sign, and with no more zeros than that takes |
| HttpDateLayout.LargestIsBeforeEpoch | crates/oxihttp-server/src/static_files.rs:404-426 | a concrete timestamp that is negative as an `i64` and printed as a date of 1969 |
| HttpDateLayout.StandardExample | crates/oxihttp-server/src/static_files.rs:273-426 | the example of section 5.6.7 of RFC 9110: printed so, and read in all three forms |
| HttpDateLayout.MonthsExactly | crates/oxihttp-server/src/static_files.rs:355-371 | the twelve names and nothing else |
| HttpDateLayout.FieldsExactly | crates/oxihttp-server/src/static_files.rs:374-381 | which fields amount to a time, and to which, counted on the calendar from the first of the month |
| HttpDateLayout.ClockExactly | crates/oxihttp-server/src/static_files.rs:296-306 | a time of day is read if and only if it is three numbers between colons |
| HttpDateLayout.ThreeFields | crates/oxihttp-server/src/static_files.rs:309-333 | the date of an RFC 850 text is not read unless it has three fields |
| HttpDateLayout.ZoneIsGmt | crates/oxihttp-server/src/static_files.rs:288-306 | a date in IMF-fixdate form with another zone is not read by any of the parsers |
| HttpDateLayout.Rfc850ZoneIsGmt | crates/oxihttp-server/src/static_files.rs:309-333 | nor is one in RFC 850 form |
| HttpDateLayout.YearOfRfc850 | crates/oxihttp-server/src/static_files.rs:309-333 | the full year that a year field of any length is read as, and that a sum beyond 32 bits leaves no date |
| ByteRange.ParseSingleRange | crates/oxihttp-server/src/static_files.rs:456-494 | whenever it succeeds, start <= end < length |
| ByteRange.ParseMatchesStandard | crates/oxihttp-server/src/static_files.rs:456-494 | for every single byte range of section 14.1.2 of RFC 9110, with any spelling of the unit and any digit strings: the positions it selects, or an error exactly when it selects none, the unit is not in lower case, a number does not fit a `usize`, or the last position is past the end |
| ByteRange.AgreesExactly | crates/oxihttp-server/src/static_files.rs:456-494 | the code does what section 14.1.2 of RFC 9110 says if and only if the unit is in lower case or the range selects nothing, the last position is not past the end, and the suffix length fits |
| ByteRange.AcceptsExactly | crates/oxihttp-server/src/static_files.rs:456-494 | of all headers, well-formed or not, exactly those are accepted that have one range behind "bytes=" asking for bytes inside the file, and with these bounds |
| ByteRange.UnitCaseMatters | crates/oxihttp-server/src/static_files.rs:456-494 | a concrete range with another spelling of the unit, rejected, and one with leading zeros, read |
| ByteRange.LastPositionIsNotClamped | crates/oxihttp-server/src/static_files.rs:456-494 | a concrete range that the standard clamps and the code rejects |
| StaticFiles.EchoedDate | crates/oxihttp-server/src/static_files.rs:639-649 | echoing Last-Modified as If-Modified-Since gives 304 if and only if the modification time in whole seconds has not increased |
| StaticFiles.HeadMirrorsGet | crates/oxihttp-server/src/static_files.rs:613-712 | HEAD gets the status and all headers of GET without the body |
| StaticFiles.DateUnderETag | crates/oxihttp-server/src/static_files.rs:627-649 | when the date is consulted next to an entity tag, and when that changes the answer |
| StaticFiles.DateOverridesETag | crates/oxihttp-server/src/static_files.rs:627-649 | a concrete request whose tag does not match and which the date turns into 304 |
| StaticFiles.ETagIsInjective | crates/oxihttp-server/src/static_files.rs:230-235 | equal tags mean equal length and modification time, and conversely |
| StaticFiles.EchoedETag | crates/oxihttp-server/src/static_files.rs:237-243 | echoing the tag gives 304 if and only if length and modification time are unchanged |
| StaticFiles.FileRangeStream.constructor | crates/oxihttp-server/src/static_files.rs:718-731 | a stream at the start of the range with the whole range remaining; the start may lie past the end of the file |
| StaticFiles.FileRangeStream.PollNext | crates/oxihttp-server/src/static_files.rs:753-785 | one poll changes position, remainder and answer as the step function does |
| StaticFiles.DeliversPrefix | crates/oxihttp-server/src/static_files.rs:753-785 | under any schedule of Pending, short reads and errors, and for a file that may have been truncated: a prefix of what the file has of the range, in chunks of 1 to 65536 bytes |
| StaticFiles.DoneMeansComplete | crates/oxihttp-server/src/static_files.rs:753-785 | a run without failure that reports the end has delivered exactly what the file has of the range |
| StaticFiles.Finishes | crates/oxihttp-server/src/static_files.rs:753-785 | more reads than bytes asked for end the stream, whatever the file |
| StaticFiles.TruncatedBodyIsShort | crates/oxihttp-server/src/static_files.rs:753-785 | the body is as long as announced if and only if the file still reaches to the end of the range |
| FileAnswers.AnswerExactly | crates/oxihttp-server/src/static_files.rs:613-712 | 304 if and only if a tag matches or the date says unmodified; otherwise 200 without Range, 206 for an accepted range with its bounds read back from Content-Range, 416 for a rejected one; with Content-Length, ETag, Content-Type, Cache-Control, Last-Modified and body of each |
| FileAnswers.BodyIsAnnounced | crates/oxihttp-server/src/static_files.rs:613-785 | the body of every answer, driven by any schedule: the selected bytes, the whole file, or nothing; and as long as Content-Length says but for HEAD |
| FileAnswers.TagListMatches | crates/oxihttp-server/src/static_files.rs:237-243 | If-None-Match matches if and only if it is a star or one of its tags, trimmed, is the file's |
| FileAnswers.ETagReadsBack | crates/oxihttp-server/src/static_files.rs:230-235 | a tag is quoted, and says the modification time in nanoseconds, if there is one, and the length in hexadecimal |
| FileAnswers.ChunkExactly | crates/oxihttp-server/src/static_files.rs:753-785 | a read brings as much as the system offers, up to what is asked for, what is left and 64 KiB |
| Boundary.Contains | crates/oxihttp-core/src/multipart.rs:350-365 | the window scan finds the boundary if and only if it occurs |
| Boundary.HasCollision | crates/oxihttp-core/src/multipart.rs:350-365 | whether any body contains the candidate |
| Boundary.FindUniqueBoundary | crates/oxihttp-core/src/multipart.rs:350-365 | the search returns the first candidate, in suffix order, that occurs in no body, if the counter reaches one |
| Boundary.PickedExactly | crates/oxihttp-core/src/multipart.rs:350-365 | it is the first of the candidates with a 32-bit counter that occurs in no body, and there is none if and only if all of them occur |
| Boundary.CandidateReads | crates/oxihttp-core/src/multipart.rs:350-365 | a candidate is the generated boundary with the number of collisions behind it, in at least four hexadecimal digits and no more than needed |
| Boundary.CollisionsOfOneWidth | crates/oxihttp-core/src/multipart.rs:350-365 | pigeonhole: among suffixes of one width, no more collide than the bodies have positions |
| Boundary.SearchSucceeds | crates/oxihttp-core/src/multipart.rs:350-365 | the counter cannot run out for bodies below 0xF0000000 characters, and the result occurs in none of them |
| Boundary.RoundsAreBounded | crates/oxihttp-core/src/multipart.rs:350-365 | the number of rounds is at most the positions in the bodies times the five suffix widths, plus one |
| Boundary.OwnBoundaryCollides | crates/oxihttp-core/src/multipart.rs:350-365 | a body that is the boundary itself sends the search on to another candidate |
| Multipart.SanitizeHeaderParam | crates/oxihttp-core/src/multipart.rs:57-68 | the loop drops CR and LF and escapes backslash and quote where asked |
| Multipart.PutHeaders | crates/oxihttp-core/src/multipart.rs:325-347 | appends the header lines in order |
| Multipart.PutPart | crates/oxihttp-core/src/multipart.rs:325-347 | appends one part with its boundary line and closing line break |
| Multipart.Build | crates/oxihttp-core/src/multipart.rs:325-347 | writes the wire form of all parts under the boundary that the search picked |
| Multipart.SegmentHasNoDelimiter | crates/oxihttp-core/src/multipart.rs:325-347 | no false delimiter arises in sanitized headers, in a body, or between them |
| Multipart.FirstDelimiter | crates/oxihttp-core/src/multipart.rs:325-347 | none straddles the end of a body and its closing line break |
| Multipart.SplitsIntoSegments | crates/oxihttp-core/src/multipart.rs:325-347 | the delimiters a reader finds are exactly those written |
| Multipart.WireReadsBack | crates/oxihttp-core/src/multipart.rs:325-347 | a reader for section 5.1.1 of RFC 2046 recovers every header line and every body, in order |
| Multipart.WireExample | crates/oxihttp-core/src/multipart.rs:325-347 | a form with one text field, spelled out line by line |
| MultipartForm.QuotedReadsBack | crates/oxihttp-core/src/multipart.rs:57-68 | unescaping a sanitized parameter gives the original without CR and LF, and stops at the closing quote |
| MultipartForm.UnquotedIsStripped | crates/oxihttp-core/src/multipart.rs:57-68 | without escaping, only CR and LF are lost |
| MultipartForm.FieldIsSafe | crates/oxihttp-core/src/multipart.rs:96-131 | parts made from any text or file have header lines without line breaks |
| MultipartForm.FieldsReadBack | crates/oxihttp-core/src/multipart.rs:96-131 | name, file name, content type and content are read back from any list of such parts |
| MultipartForm.FormRoundTrip | crates/oxihttp-core/src/multipart.rs:325-347 | with the boundary `build()` picked, a receiver recovers the whole form, whatever the fields contain |
| MultipartForm.AnnouncedBoundary | crates/oxihttp-core/src/multipart.rs:190-192 | with the announced boundary it recovers the form if and only if no body contains that boundary, and otherwise rejects it |
| MultipartForm.BoundaryAsValue | crates/oxihttp-core/src/multipart.rs:190-192 | a concrete form that is lost that way |
| MultipartStreaming.PollQueue | crates/oxihttp-core/src/multipart.rs:641-683 | each poll that is not the last makes the queue's weight smaller, and the last leaves it empty |
| MultipartStreaming.MultipartStream.PollNext | crates/oxihttp-core/src/multipart.rs:641-683 | the loop over the queue leaves the queue and the answer of that function |
| MultipartStreaming.DrainIsAllPolls | crates/oxihttp-core/src/multipart.rs:641-683 | the drain ends, and answers item by item: no chunk empty, split or merged, under any schedule |
| MultipartStreaming.QueueOutput | crates/oxihttp-core/src/multipart.rs:641-683 | the bytes delivered are the queue's bytes |
| MultipartStreaming.PartPreamble | crates/oxihttp-core/src/multipart.rs:604-616 | boundary line, header lines and empty line |
| MultipartStreaming.PushPart | crates/oxihttp-core/src/multipart.rs:573-599 | queues a part's preamble, its body or its stream, and its line break |
| MultipartStreaming.BuildStream | crates/oxihttp-core/src/multipart.rs:573-599 | queues all parts under the boundary picked from the in-memory bodies |
| MultipartStreaming.PickedForStream | crates/oxihttp-core/src/multipart.rs:535-552 | the boundary of a stream is the first candidate that occurs in none of the bodies in memory |
| MultipartStreaming.StreamRefinesWire | crates/oxihttp-core/src/multipart.rs:573-683 | under any schedule and chunking, the streamed bytes are those of the one-shot form with streamed bodies flattened |
| MultipartStreaming.StreamEqualsBuild | crates/oxihttp-core/src/multipart.rs:535-552 | `build_stream` and `build` write the same bytes if and only if no streamed body contains the boundary |
| MultipartStreaming.BoundaryInStream | crates/oxihttp-core/src/multipart.rs:535-552 | a concrete streamed part for which they differ |
| WsFrame.MaskTwice | crates/oxihttp-server/src/ws_frame.rs:245-298 | masking twice with one key is the identity |
| WsFrame.UnmaskInPlace | crates/oxihttp-server/src/ws_frame.rs:94-193 | the in-place loop XORs every byte with its key byte |
| WsFrame.ByteReader.ReadExact | crates/oxihttp-server/src/ws_frame.rs:94-193 | takes exactly so many bytes from the stream, or fails |
| WsFrame.CheckHead | crates/oxihttp-server/src/ws_frame.rs:94-193 | the checks on the first two bytes, in the code's order |
| WsFrame.ReadBody | crates/oxihttp-server/src/ws_frame.rs:94-193 | length, cap, key and payload |
| WsFrame.ReadFrame | crates/oxihttp-server/src/ws_frame.rs:94-193 | reads what the pure decoder decodes or fails with the same error, and leaves the bytes behind the frame or behind the fault |
| WsFrame.DecodeFrame | crates/oxihttp-server/src/ws_frame.rs:94-193 | a success consumes input and stays within the cap |
| WsFrame.PutLength | crates/oxihttp-server/src/ws_frame.rs:198-239 | the three length encodings |
| WsFrame.WriteFrame | crates/oxihttp-server/src/ws_frame.rs:198-239 | appends the unmasked encoding |
| WsFrame.WriteFrameMasked | crates/oxihttp-server/src/ws_frame.rs:245-298 | appends the masked encoding |
| WsFrame.LengthReads | crates/oxihttp-server/src/ws_frame.rs:94-193 | each length encoding is read back, for every length below 2^64 |
| WsFrame.MaskedRoundTrip | crates/oxihttp-server/src/ws_frame.rs:94-298 | decoding an encoded frame gives the frame and the rest of the input; exactly illegal control frames and payloads over the cap are refused |
| WsFrame.UnmaskedRoundTrip | crates/oxihttp-server/src/ws_frame.rs:198-239 | a peer's reader decodes what the server writes |
| WsFrame.StreamRoundTrip | crates/oxihttp-server/src/ws_frame.rs:94-298 | repeated reading of any list of encoded frames gives the list, then goes on with what follows |
| WsFrame.WholeStreamRoundTrip | crates/oxihttp-server/src/ws_frame.rs:94-298 | and consumes exactly those bytes |
| WsFrame.AcceptsOnlyLegal | crates/oxihttp-server/src/ws_frame.rs:94-193 | whatever is accepted is a legal masked frame, and encodes back to the same bytes if and only if its length was in the shortest form |
| WsFrame.LongLengthIsAccepted | crates/oxihttp-server/src/ws_frame.rs:94-193 | a concrete frame whose length is spelled in more bytes than needed, accepted |
| WsWire.OpcodeNumbers | crates/oxihttp-server/src/ws_frame.rs:40-56 | the opcodes have the numbers of section 11.8 of RFC 6455, no other number is one, and those from 8 on are control frames |
| WsWire.MaskedInTurn | crates/oxihttp-server/src/ws_frame.rs:245-298 | masking XORs each block of four bytes with the four bytes of the key, in turn |
| WsWire.StandardExamples | crates/oxihttp-server/src/ws_frame.rs:198-298 | the examples of section 5.7 of RFC 6455, byte by byte |
| WsWire.MoreChangesNothing | crates/oxihttp-server/src/ws_frame.rs:94-193 | any answer of the reader but a premature end is the same however the stream goes on |
| WsWire.CutOffIsEndOfStream | crates/oxihttp-server/src/ws_frame.rs:94-193 | a frame that is cut off anywhere is a premature end |
| WsWire.UnmaskedIsRefused | crates/oxihttp-server/src/ws_frame.rs:94-193 | what a server writes is refused by a server for its missing mask |
| WsWire.HeadIsRefused | crates/oxihttp-server/src/ws_frame.rs:94-193 | which first two bytes of a masked frame are refused with which error, and that no others are |
| WebSocket.WebSocket.constructor | crates/oxihttp-server/src/ws.rs:112-121 | an open connection with nothing collected |
| WebSocket.WebSocket.CheckSizeLimit | crates/oxihttp-server/src/ws.rs:244-256 | refuses and resets exactly when the limit would be exceeded |
| WebSocket.WebSocket.HandleFrame | crates/oxihttp-server/src/ws.rs:172-232 | state, output and outcome of one frame |
| WebSocket.WebSocket.Recv | crates/oxihttp-server/src/ws.rs:150-234 | the loop until an outcome: new state, what was read and what was written |
| WebSocket.WebSocket.Send | crates/oxihttp-server/src/ws.rs:259-278 | writes one frame, whether the connection is closed or not, and marks it closed when that frame is a Close |
| WebSocket.WebSocket.CloseHandshake | crates/oxihttp-server/src/ws.rs:285-297 | writes a Close and drains until the peer's, an error or the end |
| WebSocket.RecvConsumes | crates/oxihttp-server/src/ws.rs:150-234 | every delivered message consumes input, so the drain ends |
| WebSocket.ContinuesSilently | crates/oxihttp-server/src/ws.rs:172-232 | a frame that does not end `recv` writes nothing and closes nothing |
| WebSocketRuns.MemoryIsBounded | crates/oxihttp-server/src/ws.rs:150-256 | in every run, whatever arrives, the buffer and each delivered data message stay within the limit |
| WebSocketRuns.OnceClosed | crates/oxihttp-server/src/ws.rs:150-153 | from a closed state, every later `recv` answers the end and reads and writes nothing |
| WebSocketRuns.ClosedIsFinal | crates/oxihttp-server/src/ws.rs:150-153 | closing is absorbing at any point of any run |
| WebSocketRuns.RecvReplies | crates/oxihttp-server/src/ws.rs:173-192 | what one `recv` writes is the reply to what it delivers and nothing else |
| WebSocketRuns.AfterClose | crates/oxihttp-server/src/ws.rs:259-278 | in any run, once a Close has been written by any call, `recv` writes nothing and every successful `send` still writes its frame |
| WebSocketRuns.DataAfterClose | crates/oxihttp-server/src/ws.rs:259-278 | a data frame follows a Close if and only if the caller successfully sends one |
| WebSocketRuns.SendAfterClose | crates/oxihttp-server/src/ws.rs:259-278 | a concrete run in which one does, and is reported as sent |
| WebSocketRuns.PongsMatchPings | crates/oxihttp-server/src/ws.rs:173-180 | over any run, the Pongs `recv` wrote are the delivered Pings' payloads in order |
| WebSocketRuns.AtMostOneEcho | crates/oxihttp-server/src/ws.rs:184-192 | `recv` writes at most one Close in a run, and none after one was sent |
| WebSocketRuns.DrainWritesOnlyPongs | crates/oxihttp-server/src/ws.rs:285-297 | the drain after our own Close writes Pongs only |
| WebSocketRuns.FinishesMessage | crates/oxihttp-server/src/ws.rs:204-225 | any fragments with control frames between them complete a message that was begun |
| WebSocketRuns.StretchIsRead | crates/oxihttp-server/src/ws.rs:173-225 | a stretch of control frames and fragments that are not final: the control frames come out and are answered, the bytes are collected, and what follows is read from there |
| WebSocketRuns.EndingIsReceived | crates/oxihttp-server/src/ws.rs:173-225 | a Close that ends the stream, between messages or in the middle of one, comes out, is echoed if none was sent, and closes the connection |
| WebSocketRuns.ConformingStreamIsReceived | crates/oxihttp-server/src/ws.rs:150-234 | on any conforming stream, control frames come out where they arrive and each data message once, at its last fragment, with its first opcode and all its bytes, or as an error if it is text and no UTF-8; a Close comes out last, with code and reason, also from the middle of a message; nothing beyond is read, and the Pongs and the echo are all that is written |
| WebSocketRuns.BytesAreReceived | crates/oxihttp-server/src/ws.rs:150-234 | the same from the bytes a client writes, with any mask keys, up to its Close |
| WebSocketRuns.NewDataFrameMidway | crates/oxihttp-server/src/ws.rs:195-225 | after the first frame of a message and any stretch that does not finish it, a new data frame is refused if and only if the message has brought any bytes |
| WebSocketRuns.AbandonedOpcode | crates/oxihttp-server/src/ws.rs:195-206 | a concrete stream in which a message is delivered in the middle of another one |
| WebSocketRuns.StrayContinuation | crates/oxihttp-server/src/ws.rs:195-225 | after any stretch of continuations with no start, the next data frame or final continuation is refused unless it is a data frame and the stray fragments were all empty |
| WebSocketRuns.EmptyStraysVanish | crates/oxihttp-server/src/ws.rs:211-225 | then what follows is received as if they had not been sent |
| WebSocketRuns.StrayBytesJam | crates/oxihttp-server/src/ws.rs:211-225 | in any run after stray fragments that bring bytes, no text or binary message is delivered any more |
| WebSocketRuns.FailuresThatClose | crates/oxihttp-server/src/ws.rs:150-256 | a failure of `recv` closes the connection if and only if it is a failed read or an oversized message, and the latter leaves nothing in the buffer |
| WebSocketRuns.CloseFrameIsLegal | crates/oxihttp-server/src/ws.rs:285-297 | a Close built by `close` is a legal control frame if and only if its reason has at most 123 bytes |
| WebSocketRuns.SentFrameIsLegal | crates/oxihttp-server/src/ws.rs:259-278 | what `send` writes is legal if and only if it is no Ping or Pong of more than 125 bytes and no Close with a reason of more than 123 |
| WebSocketPeers.ConversationRoundTrip | crates/oxihttp-server/src/ws.rs:150-278 | messages of all five kinds that one side sends, written with any mask keys, are delivered by the other side's `recv`, the same and in the same order |
| WebSocketPeers.MessagesArrive | crates/oxihttp-server/src/ws.rs:150-278 | each send writes one frame, and frame by frame these are received as the messages, up to a Close that comes last |
| WebSocketPeers.CloseBytes | crates/oxihttp-server/src/ws.rs:271-297 | the payload of a Close is the code with its high byte first, and then the reason |
| WebSocketPeers.FrameErrors | crates/oxihttp-server/src/ws.rs:172-256 | which frame makes `recv` fail in which state, and with which error |
| WebSocketPeers.SendExactly | crates/oxihttp-server/src/ws.rs:259-278 | a send fails only when its write does; a Close leaves the connection closed even then |
| WebSocketPeers.DrainStops | crates/oxihttp-server/src/ws.rs:285-297 | the drain of a Close handshake receives up to the first thing that is no ordinary message, and not further |
| WebSocketRuns.CloseIsParsed | crates/oxihttp-server/src/ws.rs:444-451 | a received Close says nothing below two bytes, and otherwise a code with its high byte first and a reason |
| RateLimiter.RateLimiter.WithLimits | crates/oxihttp-server/src/middleware.rs:377-393 | an empty limiter, with room for at least one bucket |
| RateLimiter.RateLimiter.Check | crates/oxihttp-server/src/middleware.rs:399-444 | sweep, eviction of some victim, refill and the taking of a token, with the whole new state |
| RateLimiter.RateLimiter.TakeToken | crates/oxihttp-server/src/middleware.rs:428-443 | the end of `check`: the bucket is found or made full, refilled and used |
| RateLimiter.KeptIsSmall | crates/oxihttp-server/src/middleware.rs:406-426 | sweep and eviction leave room for the key, and touch no other bucket |
| RateLimiter.CheckKeepsValid | crates/oxihttp-server/src/middleware.rs:399-444 | one check keeps the bucket count under the cap and every bucket's tokens within bounds |
| RateLimiterRuns.RunKeepsValid | crates/oxihttp-server/src/middleware.rs:399-444 | so does every run |
| RateLimiterRuns.AlwaysValid | crates/oxihttp-server/src/middleware.rs:399-444 | at every point of every run from the start: at most max_buckets buckets, tokens between 0 and max_tokens |
| RateLimiterRuns.CallCosts | crates/oxihttp-server/src/middleware.rs:399-444 | the potential argument for one call: an allowed call costs a token, time adds refill_rate x its length, a drop adds max_tokens |
| RateLimiterRuns.AllowedIsBounded | crates/oxihttp-server/src/middleware.rs:399-444 | from any state, the calls allowed for a key are at most its tokens + refill_rate x time + max_tokens x its drops |
| RateLimiterRuns.WindowBound | crates/oxihttp-server/src/middleware.rs:399-444 | in any window of any run, a key that is not dropped gets at most max_tokens + refill_rate x window length; each drop adds max_tokens |
| RateLimiterRuns.SweepIsInvisible | crates/oxihttp-server/src/middleware.rs:406-416 | in every run without an eviction, and if a bucket refills within the idle timeout, the limiter answers as one that never forgets |
| RateLimiterRuns.FewKeysFit | crates/oxihttp-server/src/middleware.rs:406-426 | no eviction happens when the keys of a run fit under the cap together |
| RateLimiterRuns.SweepMakesRoom | crates/oxihttp-server/src/middleware.rs:406-426 | nor need one happen when they do not: a run with more keys than the cap that never reaches it |
| RateLimiterRuns.SweepUnnoticedExactly | crates/oxihttp-server/src/middleware.rs:406-416 | it does so in all runs without an eviction if and only if idle_timeout x refill_rate covers max_tokens |
| RateLimiterRuns.KeysAreSeparate | crates/oxihttp-server/src/middleware.rs:428-443 | without forgetting, a key's answers depend on its own calls only |
| RateLimiterRuns.KeysAreIndependent | crates/oxihttp-server/src/middleware.rs:399-444 | and therefore in the real limiter too, under those conditions |
| RateLimiterConformance.CallExactly | crates/oxihttp-server/src/middleware.rs:399-444 | a call finds min(max_tokens, what was left + refill_rate x time), or max_tokens without a bucket, is allowed if and only if that is at least 1, and then costs 1; a clock that goes back refills nothing; the buckets of other keys stay as they are |
| RateLimiterConformance.DropsExactly | crates/oxihttp-server/src/middleware.rs:406-426 | a bucket is dropped by a call if and only if the call's number is a multiple of 256 and the bucket has been idle for the timeout, or the cap is reached and the choice falls on it |
| RateLimiterConformance.CallsAreCounted | crates/oxihttp-server/src/middleware.rs:406-416 | the counter of a run is the number of its calls modulo 256 |
| RateLimiterConformance.WaitExactly | crates/oxihttp-server/src/middleware.rs:428-443 | over any run in which a key makes no call and is not dropped, it comes to have min(max_tokens, x + refill_rate x time), and its next call is allowed if and only if that is at least 1 |
| RateLimiterConformance.NeverRefusedExactly | crates/oxihttp-server/src/middleware.rs:399-444 | in any run in which a key is not dropped, none of its calls is refused if and only if every stretch of n of them takes at least so long that n <= max_tokens + refill_rate x its length |
| RateLimiterConformance.UndroppedIsAlone | crates/oxihttp-server/src/middleware.rs:399-444 | until its bucket is dropped, a key is answered as if it had a limiter of its own |
| Redirects.SendInner | crates/oxihttp-client/src/lib.rs:1049-1180 | the hop loop sends the requests and gives the result of the exchange function, for any script of replies |
| RedirectRuns.RedirectsLead | crates/oxihttp-client/src/lib.rs:1063-1180 | the first request goes where the caller says, and every later one follows from a status 301, 302, 303, 307 or 308 and the Location it carried |
| RedirectRuns.LastReplyDecides | crates/oxihttp-client/src/lib.rs:1063-1180 | the result of every exchange, from the answer to its last request: the status, or which error |
| RedirectRuns.VerbOfHop | crates/oxihttp-client/src/redirect.rs:60-72 | the method is kept through 307 and 308, and is GET or HEAD on every hop after another redirect |
| RedirectRuns.BodyOfHop | crates/oxihttp-client/src/redirect.rs:77-79 | the body is sent at a hop if and only if every earlier redirect was 307 or 308 |
| RedirectRuns.OneShotIsSentOnce | crates/oxihttp-client/src/lib.rs:1010-1040 | a one-shot body goes with the first request and no other; needing it again is an error without a request |
| RedirectRuns.HeadersOfHop | crates/oxihttp-client/src/lib.rs:1063-1180 | the caller's Authorization and Cookie headers are at a hop if and only if every URI so far has the first one's scheme, "http" by default, and host, in lower case and an absent host only like an absent one; the other headers always are; a Cookie header from the jar replaces the caller's on that hop |
| RedirectRuns.AnotherHost | crates/oxihttp-client/src/lib.rs:1150-1160 | a concrete redirect to another host, which loses both headers |
| RedirectRuns.SameOriginIs | crates/oxihttp-client/src/lib.rs:1204-1215 | same origin means equal scheme, "http" by default, and equal host, both in lower case |
| RedirectRuns.RequestsAreBounded | crates/oxihttp-client/src/redirect.rs:30-36 | a limit of n allows at most n + 1 requests |
| RedirectRuns.LimitReached | crates/oxihttp-client/src/lib.rs:1063-1180 | the limit is an error if and only if it is not zero and request n + 1 is answered by one more redirect; with a limit of zero the redirect is the answer |
| RedirectRuns.OriginIsAnEquivalence | crates/oxihttp-client/src/lib.rs:1204-1215 | same origin is reflexive, symmetric and transitive |
| RedirectRuns.OneCommonOrigin | crates/oxihttp-client/src/lib.rs:1204-1215 | so the credentials stay exactly while all URIs so far share one origin |
| RedirectRuns.CredentialsCrossPorts | crates/oxihttp-client/src/lib.rs:1204-1215 | the caller's Authorization header reaches another origin of section 4.3.1 of RFC 9110 if and only if a hop goes to another port without the chain having left scheme and host |
| RedirectRuns.AnotherPort | crates/oxihttp-client/src/lib.rs:1204-1215 | a concrete redirect that does |
| Retries.BackoffIsCappedDoubling | crates/oxihttp-client/src/retry.rs:112-117 | the delay grows up to the cap, and is the capped power of two if and only if the factor has not saturated or no longer matters |
| Retries.RunAttempt | crates/oxihttp-client/src/lib.rs:921-950 | one attempt, cut off where the timeout strikes |
| Retries.AttemptIs | crates/oxihttp-client/src/lib.rs:921-950 | every attempt starts with the caller's own request and body; a timeout keeps the requests made so far and is an error |
| Retries.GoesAgain | crates/oxihttp-client/src/lib.rs:952-991 | the match on the outcome retries exactly what the policy retries, while an attempt is left |
| Retries.Send | crates/oxihttp-client/src/lib.rs:902-995 | the attempt loop gives the logs and the result of the attempt function |
| Retries.SendIsBounded | crates/oxihttp-client/src/lib.rs:900-995 | at most max_retries + 1 attempts and (max_retries + 1)(n + 1) requests; one attempt without a policy or with a streaming body |
| Retries.StreamingIsSentOnce | crates/oxihttp-client/src/lib.rs:902-926 | a streaming body gets one attempt and is sent at most once |
| Retries.RetriesExactly | crates/oxihttp-client/src/lib.rs:952-991 | attempt k is followed by another one if and only if its number allows it and its result is a listed status, a transport failure or a timeout that the policy retries; the last one's result is the result |
| Retries.AlwaysTriesExactly | crates/oxihttp-client/src/lib.rs:910-919 | there is at least one attempt unless the attempt count wrapped to zero |
| Gzip.SkipTextLoop | crates/oxihttp-client/src/lib.rs:435-511 | the loop over a zero-terminated field stops right after the zero, within the input |
| Gzip.GzipDeflatePayloadStart | crates/oxihttp-client/src/lib.rs:435-511 | the scan gives the position or the error of its specification, always within the input |
| Gzip.HeaderIsSkipped | crates/oxihttp-client/src/lib.rs:435-511 | every header laid out as in section 2.3 of RFC 1952, with any optional fields, is skipped exactly |
| Gzip.OnlyHeadersAreSkipped | crates/oxihttp-client/src/lib.rs:435-511 | conversely, whatever is skipped is laid out so |
| Gzip.StandardExactly | crates/oxihttp-client/src/lib.rs:435-511 | what is skipped is a header of the standard if and only if the reserved flag bits are zero and the CRC16, when announced, is that of the bytes before it |
| Gzip.NonStandardIsAccepted | crates/oxihttp-client/src/lib.rs:435-511 | concrete headers with reserved bits, and with any CRC16, that are accepted |
| Gzip.HeaderErrors | crates/oxihttp-client/src/lib.rs:435-511 | which headers are refused with which error |
| Gzip.BoundedInflate | crates/oxihttp-client/src/lib.rs:385-406 | which buffers are allocated: the first, and one of the cap's size if decoding into it failed; with a regular decoder the result is that of one decode at the full cap |
| Gzip.FirstTryExactly | crates/oxihttp-client/src/lib.rs:385-406 | the first buffer has eight times the size of the source, but at least 8 KiB and at most the cap |
| Gzip.BoundedDeflateDecompress | crates/oxihttp-client/src/lib.rs:421-428 | the same with zlib, or else raw DEFLATE, as the decoder |
| Gzip.FallbackExactly | crates/oxihttp-client/src/lib.rs:421-428 | the attempts then agree with one decode at the cap unless zlib lacks room where raw DEFLATE succeeds and at the cap gives other bytes |
| Gzip.FallbackDisagrees | crates/oxihttp-client/src/lib.rs:421-428 | two regular decoders for which they do not |
| Gzip.BoundedGzipDecompress | crates/oxihttp-client/src/lib.rs:544-577 | result and buffer sizes of the whole decompression |
| Gzip.SingleMember | crates/oxihttp-client/src/lib.rs:544-577 | a single member gives its plaintext if and only if that fits the cap |
| Gzip.ConcatenatedMembers | crates/oxihttp-client/src/lib.rs:544-577 | with members following, a different length modulo 2^32 or a different CRC of the last one is an error, each its own; otherwise the first plaintext is returned |
| Gzip.TrailerIsMissing | crates/oxihttp-client/src/lib.rs:544-577 | input that ends less than eight bytes behind the header is an error |
| Gzip.RepeatedMember | crates/oxihttp-client/src/lib.rs:544-577 | a member given twice is accepted as if given once |
| CookieText.ParseSetCookie | crates/oxihttp-core/src/cookie.rs:152-199 | the loop over the attributes gives the parsed cookie |
| CookieText.ParsedExactly | crates/oxihttp-core/src/cookie.rs:152-199 | what a header means: name and value around the first equals sign, for each attribute the last value under its name in any case, and the two flags wherever they stand |
| CookieText.ParsedIsPrintable | crates/oxihttp-core/src/cookie.rs:152-199 | every cookie the parser returns is printable |
| CookieText.MaxAgeExactly | crates/oxihttp-core/src/cookie.rs:152-199 | a Max-Age is read as in section 5.2.2 of RFC 6265 if and only if it is not negative, has no plus sign and fits a `u64` |
| CookieText.NegativeMaxAge | crates/oxihttp-core/src/cookie.rs:152-199 | -1 is ignored where it should expire the cookie |
| CookieText.DisplayParseRoundTrip | crates/oxihttp-core/src/cookie.rs:207-234 | parsing a displayed cookie gives it back if and only if it is printable: trimmed fields without semicolon, a non-empty name without equals sign, whole seconds, no expiry time |
| CookieJar.PathMatchMeansBelow | crates/oxihttp-core/src/cookie.rs:261-270 | a cookie path matches itself and everything below it, and nothing else |
| CookieJar.DomainMatchAgainstStandard | crates/oxihttp-core/src/cookie.rs:241-258 | the code agrees with section 5.1.3 of RFC 6265 unless, for a proper suffix, one of host and domain is an IP address and the other is not |
| CookieRules.DomainCovers | crates/oxihttp-core/src/cookie.rs:241-258 | a domain covers a host that equals it or ends with a dot and the domain, in lower case, without the port and one dot in front, if it is no IP address |
| CookieJar.AddressIsMatched | crates/oxihttp-core/src/cookie.rs:241-258 | a concrete domain and address that the code matches and the standard does not |
| CookieJar.Jar.constructor | crates/oxihttp-core/src/cookie.rs:297-299 | an empty jar |
| CookieJar.Jar.Insert | crates/oxihttp-core/src/cookie.rs:302-305 | replaces all cookies of the name |
| CookieJar.Jar.Remove | crates/oxihttp-core/src/cookie.rs:313-319 | takes out and returns the oldest cookie of the name |
| CookieJar.Jar.InsertForUrl | crates/oxihttp-core/src/cookie.rs:355-391 | fails, leaving the jar as it was, if and only if the Max-Age leads past the clock's last instant; otherwise it stores the normalized cookie in place of one with the same name, domain and path |
| CookieRules.OthersStay | crates/oxihttp-core/src/cookie.rs:384-390 | an insertion for a URL keeps exactly the cookies that differ from the stored one in name, domain or path, in order |
| CookieRules.OtherNamesStay | crates/oxihttp-core/src/cookie.rs:302-305 | an insertion by name keeps exactly the cookies of other names, in order |
| CookieRules.FirstIsTaken | crates/oxihttp-core/src/cookie.rs:313-319 | a removal takes the first cookie of the name and leaves the others as they are |
| CookieRules.StoredExactly | crates/oxihttp-core/src/cookie.rs:355-382 | what is stored: expiry, path and domain, each from the cookie's own attribute or from the URL, and everything else as given |
| CookieRules.DefaultPathStops | crates/oxihttp-core/src/cookie.rs:367-380 | the default path is the text before the last slash, or "/" when that is nothing |
| CookieJar.LargestMaxAge | crates/oxihttp-core/src/cookie.rs:381-382 | the largest Max-Age that is parsed makes it fail on any clock that ends before that |
| CookieJar.Jar.CookiesForUrl | crates/oxihttp-core/src/cookie.rs:396-437 | the answer holds exactly the cookies of the jar that match, in descending path length, and in the order of the jar among equally long paths |
| CookieJar.AnswerIsUnique | crates/oxihttp-core/src/cookie.rs:396-437 | no other list has these properties |
| CookieRules.AnswerExactly | crates/oxihttp-core/src/cookie.rs:396-437 | the answer position by position: the cookies that pass the four tests, each once, longer paths first, then by their position in the jar |
| CookieJar.SortIsStable | crates/oxihttp-core/src/cookie.rs:431-436 | the answer descends in path length, keeps the jar's order among equals, and has the same members |
| CookieJar.OrderDetermines | crates/oxihttp-core/src/cookie.rs:431-436 | no other list does |
| CookieJar.HoldsSurvivors | crates/oxihttp-core/src/cookie.rs:302-391 | after any history the jar holds exactly the insertions, among the operations that succeeded, that nothing later replaced or removed, in order |
| CookieJar.FailuresLeaveNoTrace | crates/oxihttp-core/src/cookie.rs:355-391 | the operations of a history that fail may be left out of it |
| CookieJar.OneCookiePerKey | crates/oxihttp-core/src/cookie.rs:302-391 | and at most one for each name, domain and path |
| CookieJar.SendsExactly | crates/oxihttp-core/src/cookie.rs:396-437 | a cookie is in the answer if and only if it survives, has not expired, may use the scheme, and matches domain and path, "/" by default |
| CookieJar.DefaultPathMatches | crates/oxihttp-core/src/cookie.rs:367-380 | the default path of a URL matches its own path if and only if that has a slash |
| CookieJar.OwnHostMatches | crates/oxihttp-core/src/cookie.rs:355-366 | a cookie without Domain matches the host that set it, but for a dot in front of an IP address |
| CookieJar.SetThenSent | crates/oxihttp-core/src/cookie.rs:355-437 | a cookie set by a URL without Domain and Path is stored if and only if its Max-Age stays within the clock, and is then sent back exactly while it is unexpired and its scheme is allowed |
| CookieJar.HostOnlyIsForgotten | crates/oxihttp-core/src/cookie.rs:355-366 | exactly when a cookie without Domain is sent to a host other than its own, or not to its own, against section 5.4 of RFC 6265 |
| CookieJar.SentBelowItsHost | crates/oxihttp-core/src/cookie.rs:355-366 | a concrete host below that gets it |
| CookieJar.ForeignDomains | crates/oxihttp-core/src/cookie.rs:355-437 | exactly when a stored cookie is sent to a host that sections 5.2.3 and 5.3 of RFC 6265 keep it from: an empty Domain and another host, or a Domain that matches that host and not the setting one |
| CookieJar.UnrelatedHosts | crates/oxihttp-core/src/cookie.rs:355-437 | concrete cookies that are |
| Router.MatchPattern | crates/oxihttp-server/src/router.rs:800-837 | the loop gives the parameters of the recursive matcher |
| Router.MatchesExactly | crates/oxihttp-server/src/router.rs:800-837 | a pattern matches a path if and only if its literals fit up to the first wildcard and the lengths agree |
| Router.ParamsExactly | crates/oxihttp-server/src/router.rs:800-837 | the parameters are exactly the bound names, each with what its last binder took |
| Router.RebuildsExactly | crates/oxihttp-server/src/router.rs:800-837 | substituting them rebuilds the path's segments if and only if a repeated name took the same text each time |
| Router.DistinctIsConsistent | crates/oxihttp-server/src/router.rs:800-837 | which distinct names guarantee |
| Router.FilledPathMatches | crates/oxihttp-server/src/router.rs:800-837 | conversely, filling a pattern with any fitting values gives a path that it matches with those values |
| Router.ParsedIsWellFormed | crates/oxihttp-server/src/router.rs:783-797 | parsed patterns have non-empty literals without slash |
| Router.PatternReadsBack | crates/oxihttp-server/src/router.rs:704-797 | a pattern is read back from the way `Display` shows it, with colons and stars, if and only if it is one that a pattern text can say |
| Router.ScanRoutes | crates/oxihttp-server/src/router.rs:552-568 | the loop with its flag makes the choice of the recursive scan |
| Router.ScanChooses | crates/oxihttp-server/src/router.rs:633-679 | the first route for path and verb is chosen; 405 if and only if only other verbs fit; a miss if and only if no pattern fits |
| Router.MountsInOrder | crates/oxihttp-server/src/router.rs:601-631 | the first mount whose prefix the path starts with answers, for the rest of the path or "/"; without one the routes do |
| Router.NestExactly | crates/oxihttp-server/src/router.rs:473-477 | a router is mounted behind the others, under its prefix without the slashes at the end |
| Router.Dispatch | crates/oxihttp-server/src/router.rs:605-679 | the mount loop and the route loop make the choice of the specification, at any depth |
| Router.Resolve | crates/oxihttp-server/src/router.rs:543-569 | the same for introspection |
| Router.ResolveAgreesWithDispatch | crates/oxihttp-server/src/router.rs:543-679 | at any depth, dispatch gives no URI error exactly when no rewritten sub-path is refused, and then introspection gives the parameters of the handler that is dispatched to, none for a 405, and nothing for a miss |
| Router.AgreeAtSegmentEnds | crates/oxihttp-server/src/router.rs:543-679 | so they agree when every prefix ends where a path segment does, for every path the URI library accepts, if it also accepts the rest of such a path from a slash on |
| Router.MountingIsPrefixing | crates/oxihttp-server/src/router.rs:601-631 | a tree of any depth answers for a path as the one flat list of its routes with their prefixes does for the path with a slash behind each prefix, if, and with distinct handlers only if, no route outside the mount that is entered interferes; the segments are the path's own when each prefix ends where a segment does |
| Router.CutIsFlat | crates/oxihttp-server/src/router.rs:601-631 | the routes before, in and behind that mount are the flat list, in order |
| Router.MountShadowsRoute | crates/oxihttp-server/src/router.rs:601-631 | a concrete tree and path where one does |
| Router.MountInsideSegment | crates/oxihttp-server/src/router.rs:601-631 | a concrete prefix that ends inside a segment, for which the flat pattern does not fit the path |
| Router.RootMountTakesAll | crates/oxihttp-server/src/router.rs:473-477 | a router mounted at the root hides the routes beside it |

## Left out

- TLS, QUIC, HTTP/3, connectors, proxies, accept loops, hyper and tokio: I/O over libraries that are not part of this model. A stream is a sequence of bytes or frames with a schedule, a server is a script of replies.
- Gzip.StandardExactly: the extra field is a string of bytes; that section 2.3.1.1 of RFC 1952 divides it into subfields is not modelled.
- DEFLATE, CRC-32, SHA-1 and base64: `Gzip` takes the decoder and the checksum as parameters, with the assumptions stated as predicates.
- `http::Uri` and `HeaderMap`: a URI is a record, resolving a Location and accepting a rewritten path are parameters, header values are strings (values that are not visible ASCII are not modelled).
- UTF-8 validation: a parameter on byte sequences. The reason of a received Close is kept as bytes; its lossy conversion to text is not modelled.
- Clocks and randomness: times, mask keys and the generated boundary are inputs. The boundary is not empty and has no line break, as `generate_boundary` makes it.
- RateLimiter.RateLimiter.Check: tokens are real numbers, so the rounding of `f64` is not modelled, and the theorems about runs take a refill rate and an idle timeout that are not negative and a clock that does not go back.
- MultipartForm.FormRoundTrip: `Part::custom` is unsanitized by design and outside the parse-back theorem; streamed bodies are outside it because the boundary search does not see them.
- Boundary.FindUniqueBoundary: overflow of the `u32` counter, which panics or wraps in Rust, is the answer None.
- WebSocket.WebSocket.Send: a failed write is taken to write nothing, here and in the other methods that write.
- WebSocket.WebSocket.HandleFrame: likewise. The message size limit is fixed for the life of a connection.
- Redirects.SendInner: what a cookie jar has for a request is an arbitrary input. When storing a response's cookie panics (`CookieJar.Jar.InsertForUrl`), the panic ends the call and poisons the jar's lock, after which the client goes on without the jar; that is not an outcome here. The Accept-Encoding header, body decompression and response size limits are not modelled.
- Retries.RunAttempt: a timeout cuts the exchange after some number of requests; the time spent sleeping is not modelled.
- HttpDate.ImfTextParses: days and clock fields out of range are not rejected by the code either; the model keeps that, and the round trips concern dates that exist. A huge year field wraps, as in a build without overflow checks.
- Static file paths, MIME types, symlink checks and `is_path_safe`, which work on the file system.
- Virtual hosts, handlers, fallbacks and request state in the router.
- CORS headers, body limits, logging, request ids, content negotiation, typed header accessors, response helpers, builders and error types: each is a table lookup, a field access or a call into the HTTP library, with no state or rule of its own beyond what its signature says.
