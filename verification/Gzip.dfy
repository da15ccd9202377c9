/**
  The bounded gzip decoder of the client (`lib.rs`): the header scan of section 2.3 of RFC 1952, and
  the decoding of what follows into a buffer of at most `cap` bytes. DEFLATE and CRC-32 are parameters.
 */
module Gzip {
  import opened Wrappers
  import opened Bytes

  datatype Error =
    | TooShort
    | BadMagic
    | BadMethod
    | Truncated
    | MissingTrailer
    | InflateFailed
    | LengthMismatch
    | CrcMismatch

  // ---- Little-endian numbers ----

  function LittleEndian(s: seq<Byte>): nat {
    if s == [] then 0 else s[0] as nat + 256 * LittleEndian(s[1..])
  }

  function ToLittleEndian(n: nat, k: nat): (s: seq<Byte>)
    ensures |s| == k
  {
    if k == 0 then [] else [U8(n % 256)] + ToLittleEndian(n / 256, k - 1)
  }

  function Pow256(k: nat): nat {
    if k == 0 then 1 else 256 * Pow256(k - 1)
  }

  lemma {:induction false} LittleEndianReadsBack(n: nat, k: nat)
    requires n < Pow256(k)
    ensures LittleEndian(ToLittleEndian(n, k)) == n
  {
    if k > 0 {
      LittleEndianReadsBack(n / 256, k - 1);
      assert ToLittleEndian(n, k)[1..] == ToLittleEndian(n / 256, k - 1);
    }
  }

  lemma {:induction false} LittleEndianWritesBack(s: seq<Byte>)
    ensures ToLittleEndian(LittleEndian(s), |s|) == s && LittleEndian(s) < Pow256(|s|)
  {
    if s != [] {
      LittleEndianWritesBack(s[1..]);
      U8OfByte(s[0]);
      var n := LittleEndian(s);
      assert n % 256 == s[0] as nat && n / 256 == LittleEndian(s[1..]);
      assert s == [s[0]] + s[1..];
    }
  }

  lemma Powers()
    ensures Pow256(2) == 0x1_0000 && Pow256(4) == 0x1_0000_0000
  {
    assert Pow256(1) == 256 && Pow256(3) == 0x100_0000;
  }

  // ---- The header scan ----

  /** The position after the first zero byte from `pos` on. */
  function SkipText(data: seq<Byte>, pos: nat): Option<nat>
    decreases |data| - pos
  {
    if pos >= |data| then None else if data[pos] == 0 then Some(pos + 1) else SkipText(data, pos + 1)
  }

  function SkipExtra(flag: bool, data: seq<Byte>, pos: nat): Option<nat> {
    if !flag then Some(pos)
    else if pos + 2 > |data| then None
    else
      var end := pos + 2 + LittleEndian(data[pos..pos + 2]);
      if end > |data| then None else Some(end)
  }

  function SkipTextIf(flag: bool, data: seq<Byte>, pos: nat): Option<nat> {
    if flag then SkipText(data, pos) else Some(pos)
  }

  function SkipCrc(flag: bool, data: seq<Byte>, pos: nat): Option<nat> {
    if !flag then Some(pos) else if pos + 2 > |data| then None else Some(pos + 2)
  }

  function SkipFields(flags: Byte, data: seq<Byte>, pos: nat): Option<nat> {
    var afterExtra :- SkipExtra(flags & 0x04 != 0, data, pos);
    var afterName :- SkipTextIf(flags & 0x08 != 0, data, afterExtra);
    var afterComment :- SkipTextIf(flags & 0x10 != 0, data, afterName);
    SkipCrc(flags & 0x02 != 0, data, afterComment)
  }

  function PayloadStart(data: seq<Byte>): Result<nat, Error> {
    if |data| < 10 then Err(TooShort)
    else if data[0] != 0x1f || data[1] != 0x8b then Err(BadMagic)
    else if data[2] != 8 then Err(BadMethod)
    else
      match SkipFields(data[3], data, 10)
      case Some(pos) => Ok(pos)
      case None => Err(Truncated)
  }

  /** The loop that skips a zero-terminated field. */
  method SkipTextLoop(data: seq<Byte>, start: nat) returns (r: Option<nat>)
    requires start <= |data|
    ensures r == SkipText(data, start)
    ensures r.Some? ==> start < r.value <= |data|
  {
    var pos := start;
    while pos < |data| && data[pos] != 0
      invariant start <= pos <= |data| && SkipText(data, pos) == SkipText(data, start)
    {
      pos := pos + 1;
    }
    if pos >= |data| {
      return None;
    }
    return Some(pos + 1);
  }

  method GzipDeflatePayloadStart(data: seq<Byte>) returns (r: Result<nat, Error>)
    ensures r == PayloadStart(data)
    ensures r.Ok? ==> 10 <= r.value <= |data|
  {
    if |data| < 10 {
      return Err(TooShort);
    }
    if data[0] != 0x1f || data[1] != 0x8b {
      return Err(BadMagic);
    }
    if data[2] != 8 {
      return Err(BadMethod);
    }
    var flg, pos := data[3], 10;
    if flg & 0x04 != 0 {
      if pos + 2 > |data| {
        return Err(Truncated);
      }
      var xlen := LittleEndian(data[pos..pos + 2]);
      pos := pos + 2;
      pos := pos + xlen;
      if pos > |data| {
        return Err(Truncated);
      }
    }
    if flg & 0x08 != 0 {
      var next := SkipTextLoop(data, pos);
      if next.None? {
        return Err(Truncated);
      }
      pos := next.value;
    }
    if flg & 0x10 != 0 {
      var next := SkipTextLoop(data, pos);
      if next.None? {
        return Err(Truncated);
      }
      pos := next.value;
    }
    if flg & 0x02 != 0 {
      if pos + 2 > |data| {
        return Err(Truncated);
      }
      pos := pos + 2;
    }
    return Ok(pos);
  }

  // ---- Headers as the standard writes them ----

  /** A gzip header; `fixed` is MTIME, XFL and OS, which nobody reads. */
  datatype Header = Header(flags: Byte, fixed: seq<Byte>, extra: seq<Byte>, name: seq<Byte>, comment: seq<Byte>,
                           crc: seq<Byte>)

  /** The layout of section 2.3 of RFC 1952: which fields there are, and how each ends. */
  predicate IsLaidOut(h: Header) {
    && |h.fixed| == 6 && |h.crc| == 2
    && |h.extra| < 0x1_0000 && 0 !in h.name && 0 !in h.comment
  }

  function ExtraBytes(h: Header): seq<Byte>
  {
    if h.flags & 0x04 != 0 then ToLittleEndian(|h.extra|, 2) + h.extra else []
  }

  function NameBytes(h: Header): seq<Byte> {
    if h.flags & 0x08 != 0 then h.name + [0] else []
  }

  function CommentBytes(h: Header): seq<Byte> {
    if h.flags & 0x10 != 0 then h.comment + [0] else []
  }

  function CrcBytes(h: Header): seq<Byte> {
    if h.flags & 0x02 != 0 then h.crc else []
  }

  /** The optional fields in their order; a field is there when its flag is set. */
  function Serialize(h: Header): seq<Byte> {
    [0x1f, 0x8b, 8, h.flags] + h.fixed + ExtraBytes(h) + NameBytes(h) + CommentBytes(h) + CrcBytes(h)
  }

  /** The header up to its own checksum. */
  function BeforeCrc(h: Header): seq<Byte> {
    [0x1f, 0x8b, 8, h.flags] + h.fixed + ExtraBytes(h) + NameBytes(h) + CommentBytes(h)
  }

  /** What the standard asks of a header besides its layout: the reserved flag bits are zero, and the CRC16,
      when there is one, is the lower half of the CRC-32 of everything before it. */
  predicate IsStandard(h: Header, crc32: seq<Byte> -> nat) {
    && IsLaidOut(h)
    && h.flags & 0xE0 == 0
    && (h.flags & 0x02 != 0 ==> h.crc == ToLittleEndian(crc32(BeforeCrc(h)) % 0x1_0000, 2))
  }

  lemma {:induction false} SkipsText(before: seq<Byte>, text: seq<Byte>, rest: seq<Byte>)
    requires 0 !in text
    ensures SkipText(before + text + [0] + rest, |before|) == Some(|before| + |text| + 1)
    decreases |text|
  {
    var data := before + text + [0] + rest;
    if text != [] {
      assert data[|before|] == text[0] && text[0] in text;
      assert data == before + [text[0]] + text[1..] + [0] + rest;
      SkipsText(before + [text[0]], text[1..], rest);
    }
  }

  lemma SkipsTextField(flag: bool, before: seq<Byte>, text: seq<Byte>, rest: seq<Byte>)
    requires 0 !in text
    ensures var field := if flag then text + [0] else [];
            SkipTextIf(flag, before + field + rest, |before|) == Some(|before + field|)
  {
    if flag {
      SkipsText(before, text, rest);
      assert before + (text + [0]) + rest == before + text + [0] + rest;
    }
  }

  lemma SkipsExtra(flag: bool, before: seq<Byte>, extra: seq<Byte>, rest: seq<Byte>)
    requires |extra| < 0x1_0000
    ensures var field := if flag then ToLittleEndian(|extra|, 2) + extra else [];
            SkipExtra(flag, before + field + rest, |before|) == Some(|before + field|)
  {
    if flag {
      Powers();
      LittleEndianReadsBack(|extra|, 2);
      var data := before + (ToLittleEndian(|extra|, 2) + extra) + rest;
      assert data[|before|..|before| + 2] == ToLittleEndian(|extra|, 2);
    }
  }

  /** Every header of that layout, with any combination of optional fields, is skipped exactly; the headers
      of the standard are among them. */
  lemma HeaderIsSkipped(h: Header, rest: seq<Byte>)
    requires IsLaidOut(h)
    ensures PayloadStart(Serialize(h) + rest) == Ok(|Serialize(h)|)
  {
    var base := [0x1f, 0x8b, 8, h.flags] + h.fixed;
    var fields := ExtraBytes(h) + NameBytes(h) + CommentBytes(h) + CrcBytes(h);
    FieldsAreSkipped(h, base, rest);
    hide SkipFields, ExtraBytes, NameBytes, CommentBytes, CrcBytes;
    var data := Serialize(h) + rest;
    Regroup(base, ExtraBytes(h), NameBytes(h), CommentBytes(h), CrcBytes(h), rest);
    assert Serialize(h) == base + fields by {
      Regroup(base, ExtraBytes(h), NameBytes(h), CommentBytes(h), CrcBytes(h), []);
      assert base + (fields + []) == base + fields;
    }
    assert data == base + (fields + rest);
    assert base[0] == 0x1f && base[1] == 0x8b && base[2] == 8 && base[3] == h.flags;
    assert data[0] == base[0] && data[1] == base[1] && data[2] == base[2] && data[3] == base[3];
  }

  lemma Regroup(base: seq<Byte>, a: seq<Byte>, b: seq<Byte>, c: seq<Byte>, d: seq<Byte>, rest: seq<Byte>)
    ensures base + a + b + c + d + rest == base + (a + b + c + d + rest)
    ensures base + a + b + c + d + rest == base + a + (b + c + d + rest)
    ensures base + a + b + c + d + rest == base + a + b + (c + d + rest)
    ensures base + a + b + c + d + rest == base + a + b + c + (d + rest)
  {
  }

  lemma FieldsAreSkipped(h: Header, base: seq<Byte>, rest: seq<Byte>)
    requires IsLaidOut(h)
    ensures var fields := ExtraBytes(h) + NameBytes(h) + CommentBytes(h) + CrcBytes(h);
            SkipFields(h.flags, base + (fields + rest), |base|) == Some(|base + fields|)
  {
    hide SkipExtra, SkipTextIf, ToLittleEndian;
    var extra, name, comment, crc := ExtraBytes(h), NameBytes(h), CommentBytes(h), CrcBytes(h);
    var data := base + (extra + name + comment + crc + rest);
    SkipsExtra(h.flags & 0x04 != 0, base, h.extra, name + comment + crc + rest);
    SkipsTextField(h.flags & 0x08 != 0, base + extra, h.name, comment + crc + rest);
    SkipsTextField(h.flags & 0x10 != 0, base + extra + name, h.comment, crc + rest);
    assert |crc| == if h.flags & 0x02 != 0 then 2 else 0;
    hide ExtraBytes, NameBytes, CommentBytes, CrcBytes;
    Regroup(base, extra, name, comment, crc, rest);
  }

  lemma {:induction false} TextIsThere(data: seq<Byte>, pos: nat)
    requires pos <= |data| && SkipText(data, pos).Some?
    ensures var end := SkipText(data, pos).value;
            && pos < end <= |data| && data[end - 1] == 0 && 0 !in data[pos..end - 1]
    decreases |data| - pos
  {
    if data[pos] != 0 {
      TextIsThere(data, pos + 1);
      var end := SkipText(data, pos).value;
      assert data[pos..end - 1] == [data[pos]] + data[pos + 1..end - 1];
    }
  }

  lemma TextFieldIsThere(flag: bool, data: seq<Byte>, pos: nat) returns (text: seq<Byte>)
    requires pos <= |data| && SkipTextIf(flag, data, pos).Some?
    ensures var end := SkipTextIf(flag, data, pos).value;
            && pos <= end <= |data| && 0 !in text
            && data[pos..end] == if flag then text + [0] else []
  {
    if flag {
      TextIsThere(data, pos);
      text := data[pos..SkipText(data, pos).value - 1];
    } else {
      text := [];
    }
  }

  lemma ExtraIsThere(flag: bool, data: seq<Byte>, pos: nat) returns (extra: seq<Byte>)
    requires pos <= |data| && SkipExtra(flag, data, pos).Some?
    ensures var end := SkipExtra(flag, data, pos).value;
            && pos <= end <= |data| && |extra| < 0x1_0000
            && data[pos..end] == if flag then ToLittleEndian(|extra|, 2) + extra else []
  {
    if flag {
      Powers();
      LittleEndianWritesBack(data[pos..pos + 2]);
      extra := data[pos + 2..SkipExtra(flag, data, pos).value];
      hide LittleEndian, ToLittleEndian, Pow256;
      assert |extra| == LittleEndian(data[pos..pos + 2]);
      assert data[pos..pos + 2 + |extra|] == data[pos..pos + 2] + extra;
    } else {
      extra := [];
    }
  }

  /** The scan succeeds only on a header of that layout, and stops right after it, within the input. */
  lemma OnlyHeadersAreSkipped(data: seq<Byte>) returns (h: Header)
    requires PayloadStart(data).Ok?
    ensures IsLaidOut(h)
    ensures PayloadStart(data).value <= |data| && Serialize(h) == data[..PayloadStart(data).value]
  {
    hide ToLittleEndian, LittleEndian;
    var flags := data[3];
    var a := SkipExtra(flags & 0x04 != 0, data, 10).value;
    var extra := ExtraIsThere(flags & 0x04 != 0, data, 10);
    hide SkipExtra;
    var b := SkipTextIf(flags & 0x08 != 0, data, a).value;
    var name := TextFieldIsThere(flags & 0x08 != 0, data, a);
    var c := SkipTextIf(flags & 0x10 != 0, data, b).value;
    var comment := TextFieldIsThere(flags & 0x10 != 0, data, b);
    hide SkipTextIf;
    var d := SkipCrc(flags & 0x02 != 0, data, c).value;
    var crc := if flags & 0x02 != 0 then data[c..d] else [0, 0];
    h := Header(flags, data[4..10], extra, name, comment, crc);
    Slices(data, 10, a, b, c, d);
    assert data[..10] == [0x1f, 0x8b, 8, flags] + data[4..10];
  }

  lemma Slices(data: seq<Byte>, p: nat, a: nat, b: nat, c: nat, d: nat)
    requires p <= a <= b <= c <= d <= |data|
    ensures data[..p] + data[p..a] + data[a..b] + data[b..c] + data[c..d] == data[..d]
  {
    assert data[..p] + data[p..a] == data[..a];
    assert data[..a] + data[a..b] == data[..b];
    assert data[..b] + data[b..c] == data[..c];
    assert data[..c] + data[c..d] == data[..d];
  }

  /** The bytes that were skipped are a header of the standard exactly when the reserved flag bits are zero and
      the CRC16, when the flags announce one, agrees. Section 2.3.1.2 of RFC 1952 wants an error otherwise;
      the scan looks at neither. */
  lemma StandardExactly(data: seq<Byte>, crc32: seq<Byte> -> nat)
    requires PayloadStart(data).Ok?
    ensures 10 <= PayloadStart(data).value <= |data|
    ensures var n := PayloadStart(data).value;
            (exists h :: IsStandard(h, crc32) && Serialize(h) == data[..n])
            <==> && data[3] & 0xE0 == 0
                 && (data[3] & 0x02 != 0 ==>
                       12 <= n && data[n - 2..n] == ToLittleEndian(crc32(data[..n - 2]) % 0x1_0000, 2))
  {
    var n := PayloadStart(data).value;
    var h := OnlyHeadersAreSkipped(data);
    SplitAtCrc(h, data, n);
    hide PayloadStart, ToLittleEndian;
    if data[3] & 0xE0 == 0 && (data[3] & 0x02 != 0 ==>
         data[n - 2..n] == ToLittleEndian(crc32(data[..n - 2]) % 0x1_0000, 2)) {
      assert IsStandard(h, crc32) && Serialize(h) == data[..n];
    }
    forall g | IsStandard(g, crc32) && Serialize(g) == data[..n]
      ensures data[3] & 0xE0 == 0
      ensures data[3] & 0x02 != 0 ==> data[n - 2..n] == ToLittleEndian(crc32(data[..n - 2]) % 0x1_0000, 2)
    {
      SplitAtCrc(g, data, n);
    }
  }

  lemma SplitAtCrc(h: Header, data: seq<Byte>, n: nat)
    requires IsLaidOut(h) && n <= |data| && Serialize(h) == data[..n]
    ensures 10 <= n && h.flags == data[3]
    ensures h.flags & 0x02 != 0 ==> 12 <= n && BeforeCrc(h) == data[..n - 2] && h.crc == data[n - 2..n]
  {
    hide ExtraBytes, NameBytes, CommentBytes;
    var before := BeforeCrc(h);
    assert Serialize(h) == before + CrcBytes(h);
    assert |before| >= 10 && before[3] == h.flags by {
      assert ([0x1f, 0x8b, 8, h.flags] + h.fixed)[3] == h.flags;
    }
    assert data[..n][3] == data[3];
    if h.flags & 0x02 != 0 {
      assert |before| == n - 2;
      assert data[..n][..n - 2] == data[..n - 2] && data[..n][n - 2..] == data[n - 2..n];
    }
  }

  /** For instance, a header with all three reserved bits set is accepted, and one with any CRC16 at all. */
  lemma NonStandardIsAccepted(os: Byte, low: Byte, high: Byte)
    ensures PayloadStart([0x1f, 0x8b, 8, 0xE0, 0, 0, 0, 0, 0, os]) == Ok(10)
    ensures PayloadStart([0x1f, 0x8b, 8, 0x02, 0, 0, 0, 0, 0, os, low, high]) == Ok(12)
  {
  }

  /** Why a header is refused: it is short of its ten fixed bytes, does not start with the two magic ones, names another
      method than 8, or ends in the middle of a field. */
  lemma HeaderErrors(data: seq<Byte>)
    ensures match PayloadStart(data)
            case Ok(_) => 10 <= |data| && data[..3] == [0x1f, 0x8b, 8]
            case Err(e) =>
              && (e == TooShort <==> |data| < 10)
              && (e == BadMagic <==> 10 <= |data| && data[..2] != [0x1f, 0x8b])
              && (e == BadMethod <==> 10 <= |data| && data[..2] == [0x1f, 0x8b] && data[2] != 8)
              && (e == Truncated <==> 10 <= |data| && data[..3] == [0x1f, 0x8b, 8])
  {
    hide SkipFields;
  }

  // ---- Bounded decoding ----

  /** `inflate_into`: the source and the size of the destination buffer, to the bytes written. */
  type Decoder = (seq<Byte>, nat) -> Result<seq<Byte>, Error>

  const USIZE_MAX: nat := 0xFFFF_FFFF_FFFF_FFFF

  function FirstTry(src: seq<Byte>, cap: nat): nat {
    var wanted := if |src| * 8 < USIZE_MAX then |src| * 8 else USIZE_MAX;
    var atLeast := if wanted < 8192 then 8192 else wanted;
    if atLeast < cap then atLeast else cap
  }

  /** The first buffer has eight times the size of the source, but at least 8 KiB and at most the cap. */
  lemma FirstTryExactly(src: seq<Byte>, cap: nat)
    requires |src| * 8 <= 0xFFFF_FFFF_FFFF_FFFF
    ensures var n := FirstTry(src, cap);
            && n <= cap
            && (n < cap ==> n == 8192 || n == 8 * |src|)
            && (n < cap ==> 8192 <= n && 8 * |src| <= n)
  {
  }

  /** A decoder that does not overrun its buffer, and whose success does not depend on spare room. */
  ghost predicate Regular(decode: Decoder, src: seq<Byte>) {
    forall size, larger :: decode(src, size).Ok? && size <= larger ==>
      |decode(src, size).value| <= size && decode(src, larger) == decode(src, size)
  }

  /** A decode into a small buffer, and if that fails one into a buffer of the full size. */
  function TwoTries(src: seq<Byte>, cap: nat, decode: Decoder): Result<seq<Byte>, Error> {
    var first := decode(src, FirstTry(src, cap));
    if first.Ok? then first else decode(src, cap)
  }

  /** The result, and the sizes of the buffers allocated on the way. With a regular decoder the two attempts
      agree with a single decode at the full cap; with any decoder, no buffer is larger than the cap. */
  method BoundedInflate(src: seq<Byte>, cap: nat, decode: Decoder)
    returns (r: Result<seq<Byte>, Error>, buffers: seq<nat>)
    ensures r == TwoTries(src, cap, decode)
    ensures Regular(decode, src) ==> r == decode(src, cap)
    ensures |buffers| <= 2 && forall b :: b in buffers ==> b <= cap
    ensures var first := FirstTry(src, cap);
            buffers == if decode(src, first).Ok? || first == cap then [first] else [first, cap]
  {
    var firstTry := FirstTry(src, cap);
    buffers := [firstTry];
    r := decode(src, firstTry);
    if r.Err? && firstTry < cap {
      buffers := buffers + [cap];
      r := decode(src, cap);
    }
  }

  /** The decoder for `Content-Encoding: deflate`: zlib, or else raw DEFLATE. */
  function ZlibElseRaw(zlib: Decoder, raw: Decoder): Decoder {
    (src, size: nat) => if zlib(src, size).Ok? then zlib(src, size) else raw(src, size)
  }

  /** `bounded_deflate_decompress`. */
  method BoundedDeflateDecompress(data: seq<Byte>, cap: nat, zlib: Decoder, raw: Decoder)
    returns (r: Result<seq<Byte>, Error>, buffers: seq<nat>)
    ensures r == TwoTries(data, cap, ZlibElseRaw(zlib, raw))
    ensures forall b :: b in buffers ==> b <= cap
  {
    r, buffers := BoundedInflate(data, cap, ZlibElseRaw(zlib, raw));
  }

  /** That decoder need not be regular, even if its two halves are: zlib may fail for lack of room where raw
      DEFLATE succeeds. The two attempts agree with one decode at the cap exactly when it does not come to
      that, or both give the same bytes. */
  lemma FallbackExactly(src: seq<Byte>, cap: nat, zlib: Decoder, raw: Decoder)
    requires Regular(zlib, src) && Regular(raw, src)
    ensures var first := FirstTry(src, cap);
            TwoTries(src, cap, ZlibElseRaw(zlib, raw)) == ZlibElseRaw(zlib, raw)(src, cap)
            <==> !(zlib(src, first).Err? && raw(src, first).Ok? && zlib(src, cap).Ok?
                   && zlib(src, cap) != raw(src, first))
  {
    var first := FirstTry(src, cap);
    assert zlib(src, first).Ok? ==> zlib(src, cap) == zlib(src, first);
    assert raw(src, first).Ok? ==> raw(src, cap) == raw(src, first);
  }

  /** For instance, decoders of which zlib needs 10000 bytes of room and raw DEFLATE needs none. */
  lemma FallbackDisagrees()
    ensures var zlib: Decoder := (src, size: nat) =>
              if size < 10000 then Err(InflateFailed) else Ok(seq(10000, i => 0));
            var raw: Decoder := (src, size: nat) => Ok([]);
            && Regular(zlib, []) && Regular(raw, [])
            && TwoTries([], 10000, ZlibElseRaw(zlib, raw)) == Ok([])
            && ZlibElseRaw(zlib, raw)([], 10000) != Ok([])
  {
  }

  // ---- A whole member ----

  const TRAILER: nat := 8

  function Checked(decoded: seq<Byte>, crc: seq<Byte> -> nat, trailer: seq<Byte>): Result<seq<Byte>, Error>
    requires |trailer| == TRAILER
  {
    if |decoded| % 0x1_0000_0000 != LittleEndian(trailer[4..]) then Err(LengthMismatch)
    else if crc(decoded) != LittleEndian(trailer[..4]) then Err(CrcMismatch)
    else Ok(decoded)
  }

  function Decompress(raw: seq<Byte>, cap: nat, inflate: Decoder, crc: seq<Byte> -> nat): Result<seq<Byte>, Error> {
    var start :- PayloadStart(raw);
    if |raw| < start + TRAILER then Err(MissingTrailer)
    else
      var decoded :- inflate(raw[start..], cap);
      Checked(decoded, crc, raw[|raw| - TRAILER..])
  }

  method BoundedGzipDecompress(raw: seq<Byte>, cap: nat, inflate: Decoder, crc: seq<Byte> -> nat)
    returns (r: Result<seq<Byte>, Error>, buffers: seq<nat>)
    requires forall src :: Regular(inflate, src)
    ensures r == Decompress(raw, cap, inflate, crc)
    ensures forall b :: b in buffers ==> b <= cap
  {
    buffers := [];
    var start := GzipDeflatePayloadStart(raw);
    if start.Err? {
      return Err(start.error), buffers;
    }
    if |raw| < start.value + TRAILER {
      return Err(MissingTrailer), buffers;
    }
    var trailer := raw[|raw| - TRAILER..];
    var expectedCrc, expectedIsize := LittleEndian(trailer[..4]), LittleEndian(trailer[4..]);
    var decoded, sizes := BoundedInflate(raw[start.value..], cap, inflate);
    buffers := sizes;
    if decoded.Err? {
      return decoded, buffers;
    }
    if |decoded.value| % 0x1_0000_0000 != expectedIsize {
      return Err(LengthMismatch), buffers;
    }
    if crc(decoded.value) != expectedCrc {
      return Err(CrcMismatch), buffers;
    }
    return decoded, buffers;
  }

  /** `inflate` decodes the DEFLATE stream `z` to `plain` whatever follows it, if there is room. */
  ghost predicate Decodes(inflate: Decoder, z: seq<Byte>, plain: seq<Byte>) {
    forall rest, size :: inflate(z + rest, size) == if |plain| <= size then Ok(plain) else Err(InflateFailed)
  }

  ghost predicate Is32Bit(crc: seq<Byte> -> nat) {
    forall s :: crc(s) < 0x1_0000_0000
  }

  function Trailer(plain: seq<Byte>, crc: seq<Byte> -> nat): (t: seq<Byte>)
    ensures |t| == TRAILER
  {
    ToLittleEndian(crc(plain), 4) + ToLittleEndian(|plain| % 0x1_0000_0000, 4)
  }

  /** A gzip member as the standard lays it out. */
  function Member(h: Header, z: seq<Byte>, plain: seq<Byte>, crc: seq<Byte> -> nat): seq<Byte> {
    Serialize(h) + z + Trailer(plain, crc)
  }

  lemma TrailerReads(plain: seq<Byte>, decoded: seq<Byte>, crc: seq<Byte> -> nat)
    requires Is32Bit(crc)
    ensures Checked(decoded, crc, Trailer(plain, crc)) ==
            if |decoded| % 0x1_0000_0000 != |plain| % 0x1_0000_0000 then Err(LengthMismatch)
            else if crc(decoded) != crc(plain) then Err(CrcMismatch)
            else Ok(decoded)
  {
    Powers();
    LittleEndianReadsBack(crc(plain), 4);
    LittleEndianReadsBack(|plain| % 0x1_0000_0000, 4);
    var t := Trailer(plain, crc);
    assert t[..4] == ToLittleEndian(crc(plain), 4) && t[4..] == ToLittleEndian(|plain| % 0x1_0000_0000, 4);
  }

  /** The decoder reads a member and then judges it by the last eight bytes of the input. */
  lemma FirstMember(h: Header, z: seq<Byte>, plain: seq<Byte>, between: seq<Byte>, trailer: seq<Byte>, cap: nat,
                    inflate: Decoder, crc: seq<Byte> -> nat)
    requires IsLaidOut(h) && Decodes(inflate, z, plain) && |trailer| == TRAILER
    ensures Decompress(Serialize(h) + z + between + trailer, cap, inflate, crc) ==
            if |plain| <= cap then Checked(plain, crc, trailer) else Err(InflateFailed)
  {
    hide Serialize, PayloadStart, Checked;
    var raw, start := Serialize(h) + z + between + trailer, |Serialize(h)|;
    assert raw == Serialize(h) + (z + between + trailer);
    HeaderIsSkipped(h, z + between + trailer);
    assert raw[start..] == z + (between + trailer);
    assert raw[|raw| - TRAILER..] == trailer;
  }

  /** A single member is decompressed exactly when its plaintext fits the cap. */
  lemma SingleMember(h: Header, z: seq<Byte>, plain: seq<Byte>, cap: nat, inflate: Decoder, crc: seq<Byte> -> nat)
    requires IsLaidOut(h) && Decodes(inflate, z, plain) && Is32Bit(crc)
    ensures Decompress(Member(h, z, plain, crc), cap, inflate, crc) ==
            if |plain| <= cap then Ok(plain) else Err(InflateFailed)
  {
    hide Decompress, Checked, Serialize;
    FirstMember(h, z, plain, [], Trailer(plain, crc), cap, inflate, crc);
    TrailerReads(plain, plain, crc);
    assert Member(h, z, plain, crc) == Serialize(h) + z + [] + Trailer(plain, crc);
  }

  /** The comparison with the trailer is meant to reject concatenated members. It does so exactly when the
      last member's plaintext differs from the first one's in length modulo 2^32 or in CRC; otherwise only
      the first member's plaintext comes back, as if it were everything. */
  lemma ConcatenatedMembers(h: Header, z: seq<Byte>, plain: seq<Byte>, between: seq<Byte>, last: seq<Byte>, cap: nat,
                            inflate: Decoder, crc: seq<Byte> -> nat)
    requires IsLaidOut(h) && Decodes(inflate, z, plain) && Is32Bit(crc)
    ensures Decompress(Member(h, z, plain, crc) + between + Trailer(last, crc), cap, inflate, crc) ==
            if |plain| > cap then Err(InflateFailed)
            else if |plain| % 0x1_0000_0000 != |last| % 0x1_0000_0000 then Err(LengthMismatch)
            else if crc(plain) != crc(last) then Err(CrcMismatch)
            else Ok(plain)
  {
    hide Decompress, Checked, Serialize;
    var middle := Trailer(plain, crc) + between;
    FirstMember(h, z, plain, middle, Trailer(last, crc), cap, inflate, crc);
    TrailerReads(last, plain, crc);
    assert Member(h, z, plain, crc) + between + Trailer(last, crc) == Serialize(h) + z + middle + Trailer(last, crc);
  }

  /** Input that ends less than eight bytes after the header has no trailer. */
  lemma TrailerIsMissing(h: Header, rest: seq<Byte>, cap: nat, inflate: Decoder, crc: seq<Byte> -> nat)
    requires IsLaidOut(h) && |rest| < 8
    ensures Decompress(Serialize(h) + rest, cap, inflate, crc) == Err(MissingTrailer)
  {
    hide Serialize, PayloadStart;
    HeaderIsSkipped(h, rest);
  }

  /** For instance the same member twice: half of the plaintext comes back. */
  lemma RepeatedMember(h: Header, z: seq<Byte>, plain: seq<Byte>, cap: nat, inflate: Decoder, crc: seq<Byte> -> nat)
    requires IsLaidOut(h) && Decodes(inflate, z, plain) && Is32Bit(crc) && |plain| <= cap
    ensures var m := Member(h, z, plain, crc);
            Decompress(m + m, cap, inflate, crc) == Ok(plain)
  {
    hide Decompress, Serialize;
    var m := Member(h, z, plain, crc);
    ConcatenatedMembers(h, z, plain, Serialize(h) + z, plain, cap, inflate, crc);
    assert m + m == m + (Serialize(h) + z) + Trailer(plain, crc);
  }
}
