/**
  The WebSocket frame codec of `ws_frame.rs` (section 5.2 of RFC 6455): the server's frame reader over
  a byte stream, and the two writers.
 */
module WsFrame {
  import opened Wrappers
  import opened Bytes

  datatype Opcode = Continuation | Text | Binary | Close | Ping | Pong

  datatype Frame = Frame(fin: bool, opcode: Opcode, payload: seq<Byte>)

  datatype FrameError =
    | EndOfStream
    | ReservedBits
    | WrongMasking
    | UnknownOpcode
    | IllegalControl
    | PayloadTooLarge

  function OpcodeByte(op: Opcode): Byte {
    match op
    case Continuation => 0x0
    case Text => 0x1
    case Binary => 0x2
    case Close => 0x8
    case Ping => 0x9
    case Pong => 0xA
  }

  function FromByte(v: Byte): Option<Opcode> {
    if v == 0x0 then Some(Continuation)
    else if v == 0x1 then Some(Text)
    else if v == 0x2 then Some(Binary)
    else if v == 0x8 then Some(Close)
    else if v == 0x9 then Some(Ping)
    else if v == 0xA then Some(Pong)
    else None
  }

  predicate IsControl(op: Opcode) {
    op.Close? || op.Ping? || op.Pong?
  }

  // ---- Big-endian lengths ----

  function Pow256(k: nat): nat {
    if k == 0 then 1 else 256 * Pow256(k - 1)
  }

  function BigEndian(s: seq<Byte>): nat {
    if s == [] then 0 else BigEndian(s[..|s| - 1]) * 256 + s[|s| - 1] as nat
  }

  function ToBigEndian(n: nat, k: nat): (s: seq<Byte>)
    ensures |s| == k
  {
    if k == 0 then [] else ToBigEndian(n / 256, k - 1) + [U8(n % 256)]
  }

  lemma {:induction false} BigEndianReadsBack(n: nat, k: nat)
    requires n < Pow256(k)
    ensures BigEndian(ToBigEndian(n, k)) == n
  {
    if k > 0 {
      BigEndianReadsBack(n / 256, k - 1);
      var s := ToBigEndian(n, k);
      assert s[..k - 1] == ToBigEndian(n / 256, k - 1);
      LastByte(n);
    }
  }

  lemma LastByte(n: nat)
    ensures n / 256 * 256 + n % 256 == n
  {
  }

  lemma LastByteOf(high: nat, low: nat)
    requires low < 256
    ensures (high * 256 + low) / 256 == high && (high * 256 + low) % 256 == low
  {
  }

  lemma {:induction false} BigEndianWritesBack(s: seq<Byte>)
    ensures ToBigEndian(BigEndian(s), |s|) == s && BigEndian(s) < Pow256(|s|)
  {
    if s != [] {
      var front, last := s[..|s| - 1], s[|s| - 1];
      BigEndianWritesBack(front);
      U8OfByte(last);
      LastByteOf(BigEndian(front), last as nat);
      assert s == front + [last];
    }
  }

  // ---- Masking ----

  function Masked(payload: seq<Byte>, key: seq<Byte>): (r: seq<Byte>)
    requires |key| == 4
    ensures |r| == |payload|
  {
    seq(|payload|, i requires 0 <= i < |payload| => payload[i] ^ key[i % 4])
  }

  lemma MaskTwice(payload: seq<Byte>, key: seq<Byte>)
    requires |key| == 4
    ensures Masked(Masked(payload, key), key) == payload
  {
    var m := Masked(payload, key);
    forall i | 0 <= i < |payload|
      ensures m[i] ^ key[i % 4] == payload[i]
    {
      XorTwice(payload[i], key[i % 4]);
    }
  }

  lemma XorTwice(a: Byte, k: Byte)
    ensures (a ^ k) ^ k == a
  {
  }

  // ---- Reading ----

  /** The payload length that the 7-bit length announces, and the bytes after it. */
  function ReadLength(lenByte: nat, bytes: seq<Byte>): Result<(nat, seq<Byte>), FrameError> {
    if lenByte <= 125 then Ok((lenByte, bytes))
    else
      var k := if lenByte == 126 then 2 else 8;
      if |bytes| < k then Err(EndOfStream) else Ok((BigEndian(bytes[..k]), bytes[k..]))
  }

  /** The payload, after the mask key when there is one, and the bytes after the frame. */
  function ReadPayload(masked: bool, length: nat, bytes: seq<Byte>): Result<(seq<Byte>, seq<Byte>), FrameError> {
    if masked then
      if |bytes| < 4 || |bytes[4..]| < length then Err(EndOfStream)
      else Ok((Masked(bytes[4..][..length], bytes[..4]), bytes[4..][length..]))
    else
      if |bytes| < length then Err(EndOfStream) else Ok((bytes[..length], bytes[length..]))
  }

  datatype Head = Head(fin: bool, opcode: Opcode, lenByte: nat)

  /** The two fixed header bytes, with the checks that need no more than them. */
  function DecodeHead(masked: bool, b0: Byte, b1: Byte): Result<Head, FrameError> {
    var fin := b0 & 0x80 != 0;
    var lenByte := (b1 & 0x7F) as nat;
    if b0 & 0x70 != 0 then Err(ReservedBits)
    else if (b1 & 0x80 != 0) != masked then Err(WrongMasking)
    else
      match FromByte(b0 & 0x0F)
      case None => Err(UnknownOpcode)
      case Some(opcode) =>
        if IsControl(opcode) && (!fin || lenByte > 125) then Err(IllegalControl)
        else Ok(Head(fin, opcode, lenByte))
  }

  function DecodeRest(masked: bool, head: Head, bytes: seq<Byte>, cap: nat): (r: Result<(Frame, seq<Byte>), FrameError>)
    ensures r.Ok? ==> |r.value.1| <= |bytes| && |r.value.0.payload| <= cap
  {
    var (length, afterLength) :- ReadLength(head.lenByte, bytes);
    if length > cap then Err(PayloadTooLarge)
    else
      var (payload, rest) :- ReadPayload(masked, length, afterLength);
      Ok((Frame(head.fin, head.opcode, payload), rest))
  }

  /** What the server's reader leaves unread after the two fixed bytes, whether it succeeds or fails: it stops
      where it finds the fault, and a stream that ends early is used up. */
  function LeftAfterHead(head: Head, bytes: seq<Byte>, cap: nat): seq<Byte> {
    match ReadLength(head.lenByte, bytes)
    case Err(_) => []
    case Ok((length, afterLength)) =>
      if length > cap then afterLength
      else
        match ReadPayload(true, length, afterLength)
        case Err(_) => []
        case Ok((_, rest)) => rest
  }

  function LeftAfterFrame(bytes: seq<Byte>, cap: nat): seq<Byte> {
    if |bytes| < 2 then []
    else
      match DecodeHead(true, bytes[0], bytes[1])
      case Err(_) => bytes[2..]
      case Ok(head) => LeftAfterHead(head, bytes[2..], cap)
  }

  /** One frame off the front of a byte stream, and the bytes after it. With `masked` this is the server's
      reader, which accepts only masked frames; without it, the reader a client would use on what a
      server writes. */
  function DecodeFrame(masked: bool, bytes: seq<Byte>, cap: nat): (r: Result<(Frame, seq<Byte>), FrameError>)
    ensures r.Ok? ==> |r.value.1| < |bytes| && |r.value.0.payload| <= cap
  {
    if |bytes| < 2 then Err(EndOfStream)
    else
      var head :- DecodeHead(masked, bytes[0], bytes[1]);
      DecodeRest(masked, head, bytes[2..], cap)
  }

  /** A stream that hands out exactly as many bytes as asked for, or ends. */
  class ByteReader {
    var rest: seq<Byte>

    constructor (bytes: seq<Byte>)
      ensures rest == bytes
    {
      rest := bytes;
    }

    method ReadExact(n: nat) returns (r: Option<seq<Byte>>)
      modifies this
      ensures if n <= |old(rest)| then r == Some(old(rest)[..n]) && rest == old(rest)[n..]
              else r.None? && rest == []
    {
      if n <= |rest| {
        r := Some(rest[..n]);
        rest := rest[n..];
      } else {
        r := None;
        rest := [];
      }
    }
  }

  method UnmaskInPlace(payload: array<Byte>, key: seq<Byte>)
    requires |key| == 4
    modifies payload
    ensures payload[..] == Masked(old(payload[..]), key)
  {
    for i := 0 to payload.Length
      invariant forall j :: 0 <= j < i ==> payload[j] == old(payload[j]) ^ key[j % 4]
      invariant forall j :: i <= j < payload.Length ==> payload[j] == old(payload[j])
    {
      payload[i] := payload[i] ^ key[i % 4];
    }
  }

  method ReadFrame(reader: ByteReader, maxPayloadLen: nat) returns (r: Result<Frame, FrameError>)
    modifies reader
    ensures match DecodeFrame(true, old(reader.rest), maxPayloadLen)
            case Ok((frame, rest)) => r == Ok(frame) && reader.rest == rest
            case Err(e) => r == Err(e)
    ensures reader.rest == LeftAfterFrame(old(reader.rest), maxPayloadLen)
  {
    var header := reader.ReadExact(2);
    if header.None? {
      return Err(EndOfStream);
    }
    hide DecodeRest, LeftAfterHead;
    var head := CheckHead(header.value[0], header.value[1]);
    if head.Err? {
      return Err(head.error);
    }
    r := ReadBody(reader, head.value, maxPayloadLen);
  }

  /** The checks of `read_frame` on the two fixed header bytes. */
  method CheckHead(b0: Byte, b1: Byte) returns (r: Result<Head, FrameError>)
    ensures r == DecodeHead(true, b0, b1)
  {
    var fin, rsv, masked := b0 & 0x80 != 0, b0 & 0x70, b1 & 0x80 != 0;
    var lenByte := (b1 & 0x7F) as nat;
    if rsv != 0 {
      return Err(ReservedBits);
    }
    if !masked {
      return Err(WrongMasking);
    }
    var opcode := FromByte(b0 & 0x0F);
    if opcode.None? {
      return Err(UnknownOpcode);
    }
    if IsControl(opcode.value) && (!fin || lenByte > 125) {
      return Err(IllegalControl);
    }
    return Ok(Head(fin, opcode.value, lenByte));
  }

  /** The rest of `read_frame`: the extended length, the mask key and the payload. */
  method ReadBody(reader: ByteReader, head: Head, maxPayloadLen: nat) returns (r: Result<Frame, FrameError>)
    modifies reader
    ensures match DecodeRest(true, head, old(reader.rest), maxPayloadLen)
            case Ok((frame, rest)) => r == Ok(frame) && reader.rest == rest
            case Err(e) => r == Err(e)
    ensures reader.rest == LeftAfterHead(head, old(reader.rest), maxPayloadLen)
  {
    hide BigEndian;
    var payloadLen := head.lenByte;
    if head.lenByte > 125 {
      var ext := reader.ReadExact(if head.lenByte == 126 then 2 else 8);
      if ext.None? {
        return Err(EndOfStream);
      }
      payloadLen := BigEndian(ext.value);
    }
    if payloadLen > maxPayloadLen {
      return Err(PayloadTooLarge);
    }
    ghost var afterLength := reader.rest;
    var key := reader.ReadExact(4);
    if key.None? {
      return Err(EndOfStream);
    }
    var body := reader.ReadExact(payloadLen);
    if body.None? {
      return Err(EndOfStream);
    }
    var data := body.value;
    var payload := new Byte[payloadLen](i requires 0 <= i < |data| => data[i]);
    assert payload[..] == data;
    UnmaskInPlace(payload, key.value);
    assert ReadPayload(true, payloadLen, afterLength) == Ok((payload[..], reader.rest));
    return Ok(Frame(head.fin, head.opcode, payload[..]));
  }

  // ---- Writing ----

  /** The payload lengths a slice can have. */
  const LEN_LIMIT: nat := 0x1_0000_0000_0000_0000

  function FirstByte(f: Frame): Byte {
    if f.fin then 0x80 | OpcodeByte(f.opcode) else OpcodeByte(f.opcode)
  }

  function LengthBytes(maskBit: Byte, length: nat): seq<Byte>
    requires length < LEN_LIMIT
  {
    if length <= 125 then [maskBit | U8(length)]
    else if length <= 0xFFFF then [maskBit | 126] + ToBigEndian(length, 2)
    else [maskBit | 127] + ToBigEndian(length, 8)
  }

  /** A frame from a client, masked with `key`. */
  function EncodeMasked(f: Frame, key: seq<Byte>): seq<Byte>
    requires |f.payload| < LEN_LIMIT && |key| == 4
  {
    [FirstByte(f)] + LengthBytes(0x80, |f.payload|) + (key + Masked(f.payload, key))
  }

  /** A frame from the server. */
  function EncodeUnmasked(f: Frame): seq<Byte>
    requires |f.payload| < LEN_LIMIT
  {
    [FirstByte(f)] + LengthBytes(0, |f.payload|) + f.payload
  }

  /** The stream a writer appends to. */
  class ByteWriter {
    var written: seq<Byte>

    constructor ()
      ensures written == []
    {
      written := [];
    }

    method WriteAll(bytes: seq<Byte>)
      modifies this
      ensures written == old(written) + bytes
    {
      written := written + bytes;
    }
  }

  method PutLength(header: seq<Byte>, maskBit: Byte, length: nat) returns (out: seq<Byte>)
    requires length < LEN_LIMIT
    ensures out == header + LengthBytes(maskBit, length)
  {
    if length <= 125 {
      out := header + [maskBit | U8(length)];
    } else if length <= 0xFFFF {
      out := header + [maskBit | 126];
      out := out + ToBigEndian(length, 2);
    } else {
      out := header + [maskBit | 127];
      out := out + ToBigEndian(length, 8);
    }
  }

  method WriteFrame(writer: ByteWriter, opcode: Opcode, payload: seq<Byte>, fin: bool)
    requires |payload| < LEN_LIMIT
    modifies writer
    ensures writer.written == old(writer.written) + EncodeUnmasked(Frame(fin, opcode, payload))
  {
    var first := if fin then 0x80 | OpcodeByte(opcode) else OpcodeByte(opcode);
    var header := PutLength([first], 0, |payload|);
    writer.WriteAll(header);
    writer.WriteAll(payload);
  }

  method WriteFrameMasked(writer: ByteWriter, opcode: Opcode, payload: seq<Byte>, fin: bool, key: seq<Byte>)
    requires |payload| < LEN_LIMIT && |key| == 4
    modifies writer
    ensures writer.written == old(writer.written) + EncodeMasked(Frame(fin, opcode, payload), key)
  {
    var first := if fin then 0x80 | OpcodeByte(opcode) else OpcodeByte(opcode);
    var header := PutLength([first], 0x80, |payload|);
    header := header + key;
    writer.WriteAll(header);
    writer.WriteAll(Masked(payload, key));
  }

  // ---- Round trips ----

  /** Section 5.5 of RFC 6455: a control frame is not fragmented and has at most 125 bytes. */
  predicate Legal(f: Frame) {
    f.opcode in {Close, Ping, Pong} ==> f.fin && |f.payload| <= 125
  }

  lemma FirstByteReads(f: Frame)
    ensures FirstByte(f) & 0x70 == 0
    ensures FirstByte(f) & 0x80 != 0 <==> f.fin
    ensures FromByte(FirstByte(f) & 0x0F) == Some(f.opcode)
  {
    var o := OpcodeByte(f.opcode);
    assert o == 0 || o == 1 || o == 2 || o == 8 || o == 9 || o == 10;
  }

  lemma LengthByteReads(maskBit: Byte, n: nat)
    requires n < 128 && (maskBit == 0 || maskBit == 0x80)
    ensures ((maskBit | U8(n)) & 0x7F) as nat == n
    ensures (maskBit | U8(n)) & 0x80 != 0 <==> maskBit == 0x80
  {
    var b := U8(n);
    assert b & 0x80 == 0 && (maskBit | b) & 0x7F == b;
    assert b as nat == n;
  }

  lemma LengthReads(maskBit: Byte, length: nat, rest: seq<Byte>)
    requires length < LEN_LIMIT && (maskBit == 0 || maskBit == 0x80)
    ensures var bytes := LengthBytes(maskBit, length);
            && |bytes| >= 1
            && (bytes[0] & 0x80 != 0 <==> maskBit == 0x80)
            && ((bytes[0] & 0x7F) as nat > 125 <==> length > 125)
            && ReadLength((bytes[0] & 0x7F) as nat, bytes[1..] + rest) == Ok((length, rest))
  {
    var bytes := LengthBytes(maskBit, length);
    if length <= 125 {
      LengthByteReads(maskBit, length);
      assert bytes[1..] + rest == rest;
    } else {
      var k := if length <= 0xFFFF then 2 else 8;
      LengthByteReads(maskBit, if length <= 0xFFFF then 126 else 127);
      U8OfByte(126);
      U8OfByte(127);
      Powers256();
      BigEndianReadsBack(length, k);
      var ext := ToBigEndian(length, k);
      assert bytes[1..] == ext;
      assert (ext + rest)[..k] == ext && (ext + rest)[k..] == rest;
    }
  }

  lemma Powers256()
    ensures Pow256(2) == 0x1_0000 && Pow256(8) == LEN_LIMIT
  {
    assert Pow256(1) == 256;
    assert Pow256(3) == 0x100_0000 && Pow256(4) == 0x1_0000_0000;
    assert Pow256(5) == 0x100_0000_0000 && Pow256(6) == 0x1_0000_0000_0000 && Pow256(7) == 0x100_0000_0000_0000;
  }

  lemma HeadReads(masked: bool, f: Frame, lengthByte: Byte)
    requires lengthByte & 0x80 != 0 <==> masked
    requires (lengthByte & 0x7F) as nat > 125 <==> |f.payload| > 125
    ensures DecodeHead(masked, FirstByte(f), lengthByte) ==
            if Legal(f) then Ok(Head(f.fin, f.opcode, (lengthByte & 0x7F) as nat)) else Err(IllegalControl)
  {
    FirstByteReads(f);
  }

  /** The header that both writers produce is read back, and decides about illegal control frames. */
  lemma HeaderReads(masked: bool, f: Frame, tail: seq<Byte>, cap: nat)
    requires |f.payload| < LEN_LIMIT
    ensures DecodeFrame(masked, [FirstByte(f)] + LengthBytes(if masked then 0x80 else 0, |f.payload|) + tail, cap) ==
            if !Legal(f) then Err(IllegalControl)
            else if |f.payload| > cap then Err(PayloadTooLarge)
            else
              match ReadPayload(masked, |f.payload|, tail)
              case Ok((payload, rest)) => Ok((Frame(f.fin, f.opcode, payload), rest))
              case Err(e) => Err(e)
  {
    hide FirstByte, LengthBytes, ReadLength, ReadPayload, DecodeHead, DecodeFrame;
    var length := LengthBytes(if masked then 0x80 else 0, |f.payload|);
    LengthReads(if masked then 0x80 else 0, |f.payload|, tail);
    HeadReads(masked, f, length[0]);
    RestReads(masked, f, length[0], length[1..] + tail, tail, cap);
    SecondByte(FirstByte(f), length, tail);
  }

  lemma SecondByte(b: Byte, length: seq<Byte>, tail: seq<Byte>)
    requires length != []
    ensures [b] + length + tail == [b, length[0]] + (length[1..] + tail)
  {
  }

  lemma RestReads(masked: bool, f: Frame, b1: Byte, bytes: seq<Byte>, tail: seq<Byte>, cap: nat)
    requires DecodeHead(masked, FirstByte(f), b1) ==
             if Legal(f) then Ok(Head(f.fin, f.opcode, (b1 & 0x7F) as nat)) else Err(IllegalControl)
    requires ReadLength((b1 & 0x7F) as nat, bytes) == Ok((|f.payload|, tail))
    ensures DecodeFrame(masked, [FirstByte(f), b1] + bytes, cap) ==
            if !Legal(f) then Err(IllegalControl)
            else if |f.payload| > cap then Err(PayloadTooLarge)
            else
              match ReadPayload(masked, |f.payload|, tail)
              case Ok((payload, rest)) => Ok((Frame(f.fin, f.opcode, payload), rest))
              case Err(e) => Err(e)
  {
    hide FirstByte, ReadLength, ReadPayload, DecodeHead, Legal;
    assert ([FirstByte(f), b1] + bytes)[2..] == bytes;
  }

  /** A frame written by the masking writer is read back, and exactly its bytes are consumed, if and
      only if it is legal and within the cap. */
  lemma MaskedRoundTrip(f: Frame, key: seq<Byte>, tail: seq<Byte>, cap: nat)
    requires |f.payload| < LEN_LIMIT && |key| == 4
    ensures DecodeFrame(true, EncodeMasked(f, key) + tail, cap) ==
            if !Legal(f) then Err(IllegalControl)
            else if |f.payload| > cap then Err(PayloadTooLarge)
            else Ok((f, tail))
  {
    hide DecodeFrame, Masked, LengthBytes, FirstByte;
    var masked := Masked(f.payload, key);
    var body := key + masked + tail;
    assert EncodeMasked(f, key) + tail == [FirstByte(f)] + LengthBytes(0x80, |f.payload|) + body;
    HeaderReads(true, f, body, cap);
    assert body[..4] == key && body[4..] == masked + tail;
    assert body[4..][..|f.payload|] == masked && body[4..][|f.payload|..] == tail;
    MaskTwice(f.payload, key);
  }

  /** The same for the server's writer and a client's reader. The writer checks nothing, so a control
      frame that is fragmented or too long goes out and is rejected by its reader. */
  lemma UnmaskedRoundTrip(f: Frame, tail: seq<Byte>, cap: nat)
    requires |f.payload| < LEN_LIMIT
    ensures DecodeFrame(false, EncodeUnmasked(f) + tail, cap) ==
            if !Legal(f) then Err(IllegalControl)
            else if |f.payload| > cap then Err(PayloadTooLarge)
            else Ok((f, tail))
  {
    hide DecodeFrame;
    var body := f.payload + tail;
    assert EncodeUnmasked(f) + tail == [FirstByte(f)] + LengthBytes(0, |f.payload|) + body;
    HeaderReads(false, f, body, cap);
    assert body[..|f.payload|] == f.payload && body[|f.payload|..] == tail;
  }

  // ---- Whole streams ----

  datatype Sent = Sent(frame: Frame, key: seq<Byte>)

  predicate Encodable(s: Sent) {
    |s.frame.payload| < LEN_LIMIT && |s.key| == 4
  }

  predicate Sendable(s: Sent, cap: nat) {
    Encodable(s) && Legal(s.frame) && |s.frame.payload| <= cap
  }

  function EncodeAll(frames: seq<Sent>): seq<Byte>
    requires forall i :: 0 <= i < |frames| ==> Encodable(frames[i])
  {
    if frames == [] then []
    else assert Encodable(frames[0]); EncodeMasked(frames[0].frame, frames[0].key) + EncodeAll(frames[1..])
  }

  function FramesOf(frames: seq<Sent>): (r: seq<Frame>)
    ensures |r| == |frames|
  {
    seq(|frames|, i requires 0 <= i < |frames| => frames[i].frame)
  }

  /** Reading frames until one cannot be read: the frames, the error, and the bytes it was found at. */
  function DecodeAll(bytes: seq<Byte>, cap: nat): (seq<Frame>, FrameError, seq<Byte>)
    decreases |bytes|
  {
    match DecodeFrame(true, bytes, cap)
    case Err(e) => ([], e, bytes)
    case Ok((frame, rest)) =>
      var (frames, e, end) := DecodeAll(rest, cap);
      ([frame] + frames, e, end)
  }

  /** Any list of legal frames, with any mask keys, reads back as that list; what comes after it is
      read as if it stood alone. */
  lemma {:induction false} StreamRoundTrip(frames: seq<Sent>, tail: seq<Byte>, cap: nat)
    requires forall i :: 0 <= i < |frames| ==> Encodable(frames[i]) && Sendable(frames[i], cap)
    ensures var (read, e, end) := DecodeAll(EncodeAll(frames) + tail, cap);
            var (more, e', end') := DecodeAll(tail, cap);
            read == FramesOf(frames) + more && e == e' && end == end'
  {
    hide DecodeFrame, EncodeMasked;
    if frames == [] {
      assert EncodeAll(frames) + tail == tail;
      assert FramesOf(frames) + DecodeAll(tail, cap).0 == DecodeAll(tail, cap).0;
    } else {
      assert Sendable(frames[0], cap);
      StreamRoundTrip(frames[1..], tail, cap);
      FirstOfStream(frames, tail, cap);
    }
  }

  lemma FirstOfStream(frames: seq<Sent>, tail: seq<Byte>, cap: nat)
    requires frames != [] && forall i :: 0 <= i < |frames| ==> Encodable(frames[i])
    requires Sendable(frames[0], cap)
    requires DecodeAll(EncodeAll(frames[1..]) + tail, cap).0 == FramesOf(frames[1..]) + DecodeAll(tail, cap).0
    ensures DecodeAll(EncodeAll(frames) + tail, cap) ==
            (FramesOf(frames) + DecodeAll(tail, cap).0,
             DecodeAll(EncodeAll(frames[1..]) + tail, cap).1, DecodeAll(EncodeAll(frames[1..]) + tail, cap).2)
  {
    hide DecodeFrame, EncodeMasked, DecodeAll;
    var first, rest := frames[0], EncodeAll(frames[1..]) + tail;
    var more := DecodeAll(tail, cap).0;
    assert EncodeAll(frames) + tail == EncodeMasked(first.frame, first.key) + rest;
    MaskedRoundTrip(first.frame, first.key, rest, cap);
    DecodeAllCons(EncodeAll(frames) + tail, cap, first.frame, rest);
    assert FramesOf(frames) == [first.frame] + FramesOf(frames[1..]);
    assert [first.frame] + (FramesOf(frames[1..]) + more) == [first.frame] + FramesOf(frames[1..]) + more;
  }

  lemma DecodeAllCons(bytes: seq<Byte>, cap: nat, f: Frame, rest: seq<Byte>)
    requires DecodeFrame(true, bytes, cap) == Ok((f, rest))
    ensures DecodeAll(bytes, cap) == ([f] + DecodeAll(rest, cap).0, DecodeAll(rest, cap).1, DecodeAll(rest, cap).2)
  {
  }

  /** With nothing after them, the frames are all that is read, and exactly their bytes are consumed. */
  lemma WholeStreamRoundTrip(frames: seq<Sent>, cap: nat)
    requires forall i :: 0 <= i < |frames| ==> Encodable(frames[i]) && Sendable(frames[i], cap)
    ensures DecodeAll(EncodeAll(frames), cap) == (FramesOf(frames), EndOfStream, [])
  {
    StreamRoundTrip(frames, [], cap);
    assert EncodeAll(frames) + [] == EncodeAll(frames);
    assert DecodeAll([], cap) == ([], EndOfStream, []);
    assert FramesOf(frames) + [] == FramesOf(frames);
  }

  // ---- What the reader accepts ----

  /** Section 5.2 of RFC 6455 asks for the shortest length encoding. */
  predicate ShortestLength(lenByte: nat, length: nat) {
    (lenByte == 126 ==> 125 < length) && (lenByte == 127 ==> 0xFFFF < length)
  }

  lemma SplitFirstByte(b: Byte, f: Frame)
    requires b & 0x70 == 0 && FromByte(b & 0x0F) == Some(f.opcode) && f.fin == (b & 0x80 != 0)
    ensures FirstByte(f) == b
  {
    assert b & 0x0F == OpcodeByte(f.opcode);
    assert b & 0x70 == 0 ==> (b & 0x80 != 0 ==> 0x80 | (b & 0x0F) == b) && (b & 0x80 == 0 ==> b & 0x0F == b);
  }

  lemma LengthBitsWriteBack(b: Byte)
    requires b & 0x80 != 0
    ensures 0x80 | (b & 0x7F) == b && (b & 0x7F) as nat < 128
    ensures 0x80 | U8((b & 0x7F) as nat) == b
  {
    var low := b & 0x7F;
    assert low <= 127 && 0x80 | low == b;
    U8OfByte(low);
  }

  /** The length bytes the masking writer would put in front of `after` are the ones that were read. */
  predicate LengthIs(b: Byte, bytes: seq<Byte>, length: nat, after: seq<Byte>)
    requires length < LEN_LIMIT
  {
    LengthBytes(0x80, length) + after == [b] + bytes
  }

  lemma LengthWritesBack(b: Byte, bytes: seq<Byte>)
    requires b & 0x80 != 0 && ReadLength((b & 0x7F) as nat, bytes).Ok?
    ensures var lenByte := (b & 0x7F) as nat;
            var (length, rest) := ReadLength(lenByte, bytes).value;
            && length < LEN_LIMIT
            && (LengthIs(b, bytes, length, rest) <==> ShortestLength(lenByte, length))
  {
    LengthBitsWriteBack(b);
    var lenByte := (b & 0x7F) as nat;
    if lenByte > 125 {
      ExtendedLengthWritesBack(b, lenByte, bytes);
    }
  }

  lemma ExtendedLengthWritesBack(b: Byte, lenByte: nat, bytes: seq<Byte>)
    requires (lenByte == 126 && b == 0x80 | 126) || (lenByte == 127 && b == 0x80 | 127)
    requires ReadLength(lenByte, bytes).Ok?
    ensures var (length, rest) := ReadLength(lenByte, bytes).value;
            && length < LEN_LIMIT
            && (LengthBytes(0x80, length) + rest == [b] + bytes <==> ShortestLength(lenByte, length))
  {
    hide BigEndian, ToBigEndian, Pow256;
    var k := if lenByte == 126 then 2 else 8;
    var (length, rest) := ReadLength(lenByte, bytes).value;
    Powers256();
    BigEndianWritesBack(bytes[..k]);
    assert bytes == bytes[..k] + rest;
    var written := LengthBytes(0x80, length);
    if ShortestLength(lenByte, length) {
      assert written == [b] + bytes[..k];
      assert written + rest == [b] + bytes;
    } else {
      assert |written + rest| < |[b] + bytes|;
    }
  }

  /** Everything the reader accepts is a legal frame, and its bytes are those the masking writer would
      have produced exactly when the length was encoded in the shortest way; the reader does not insist. */
  lemma AcceptsOnlyLegal(bytes: seq<Byte>, cap: nat)
    requires DecodeFrame(true, bytes, cap).Ok?
    ensures var (f, rest) := DecodeFrame(true, bytes, cap).value;
            var lenByte := (bytes[1] & 0x7F) as nat;
            && Legal(f) && |f.payload| < LEN_LIMIT
            && ReadLength(lenByte, bytes[2..]).Ok?
            && var after := ReadLength(lenByte, bytes[2..]).value.1;
               && |after| >= 4
               && (EncodeMasked(f, after[..4]) + rest == bytes <==> ShortestLength(lenByte, |f.payload|))
  {
    hide LengthBytes, Masked, FromByte, ReadLength, ReadPayload, IsControl, ShortestLength, DecodeHead, DecodeRest,
      Legal, EncodeMasked;
    var head := DecodeHead(true, bytes[0], bytes[1]).value;
    HeadIsLegal(bytes[0], bytes[1]);
    AcceptedIsLegal(head, bytes[2..], cap);
    var (f, rest) := DecodeFrame(true, bytes, cap).value;
    assert DecodeRest(true, head, bytes[2..], cap).value == (f, rest);
    EncodesBack(bytes, f, rest);
  }

  /** For instance, one byte of payload whose length is spelled in two bytes more than it needs. */
  lemma LongLengthIsAccepted(key: seq<Byte>, x: Byte, cap: nat)
    requires |key| == 4 && 1 <= cap
    ensures var bytes := [0x82, 0xFE, 0x00, 0x01] + key + [x ^ key[0]];
            && DecodeFrame(true, bytes, cap) == Ok((Frame(true, Binary, [x]), []))
            && EncodeMasked(Frame(true, Binary, [x]), key) != bytes
  {
    var bytes: seq<Byte> := [0x82, 0xFE, 0x00, 0x01] + key + [x ^ key[0]];
    var body := key + [x ^ key[0]];
    assert (bytes[1] & 0x7F) as nat == 126 by {
      assert bytes[1] & 0x7F == 126;
      U8OfByte(126);
    }
    assert DecodeHead(true, bytes[0], bytes[1]) == Ok(Head(true, Binary, 126));
    hide DecodeHead;
    assert bytes[2..][..2] == [0, 1] && bytes[2..][2..] == body;
    OneInTwoBytes();
    assert body[4..][..1] == [x ^ key[0]] && body[..4] == key && body[4..][1..] == [];
    XorTwice(x, key[0]);
    assert Masked([x ^ key[0]], key) == [x];
    assert |EncodeMasked(Frame(true, Binary, [x]), key)| < |bytes|;
  }

  lemma OneInTwoBytes()
    ensures BigEndian([0, 1]) == 1
  {
    var s: seq<Byte> := [0, 1];
    assert s[..1] == [0] && s[..1][..0] == [];
  }

  lemma EncodesBack(bytes: seq<Byte>, f: Frame, rest: seq<Byte>)
    requires |bytes| >= 2 && bytes[0] & 0x70 == 0 && bytes[1] & 0x80 != 0
    requires FromByte(bytes[0] & 0x0F) == Some(f.opcode) && f.fin == (bytes[0] & 0x80 != 0)
    requires ReadLength((bytes[1] & 0x7F) as nat, bytes[2..]).Ok?
    requires var (length, after) := ReadLength((bytes[1] & 0x7F) as nat, bytes[2..]).value;
             ReadPayload(true, length, after) == Ok((f.payload, rest))
    ensures var lenByte := (bytes[1] & 0x7F) as nat;
            var after := ReadLength(lenByte, bytes[2..]).value.1;
            && |f.payload| < LEN_LIMIT && |after| >= 4
            && (EncodeMasked(f, after[..4]) + rest == bytes <==> ShortestLength(lenByte, |f.payload|))
  {
    hide LengthBytes, Masked, FromByte, FirstByte, ReadLength, ShortestLength, EncodeMasked, ReadPayload, LengthIs;
    var (length, after) := ReadLength((bytes[1] & 0x7F) as nat, bytes[2..]).value;
    PayloadWritesBack(length, after);
    LengthWritesBack(bytes[1], bytes[2..]);
    SplitFirstByte(bytes[0], f);
    EncodesParts(bytes, f, after, rest);
  }

  lemma EncodesParts(bytes: seq<Byte>, f: Frame, after: seq<Byte>, rest: seq<Byte>)
    requires |bytes| >= 2 && FirstByte(f) == bytes[0] && |f.payload| < LEN_LIMIT && |after| >= 4
    requires after == after[..4] + Masked(f.payload, after[..4]) + rest
    ensures EncodeMasked(f, after[..4]) + rest == bytes <==> LengthIs(bytes[1], bytes[2..], |f.payload|, after)
  {
    hide LengthBytes, Masked, FirstByte;
    SameAfterFirst(bytes, LengthBytes(0x80, |f.payload|), after[..4] + Masked(f.payload, after[..4]), rest);
  }

  lemma HeadIsLegal(b0: Byte, b1: Byte)
    requires DecodeHead(true, b0, b1).Ok?
    ensures var head := DecodeHead(true, b0, b1).value;
            && head.lenByte == (b1 & 0x7F) as nat && head.fin == (b0 & 0x80 != 0)
            && b0 & 0x70 == 0 && b1 & 0x80 != 0 && FromByte(b0 & 0x0F) == Some(head.opcode)
            && (IsControl(head.opcode) ==> head.fin && head.lenByte <= 125)
  {
  }

  lemma AcceptedIsLegal(head: Head, bytes: seq<Byte>, cap: nat)
    requires DecodeRest(true, head, bytes, cap).Ok?
    requires IsControl(head.opcode) ==> head.fin && head.lenByte <= 125
    ensures var (f, rest) := DecodeRest(true, head, bytes, cap).value;
            && Legal(f) && ReadLength(head.lenByte, bytes).Ok?
            && var (length, after) := ReadLength(head.lenByte, bytes).value;
               ReadPayload(true, length, after) == Ok((f.payload, rest)) && f.opcode == head.opcode && f.fin == head.fin
  {
  }

  lemma SameAfterFirst(bytes: seq<Byte>, length: seq<Byte>, body: seq<Byte>, rest: seq<Byte>)
    requires |bytes| >= 2
    ensures [bytes[0]] + length + body + rest == bytes <==> length + (body + rest) == [bytes[1]] + bytes[2..]
  {
    var written := length + (body + rest);
    assert [bytes[0]] + length + body + rest == [bytes[0]] + written;
    assert bytes == [bytes[0]] + ([bytes[1]] + bytes[2..]);
    assert ([bytes[0]] + written)[1..] == written && bytes[1..] == [bytes[1]] + bytes[2..];
  }

  lemma PayloadWritesBack(length: nat, after: seq<Byte>)
    requires ReadPayload(true, length, after).Ok?
    ensures var (payload, rest) := ReadPayload(true, length, after).value;
            |after| >= 4 && |payload| == length && after == after[..4] + Masked(payload, after[..4]) + rest
  {
    MaskTwice(after[4..][..length], after[..4]);
    assert after[4..] == after[4..][..length] + after[4..][length..];
  }
}
