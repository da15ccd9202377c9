/**
  The WebSocket frames on the wire: the opcode numbers and examples of RFC 6455, masking by blocks of four, and which
  bytes the server's reader refuses with which error.
 */
module WsWire {
  import opened Wrappers
  import opened Bytes
  import opened WsFrame

  // ---- The numbers of the standard ----

  /** Section 11.8 of RFC 6455. */
  lemma OpcodeNumbers(v: Byte, op: Opcode)
    ensures OpcodeByte(Continuation) == 0 && OpcodeByte(Text) == 1 && OpcodeByte(Binary) == 2
    ensures OpcodeByte(Close) == 8 && OpcodeByte(Ping) == 9 && OpcodeByte(Pong) == 10
    ensures FromByte(v) == Some(op) <==> v == OpcodeByte(op)
    ensures IsControl(op) <==> 8 <= OpcodeByte(op)
  {
  }

  /** Section 5.3 of RFC 6455: the four bytes of the key are used in turn. */
  lemma MaskedInTurn(key: seq<Byte>, block: seq<Byte>, rest: seq<Byte>)
    requires |key| == 4
    ensures |block| <= 4 ==> |Masked(block, key)| == |block|
                             && forall i :: 0 <= i < |block| ==> Masked(block, key)[i] == block[i] ^ key[i]
    ensures |block| == 4 ==> Masked(block + rest, key) == Masked(block, key) + Masked(rest, key)
  {
    if |block| == 4 {
      var whole := Masked(block + rest, key);
      forall i | 0 <= i < |rest|
        ensures whole[4 + i] == Masked(rest, key)[i]
      {
        assert (4 + i) % 4 == i % 4 && (block + rest)[4 + i] == rest[i];
      }
    }
  }

  const HELLO: seq<Byte> := [0x48, 0x65, 0x6C, 0x6C, 0x6F]
  const KEY: seq<Byte> := [0x37, 0xFA, 0x21, 0x3D]
  const MASKED_HELLO: seq<Byte> := [0x7F, 0x9F, 0x4D, 0x51, 0x58]

  /** The examples of section 5.7 of RFC 6455: a text unmasked and masked, the same in two fragments, a Ping and the
      answer to it, and two lengths that take more bytes. */
  lemma StandardExamples(long: seq<Byte>)
    ensures EncodeUnmasked(Frame(true, Text, HELLO)) == [0x81, 0x05] + HELLO
    ensures EncodeMasked(Frame(true, Text, HELLO), KEY) == [0x81, 0x85] + (KEY + MASKED_HELLO)
    ensures EncodeUnmasked(Frame(false, Text, HELLO[..3])) == [0x01, 0x03] + HELLO[..3]
    ensures EncodeUnmasked(Frame(true, Continuation, HELLO[3..])) == [0x80, 0x02] + HELLO[3..]
    ensures EncodeUnmasked(Frame(true, Ping, HELLO)) == [0x89, 0x05] + HELLO
    ensures EncodeMasked(Frame(true, Pong, HELLO), KEY) == [0x8A, 0x85] + (KEY + MASKED_HELLO)
    ensures |long| == 256 ==> EncodeUnmasked(Frame(true, Binary, long)) == [0x82, 0x7E, 0x01, 0x00] + long
    ensures |long| == 65536 ==>
              EncodeUnmasked(Frame(true, Binary, long)) == [0x82, 0x7F, 0, 0, 0, 0, 0, 1, 0, 0] + long
  {
    HelloMasked();
    ExampleHeads();
    hide FirstByte, LengthBytes, Masked;
    assert |HELLO[..3]| == 3 && |HELLO[3..]| == 2;
  }

  lemma HelloMasked()
    ensures Masked(HELLO, KEY) == MASKED_HELLO
  {
  }

  lemma ExampleHeads()
    ensures [FirstByte(Frame(true, Text, HELLO))] + LengthBytes(0, 5) == [0x81, 0x05]
    ensures [FirstByte(Frame(true, Text, HELLO))] + LengthBytes(0x80, 5) == [0x81, 0x85]
    ensures [FirstByte(Frame(false, Text, HELLO[..3]))] + LengthBytes(0, 3) == [0x01, 0x03]
    ensures [FirstByte(Frame(true, Continuation, HELLO[3..]))] + LengthBytes(0, 2) == [0x80, 0x02]
    ensures [FirstByte(Frame(true, Ping, HELLO))] + LengthBytes(0, 5) == [0x89, 0x05]
    ensures [FirstByte(Frame(true, Pong, HELLO))] + LengthBytes(0x80, 5) == [0x8A, 0x85]
    ensures forall long :: [FirstByte(Frame(true, Binary, long))] + LengthBytes(0, 256) == [0x82, 0x7E, 0x01, 0x00]
    ensures forall long :: [FirstByte(Frame(true, Binary, long))] + LengthBytes(0, 65536)
                           == [0x82, 0x7F, 0, 0, 0, 0, 0, 1, 0, 0]
  {
    SmallBytes();
    TwoBytes();
    EightBytes();
    hide ToBigEndian;
  }

  lemma SmallBytes()
    ensures U8(0) == 0 && U8(1) == 1 && U8(2) == 2 && U8(3) == 3 && U8(5) == 5
  {
    U8OfByte(0);
    U8OfByte(1);
    U8OfByte(2);
    U8OfByte(3);
    U8OfByte(5);
  }

  lemma TwoBytes()
    ensures ToBigEndian(256, 2) == [1, 0]
  {
    SmallBytes();
    assert ToBigEndian(1, 1) == ToBigEndian(0, 0) + [U8(1)] == [1];
    assert ToBigEndian(256, 2) == ToBigEndian(1, 1) + [U8(0)];
  }

  lemma EightBytes()
    ensures ToBigEndian(65536, 8) == [0, 0, 0, 0, 0, 1, 0, 0]
  {
    SmallBytes();
    ZeroBytes(5);
    assert ToBigEndian(1, 6) == ToBigEndian(0, 5) + [U8(1)] == [0, 0, 0, 0, 0, 1];
    assert ToBigEndian(256, 7) == ToBigEndian(1, 6) + [U8(0)];
    assert ToBigEndian(65536, 8) == ToBigEndian(256, 7) + [U8(0)];
  }

  lemma {:induction false} ZeroBytes(k: nat)
    ensures ToBigEndian(0, k) == seq(k, _ => 0)
  {
    if k > 0 {
      SmallBytes();
      ZeroBytes(k - 1);
    }
  }

  // ---- What the reader refuses ----

  /** Only a premature end depends on what comes after: any other answer is the same however the stream goes on. */
  lemma MoreChangesNothing(bytes: seq<Byte>, more: seq<Byte>, cap: nat)
    requires DecodeFrame(true, bytes, cap) != Err(EndOfStream)
    ensures DecodeFrame(true, bytes + more, cap) ==
            match DecodeFrame(true, bytes, cap)
            case Ok((f, rest)) => Ok((f, rest + more))
            case Err(e) => Err(e)
  {
    hide Masked, BigEndian, FromByte;
    assert (bytes + more)[2..] == bytes[2..] + more;
    var head := DecodeHead(true, bytes[0], bytes[1]);
    if head.Ok? {
      hide DecodeHead, ReadPayload, ReadLength;
      LengthAndMore(head.value.lenByte, bytes[2..], more);
      var length := ReadLength(head.value.lenByte, bytes[2..]);
      if length.Ok? && length.value.0 <= cap {
        PayloadAndMore(length.value.0, length.value.1, more);
      }
    }
  }

  lemma LengthAndMore(lenByte: nat, bytes: seq<Byte>, more: seq<Byte>)
    ensures ReadLength(lenByte, bytes) == Err(EndOfStream) || ReadLength(lenByte, bytes).Ok?
    ensures ReadLength(lenByte, bytes).Ok? ==>
              ReadLength(lenByte, bytes + more) ==
              Ok((ReadLength(lenByte, bytes).value.0, ReadLength(lenByte, bytes).value.1 + more))
  {
    hide BigEndian;
    var k := if lenByte == 126 then 2 else 8;
    if 125 < lenByte && k <= |bytes| {
      assert (bytes + more)[..k] == bytes[..k] && (bytes + more)[k..] == bytes[k..] + more;
    }
  }

  lemma PayloadAndMore(length: nat, bytes: seq<Byte>, more: seq<Byte>)
    ensures ReadPayload(true, length, bytes) == Err(EndOfStream) || ReadPayload(true, length, bytes).Ok?
    ensures ReadPayload(true, length, bytes).Ok? ==>
              ReadPayload(true, length, bytes + more) ==
              Ok((ReadPayload(true, length, bytes).value.0, ReadPayload(true, length, bytes).value.1 + more))
  {
    hide Masked;
    if 4 + length <= |bytes| {
      var all := bytes + more;
      assert all[..4] == bytes[..4] && all[4..][..length] == bytes[4..][..length];
      assert all[4..][length..] == bytes[4..][length..] + more;
    }
  }

  /** A frame that is cut off anywhere is a premature end. */
  lemma CutOffIsEndOfStream(f: Frame, key: seq<Byte>, k: nat, cap: nat)
    requires |f.payload| < LEN_LIMIT && |key| == 4 && Legal(f) && |f.payload| <= cap
    requires k < |EncodeMasked(f, key)|
    ensures DecodeFrame(true, EncodeMasked(f, key)[..k], cap) == Err(EndOfStream)
  {
    hide DecodeFrame, EncodeMasked;
    var bytes := EncodeMasked(f, key);
    assert bytes[..k] + bytes[k..] == bytes + [] == bytes;
    MaskedRoundTrip(f, key, [], cap);
    if DecodeFrame(true, bytes[..k], cap) != Err(EndOfStream) {
      MoreChangesNothing(bytes[..k], bytes[k..], cap);
    }
  }

  /** A frame that a server writes, which has no mask, is refused by a server, whatever its opcode and length. */
  lemma UnmaskedIsRefused(f: Frame, tail: seq<Byte>, cap: nat)
    requires |f.payload| < LEN_LIMIT
    ensures DecodeFrame(true, EncodeUnmasked(f) + tail, cap) == Err(WrongMasking)
  {
    FirstByteReads(f);
    LengthReads(0, |f.payload|, []);
    hide FirstByte, LengthBytes;
    var bytes := EncodeUnmasked(f) + tail;
    assert bytes[0] == FirstByte(f) && bytes[1] == LengthBytes(0, |f.payload|)[0];
  }

  /** The first two bytes of a masked frame decide about the rest of the errors: a reserved bit, then a reserved
      opcode, then a control frame that is fragmented or announces more than 125 bytes. */
  lemma HeadIsRefused(b0: Byte, b1: Byte, tail: seq<Byte>, cap: nat)
    requires 0x80 <= b1
    ensures var r := DecodeFrame(true, [b0, b1] + tail, cap);
            && (b0 & 0x70 != 0 ==> r == Err(ReservedBits))
            && (b0 & 0x70 == 0 && b0 & 0x0F !in {0, 1, 2, 8, 9, 10} ==> r == Err(UnknownOpcode))
            && (b0 & 0x70 == 0 && b0 & 0x0F in {8, 9, 10} && (b0 < 0x80 || 0xFD < b1) ==> r == Err(IllegalControl))
            && (b0 & 0x70 == 0 && (b0 & 0x0F in {0, 1, 2} || (b0 in {0x88, 0x89, 0x8A} && b1 <= 0xFD)) ==>
                  r.Ok? || r.error in {EndOfStream, PayloadTooLarge})
  {
    hide DecodeRest;
    MaskedLength(b1);
    var head := DecodeHead(true, b0, b1);
    if head.Ok? {
      RestErrors(head.value, tail, cap);
    }
    assert ([b0, b1] + tail)[2..] == tail;
  }

  lemma MaskedLength(b1: Byte)
    requires 0x80 <= b1
    ensures b1 & 0x80 != 0 && ((b1 & 0x7F) as nat > 125 <==> 0xFD < b1)
  {
    var low := b1 & 0x7F;
    assert low > 125 <==> 0xFD < b1;
    U8OfByte(low);
    U8OfByte(125);
    assert low as nat > 125 <==> low > 125;
  }

  lemma RestErrors(head: Head, bytes: seq<Byte>, cap: nat)
    ensures var r := DecodeRest(true, head, bytes, cap); r.Ok? || r.error in {EndOfStream, PayloadTooLarge}
  {
    hide Masked, BigEndian;
  }
}
