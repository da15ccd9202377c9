/**
  Two WebSockets and what passes between them: what one side sends is what the other side's `recv` delivers, and how
  a Close handshake ends.
 */
module WebSocketPeers {
  import opened Wrappers
  import opened Bytes
  import opened WsFrame
  import opened WebSocket
  import opened WebSocketRuns

  /** The payload of a Close: the code in two bytes, the high one first, and then the reason. */
  lemma CloseBytes(code: nat, reason: seq<Byte>)
    requires code < 0x1_0000
    ensures var payload := ClosePayload(code, reason);
            && |payload| == 2 + |reason|
            && payload[0] as nat * 256 + payload[1] as nat == code
            && payload[2..] == reason
  {
    var two := ToBigEndian(code, 2);
    assert two == ToBigEndian(code / 256, 1) + [U8(code % 256)];
    assert ToBigEndian(code / 256, 1) == ToBigEndian(code / 256 / 256, 0) + [U8(code / 256 % 256)];
    assert code / 256 % 256 == code / 256;
  }

  // ---- Messages ----

  /** What a peer takes whole: valid UTF-8 as text, messages within its size limit, and control messages whose frames
      are legal. */
  predicate Takes(peer: Config, m: Message) {
    match m
    case TextMessage(p) => peer.utf8(p) && |p| <= peer.maxMessageSize
    case BinaryMessage(p) => |p| <= peer.maxMessageSize
    case PingMessage(p) => |p| <= 125
    case PongMessage(p) => |p| <= 125
    case CloseMessage(None) => true
    case CloseMessage(Some(frame)) => frame.code < 0x1_0000 && |frame.reason| <= 123
  }

  /** A Close, if there is one, comes last. */
  predicate CloseIsLast(ms: seq<Message>) {
    forall i :: 0 <= i < |ms| - 1 ==> !ms[i].CloseMessage?
  }

  function Sends(ms: seq<Message>): (r: seq<Call>)
    ensures |r| == |ms|
  {
    seq(|ms|, i requires 0 <= i < |ms| => CallSend(ms[i], true))
  }

  /** All frames written in a run. */
  function WrittenIn(run: seq<Record>): seq<Frame> {
    if run == [] then [] else run[0].step.written + WrittenIn(run[1..])
  }

  function AsDelivered(ms: seq<Message>): (r: seq<Outcome>)
    ensures |r| == |ms|
  {
    seq(|ms|, i requires 0 <= i < |ms| => Delivered(ms[i]))
  }

  function Ends(ms: seq<Message>, st: State): State {
    if ms != [] && ms[|ms| - 1].CloseMessage? then st.(closed := true) else st
  }

  lemma MessageArrives(peer: Config, st: State, m: Message, tail: seq<Event>)
    requires Idle(st) && Takes(peer, m)
    ensures var step := RecvSpec(peer, st, [Event(Received(FrameOf(m)), true)] + tail);
            && step.state == (if m.CloseMessage? then st.(closed := true) else st)
            && step.inbox == tail && step.outcome == Delivered(m)
    ensures Legal(FrameOf(m)) && (IsControl(FrameOf(m).opcode) || |FrameOf(m).payload| <= peer.maxMessageSize)
  {
    var f := FrameOf(m);
    assert ([Event(Received(f), true)] + tail)[1..] == tail;
    if m.CloseMessage? {
      CloseIsEchoed(peer, st, f.payload, tail);
      if m.frame.Some? {
        CloseBytes(m.frame.value.code, m.frame.value.reason);
      }
      hide ClosePayload;
    }
  }

  lemma FramesWritten(cfg: Config, mine: State, inbox: seq<Event>, ms: seq<Message>)
    requires ms != []
    ensures WrittenIn(Run(cfg, mine, inbox, Sends(ms))) ==
            [FrameOf(ms[0])]
            + WrittenIn(Run(cfg, SendSpec(mine, ms[0], true).0, inbox, Sends(ms[1..])))
  {
    assert Sends(ms)[1..] == Sends(ms[1..]);
    var run := Run(cfg, mine, inbox, Sends(ms));
    assert run[1..] == Run(cfg, SendSpec(mine, ms[0], true).0, inbox, Sends(ms[1..]));
    assert run[0].step.written == [FrameOf(ms[0])];
  }

  /** The frames that a list of sends writes are received as that list of messages, each once and in order. */
  lemma {:induction false} MessagesArrive(cfg: Config, mine: State, inbox: seq<Event>, peer: Config, st: State,
                                          ms: seq<Message>, tail: seq<Event>)
    requires Idle(st) && CloseIsLast(ms) && forall m :: m in ms ==> Takes(peer, m)
    ensures RecvTimes(peer, |ms|, st, AsEvents(WrittenIn(Run(cfg, mine, inbox, Sends(ms)))) + tail) ==
            (Ends(ms, st), tail, AsDelivered(ms))
    ensures forall f :: f in WrittenIn(Run(cfg, mine, inbox, Sends(ms))) ==>
              Legal(f) && |f.payload| <= FrameCap(peer)
    ensures |WrittenIn(Run(cfg, mine, inbox, Sends(ms)))| == |ms|
    decreases |ms|
  {
    hide RecvSpec, FrameOf, Run, Takes, WrittenIn;
    if ms == [] {
      NothingWritten(cfg, mine, inbox);
      assert AsEvents([]) + tail == tail;
    } else {
      var next := SendSpec(mine, ms[0], true).0;
      var frames := WrittenIn(Run(cfg, next, inbox, Sends(ms[1..])));
      var rest := AsEvents(frames) + tail;
      FramesWritten(cfg, mine, inbox, ms);
      EventsCons([FrameOf(ms[0])] + frames, tail);
      assert ([FrameOf(ms[0])] + frames)[1..] == frames;
      MessageArrives(peer, st, ms[0], rest);
      if |ms| == 1 {
        NothingWritten(cfg, next, inbox);
        assert Sends(ms[1..]) == [] && rest == tail;
        OneRecv(peer, st, [Event(Received(FrameOf(ms[0])), true)] + rest);
        assert AsDelivered(ms) == [Delivered(ms[0])];
      } else {
        MessagesArrive(cfg, next, inbox, peer, st, ms[1..], tail);
        RecvTimesCons(peer, |ms| - 1, st, [Event(Received(FrameOf(ms[0])), true)] + rest);
        assert AsDelivered(ms) == [Delivered(ms[0])] + AsDelivered(ms[1..]);
      }
    }
  }

  lemma NothingWritten(cfg: Config, mine: State, inbox: seq<Event>)
    ensures WrittenIn(Run(cfg, mine, inbox, [])) == []
  {
  }

  /** The whole path from one application to the other: messages of all five kinds, sent by one side, written with any
      mask keys as a client does, are delivered by the other side's `recv`, the same and in the same order; only
      the end of the stream is left. */
  lemma ConversationRoundTrip(cfg: Config, mine: State, inbox: seq<Event>, peer: Config, ms: seq<Message>,
                              sent: seq<Sent>)
    requires CloseIsLast(ms) && forall m :: m in ms ==> Takes(peer, m)
    requires SentAs(sent, WrittenIn(Run(cfg, mine, inbox, Sends(ms))))
    ensures var start := State([], None, false, false);
            RecvTimes(peer, |ms|, start, EventsOf(peer, EncodeAll(sent))) ==
            (Ends(ms, start), [Event(Broken, true)], AsDelivered(ms))
  {
    hide RecvTimes, EncodeAll, DecodeAll, Run, Takes, FrameCap;
    var frames := WrittenIn(Run(cfg, mine, inbox, Sends(ms)));
    var start := State([], None, false, false);
    MessagesArrive(cfg, mine, inbox, peer, start, ms, [Event(Broken, true)]);
    forall i | 0 <= i < |sent|
      ensures Encodable(sent[i]) && Sendable(sent[i], FrameCap(peer))
    {
      assert sent[i].frame == frames[i] && frames[i] in frames;
    }
    WholeStreamRoundTrip(sent, FrameCap(peer));
    assert FramesOf(sent) == frames;
  }

  // ---- Errors ----

  /** Why `recv` fails on a frame. A write fails for a Ping, and for a Close that has to be echoed. A fragment or
      message fails when it would take the buffer over the limit, a new message also when there are bytes of
      another, a last fragment when there is no message, and a whole text when it is no UTF-8. */
  lemma FrameErrors(cfg: Config, st: State, f: Frame, writeOk: bool, e: Error)
    requires st.fragOpcode.Some? ==> IsData(st.fragOpcode.value)
    ensures var overLimit := cfg.maxMessageSize < |st.fragBuf| + |f.payload|;
            var whole := if f.opcode.Continuation? then st.fragBuf + f.payload else f.payload;
            var opcode := if f.opcode.Continuation? then st.fragOpcode else Some(f.opcode);
            Handle(cfg, st, f, writeOk).2 == Some(Failed(e)) <==>
            match e
            case WriteFailed => !writeOk && (f.opcode.Ping? || (f.opcode.Close? && !st.closeSent))
            case UnexpectedSequence => IsData(f.opcode) && st.fragBuf != []
            case TooBig => overLimit && (f.opcode.Continuation? || (IsData(f.opcode) && st.fragBuf == []))
            case NoStartFrame => f.opcode.Continuation? && !overLimit && f.fin && st.fragOpcode.None?
            case InvalidUtf8 =>
              && (f.opcode.Continuation? || f.opcode.Text?) && opcode == Some(Text)
              && (f.opcode.Text? ==> st.fragBuf == []) && !overLimit && f.fin && !cfg.utf8(whole)
            case ReadFailed => false
  {
  }

  /** A send does not look at the state and fails only when the write does. A Close leaves the connection closed, even
      when it could not be written. */
  lemma SendExactly(st: State, m: Message, writeOk: bool)
    ensures var (next, written, ok) := SendSpec(st, m, writeOk);
            && ok == writeOk && |written| == (if writeOk then 1 else 0)
            && (m.CloseMessage? ==> next.closed && next.closeSent
                                    && next.fragBuf == st.fragBuf && next.fragOpcode == st.fragOpcode)
            && (!m.CloseMessage? ==> next == st)
  {
  }

  // ---- The drain of a Close handshake ----

  predicate IsOrdinary(o: Outcome) {
    o.Delivered? && !o.message.CloseMessage?
  }

  /** After its own Close, `close` receives until something other than an ordinary message comes, and not further. */
  lemma {:induction false} DrainStops(cfg: Config, st: State, inbox: seq<Event>) returns (n: nat)
    ensures var (end, left, outcomes) := RecvTimes(cfg, n, st, inbox);
            && DrainSpec(cfg, st, inbox) == (end, left, WrittenBy(cfg, n, st, inbox))
            && |outcomes| == n && 0 < n
            && (forall i :: 0 <= i < n - 1 ==> IsOrdinary(outcomes[i]))
            && !IsOrdinary(outcomes[n - 1])
    decreases |inbox|
  {
    RecvConsumes(cfg, st, inbox);
    hide RecvLoop;
    var step := RecvSpec(cfg, st, inbox);
    if IsOrdinary(step.outcome) {
      var m := DrainStops(cfg, step.state, step.inbox);
      n := m + 1;
    } else {
      n := 1;
      OneRecv(cfg, st, inbox);
    }
  }
}
