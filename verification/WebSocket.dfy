/**
  The message layer of `ws.rs`: `recv` turns frames into messages, answers pings and closes, and
  reassembles fragments within a size limit. The peer and the transport are an arbitrary list of events:
  a frame as `read_frame` returned it, or a failed read, each with whether a write made while handling
  it succeeds. UTF-8 validation is an arbitrary predicate on bytes.
 */
module WebSocket {
  import opened Wrappers
  import opened Bytes
  import opened WsFrame

  datatype CloseFrame = CloseFrame(code: nat, reason: seq<Byte>)

  datatype Message =
    | TextMessage(payload: seq<Byte>)
    | BinaryMessage(payload: seq<Byte>)
    | PingMessage(payload: seq<Byte>)
    | PongMessage(payload: seq<Byte>)
    | CloseMessage(frame: Option<CloseFrame>)

  datatype Error = ReadFailed | WriteFailed | TooBig | NoStartFrame | InvalidUtf8 | UnexpectedSequence

  /** Ok(Some(message)), Ok(None) and Err(..). */
  datatype Outcome = Delivered(message: Message) | Ended | Failed(error: Error)

  datatype Incoming = Received(frame: Frame) | Broken

  datatype Event = Event(incoming: Incoming, writeOk: bool)

  datatype State = State(fragBuf: seq<Byte>, fragOpcode: Option<Opcode>, closed: bool, closeSent: bool)

  /** What stays fixed over a connection: the message size limit and the UTF-8 check. */
  datatype Config = Config(maxMessageSize: nat, utf8: seq<Byte> -> bool)

  // ---- One frame ----

  function ParseCloseFrame(payload: seq<Byte>): Option<CloseFrame> {
    if |payload| < 2 then None else Some(CloseFrame(BigEndian(payload[..2]), payload[2..]))
  }

  /** A complete data message, or the UTF-8 error. Only data opcodes are ever stored or passed. */
  function MakeDataMessage(cfg: Config, opcode: Opcode, data: seq<Byte>): Outcome {
    if opcode.Text? then (if cfg.utf8(data) then Delivered(TextMessage(data)) else Failed(InvalidUtf8))
    else if opcode.Binary? then Delivered(BinaryMessage(data))
    else Failed(UnexpectedSequence)
  }

  predicate IsData(op: Opcode) {
    op.Text? || op.Binary?
  }

  predicate Fits(cfg: Config, st: State, incoming: nat) {
    |st.fragBuf| + incoming <= cfg.maxMessageSize
  }

  function Overflowed(st: State): State {
    st.(closed := true, fragBuf := [], fragOpcode := None)
  }

  /** The effect of one frame: the new state, the frames written, and what `recv` returns, unless it goes
      on to the next frame. */
  function Handle(cfg: Config, st: State, f: Frame, writeOk: bool): (State, seq<Frame>, Option<Outcome>) {
    match f.opcode
    case Ping =>
      if writeOk then (st, [Frame(true, Pong, f.payload)], Some(Delivered(PingMessage(f.payload))))
      else (st, [], Some(Failed(WriteFailed)))
    case Pong => (st, [], Some(Delivered(PongMessage(f.payload))))
    case Close =>
      var message := Some(Delivered(CloseMessage(ParseCloseFrame(f.payload))));
      if st.closeSent then (st.(closed := true), [], message)
      else if writeOk then (st.(closed := true), [Frame(true, Close, f.payload)], message)
      else (st, [], Some(Failed(WriteFailed)))
    case Continuation =>
      if !Fits(cfg, st, |f.payload|) then (Overflowed(st), [], Some(Failed(TooBig)))
      else
        var data := st.fragBuf + f.payload;
        if !f.fin then (st.(fragBuf := data), [], None)
        else if st.fragOpcode.None? then (st.(fragBuf := data), [], Some(Failed(NoStartFrame)))
        else (st.(fragBuf := [], fragOpcode := None), [], Some(MakeDataMessage(cfg, st.fragOpcode.value, data)))
    case _ =>
      if st.fragBuf != [] then (st, [], Some(Failed(UnexpectedSequence)))
      else if !Fits(cfg, st, |f.payload|) then (Overflowed(st), [], Some(Failed(TooBig)))
      else if f.fin then (st, [], Some(MakeDataMessage(cfg, f.opcode, f.payload)))
      else (st.(fragOpcode := Some(f.opcode), fragBuf := f.payload), [], None)
  }

  // ---- One recv ----

  datatype Step = Step(state: State, inbox: seq<Event>, written: seq<Frame>, outcome: Outcome)

  function RecvSpec(cfg: Config, st: State, inbox: seq<Event>): Step
    decreases |inbox|
  {
    if st.closed then Step(st, inbox, [], Ended) else RecvLoop(cfg, st, inbox)
  }

  function RecvLoop(cfg: Config, st: State, inbox: seq<Event>): Step
    decreases |inbox|
  {
    if inbox == [] then Step(st.(closed := true), inbox, [], Failed(ReadFailed))
    else
      match inbox[0].incoming
      case Broken => Step(st.(closed := true), inbox[1..], [], Failed(ReadFailed))
      case Received(f) =>
        var (next, written, outcome) := Handle(cfg, st, f, inbox[0].writeOk);
        match outcome
        case Some(o) => Step(next, inbox[1..], written, o)
        case None => RecvLoop(cfg, next, inbox[1..])
  }

  /** A frame that keeps `recv` going writes nothing. */
  lemma ContinuesSilently(cfg: Config, st: State, f: Frame, writeOk: bool)
    ensures var (next, written, outcome) := Handle(cfg, st, f, writeOk);
            && next.closeSent == st.closeSent
            && (outcome.None? ==> written == [] && next.closed == st.closed)
  {
  }

  // ---- send and close ----

  function ClosePayload(code: nat, reason: seq<Byte>): seq<Byte> {
    ToBigEndian(code, 2) + reason
  }

  function FrameOf(m: Message): Frame {
    match m
    case TextMessage(p) => Frame(true, Text, p)
    case BinaryMessage(p) => Frame(true, Binary, p)
    case PingMessage(p) => Frame(true, Ping, p)
    case PongMessage(p) => Frame(true, Pong, p)
    case CloseMessage(None) => Frame(true, Close, [])
    case CloseMessage(Some(cf)) => Frame(true, Close, ClosePayload(cf.code, cf.reason))
  }

  /** Sending: the state, the frames written, and whether it succeeded. Nothing is checked first. */
  function SendSpec(st: State, m: Message, writeOk: bool): (State, seq<Frame>, bool) {
    (if m.CloseMessage? then st.(closeSent := true, closed := true) else st,
     if writeOk then [FrameOf(m)] else [], writeOk)
  }

  lemma {:induction false} RecvConsumes(cfg: Config, st: State, inbox: seq<Event>)
    ensures |RecvLoop(cfg, st, inbox).inbox| <= |inbox|
    ensures RecvLoop(cfg, st, inbox).outcome.Delivered? ==> |RecvLoop(cfg, st, inbox).inbox| < |inbox|
    decreases |inbox|
  {
    hide Handle;
    if inbox != [] && inbox[0].incoming.Received? {
      var (next, _, outcome) := Handle(cfg, st, inbox[0].incoming.frame, inbox[0].writeOk);
      if outcome.None? {
        RecvConsumes(cfg, next, inbox[1..]);
      }
    }
  }

  /** Receiving until something other than an ordinary message comes: the drain in `close`. */
  function DrainSpec(cfg: Config, st: State, inbox: seq<Event>): (State, seq<Event>, seq<Frame>)
    decreases |inbox|
  {
    var step := RecvSpec(cfg, st, inbox);
    if step.outcome.Delivered? && !step.outcome.message.CloseMessage? then
      RecvConsumes(cfg, st, inbox);
      var (end, left, written) := DrainSpec(cfg, step.state, step.inbox);
      (end, left, step.written + written)
    else (step.state, step.inbox, step.written)
  }

  class WebSocket {
    const cfg: Config
    var inbox: seq<Event>
    var outbox: seq<Frame>
    var fragBuf: seq<Byte>
    var fragOpcode: Option<Opcode>
    var closed: bool
    var closeSent: bool

    ghost function CurrentState(): State
      reads this
    {
      State(fragBuf, fragOpcode, closed, closeSent)
    }

    constructor (cfg: Config, inbox: seq<Event>)
      ensures this.cfg == cfg && this.inbox == inbox && outbox == []
      ensures CurrentState() == State([], None, false, false)
    {
      this.cfg := cfg;
      this.inbox := inbox;
      outbox := [];
      fragBuf := [];
      fragOpcode := None;
      closed := false;
      closeSent := false;
    }

    method CheckSizeLimit(incoming: nat) returns (ok: bool)
      modifies this`fragBuf, this`fragOpcode, this`closed
      ensures ok == Fits(cfg, old(CurrentState()), incoming)
      ensures CurrentState() == if ok then old(CurrentState()) else Overflowed(old(CurrentState()))
    {
      ok := |fragBuf| + incoming <= cfg.maxMessageSize;
      if !ok {
        closed := true;
        fragBuf := [];
        fragOpcode := None;
      }
    }

    /** The body of the loop in `recv`, for a frame that was read. */
    method HandleFrame(f: Frame, writeOk: bool) returns (outcome: Option<Outcome>)
      modifies this`fragBuf, this`fragOpcode, this`closed, this`outbox
      ensures var (next, written, o) := Handle(cfg, old(CurrentState()), f, writeOk);
              CurrentState() == next && outbox == old(outbox) + written && outcome == o
    {
      match f.opcode {
        case Ping =>
          if !writeOk {
            return Some(Failed(WriteFailed));
          }
          outbox := outbox + [Frame(true, Pong, f.payload)];
          return Some(Delivered(PingMessage(f.payload)));
        case Pong =>
          return Some(Delivered(PongMessage(f.payload)));
        case Close =>
          if !closeSent {
            if !writeOk {
              return Some(Failed(WriteFailed));
            }
            outbox := outbox + [Frame(true, Close, f.payload)];
          }
          closed := true;
          return Some(Delivered(CloseMessage(ParseCloseFrame(f.payload))));
        case Continuation =>
          var ok := CheckSizeLimit(|f.payload|);
          if !ok {
            return Some(Failed(TooBig));
          }
          fragBuf := fragBuf + f.payload;
          if f.fin {
            if fragOpcode.None? {
              return Some(Failed(NoStartFrame));
            }
            var opcode, data := fragOpcode.value, fragBuf;
            fragOpcode := None;
            fragBuf := [];
            return Some(MakeDataMessage(cfg, opcode, data));
          }
          return None;
        case _ =>
          if fragBuf != [] {
            return Some(Failed(UnexpectedSequence));
          }
          var ok := CheckSizeLimit(|f.payload|);
          if !ok {
            return Some(Failed(TooBig));
          }
          if f.fin {
            return Some(MakeDataMessage(cfg, f.opcode, f.payload));
          }
          fragOpcode := Some(f.opcode);
          fragBuf := fragBuf + f.payload;
          return None;
      }
    }

    method Recv() returns (r: Outcome)
      modifies this`fragBuf, this`fragOpcode, this`closed, this`outbox, this`inbox
      ensures var step := RecvSpec(cfg, old(CurrentState()), old(inbox));
              && CurrentState() == step.state && inbox == step.inbox
              && outbox == old(outbox) + step.written && r == step.outcome
    {
      if closed {
        return Ended;
      }
      hide Handle;
      while true
        invariant outbox == old(outbox)
        invariant RecvLoop(cfg, CurrentState(), inbox) == RecvLoop(cfg, old(CurrentState()), old(inbox))
        decreases |inbox|
      {
        if inbox == [] || inbox[0].incoming.Broken? {
          inbox := if inbox == [] then inbox else inbox[1..];
          closed := true;
          assert outbox + [] == outbox;
          return Failed(ReadFailed);
        }
        var event := inbox[0];
        ContinuesSilently(cfg, CurrentState(), event.incoming.frame, event.writeOk);
        inbox := inbox[1..];
        var outcome := HandleFrame(event.incoming.frame, event.writeOk);
        if outcome.Some? {
          return outcome.value;
        }
        assert outbox + [] == outbox;
      }
    }

    method Send(m: Message, writeOk: bool) returns (ok: bool)
      modifies this`closed, this`closeSent, this`outbox
      ensures var (next, written, sent) := SendSpec(old(CurrentState()), m, writeOk);
              CurrentState() == next && outbox == old(outbox) + written && ok == sent
    {
      if m.CloseMessage? {
        closeSent := true;
        closed := true;
      }
      if writeOk {
        outbox := outbox + [FrameOf(m)];
      }
      return writeOk;
    }

    /** The Close handshake we start ourselves: send a Close, then drain until the peer's. */
    method CloseHandshake(code: nat, reason: seq<Byte>, writeOk: bool) returns (ok: bool)
      modifies this`fragBuf, this`fragOpcode, this`closed, this`closeSent, this`outbox, this`inbox
      ensures ok == writeOk
      ensures var st := old(CurrentState()).(closeSent := true);
              if !writeOk then CurrentState() == st && outbox == old(outbox) && inbox == old(inbox)
              else
                var (end, left, written) := DrainSpec(cfg, st, old(inbox));
                && CurrentState() == end && inbox == left
                && outbox == old(outbox) + [Frame(true, Close, ClosePayload(code, reason))] + written
    {
      hide RecvSpec, RecvLoop, ClosePayload;
      closeSent := true;
      if !writeOk {
        return false;
      }
      outbox := outbox + [Frame(true, Close, ClosePayload(code, reason))];
      ghost var start := outbox;
      ghost var st, all := CurrentState(), DrainSpec(cfg, CurrentState(), inbox);
      while true
        invariant var (end, left, written) := DrainSpec(cfg, CurrentState(), inbox);
                  end == all.0 && left == all.1 && start + all.2 == outbox + written
        decreases |inbox|
      {
        ghost var before, sent := outbox, RecvSpec(cfg, CurrentState(), inbox).written;
        RecvConsumes(cfg, CurrentState(), inbox);
        RecvStartsLoop(cfg, CurrentState(), inbox);
        var r := Recv();
        if !r.Delivered? || r.message.CloseMessage? {
          return true;
        }
        assert before + (sent + DrainSpec(cfg, CurrentState(), inbox).2)
            == before + sent + DrainSpec(cfg, CurrentState(), inbox).2;
      }
    }
  }

  lemma RecvStartsLoop(cfg: Config, st: State, inbox: seq<Event>)
    ensures RecvSpec(cfg, st, inbox) == if st.closed then Step(st, inbox, [], Ended) else RecvLoop(cfg, st, inbox)
  {
  }
}
