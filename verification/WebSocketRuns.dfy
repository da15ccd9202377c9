/**
  What holds over whole runs of a WebSocket: safety for any peer, and exact reassembly for a conforming one
  (sections 5.4 and 5.5 of RFC 6455).
 */
module WebSocketRuns {
  import opened Wrappers
  import opened Text
  import opened Bytes
  import opened WsFrame
  import opened WebSocket

  // ---- Runs against any peer ----

  datatype Call = CallRecv | CallSend(message: Message, writeOk: bool)

  /** One call: the state it found and what it did. Ended stands for the success of a send. */
  datatype Record = Record(call: Call, before: State, inboxBefore: seq<Event>, step: Step)

  function Perform(cfg: Config, st: State, inbox: seq<Event>, call: Call): Step {
    match call
    case CallRecv => RecvSpec(cfg, st, inbox)
    case CallSend(m, writeOk) =>
      var (next, written, ok) := SendSpec(st, m, writeOk);
      Step(next, inbox, written, if ok then Ended else Failed(WriteFailed))
  }

  function Run(cfg: Config, st: State, inbox: seq<Event>, calls: seq<Call>): (r: seq<Record>)
    ensures |r| == |calls|
    decreases |calls|
  {
    if calls == [] then []
    else
      var step := Perform(cfg, st, inbox, calls[0]);
      [Record(calls[0], st, inbox, step)] + Run(cfg, step.state, step.inbox, calls[1..])
  }

  // ---- The size limit ----

  predicate Bounded(cfg: Config, st: State) {
    |st.fragBuf| <= cfg.maxMessageSize
  }

  predicate DataWithin(cfg: Config, o: Outcome) {
    o.Delivered? && (o.message.TextMessage? || o.message.BinaryMessage?) ==> |o.message.payload| <= cfg.maxMessageSize
  }

  lemma HandleIsBounded(cfg: Config, st: State, f: Frame, writeOk: bool)
    requires Bounded(cfg, st)
    ensures var (next, _, outcome) := Handle(cfg, st, f, writeOk);
            Bounded(cfg, next) && (outcome.Some? ==> DataWithin(cfg, outcome.value))
  {
  }

  lemma {:induction false} RecvIsBounded(cfg: Config, st: State, inbox: seq<Event>)
    requires Bounded(cfg, st)
    ensures Bounded(cfg, RecvLoop(cfg, st, inbox).state) && DataWithin(cfg, RecvLoop(cfg, st, inbox).outcome)
    decreases |inbox|
  {
    hide Handle;
    if inbox != [] && inbox[0].incoming.Received? {
      var event := inbox[0];
      HandleIsBounded(cfg, st, event.incoming.frame, event.writeOk);
      var (next, _, outcome) := Handle(cfg, st, event.incoming.frame, event.writeOk);
      if outcome.None? {
        RecvIsBounded(cfg, next, inbox[1..]);
      }
    }
  }

  /** Whatever arrives and however the calls are mixed, the reassembly buffer and every data message
      delivered stay within the message size limit. */
  lemma {:induction false} MemoryIsBounded(cfg: Config, st: State, inbox: seq<Event>, calls: seq<Call>)
    requires Bounded(cfg, st)
    ensures forall r :: r in Run(cfg, st, inbox, calls) ==>
              Bounded(cfg, r.step.state) && DataWithin(cfg, r.step.outcome)
    decreases |calls|
  {
    if calls != [] {
      hide RecvLoop;
      RecvIsBounded(cfg, st, inbox);
      var step := Perform(cfg, st, inbox, calls[0]);
      MemoryIsBounded(cfg, step.state, step.inbox, calls[1..]);
    }
  }

  // ---- Closed is final ----

  /** What a call writes on its own account: the frame of a message that is sent, if the write succeeds. */
  function SentBy(call: Call): seq<Frame> {
    if call.CallSend? && call.writeOk then [FrameOf(call.message)] else []
  }

  lemma {:induction false} OnceClosed(cfg: Config, st: State, inbox: seq<Event>, calls: seq<Call>)
    requires st.closed
    ensures forall r :: r in Run(cfg, st, inbox, calls) ==>
              r.step.state.closed && r.step.inbox == inbox && r.step.written == SentBy(r.call)
              && (r.call.CallRecv? ==> r.step.outcome == Ended)
    decreases |calls|
  {
    if calls != [] {
      OnceClosed(cfg, Perform(cfg, st, inbox, calls[0]).state, inbox, calls[1..]);
    }
  }

  /** Once a call leaves the connection closed, no later `recv` reads or writes anything, whatever is
      sent in between. */
  lemma {:induction false} ClosedIsFinal(cfg: Config, st: State, inbox: seq<Event>, calls: seq<Call>, i: nat, j: nat)
    requires i < j < |calls|
    requires Run(cfg, st, inbox, calls)[i].step.state.closed
    ensures var run := Run(cfg, st, inbox, calls);
            && run[j].step.state.closed && run[j].step.inbox == run[i].step.inbox
            && run[j].call == calls[j] && run[j].step.written == SentBy(calls[j])
            && (calls[j].CallRecv? ==> run[j].step.outcome == Ended)
    decreases |calls|
  {
    var step := Perform(cfg, st, inbox, calls[0]);
    var rest := Run(cfg, step.state, step.inbox, calls[1..]);
    assert Run(cfg, st, inbox, calls)[j] == rest[j - 1];
    CallsRecorded(cfg, step.state, step.inbox, calls[1..], j - 1);
    if i == 0 {
      OnceClosed(cfg, step.state, step.inbox, calls[1..]);
      assert rest[j - 1] in rest;
    } else {
      ClosedIsFinal(cfg, step.state, step.inbox, calls[1..], i - 1, j - 1);
    }
  }

  lemma {:induction false} CallsRecorded(cfg: Config, st: State, inbox: seq<Event>, calls: seq<Call>, i: nat)
    requires i < |calls|
    ensures Run(cfg, st, inbox, calls)[i].call == calls[i]
    decreases |calls|
  {
    if i > 0 {
      var step := Perform(cfg, st, inbox, calls[0]);
      CallsRecorded(cfg, step.state, step.inbox, calls[1..], i - 1);
    }
  }

  // ---- Replies ----

  /** What the application sees of a Close: nothing of a payload below two bytes; otherwise the code, with its high
      byte first, and the reason behind it. */
  function CloseOutcome(payload: seq<Byte>): Outcome {
    Delivered(CloseMessage(
      if |payload| < 2 then None
      else Some(CloseFrame(payload[0] as nat * 256 + payload[1] as nat, payload[2..]))))
  }

  lemma CloseIsParsed(payload: seq<Byte>)
    ensures Delivered(CloseMessage(ParseCloseFrame(payload))) == CloseOutcome(payload)
  {
    if 2 <= |payload| {
      var code := payload[..2];
      assert code[..1] == [payload[0]] && code[..1][..0] == [];
      assert BigEndian(code[..1]) == payload[0] as nat;
    }
  }

  /** What one `recv` may write: a Pong with the payload of the Ping it delivers, or an echo of the Close
      it delivers when none was sent before; nothing else. */
  ghost predicate RepliesTo(closeSent: bool, o: Outcome, written: seq<Frame>) {
    if o.Delivered? && o.message.PingMessage? then written == [Frame(true, Pong, o.message.payload)]
    else if o.Delivered? && o.message.CloseMessage? && !closeSent then
      && |written| == 1 && written[0].opcode == Close && written[0].fin
      && o == CloseOutcome(written[0].payload)
    else written == []
  }

  lemma HandleReplies(cfg: Config, st: State, f: Frame, writeOk: bool)
    ensures var (next, written, outcome) := Handle(cfg, st, f, writeOk);
            && (outcome.Some? ==> RepliesTo(st.closeSent, outcome.value, written))
            && (outcome.Some? && outcome.value.Delivered? && outcome.value.message.CloseMessage? ==> next.closed)
            && next.closeSent == st.closeSent
  {
    CloseIsParsed(f.payload);
    hide ParseCloseFrame;
  }

  lemma {:induction false} RecvReplies(cfg: Config, st: State, inbox: seq<Event>)
    ensures var step := RecvLoop(cfg, st, inbox);
            && RepliesTo(st.closeSent, step.outcome, step.written)
            && (step.outcome.Delivered? && step.outcome.message.CloseMessage? ==> step.state.closed)
            && step.state.closeSent == st.closeSent
    decreases |inbox|
  {
    hide Handle;
    if inbox != [] && inbox[0].incoming.Received? {
      var event := inbox[0];
      HandleReplies(cfg, st, event.incoming.frame, event.writeOk);
      var (next, _, outcome) := Handle(cfg, st, event.incoming.frame, event.writeOk);
      if outcome.None? {
        RecvReplies(cfg, next, inbox[1..]);
      }
    }
  }

  /** Whether a call wrote a Close. */
  ghost predicate WroteClose(r: Record) {
    exists f :: f in r.step.written && f.opcode == Close
  }

  lemma {:induction false} WroteCloseCloses(cfg: Config, st: State, inbox: seq<Event>, calls: seq<Call>, i: nat)
    requires i < |calls| && WroteClose(Run(cfg, st, inbox, calls)[i])
    ensures Run(cfg, st, inbox, calls)[i].step.state.closed
    decreases |calls|
  {
    hide RecvLoop;
    var step := Perform(cfg, st, inbox, calls[0]);
    if i > 0 {
      WroteCloseCloses(cfg, step.state, step.inbox, calls[1..], i - 1);
    } else if calls[0].CallRecv? {
      RecvReplies(cfg, st, inbox);
    }
  }

  /** After a Close has been written, by whichever call, `recv` writes nothing more, but every `send` still
      writes its frame: it does not look at whether the connection is closed. */
  lemma AfterClose(cfg: Config, st: State, inbox: seq<Event>, calls: seq<Call>, i: nat, j: nat)
    requires i < j < |calls| && WroteClose(Run(cfg, st, inbox, calls)[i])
    ensures Run(cfg, st, inbox, calls)[j].step.written == SentBy(calls[j])
  {
    WroteCloseCloses(cfg, st, inbox, calls, i);
    ClosedIsFinal(cfg, st, inbox, calls, i, j);
  }

  /** Section 5.5.1 of RFC 6455 allows no data frame after a Close. One is written exactly when the caller
      successfully sends one. */
  lemma DataAfterClose(cfg: Config, st: State, inbox: seq<Event>, calls: seq<Call>, i: nat, j: nat)
    requires i < j < |calls| && WroteClose(Run(cfg, st, inbox, calls)[i])
    ensures (exists f :: f in Run(cfg, st, inbox, calls)[j].step.written && IsData(f.opcode))
            <==> && calls[j].CallSend? && calls[j].writeOk
                 && (calls[j].message.TextMessage? || calls[j].message.BinaryMessage?)
  {
    hide Run;
    AfterClose(cfg, st, inbox, calls, i, j);
    if calls[j].CallSend? && calls[j].writeOk {
      assert FrameOf(calls[j].message) in SentBy(calls[j]);
    }
  }

  /** For instance, a Close and then a binary message, which is reported as sent. */
  lemma SendAfterClose(cfg: Config, inbox: seq<Event>, data: seq<Byte>)
    ensures var run := Run(cfg, State([], None, false, false), inbox,
                           [CallSend(CloseMessage(None), true), CallSend(BinaryMessage(data), true)]);
            && run[0].step.written == [Frame(true, Close, [])]
            && run[1].step.written == [Frame(true, Binary, data)] && run[1].step.outcome == Ended
  {
    var calls := [CallSend(CloseMessage(None), true), CallSend(BinaryMessage(data), true)];
    assert calls[1..] == [calls[1]] && calls[1..][1..] == [];
  }

  /** Payloads of the Pongs that `recv` wrote in a run, in order. */
  function PongsWritten(run: seq<Record>): seq<seq<Byte>> {
    if run == [] then []
    else (if run[0].call.CallRecv? then PongPayloads(run[0].step.written) else []) + PongsWritten(run[1..])
  }

  function PongPayloads(frames: seq<Frame>): seq<seq<Byte>> {
    if frames == [] then []
    else (if frames[0].opcode == Pong then [frames[0].payload] else []) + PongPayloads(frames[1..])
  }

  /** Payloads of the Pings that `recv` delivered, in order. */
  function PingsDelivered(run: seq<Record>): seq<seq<Byte>> {
    if run == [] then []
    else
      (if run[0].call.CallRecv? && run[0].step.outcome.Delivered? && run[0].step.outcome.message.PingMessage?
       then [run[0].step.outcome.message.payload] else [])
      + PingsDelivered(run[1..])
  }

  lemma ReplyPongs(closeSent: bool, o: Outcome, written: seq<Frame>)
    requires RepliesTo(closeSent, o, written)
    ensures PongPayloads(written) == if o.Delivered? && o.message.PingMessage? then [o.message.payload] else []
  {
    if written != [] {
      assert written == [written[0]] && written[1..] == [];
    }
  }

  /** Every delivered Ping has been answered by exactly one Pong with its payload, in order. */
  lemma {:induction false} PongsMatchPings(cfg: Config, st: State, inbox: seq<Event>, calls: seq<Call>)
    ensures PongsWritten(Run(cfg, st, inbox, calls)) == PingsDelivered(Run(cfg, st, inbox, calls))
    decreases |calls|
  {
    hide RecvLoop, PongPayloads;
    if calls != [] {
      var step := Perform(cfg, st, inbox, calls[0]);
      PongsMatchPings(cfg, step.state, step.inbox, calls[1..]);
      if calls[0].CallRecv? {
        RecvReplies(cfg, st, inbox);
        ReplyPongs(st.closeSent, step.outcome, step.written);
      }
    }
  }

  function ClosesIn(frames: seq<Frame>): nat {
    if frames == [] then 0 else (if frames[0].opcode == Close then 1 else 0) + ClosesIn(frames[1..])
  }

  /** Close frames that `recv` wrote in a run. */
  function ClosesEchoed(run: seq<Record>): nat {
    if run == [] then 0
    else (if run[0].call.CallRecv? then ClosesIn(run[0].step.written) else 0) + ClosesEchoed(run[1..])
  }

  lemma ReplyCloses(closeSent: bool, o: Outcome, written: seq<Frame>)
    requires RepliesTo(closeSent, o, written)
    ensures ClosesIn(written) == if o.Delivered? && o.message.CloseMessage? && !closeSent then 1 else 0
  {
    if written != [] {
      assert written == [written[0]] && written[1..] == [];
    }
  }

  /** `recv` echoes at most one Close in a run, and none once we have sent one or the connection is closed. */
  lemma {:induction false} AtMostOneEcho(cfg: Config, st: State, inbox: seq<Event>, calls: seq<Call>)
    ensures ClosesEchoed(Run(cfg, st, inbox, calls)) <= if st.closed || st.closeSent then 0 else 1
    decreases |calls|
  {
    hide RecvLoop, ClosesIn;
    if calls != [] {
      var step := Perform(cfg, st, inbox, calls[0]);
      AtMostOneEcho(cfg, step.state, step.inbox, calls[1..]);
      if calls[0].CallRecv? && !st.closed {
        RecvReplies(cfg, st, inbox);
        ReplyCloses(st.closeSent, step.outcome, step.written);
      } else if calls[0].CallRecv? {
        ReplyCloses(st.closeSent, step.outcome, step.written);
      }
    }
  }

  /** The drain of a Close handshake we started writes nothing but Pongs. */
  lemma {:induction false} DrainWritesOnlyPongs(cfg: Config, st: State, inbox: seq<Event>)
    requires st.closeSent
    ensures forall f :: f in DrainSpec(cfg, st, inbox).2 ==> f.opcode == Pong
    decreases |inbox|
  {
    hide RecvLoop;
    var step := RecvSpec(cfg, st, inbox);
    RecvReplies(cfg, st, inbox);
    RecvConsumes(cfg, st, inbox);
    if step.outcome.Delivered? && !step.outcome.message.CloseMessage? {
      DrainWritesOnlyPongs(cfg, step.state, step.inbox);
    }
  }

  // ---- Conforming peers ----

  /** What a conforming peer sends after the first frame of a message: control frames in between, and
      further fragments. */
  datatype Piece = Interleaved(control: Frame) | Fragment(bytes: seq<Byte>)

  datatype Item = Control(control: Frame) | DataMessage(opcode: Opcode, first: seq<Byte>, more: seq<Piece>)

  predicate PingOrPong(f: Frame) {
    f.fin && (f.opcode.Ping? || f.opcode.Pong?)
  }

  predicate GoodControls(pieces: seq<Piece>) {
    forall i :: 0 <= i < |pieces| && pieces[i].Interleaved? ==> PingOrPong(pieces[i].control)
  }

  predicate GoodPieces(pieces: seq<Piece>) {
    GoodControls(pieces) && (pieces != [] ==> pieces[|pieces| - 1].Fragment?)
  }

  /** Section 5.4 of RFC 6455: only control frames come between the fragments of a message, and the last
      fragment ends it. Fragments may be empty. */
  predicate GoodItem(cfg: Config, item: Item) {
    match item
    case Control(f) => PingOrPong(f)
    case DataMessage(opcode, first, more) =>
      IsData(opcode) && GoodPieces(more) && |first| + |Joined(more)| <= cfg.maxMessageSize
  }

  function Joined(pieces: seq<Piece>): seq<Byte> {
    if pieces == [] then []
    else (if pieces[0].Fragment? then pieces[0].bytes else []) + Joined(pieces[1..])
  }

  function PieceFrames(pieces: seq<Piece>): seq<Frame> {
    if pieces == [] then []
    else
      [match pieces[0]
       case Interleaved(f) => f
       case Fragment(b) => Frame(|pieces| == 1, Continuation, b)]
      + PieceFrames(pieces[1..])
  }

  /** The frames of a stretch in which no fragment is the last one. */
  function OpenFrames(pieces: seq<Piece>): seq<Frame> {
    if pieces == [] then []
    else
      [match pieces[0]
       case Interleaved(f) => f
       case Fragment(b) => Frame(false, Continuation, b)]
      + OpenFrames(pieces[1..])
  }

  function ItemFrames(item: Item): seq<Frame> {
    match item
    case Control(f) => [f]
    case DataMessage(opcode, first, more) => [Frame(more == [], opcode, first)] + PieceFrames(more)
  }

  function AllFrames(items: seq<Item>): seq<Frame> {
    if items == [] then [] else ItemFrames(items[0]) + AllFrames(items[1..])
  }

  /** What the application should see of a control frame, of a message, and of a whole stream. */
  function ControlOutcome(f: Frame): Outcome {
    Delivered(if f.opcode.Ping? then PingMessage(f.payload) else PongMessage(f.payload))
  }

  function ControlOutcomes(pieces: seq<Piece>): seq<Outcome> {
    if pieces == [] then []
    else (if pieces[0].Interleaved? then [ControlOutcome(pieces[0].control)] else []) + ControlOutcomes(pieces[1..])
  }

  /** A text message has to be UTF-8. */
  function DataOutcome(cfg: Config, opcode: Opcode, data: seq<Byte>): Outcome {
    if opcode == Text && !cfg.utf8(data) then Failed(InvalidUtf8)
    else Delivered(if opcode == Text then TextMessage(data) else BinaryMessage(data))
  }

  function ItemOutcomes(cfg: Config, item: Item): seq<Outcome> {
    match item
    case Control(f) => [ControlOutcome(f)]
    case DataMessage(opcode, first, more) => ControlOutcomes(more) + [DataOutcome(cfg, opcode, first + Joined(more))]
  }

  function AllOutcomes(cfg: Config, items: seq<Item>): seq<Outcome> {
    if items == [] then [] else ItemOutcomes(cfg, items[0]) + AllOutcomes(cfg, items[1..])
  }

  function AsEvents(frames: seq<Frame>): (r: seq<Event>)
    ensures |r| == |frames|
  {
    seq(|frames|, i requires 0 <= i < |frames| => Event(Received(frames[i]), true))
  }

  /** `n` calls of `recv`: the final state, what is left unread, and the outcomes in order. */
  function RecvTimes(cfg: Config, n: nat, st: State, inbox: seq<Event>): (State, seq<Event>, seq<Outcome>) {
    if n == 0 then (st, inbox, [])
    else
      var step := RecvSpec(cfg, st, inbox);
      var (end, left, outcomes) := RecvTimes(cfg, n - 1, step.state, step.inbox);
      (end, left, [step.outcome] + outcomes)
  }

  /** The frames that `n` calls of `recv` write. */
  function WrittenBy(cfg: Config, n: nat, st: State, inbox: seq<Event>): seq<Frame> {
    if n == 0 then []
    else
      var step := RecvSpec(cfg, st, inbox);
      step.written + WrittenBy(cfg, n - 1, step.state, step.inbox)
  }

  /** The Pongs that answer the Pings among some outcomes. */
  function PongsFor(outcomes: seq<Outcome>): seq<Frame> {
    if outcomes == [] then []
    else
      (if outcomes[0].Delivered? && outcomes[0].message.PingMessage?
       then [Frame(true, Pong, outcomes[0].message.payload)] else [])
      + PongsFor(outcomes[1..])
  }

  predicate NoClose(outcomes: seq<Outcome>) {
    forall o :: o in outcomes ==> !(o.Delivered? && o.message.CloseMessage?)
  }

  /** Between messages, or inside one. */
  predicate Idle(st: State) {
    !st.closed && st.fragBuf == [] && st.fragOpcode.None?
  }

  function Midway(st: State, opcode: Opcode, data: seq<Byte>): State {
    st.(fragBuf := data, fragOpcode := Some(opcode))
  }

  lemma {:induction false} RecvTimesJoin(cfg: Config, m: nat, n: nat, st: State, inbox: seq<Event>)
    ensures var (mid, rest, a) := RecvTimes(cfg, m, st, inbox);
            var (end, left, b) := RecvTimes(cfg, n, mid, rest);
            RecvTimes(cfg, m + n, st, inbox) == (end, left, a + b)
  {
    hide RecvSpec;
    if m == 0 {
      assert [] + RecvTimes(cfg, n, st, inbox).2 == RecvTimes(cfg, n, st, inbox).2;
    } else {
      var step := RecvSpec(cfg, st, inbox);
      RecvTimesJoin(cfg, m - 1, n, step.state, step.inbox);
      var a := RecvTimes(cfg, m - 1, step.state, step.inbox);
      var b := RecvTimes(cfg, n, a.0, a.1);
      assert [step.outcome] + (a.2 + b.2) == [step.outcome] + a.2 + b.2;
    }
  }

  lemma ControlIsDelivered(cfg: Config, st: State, f: Frame, tail: seq<Event>)
    requires !st.closed && PingOrPong(f)
    ensures var step := RecvSpec(cfg, st, [Event(Received(f), true)] + tail);
            step == Step(st, tail, PongsFor([ControlOutcome(f)]), ControlOutcome(f))
  {
    assert PongsFor([ControlOutcome(f)]) == if f.opcode.Ping? then [Frame(true, Pong, f.payload)] else [];
    assert ([Event(Received(f), true)] + tail)[1..] == tail;
  }

  lemma FragmentIsKept(cfg: Config, st: State, f: Frame, tail: seq<Event>)
    requires !st.closed && f.opcode.Continuation? && !f.fin && Fits(cfg, st, |f.payload|)
    ensures RecvSpec(cfg, st, [Event(Received(f), true)] + tail) ==
            RecvSpec(cfg, st.(fragBuf := st.fragBuf + f.payload), tail)
  {
    assert ([Event(Received(f), true)] + tail)[1..] == tail;
  }

  lemma LastFragmentDelivers(cfg: Config, st: State, f: Frame, opcode: Opcode, data: seq<Byte>, tail: seq<Event>)
    requires Idle(st) && f.opcode.Continuation? && f.fin && |data| + |f.payload| <= cfg.maxMessageSize
    ensures var step := RecvSpec(cfg, Midway(st, opcode, data), [Event(Received(f), true)] + tail);
            && step.state == st && step.inbox == tail
            && (IsData(opcode) ==> step.outcome == DataOutcome(cfg, opcode, data + f.payload))
  {
    assert ([Event(Received(f), true)] + tail)[1..] == tail;
  }

  lemma EventsCons(frames: seq<Frame>, tail: seq<Event>)
    requires frames != []
    ensures AsEvents(frames) + tail == [Event(Received(frames[0]), true)] + (AsEvents(frames[1..]) + tail)
  {
    assert AsEvents(frames) == [Event(Received(frames[0]), true)] + AsEvents(frames[1..]);
  }

  lemma OneRecv(cfg: Config, st: State, inbox: seq<Event>)
    ensures var step := RecvSpec(cfg, st, inbox);
            RecvTimes(cfg, 1, st, inbox) == (step.state, step.inbox, [step.outcome])
            && WrittenBy(cfg, 1, st, inbox) == step.written
  {
    hide RecvSpec;
    var step := RecvSpec(cfg, st, inbox);
    assert RecvTimes(cfg, 0, step.state, step.inbox) == (step.state, step.inbox, []);
    assert [step.outcome] + [] == [step.outcome];
    assert WrittenBy(cfg, 0, step.state, step.inbox) == [] && step.written + [] == step.written;
  }

  lemma RecvTimesCons(cfg: Config, n: nat, st: State, inbox: seq<Event>)
    ensures var step := RecvSpec(cfg, st, inbox);
            var (end, left, outcomes) := RecvTimes(cfg, n, step.state, step.inbox);
            RecvTimes(cfg, n + 1, st, inbox) == (end, left, [step.outcome] + outcomes)
  {
    hide RecvSpec;
  }

  lemma ItemIsReceived(cfg: Config, st: State, item: Item, tail: seq<Event>)
    requires Idle(st) && GoodItem(cfg, item)
    ensures RecvTimes(cfg, |ItemOutcomes(cfg, item)|, st, AsEvents(ItemFrames(item)) + tail) ==
            (st, tail, ItemOutcomes(cfg, item))
  {
    match item
    case Control(f) =>
      assert AsEvents([f]) + tail == [Event(Received(f), true)] + tail;
      ControlIsDelivered(cfg, st, f, tail);
      OneRecv(cfg, st, [Event(Received(f), true)] + tail);
    case DataMessage(opcode, first, more) =>
      var f := Frame(more == [], opcode, first);
      var rest := AsEvents(PieceFrames(more)) + tail;
      assert AsEvents(ItemFrames(item)) + tail == [Event(Received(f), true)] + rest;
      assert ([Event(Received(f), true)] + rest)[1..] == rest;
      if more == [] {
        assert rest == tail && first + Joined(more) == first;
        OneRecv(cfg, st, [Event(Received(f), true)] + rest);
        assert ItemOutcomes(cfg, item) == [DataOutcome(cfg, opcode, first)];
      } else {
        FirstFragmentIsKept(cfg, st, f, rest);
        FinishesMessage(cfg, st, opcode, first, more, tail);
        SameRecv(cfg, |ControlOutcomes(more)| + 1, st, [Event(Received(f), true)] + rest, Midway(st, opcode, first),
                 rest);
      }
  }

  lemma FirstFragmentIsKept(cfg: Config, st: State, f: Frame, tail: seq<Event>)
    requires Idle(st) && IsData(f.opcode) && !f.fin && |f.payload| <= cfg.maxMessageSize
    ensures RecvSpec(cfg, st, [Event(Received(f), true)] + tail) == RecvSpec(cfg, Midway(st, f.opcode, f.payload), tail)
  {
    assert ([Event(Received(f), true)] + tail)[1..] == tail;
  }

  lemma SameRecv(cfg: Config, n: nat, st: State, inbox: seq<Event>, st': State, inbox': seq<Event>)
    requires n > 0 && RecvSpec(cfg, st, inbox) == RecvSpec(cfg, st', inbox')
    ensures RecvTimes(cfg, n, st, inbox) == RecvTimes(cfg, n, st', inbox')
    ensures WrittenBy(cfg, n, st, inbox) == WrittenBy(cfg, n, st', inbox')
  {
    hide RecvSpec;
  }

  lemma {:induction false} ItemsAreReceived(cfg: Config, st: State, items: seq<Item>, tail: seq<Event>)
    requires Idle(st) && forall i :: 0 <= i < |items| ==> GoodItem(cfg, items[i])
    ensures RecvTimes(cfg, |AllOutcomes(cfg, items)|, st, AsEvents(AllFrames(items)) + tail) ==
            (st, tail, AllOutcomes(cfg, items))
    decreases |items|
  {
    hide RecvSpec, ItemFrames, ItemOutcomes, GoodItem;
    if items == [] {
      assert AsEvents(AllFrames(items)) + tail == tail;
    } else {
      var rest := AsEvents(AllFrames(items[1..])) + tail;
      assert AsEvents(AllFrames(items)) + tail == AsEvents(ItemFrames(items[0])) + rest;
      ItemIsReceived(cfg, st, items[0], rest);
      ItemsAreReceived(cfg, st, items[1..], tail);
      RecvTimesJoin(cfg, |ItemOutcomes(cfg, items[0])|, |AllOutcomes(cfg, items[1..])|, st,
                    AsEvents(AllFrames(items)) + tail);
    }
  }

  // ---- What is written on the way ----

  lemma {:induction false} WrittenJoin(cfg: Config, m: nat, n: nat, st: State, inbox: seq<Event>)
    ensures var (mid, rest, _) := RecvTimes(cfg, m, st, inbox);
            WrittenBy(cfg, m + n, st, inbox) == WrittenBy(cfg, m, st, inbox) + WrittenBy(cfg, n, mid, rest)
  {
    hide RecvSpec;
    if m == 0 {
      assert [] + WrittenBy(cfg, n, st, inbox) == WrittenBy(cfg, n, st, inbox);
    } else {
      var step := RecvSpec(cfg, st, inbox);
      WrittenJoin(cfg, m - 1, n, step.state, step.inbox);
      var mid := RecvTimes(cfg, m - 1, step.state, step.inbox);
      JoinThree(step.written, WrittenBy(cfg, m - 1, step.state, step.inbox), WrittenBy(cfg, n, mid.0, mid.1));
    }
  }

  /** Without a Close, nothing but the Pongs for the delivered Pings is written. */
  lemma {:induction false} WritesPongs(cfg: Config, n: nat, st: State, inbox: seq<Event>)
    requires NoClose(RecvTimes(cfg, n, st, inbox).2)
    ensures WrittenBy(cfg, n, st, inbox) == PongsFor(RecvTimes(cfg, n, st, inbox).2)
  {
    if n > 0 {
      hide RecvLoop;
      var step := RecvSpec(cfg, st, inbox);
      RecvReplies(cfg, st, inbox);
      var outcomes := RecvTimes(cfg, n - 1, step.state, step.inbox).2;
      assert RecvTimes(cfg, n, st, inbox).2 == [step.outcome] + outcomes;
      WritesPongs(cfg, n - 1, step.state, step.inbox);
      assert ([step.outcome] + outcomes)[1..] == outcomes;
    }
  }

  lemma {:induction false} PiecesHaveNoClose(pieces: seq<Piece>)
    ensures NoClose(ControlOutcomes(pieces))
  {
    if pieces != [] {
      PiecesHaveNoClose(pieces[1..]);
    }
  }

  lemma {:induction false} ItemsHaveNoClose(cfg: Config, items: seq<Item>)
    ensures NoClose(AllOutcomes(cfg, items))
  {
    if items != [] {
      ItemsHaveNoClose(cfg, items[1..]);
      if items[0].DataMessage? {
        PiecesHaveNoClose(items[0].more);
      }
    }
  }

  // ---- The end of a stream ----

  /** A message that was begun and not finished. */
  datatype Partial = Partial(opcode: Opcode, first: seq<Byte>, pieces: seq<Piece>)

  /** A peer may leave the connection open, or end it with a Close: between two messages, or as a control
      frame in the middle of one. */
  datatype Ending = StillOpen | Closing(unfinished: Option<Partial>, payload: seq<Byte>)

  predicate GoodPartial(cfg: Config, m: Partial) {
    IsData(m.opcode) && GoodControls(m.pieces) && |m.first| + |Joined(m.pieces)| <= cfg.maxMessageSize
  }

  predicate GoodEnding(cfg: Config, ending: Ending) {
    ending.Closing? && ending.unfinished.Some? ==> GoodPartial(cfg, ending.unfinished.value)
  }

  function PartialFrames(m: Partial): seq<Frame> {
    [Frame(false, m.opcode, m.first)] + OpenFrames(m.pieces)
  }

  function EndingFrames(ending: Ending): seq<Frame> {
    match ending
    case StillOpen => []
    case Closing(None, payload) => [Frame(true, Close, payload)]
    case Closing(Some(m), payload) => PartialFrames(m) + [Frame(true, Close, payload)]
  }

  /** The control frames inside the unfinished message, and then the Close. */
  function EndingOutcomes(ending: Ending): seq<Outcome> {
    match ending
    case StillOpen => []
    case Closing(None, payload) => [CloseOutcome(payload)]
    case Closing(Some(m), payload) => ControlOutcomes(m.pieces) + [CloseOutcome(payload)]
  }

  /** A Close leaves the connection closed, whatever has been collected of a message. */
  function EndState(st: State, ending: Ending): State {
    match ending
    case StillOpen => st
    case Closing(None, _) => st.(closed := true)
    case Closing(Some(m), _) => Midway(st, m.opcode, m.first + Joined(m.pieces)).(closed := true)
  }

  /** Its payload is echoed, if we have not sent a Close ourselves. */
  function EndingWrites(st: State, ending: Ending): seq<Frame> {
    match ending
    case StillOpen => []
    case Closing(unfinished, payload) =>
      (if unfinished.Some? then PongsFor(ControlOutcomes(unfinished.value.pieces)) else [])
      + (if st.closeSent then [] else [Frame(true, Close, payload)])
  }

  function Collected(st: State, pieces: seq<Piece>): State {
    st.(fragBuf := st.fragBuf + Joined(pieces))
  }

  /** Reading over a stretch that finishes nothing: its control frames come out, its bytes are collected,
      and what follows is read from there. */
  lemma {:induction false} StretchIsRead(cfg: Config, n: nat, st: State, pieces: seq<Piece>, tail: seq<Event>)
    requires 0 < n && !st.closed && GoodControls(pieces) && Fits(cfg, st, |Joined(pieces)|)
    ensures var k, inbox := |ControlOutcomes(pieces)| + n, AsEvents(OpenFrames(pieces)) + tail;
            var (end, left, outcomes) := RecvTimes(cfg, n, Collected(st, pieces), tail);
            && RecvTimes(cfg, k, st, inbox) == (end, left, ControlOutcomes(pieces) + outcomes)
            && WrittenBy(cfg, k, st, inbox) ==
               PongsFor(ControlOutcomes(pieces)) + WrittenBy(cfg, n, Collected(st, pieces), tail)
    decreases |pieces|
  {
    hide RecvSpec, RecvTimes, WrittenBy, PongsFor;
    if pieces == [] {
      assert PongsFor([]) == [] by {
        NoPongs();
      }
      assert AsEvents(OpenFrames(pieces)) + tail == tail && st.fragBuf + Joined(pieces) == st.fragBuf;
      assert Collected(st, pieces) == st && ControlOutcomes(pieces) == [];
      var outcomes := RecvTimes(cfg, n, st, tail).2;
      assert [] + outcomes == outcomes;
    } else if pieces[0].Interleaved? {
      assert GoodControls(pieces[1..]);
      var more := pieces[1..];
      var o, controls := ControlOutcome(pieces[0].control), ControlOutcomes(more);
      StretchIsRead(cfg, n, st, more, tail);
      OpenCons(pieces, tail);
      StartsWithControl(st, pieces);
      OneControl(cfg, |controls| + n, st, pieces[0].control, AsEvents(OpenFrames(more)) + tail);
      PongsCons(o, controls);
      JoinThree([o], controls, RecvTimes(cfg, n, Collected(st, more), tail).2);
      JoinThree(PongsFor([o]), PongsFor(controls), WrittenBy(cfg, n, Collected(st, more), tail));
    } else {
      assert GoodControls(pieces[1..]);
      StretchIsRead(cfg, n, st.(fragBuf := st.fragBuf + pieces[0].bytes), pieces[1..], tail);
      FragmentFirst(cfg, n, st, pieces, tail);
    }
  }

  lemma NoPongs()
    ensures PongsFor([]) == []
  {
  }

  lemma StartsWithControl(st: State, pieces: seq<Piece>)
    requires pieces != [] && pieces[0].Interleaved?
    ensures OpenFrames(pieces)[0] == pieces[0].control && Collected(st, pieces) == Collected(st, pieces[1..])
    ensures ControlOutcomes(pieces) == [ControlOutcome(pieces[0].control)] + ControlOutcomes(pieces[1..])
  {
    hide ControlOutcome;
    ControlBringsNothing(pieces);
    hide Joined;
  }

  lemma ControlBringsNothing(pieces: seq<Piece>)
    requires pieces != [] && pieces[0].Interleaved?
    ensures Joined(pieces) == Joined(pieces[1..])
  {
    assert [] + Joined(pieces[1..]) == Joined(pieces[1..]);
  }

  lemma OneControl(cfg: Config, k: nat, st: State, f: Frame, rest: seq<Event>)
    requires !st.closed && PingOrPong(f)
    ensures var (end, left, outcomes) := RecvTimes(cfg, k, st, rest);
            var inbox := [Event(Received(f), true)] + rest;
            && RecvTimes(cfg, k + 1, st, inbox) == (end, left, [ControlOutcome(f)] + outcomes)
            && WrittenBy(cfg, k + 1, st, inbox) == PongsFor([ControlOutcome(f)]) + WrittenBy(cfg, k, st, rest)
  {
    hide RecvSpec, PongsFor;
    ControlIsDelivered(cfg, st, f, rest);
  }

  lemma FragmentFirst(cfg: Config, n: nat, st: State, pieces: seq<Piece>, tail: seq<Event>)
    requires 0 < n && !st.closed && pieces != [] && pieces[0].Fragment? && Fits(cfg, st, |Joined(pieces)|)
    ensures var next, more := st.(fragBuf := st.fragBuf + pieces[0].bytes), pieces[1..];
            var k, rest := |ControlOutcomes(more)| + n, AsEvents(OpenFrames(more)) + tail;
            var inbox := AsEvents(OpenFrames(pieces)) + tail;
            && ControlOutcomes(pieces) == ControlOutcomes(more) && Collected(st, pieces) == Collected(next, more)
            && RecvTimes(cfg, k, st, inbox) == RecvTimes(cfg, k, next, rest)
            && WrittenBy(cfg, k, st, inbox) == WrittenBy(cfg, k, next, rest)
  {
    var bytes, more := pieces[0].bytes, pieces[1..];
    var f, next := Frame(false, Continuation, bytes), st.(fragBuf := st.fragBuf + bytes);
    var rest := AsEvents(OpenFrames(more)) + tail;
    OpenCons(pieces, tail);
    assert OpenFrames(pieces)[0] == f;
    assert ControlOutcomes(pieces) == [] + ControlOutcomes(more) == ControlOutcomes(more);
    assert next.fragBuf + Joined(more) == st.fragBuf + (bytes + Joined(more));
    assert |bytes| <= |Joined(pieces)|;
    hide ControlOutcomes, OpenFrames, Joined, RecvTimes, RecvSpec, WrittenBy;
    FragmentIsKept(cfg, st, f, rest);
    SameRecv(cfg, |ControlOutcomes(more)| + n, st, [Event(Received(f), true)] + rest, next, rest);
  }

  lemma {:induction false} LastPieceEnds(pieces: seq<Piece>)
    requires GoodPieces(pieces) && pieces != []
    ensures var front, last := pieces[..|pieces| - 1], pieces[|pieces| - 1].bytes;
            && PieceFrames(pieces) == OpenFrames(front) + [Frame(true, Continuation, last)]
            && Joined(pieces) == Joined(front) + last && ControlOutcomes(pieces) == ControlOutcomes(front)
  {
    if |pieces| == 1 {
      assert pieces[1..] == [] && pieces[..0] == [];
    } else {
      var more := pieces[1..];
      assert GoodPieces(more);
      LastPieceEnds(more);
      var front := pieces[..|pieces| - 1];
      assert front[1..] == more[..|more| - 1] && front[0] == pieces[0];
      var here := if pieces[0].Fragment? then pieces[0].bytes else [];
      JoinThree(here, Joined(front[1..]), pieces[|pieces| - 1].bytes);
    }
  }

  lemma FinishesMessage(cfg: Config, st: State, opcode: Opcode, data: seq<Byte>, pieces: seq<Piece>, tail: seq<Event>)
    requires Idle(st) && IsData(opcode) && GoodPieces(pieces) && pieces != []
    requires |data| + |Joined(pieces)| <= cfg.maxMessageSize
    ensures RecvTimes(cfg, |ControlOutcomes(pieces)| + 1, Midway(st, opcode, data),
                      AsEvents(PieceFrames(pieces)) + tail) ==
            (st, tail, ControlOutcomes(pieces) + [DataOutcome(cfg, opcode, data + Joined(pieces))])
  {
    hide RecvSpec, RecvTimes, DataOutcome, Joined, ControlOutcomes, OpenFrames, PieceFrames;
    var front, last := pieces[..|pieces| - 1], pieces[|pieces| - 1].bytes;
    var f, mid := Frame(true, Continuation, last), Midway(st, opcode, data + Joined(front));
    var rest := [Event(Received(f), true)] + tail;
    LastPieceEnds(pieces);
    assert AsEvents(PieceFrames(pieces)) + tail == AsEvents(OpenFrames(front)) + rest;
    StretchIsRead(cfg, 1, Midway(st, opcode, data), front, rest);
    LastFragmentDelivers(cfg, st, f, opcode, data + Joined(front), tail);
    OneRecv(cfg, mid, rest);
    JoinThree(data, Joined(front), last);
  }

  lemma OpenCons(pieces: seq<Piece>, tail: seq<Event>)
    requires pieces != []
    ensures AsEvents(OpenFrames(pieces)) + tail ==
            [Event(Received(OpenFrames(pieces)[0]), true)] + (AsEvents(OpenFrames(pieces[1..])) + tail)
  {
    assert OpenFrames(pieces)[1..] == OpenFrames(pieces[1..]);
    EventsCons(OpenFrames(pieces), tail);
  }

  lemma PongsCons(o: Outcome, outcomes: seq<Outcome>)
    ensures PongsFor([o] + outcomes) == PongsFor([o]) + PongsFor(outcomes)
  {
    assert ([o] + outcomes)[1..] == outcomes && [o][1..] == [];
  }

  lemma CloseIsEchoed(cfg: Config, st: State, payload: seq<Byte>, tail: seq<Event>)
    requires !st.closed
    ensures var f := Frame(true, Close, payload);
            RecvSpec(cfg, st, [Event(Received(f), true)] + tail) ==
            Step(st.(closed := true), tail, if st.closeSent then [] else [f],
                 CloseOutcome(payload))
  {
    CloseIsParsed(payload);
    hide ParseCloseFrame, CloseOutcome;
    assert ([Event(Received(Frame(true, Close, payload)), true)] + tail)[1..] == tail;
  }

  /** The first fragment, and the stretch after it. */
  lemma PartialIsRead(cfg: Config, n: nat, st: State, m: Partial, tail: seq<Event>)
    requires 0 < n && Idle(st) && GoodPartial(cfg, m)
    ensures var k, inbox := |ControlOutcomes(m.pieces)| + n, AsEvents(PartialFrames(m)) + tail;
            var mid := Midway(st, m.opcode, m.first + Joined(m.pieces));
            var (end, left, outcomes) := RecvTimes(cfg, n, mid, tail);
            && RecvTimes(cfg, k, st, inbox) == (end, left, ControlOutcomes(m.pieces) + outcomes)
            && WrittenBy(cfg, k, st, inbox) == PongsFor(ControlOutcomes(m.pieces)) + WrittenBy(cfg, n, mid, tail)
  {
    hide RecvSpec, RecvTimes, WrittenBy;
    var f, rest := Frame(false, m.opcode, m.first), AsEvents(OpenFrames(m.pieces)) + tail;
    assert PartialFrames(m)[1..] == OpenFrames(m.pieces);
    EventsCons(PartialFrames(m), tail);
    FirstFragmentIsKept(cfg, st, f, rest);
    var begun := Midway(st, m.opcode, m.first);
    StretchIsRead(cfg, n, begun, m.pieces, tail);
    SameRecv(cfg, |ControlOutcomes(m.pieces)| + n, st, AsEvents(PartialFrames(m)) + tail, begun, rest);
  }

  lemma EndingIsReceived(cfg: Config, st: State, ending: Ending, tail: seq<Event>)
    requires Idle(st) && GoodEnding(cfg, ending)
    ensures var n, inbox := |EndingOutcomes(ending)|, AsEvents(EndingFrames(ending)) + tail;
            && RecvTimes(cfg, n, st, inbox) == (EndState(st, ending), tail, EndingOutcomes(ending))
            && WrittenBy(cfg, n, st, inbox) == EndingWrites(st, ending)
  {
    hide RecvSpec;
    match ending
    case StillOpen =>
      assert AsEvents([]) + tail == tail;
    case Closing(unfinished, payload) =>
      var close := [Event(Received(Frame(true, Close, payload)), true)] + tail;
      if unfinished.None? {
        assert AsEvents([Frame(true, Close, payload)]) + tail == close;
        CloseIsEchoed(cfg, st, payload, tail);
        OneRecv(cfg, st, close);
      } else {
        var m := unfinished.value;
        var mid := Midway(st, m.opcode, m.first + Joined(m.pieces));
        assert AsEvents(EndingFrames(ending)) + tail == AsEvents(PartialFrames(m)) + close;
        PartialIsRead(cfg, 1, st, m, close);
        CloseIsEchoed(cfg, mid, payload, tail);
        OneRecv(cfg, mid, close);
      }
  }

  function StreamFrames(items: seq<Item>, ending: Ending): seq<Frame> {
    AllFrames(items) + EndingFrames(ending)
  }

  function StreamOutcomes(cfg: Config, items: seq<Item>, ending: Ending): seq<Outcome> {
    AllOutcomes(cfg, items) + EndingOutcomes(ending)
  }

  predicate Conforming(cfg: Config, items: seq<Item>, ending: Ending) {
    (forall i :: 0 <= i < |items| ==> GoodItem(cfg, items[i])) && GoodEnding(cfg, ending)
  }

  /** Repeated `recv` on a conforming stream: control frames come out where they arrived, each data
      message once, at its final fragment, with the opcode of its first frame and the fragments joined.
      A Close comes out last, also from the middle of a message, and leaves the connection closed. Nothing
      beyond the stream is read, and what is written are the Pongs, and the echo of the Close. */
  lemma ConformingStreamIsReceived(cfg: Config, st: State, items: seq<Item>, ending: Ending, tail: seq<Event>)
    requires Idle(st) && Conforming(cfg, items, ending)
    ensures var n, inbox := |StreamOutcomes(cfg, items, ending)|, AsEvents(StreamFrames(items, ending)) + tail;
            && RecvTimes(cfg, n, st, inbox) == (EndState(st, ending), tail, StreamOutcomes(cfg, items, ending))
            && WrittenBy(cfg, n, st, inbox) == PongsFor(AllOutcomes(cfg, items)) + EndingWrites(st, ending)
  {
    hide RecvTimes, WrittenBy, AllOutcomes, EndingOutcomes, AllFrames, EndingFrames, EndState, EndingWrites, PongsFor;
    hide GoodItem, GoodEnding;
    var rest := AsEvents(EndingFrames(ending)) + tail;
    var inbox := AsEvents(StreamFrames(items, ending)) + tail;
    assert inbox == AsEvents(AllFrames(items)) + rest;
    var m, n := |AllOutcomes(cfg, items)|, |EndingOutcomes(ending)|;
    ItemsAreReceived(cfg, st, items, rest);
    EndingIsReceived(cfg, st, ending, tail);
    RecvTimesJoin(cfg, m, n, st, inbox);
    WrittenJoin(cfg, m, n, st, inbox);
    ItemsHaveNoClose(cfg, items);
    WritesPongs(cfg, m, st, inbox);
  }

  // ---- From bytes ----

  /** The frame-level cap that `recv` passes to `read_frame`. */
  function FrameCap(cfg: Config): nat {
    if cfg.maxMessageSize < 125 then 125 else cfg.maxMessageSize
  }

  /** What repeated `read_frame` makes of a byte stream: its frames, and then the failure that ends them. */
  function EventsOf(cfg: Config, bytes: seq<Byte>): seq<Event> {
    AsEvents(DecodeAll(bytes, FrameCap(cfg)).0) + [Event(Broken, true)]
  }

  predicate SentAs(sent: seq<Sent>, frames: seq<Frame>) {
    |sent| == |frames| && forall i :: 0 <= i < |sent| ==> Encodable(sent[i]) && sent[i].frame == frames[i]
  }

  /** The whole path from bytes to messages: what a conforming client writes, with any mask keys, is
      received exactly, up to its Close if it sends one. */
  lemma BytesAreReceived(cfg: Config, items: seq<Item>, ending: Ending, sent: seq<Sent>)
    requires Conforming(cfg, items, ending)
    requires SentAs(sent, StreamFrames(items, ending))
    requires forall i :: 0 <= i < |sent| ==> Legal(sent[i].frame)
    ensures var n, start, inbox :=
              |StreamOutcomes(cfg, items, ending)|, State([], None, false, false), EventsOf(cfg, EncodeAll(sent));
            && RecvTimes(cfg, n, start, inbox) ==
               (EndState(start, ending), [Event(Broken, true)], StreamOutcomes(cfg, items, ending))
            && WrittenBy(cfg, n, start, inbox) == PongsFor(AllOutcomes(cfg, items)) + EndingWrites(start, ending)
  {
    hide RecvTimes, WrittenBy, StreamOutcomes, EncodeAll, DecodeAll, GoodItem, EndState, EndingWrites, PongsFor;
    var frames := StreamFrames(items, ending);
    FramesFit(cfg, items);
    EndingFits(cfg, ending);
    forall i | 0 <= i < |sent|
      ensures Encodable(sent[i]) && Sendable(sent[i], FrameCap(cfg))
    {
      assert sent[i].frame == frames[i];
      assert frames[i] in AllFrames(items) || frames[i] in EndingFrames(ending);
    }
    WholeStreamRoundTrip(sent, FrameCap(cfg));
    assert FramesOf(sent) == frames;
    ConformingStreamIsReceived(cfg, State([], None, false, false), items, ending, [Event(Broken, true)]);
  }

  lemma EndingFits(cfg: Config, ending: Ending)
    requires GoodEnding(cfg, ending)
    ensures forall f :: f in EndingFrames(ending) && !IsControl(f.opcode) ==> |f.payload| <= cfg.maxMessageSize
  {
    if ending.Closing? && ending.unfinished.Some? {
      OpenFramesFit(ending.unfinished.value.pieces, cfg.maxMessageSize);
    }
  }

  lemma {:induction false} OpenFramesFit(pieces: seq<Piece>, limit: nat)
    requires GoodControls(pieces) && |Joined(pieces)| <= limit
    ensures forall f :: f in OpenFrames(pieces) && !IsControl(f.opcode) ==> |f.payload| <= limit
  {
    if pieces != [] {
      OpenFramesFit(pieces[1..], limit);
    }
  }

  lemma {:induction false} FramesFit(cfg: Config, items: seq<Item>)
    requires forall i :: 0 <= i < |items| ==> GoodItem(cfg, items[i])
    ensures forall i :: 0 <= i < |AllFrames(items)| && !IsControl(AllFrames(items)[i].opcode) ==>
              |AllFrames(items)[i].payload| <= cfg.maxMessageSize
  {
    if items != [] {
      FramesFit(cfg, items[1..]);
      assert GoodItem(cfg, items[0]);
      if items[0].DataMessage? {
        PiecesFit(items[0].more, cfg.maxMessageSize);
      }
    }
  }

  lemma {:induction false} PiecesFit(pieces: seq<Piece>, limit: nat)
    requires GoodPieces(pieces) && |Joined(pieces)| <= limit
    ensures forall i :: 0 <= i < |PieceFrames(pieces)| && !IsControl(PieceFrames(pieces)[i].opcode) ==>
              |PieceFrames(pieces)[i].payload| <= limit
  {
    if pieces != [] {
      assert |pieces| > 1 ==> GoodPieces(pieces[1..]);
      assert |pieces| == 1 ==> pieces[1..] == [];
      PiecesFit(pieces[1..], limit);
    }
  }

  // ---- Non-conforming peers ----

  /** Whether a run of `recv` ended by refusing the last frame before `tail` as out of sequence. */
  predicate RefusedAsLast(run: (State, seq<Event>, seq<Outcome>), tail: seq<Event>) {
    run.1 == tail && run.2 != [] && run.2[|run.2| - 1] in {Failed(UnexpectedSequence), Failed(NoStartFrame)}
  }

  /** A frame that starts or is a data message, with nothing collected, is never refused as out of sequence. */
  lemma FreshDataIsNotRefused(cfg: Config, st: State, f: Frame, tail: seq<Event>)
    requires !st.closed && st.fragBuf == [] && IsData(f.opcode)
    ensures !RefusedAsLast(RecvTimes(cfg, 1, st, [Event(Received(f), true)] + tail), tail)
  {
    var inbox := [Event(Received(f), true)] + tail;
    assert inbox[1..] == tail;
    OneRecv(cfg, st, inbox);
    if !f.fin && Fits(cfg, st, |f.payload|) {
      ReadsSomething(cfg, st.(fragOpcode := Some(f.opcode), fragBuf := f.payload), tail);
    }
  }

  lemma {:induction false} ReadsSomething(cfg: Config, st: State, inbox: seq<Event>)
    ensures var step := RecvLoop(cfg, st, inbox);
            if inbox == [] then step.outcome == Failed(ReadFailed) else |step.inbox| < |inbox|
    decreases |inbox|
  {
    hide Handle;
    if inbox != [] && inbox[0].incoming.Received? {
      var (next, _, outcome) := Handle(cfg, st, inbox[0].incoming.frame, inbox[0].writeOk);
      if outcome.None? {
        ReadsSomething(cfg, next, inbox[1..]);
      }
    }
  }

  /** A frame that comes after a stretch is refused exactly when it is refused in the state that the stretch
      leaves. */
  lemma RefusedAfter(controls: seq<Outcome>, run: (State, seq<Event>, seq<Outcome>), tail: seq<Event>)
    requires run.2 != []
    ensures RefusedAsLast((run.0, run.1, controls + run.2), tail) == RefusedAsLast(run, tail)
  {
  }

  lemma DataAfterDataIsRefused(cfg: Config, st: State, f: Frame, tail: seq<Event>)
    requires !st.closed && st.fragBuf != [] && IsData(f.opcode)
    ensures RefusedAsLast(RecvTimes(cfg, 1, st, [Event(Received(f), true)] + tail), tail)
  {
    var inbox := [Event(Received(f), true)] + tail;
    assert inbox[1..] == tail;
    OneRecv(cfg, st, inbox);
  }

  /** Inside a fragmented message a new data frame breaks section 5.4 of RFC 6455. The guard looks at the
      bytes collected so far and not at the stored opcode, so the frame is refused exactly when the message
      that it interrupts has brought any bytes. */
  lemma NewDataFrameMidway(cfg: Config, st: State, m: Partial, f: Frame, tail: seq<Event>)
    requires Idle(st) && GoodPartial(cfg, m) && IsData(f.opcode)
    ensures var inbox := AsEvents(PartialFrames(m)) + ([Event(Received(f), true)] + tail);
            RefusedAsLast(RecvTimes(cfg, |ControlOutcomes(m.pieces)| + 1, st, inbox), tail)
            <==> m.first + Joined(m.pieces) != []
  {
    hide RecvTimes, RefusedAsLast;
    var mid := Midway(st, m.opcode, m.first + Joined(m.pieces));
    var rest := [Event(Received(f), true)] + tail;
    PartialIsRead(cfg, 1, st, m, rest);
    OneRecv(cfg, mid, rest);
    RefusedAfter(ControlOutcomes(m.pieces), RecvTimes(cfg, 1, mid, rest), tail);
    if mid.fragBuf == [] {
      FreshDataIsNotRefused(cfg, mid, f, tail);
    } else {
      DataAfterDataIsRefused(cfg, mid, f, tail);
    }
  }

  /** One way to see it: after an empty first fragment, a whole message is delivered in the middle, and
      the opcode of the abandoned one is still used for the next continuation. */
  lemma AbandonedOpcode(cfg: Config, data: seq<Byte>, more: seq<Byte>)
    requires |data| <= cfg.maxMessageSize && |more| <= cfg.maxMessageSize && cfg.utf8(more)
    ensures RecvTimes(cfg, 2, State([], None, false, false),
                      AsEvents([Frame(false, Text, []), Frame(true, Binary, data),
                                Frame(true, Continuation, more)])).2 ==
            [Delivered(BinaryMessage(data)), Delivered(TextMessage(more))]
  {
    var idle := State([], None, false, false);
    var f1, f2, f3 := Frame(false, Text, []), Frame(true, Binary, data), Frame(true, Continuation, more);
    var inbox := AsEvents([f1, f2, f3]);
    assert inbox == [Event(Received(f1), true)] + AsEvents([f2, f3]);
    FirstFragmentIsKept(cfg, idle, f1, AsEvents([f2, f3]));
    var mid := Midway(idle, Text, []);
    assert AsEvents([f2, f3])[1..] == AsEvents([f3]);
    assert RecvSpec(cfg, mid, AsEvents([f2, f3])) == Step(mid, AsEvents([f3]), [], Delivered(BinaryMessage(data)));
    assert AsEvents([f3]) == [Event(Received(f3), true)] + [];
    LastFragmentDelivers(cfg, idle, f3, Text, [], []);
    assert [] + more == more;
    RecvTimesCons(cfg, 1, idle, inbox);
    OneRecv(cfg, mid, AsEvents([f3]));
  }

  /** Continuations with no message to continue break section 5.4 too. A stretch of them that is not final is
      read over; the data frame or final continuation after it is refused unless it is a data frame and the
      stray fragments were all empty. */
  lemma StrayContinuation(cfg: Config, st: State, strays: seq<Piece>, f: Frame, tail: seq<Event>)
    requires Idle(st) && GoodControls(strays)
    requires IsData(f.opcode) || (f.opcode.Continuation? && f.fin)
    requires |Joined(strays)| + |f.payload| <= cfg.maxMessageSize
    ensures var inbox := AsEvents(OpenFrames(strays)) + ([Event(Received(f), true)] + tail);
            RefusedAsLast(RecvTimes(cfg, |ControlOutcomes(strays)| + 1, st, inbox), tail)
            <==> !(IsData(f.opcode) && Joined(strays) == [])
  {
    hide RecvTimes, RefusedAsLast;
    var rest := [Event(Received(f), true)] + tail;
    var left := Collected(st, strays);
    assert left.fragBuf == Joined(strays);
    StretchIsRead(cfg, 1, st, strays, rest);
    OneRecv(cfg, left, rest);
    RefusedAfter(ControlOutcomes(strays), RecvTimes(cfg, 1, left, rest), tail);
    if f.opcode.Continuation? {
      FinalStrayIsRefused(cfg, left, f, tail);
    } else if left.fragBuf == [] {
      FreshDataIsNotRefused(cfg, left, f, tail);
    } else {
      DataAfterDataIsRefused(cfg, left, f, tail);
    }
  }

  lemma FinalStrayIsRefused(cfg: Config, st: State, f: Frame, tail: seq<Event>)
    requires !st.closed && st.fragOpcode.None? && f.opcode.Continuation? && f.fin && Fits(cfg, st, |f.payload|)
    ensures RefusedAsLast(RecvTimes(cfg, 1, st, [Event(Received(f), true)] + tail), tail)
  {
    var inbox := [Event(Received(f), true)] + tail;
    assert inbox[1..] == tail;
    OneRecv(cfg, st, inbox);
  }

  /** Empty stray fragments go unnoticed altogether: what follows is received as if they had not been sent. */
  lemma EmptyStraysVanish(cfg: Config, n: nat, st: State, strays: seq<Piece>, tail: seq<Event>)
    requires 0 < n && Idle(st) && GoodControls(strays) && Joined(strays) == []
    ensures var (end, left, outcomes) := RecvTimes(cfg, n, st, tail);
            RecvTimes(cfg, |ControlOutcomes(strays)| + n, st, AsEvents(OpenFrames(strays)) + tail) ==
            (end, left, ControlOutcomes(strays) + outcomes)
  {
    assert Collected(st, strays) == st by {
      assert st.fragBuf + [] == st.fragBuf;
    }
    StretchIsRead(cfg, n, st, strays, tail);
  }

  /** Which failures end the connection: a failed read and an oversized message, which is forgotten, do; a frame
      out of sequence, bad UTF-8 and a failed write do not, although sections 5.4 and 8.1 of RFC 6455 want the
      first two to. */
  lemma {:induction false} FailuresThatClose(cfg: Config, st: State, inbox: seq<Event>)
    requires !st.closed
    ensures var step := RecvSpec(cfg, st, inbox);
            && (step.outcome.Failed? ==> (step.state.closed <==> step.outcome.error in {ReadFailed, TooBig}))
            && (step.outcome == Failed(TooBig) ==> step.state.fragBuf == [] && step.state.fragOpcode.None?)
    decreases |inbox|
  {
    if inbox != [] && inbox[0].incoming.Received? {
      var event := inbox[0];
      HandleFailures(cfg, st, event.incoming.frame, event.writeOk);
      var (next, _, outcome) := Handle(cfg, st, event.incoming.frame, event.writeOk);
      hide Handle;
      if outcome.None? {
        FailuresThatClose(cfg, next, inbox[1..]);
      }
    }
  }

  lemma HandleFailures(cfg: Config, st: State, f: Frame, writeOk: bool)
    requires !st.closed
    ensures var (next, _, outcome) := Handle(cfg, st, f, writeOk);
            && (outcome.None? ==> !next.closed)
            && (outcome.Some? && outcome.value.Failed? ==>
                  outcome.value.error != ReadFailed && (next.closed <==> outcome.value.error == TooBig))
            && (outcome == Some(Failed(TooBig)) ==> next.fragBuf == [] && next.fragOpcode.None?)
  {
  }

  // ---- Stray bytes ----

  predicate DeliversData(o: Outcome) {
    o.Delivered? && (o.message.TextMessage? || o.message.BinaryMessage?)
  }

  /** Bytes collected, and no message that they belong to. */
  predicate Jammed(st: State) {
    st.fragBuf != [] && st.fragOpcode.None?
  }

  lemma HandleJammed(cfg: Config, st: State, f: Frame, writeOk: bool)
    requires Jammed(st)
    ensures var (next, _, outcome) := Handle(cfg, st, f, writeOk);
            && (next.closed || Jammed(next))
            && (outcome.None? ==> Jammed(next))
            && (outcome.Some? ==> !DeliversData(outcome.value))
  {
  }

  lemma {:induction false} RecvJammed(cfg: Config, st: State, inbox: seq<Event>)
    requires Jammed(st)
    ensures var step := RecvLoop(cfg, st, inbox);
            !DeliversData(step.outcome) && (step.state.closed || Jammed(step.state))
    decreases |inbox|
  {
    hide Jammed, DeliversData;
    if inbox != [] && inbox[0].incoming.Received? {
      var event := inbox[0];
      HandleJammed(cfg, st, event.incoming.frame, event.writeOk);
      var (next, _, outcome) := Handle(cfg, st, event.incoming.frame, event.writeOk);
      hide Handle;
      if outcome.None? {
        RecvJammed(cfg, next, inbox[1..]);
      }
    } else {
      StaysJammed(st);
    }
  }

  lemma StaysJammed(st: State)
    requires Jammed(st)
    ensures Jammed(st.(closed := true)) && forall e :: !DeliversData(Failed(e))
  {
  }

  /** The unread frames begin with a stretch of stray fragments that brings bytes, or has brought them. */
  ghost predicate Doomed(cfg: Config, st: State, inbox: seq<Event>) {
    st.closed || exists strays, tail :: DoomedBy(cfg, st, inbox, strays, tail)
  }

  ghost predicate DoomedBy(cfg: Config, st: State, inbox: seq<Event>, strays: seq<Piece>, tail: seq<Event>) {
    && inbox == AsEvents(OpenFrames(strays)) + tail && GoodControls(strays)
    && st.fragOpcode.None? && st.fragBuf + Joined(strays) != [] && Fits(cfg, st, |Joined(strays)|)
  }

  lemma {:induction false} RecvDoomed(cfg: Config, st: State, strays: seq<Piece>, tail: seq<Event>)
    requires !st.closed && DoomedBy(cfg, st, AsEvents(OpenFrames(strays)) + tail, strays, tail)
    ensures var step := RecvSpec(cfg, st, AsEvents(OpenFrames(strays)) + tail);
            !DeliversData(step.outcome) && Doomed(cfg, step.state, step.inbox)
    decreases |strays|
  {
    var inbox := AsEvents(OpenFrames(strays)) + tail;
    if strays == [] {
      assert inbox == tail && st.fragBuf + [] == st.fragBuf;
      RecvJammed(cfg, st, inbox);
      RecvIsBounded(cfg, st, inbox);
      var step := RecvLoop(cfg, st, inbox);
      if !step.state.closed {
        JammedIsDoomed(cfg, step.state, step.inbox);
      }
    } else {
      hide RecvSpec;
      var f, more := OpenFrames(strays)[0], strays[1..];
      var rest := AsEvents(OpenFrames(more)) + tail;
      OpenCons(strays, tail);
      assert GoodControls(more);
      if strays[0].Interleaved? {
        assert Joined(strays) == [] + Joined(more) == Joined(more);
        ControlIsDelivered(cfg, st, f, rest);
        assert DoomedBy(cfg, st, rest, more, tail);
      } else {
        var next := st.(fragBuf := st.fragBuf + strays[0].bytes);
        assert next.fragBuf + Joined(more) == st.fragBuf + (strays[0].bytes + Joined(more));
        FragmentIsKept(cfg, st, f, rest);
        RecvDoomed(cfg, next, more, tail);
      }
    }
  }

  lemma JammedIsDoomed(cfg: Config, st: State, inbox: seq<Event>)
    requires Jammed(st) && Bounded(cfg, st)
    ensures Doomed(cfg, st, inbox)
  {
    assert AsEvents(OpenFrames([])) + inbox == inbox && st.fragBuf + Joined([]) == st.fragBuf;
    assert DoomedBy(cfg, st, inbox, [], inbox);
  }

  lemma {:induction false} DoomedRuns(cfg: Config, st: State, inbox: seq<Event>, calls: seq<Call>)
    requires Doomed(cfg, st, inbox)
    ensures forall r :: r in Run(cfg, st, inbox, calls) ==> !(r.call.CallRecv? && DeliversData(r.step.outcome))
    decreases |calls|
  {
    if calls != [] {
      hide RecvLoop, DeliversData;
      var step := Perform(cfg, st, inbox, calls[0]);
      if calls[0].CallRecv? && st.closed {
        EndedIsNoData();
      } else if calls[0].CallRecv? {
        var strays, tail :| DoomedBy(cfg, st, inbox, strays, tail);
        RecvDoomed(cfg, st, strays, tail);
      } else if !st.closed {
        var strays, tail :| DoomedBy(cfg, st, inbox, strays, tail);
        assert step.state.closed || DoomedBy(cfg, step.state, inbox, strays, tail);
      }
      DoomedRuns(cfg, step.state, step.inbox, calls[1..]);
    }
  }

  lemma EndedIsNoData()
    ensures !DeliversData(Ended)
  {
  }

  /** Stray fragments that bring bytes are fatal to the messages of the connection, though it stays open: whatever
      follows them, and however it is read, no text or binary message is delivered any more. */
  lemma StrayBytesJam(cfg: Config, st: State, strays: seq<Piece>, tail: seq<Event>, calls: seq<Call>)
    requires Idle(st) && GoodControls(strays) && 0 < |Joined(strays)| <= cfg.maxMessageSize
    ensures forall r :: r in Run(cfg, st, AsEvents(OpenFrames(strays)) + tail, calls) ==>
              !(r.call.CallRecv? && DeliversData(r.step.outcome))
  {
    var inbox := AsEvents(OpenFrames(strays)) + tail;
    assert st.fragBuf + Joined(strays) == Joined(strays);
    assert DoomedBy(cfg, st, inbox, strays, tail);
    DoomedRuns(cfg, st, inbox, calls);
  }

  /** A Close built from a code and a reason is a legal control frame exactly when the reason has at most
      123 bytes; neither `send` nor `close` checks. */
  lemma CloseFrameIsLegal(code: nat, reason: seq<Byte>)
    ensures Legal(Frame(true, Close, ClosePayload(code, reason))) <==> |reason| <= 123
  {
  }

  /** Everything `send` writes is a legal frame except control frames with more than 125 bytes, which it does not
      refuse: a Ping or a Pong, or a Close with a reason of more than 123. */
  lemma SentFrameIsLegal(m: Message)
    ensures Legal(FrameOf(m)) <==>
            match m
            case TextMessage(_) => true
            case BinaryMessage(_) => true
            case PingMessage(p) => |p| <= 125
            case PongMessage(p) => |p| <= 125
            case CloseMessage(None) => true
            case CloseMessage(Some(frame)) => |frame.reason| <= 123
  {
  }
}
