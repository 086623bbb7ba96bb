/** The server's half of one single-stream WebSocket connection as a step system: the reader loop, the stream
    task it spawns, the outbound FIFO they share, the writer that drains it, the per-stream deadline and the
    drain signal. Every `await` at which another party can run is a separate step. */
module WsServer {
  import opened Common
  import opened WsFrames

  // ----- constants -----

  const NORMAL := 1000
  const GOING_AWAY := 1001
  const STATUS_BASE := 4000
  const OUTBOUND_CAPACITY := 64
  const REQUEST_CAPACITY := 16
  const INVALID_ARGUMENT := 3
  const DEADLINE_EXCEEDED := 4
  const RESOURCE_EXHAUSTED := 8
  const INTERNAL := 13
  const UNAVAILABLE := 14

  // ----- state -----

  /** Fixed at the handshake. `annotation` says whether an annotated route takes a body. */
  datatype Config = Config(codec: Option<bool>, methodOk: bool, annotation: Option<bool>, maxBytes: nat, reject: Option<nat>)

  /** A ready-to-send message: a frame with the codec it is encoded in, or a close. */
  datatype OutMsg = Data(frame: Frame, json: bool) | Close(code: nat)

  /** The `await` the reader is at: waiting for an event, replying with a `Reset` (and, when rejecting, a close
      after it), feeding a request message, or saying goodbye before leaving the loop. */
  datatype Await =
    | Event
    | Reply(code: nat, text: string, json: bool, rejecting: bool)
    | SayClose
    | Feeding(payload: Bytes)
    | SayGoingAway
    | Leaving

  datatype Phase = Resolving | Calling | Pumping | Closing | Done

  /** One open stream: the reader's end of the request channel, and the stream task.
      `openedAt`, `out` and `fed` are history: the index of the opening frame in `dispatched`, what the stream task
      has put in the outbound FIFO, and what has been put in its request channel. */
  datatype Stream = Stream(
    openedAt: nat, json: bool, deadline: bool, phase: Phase, out: seq<OutMsg>,
    sender: bool, reading: bool, queue: seq<Bytes>, fed: seq<Bytes>)

  /** The outbound side. `trace[..written]` is what went out on the socket, `trace[written..]` the FIFO waiting
      for the writer; `open` says the writer is still there. `pings` records where in the written sequence each
      keepalive ping went out. */
  datatype Outbound = Outbound(open: bool, trace: seq<OutMsg>, written: nat, pings: seq<nat>)

  /** The reader loop's variables, and the `await` it is at. */
  datatype Reader = Reader(codec: Option<bool>, begun: bool, draining: bool, at: Await, done: bool)

  /** History: the frames given to `handle_frame`, the response messages tasks have put in the FIFO, how many
      streams were opened, and the output of the tasks that were aborted. */
  datatype History = History(dispatched: seq<Frame>, emitted: seq<Bytes>, opens: nat, past: seq<seq<OutMsg>>)

  datatype Server = Server(reader: Reader, stream: Option<Stream>, out: Outbound, history: History)

  datatype Inbound = DataIn(data: WsData) | CloseIn | ControlIn

  datatype ReaderStep = Recv(msg: Inbound) | PeerGone | Drain | Advance

  datatype TaskStep =
    | Resolved
    | ResolveFailed(code: nat, text: string)
    | CallFailed(text: string)
    | Respond(metadata: Meta)
    | Emit(payload: Bytes)
    | EncodeFailed(text: string)
    | Finish(code: nat, text: string, metadata: Meta)
    | DeadlineFires
    | CloseStream
    | TakeRequest
    | DropBody

  datatype WriterStep = Write | WriteFails | Ping | WriterEnds

  datatype Step = ByReader(r: ReaderStep) | ByTask(t: TaskStep) | ByWriter(w: WriterStep)

  /** What the peer has been sent. */
  function Wire(out: Outbound): seq<OutMsg>
    requires out.written <= |out.trace|
  {
    out.trace[..out.written]
  }

  function Init(cfg: Config): Server {
    var rejected := cfg.reject.Some?;
    Server(
      Reader(cfg.codec, false, false, Event, rejected),
      None,
      if rejected then Outbound(false, [Close(STATUS_BASE + cfg.reject.value)], 1, []) else Outbound(true, [], 0, []),
      History([], [], 0, []))
  }

  // ----- sending -----

  /** A send completes at once when the writer is gone, and otherwise when the FIFO has room. */
  predicate CanSend(out: Outbound) {
    !out.open || |out.trace| - out.written < OUTBOUND_CAPACITY
  }

  function Send(out: Outbound, m: OutMsg): Outbound {
    if out.open then out.(trace := out.trace + [m]) else out
  }

  // ----- the reader -----

  function ResetMsg(code: nat, text: string, json: bool): OutMsg {
    Data(Reset(code, text), json)
  }

  function GoTo(s: Server, at: Await): Server {
    s.(reader := s.reader.(at := at))
  }

  /** `stream.take()` and abort: the stream task and both ends of its request channel are gone. */
  function Abort(s: Server): Server {
    if s.stream.None? then s
    else s.(stream := None, history := s.history.(past := s.history.past + [s.stream.value.out]))
  }

  function ReaderExit(s: Server): Server {
    Abort(s).(reader := s.reader.(done := true, at := Event))
  }

  /** The payloads in the request channel when the stream task is spawned. */
  function FirstPayloads(cfg: Config, sub: Frame): seq<Bytes>
    requires sub.Subscribe?
  {
    (if sub.initialPayload == [] then [] else [sub.initialPayload]) + (if cfg.annotation == Some(false) then [[]] else [])
  }

  /** Spawn the stream task; the opening frame is the latest one dispatched. */
  function OpenStream(cfg: Config, s: Server, sub: Frame, json: bool): Server
    requires sub.Subscribe? && s.history.dispatched != []
  {
    var first := FirstPayloads(cfg, sub);
    s.(stream := Some(Stream(|s.history.dispatched| - 1, json, sub.timeoutMillis != 0, Resolving, [],
                             cfg.annotation != Some(false), true, first, first)),
       history := s.history.(opens := s.history.opens + 1))
  }

  /** `handle_frame` up to its first `await`; the reader is left at that `await`. */
  function HandleFrame(cfg: Config, s: Server, f: Frame, json: bool): Server
    requires s.history.dispatched != []
  {
    match f
    case Subscribe(_, _, initial) =>
      if s.stream.Some? then
        GoTo(s, Reply(INVALID_ARGUMENT, "stream already open", json, false))
      else if |initial| > cfg.maxBytes then
        GoTo(s, Reply(RESOURCE_EXHAUSTED, "request message exceeds size limit", json, true))
      else if !cfg.methodOk then
        GoTo(s, Reply(INVALID_ARGUMENT, "invalid method", json, true))
      else
        OpenStream(cfg, s, f, json)
    case Message(p) =>
      if |p| > cfg.maxBytes then
        GoTo(Abort(s), Reply(RESOURCE_EXHAUSTED, "request message exceeds size limit", json, true))
      else if s.stream.Some? && s.stream.value.sender then
        GoTo(s, Feeding(p))
      else s
    case HalfClose =>
      if s.stream.Some? then s.(stream := Some(s.stream.value.(sender := false))) else s
    case Reset(_, _) => Abort(s)
    case _ => s
  }

  /** The codec a data message finds: the first one locks it. */
  function LockCodec(codec: Option<bool>, d: WsData): bool {
    if codec.None? then d.Text? else codec.value
  }

  /** The frame a data message dispatches: none if it is of the other codec or does not decode. */
  function Decoded(s: Server, d: WsData): Option<Frame> {
    if LockCodec(s.reader.codec, d) == d.Text? then Decode(d, s.reader.begun).0 else None
  }

  /** Lock the codec and decode, recording the frame that is dispatched. */
  function Accept(s: Server, d: WsData): Server {
    var json := LockCodec(s.reader.codec, d);
    var begun := if json == d.Text? then Decode(d, s.reader.begun).1 else s.reader.begun;
    var frames := if Decoded(s, d).Some? then [Decoded(s, d).value] else [];
    s.(reader := s.reader.(codec := Some(json), begun := begun),
       history := s.history.(dispatched := s.history.dispatched + frames))
  }

  /** One WebSocket data message. */
  function Receive(cfg: Config, s: Server, d: WsData): Server {
    if Decoded(s, d).None? then Accept(s, d)
    else HandleFrame(cfg, Accept(s, d), Decoded(s, d).value, d.Text?)
  }

  function FeedStream(st: Stream, p: Bytes): Stream {
    if st.reading then st.(queue := st.queue + [p], fed := st.fed + [p]) else st
  }

  predicate CanAdvance(s: Server) {
    match s.reader.at
    case Event => false
    case Feeding(_) => s.stream.Some? ==> !s.stream.value.reading || |s.stream.value.queue| < REQUEST_CAPACITY
    case Leaving => true
    case _ => CanSend(s.out)
  }

  function AdvanceReader(s: Server): Server
    requires CanAdvance(s)
  {
    match s.reader.at
    case Feeding(p) =>
      var s1 := GoTo(s, Event);
      if s.stream.Some? then s1.(stream := Some(FeedStream(s.stream.value, p))) else s1
    case Leaving => ReaderExit(s)
    case Reply(code, text, json, rejecting) =>
      GoTo(s, if rejecting then SayClose else Event).(out := Send(s.out, ResetMsg(code, text, json)))
    case SayClose => GoTo(s, Event).(out := Send(s.out, Close(NORMAL)))
    case SayGoingAway => GoTo(s, Leaving).(out := Send(s.out, Close(GOING_AWAY)))
  }

  predicate ReaderEnabled(s: Server, step: ReaderStep) {
    && !s.reader.done
    && match step {
         case Recv(_) => s.reader.at.Event?
         case PeerGone => s.reader.at.Event?
         case Drain => s.reader.at.Event? && !s.reader.draining
         case Advance => CanAdvance(s)
       }
  }

  function ReaderApply(cfg: Config, s: Server, step: ReaderStep): Server
    requires ReaderEnabled(s, step)
  {
    match step
    case Recv(DataIn(d)) => Receive(cfg, s, d)
    case Recv(CloseIn) => ReaderExit(s)
    case Recv(ControlIn) => s
    case PeerGone => ReaderExit(s)
    case Drain =>
      var s1 := s.(reader := s.reader.(draining := true));
      if s.stream.None? then GoTo(s1, SayGoingAway) else s1
    case Advance => AdvanceReader(s)
  }

  // ----- the stream task -----

  /** The message a sending task step puts in the outbound FIFO. */
  function TaskMessage(step: TaskStep, json: bool): Option<OutMsg> {
    match step
    case ResolveFailed(code, text) => Some(ResetMsg(code, text, json))
    case CallFailed(text) => Some(ResetMsg(UNAVAILABLE, text, json))
    case Respond(md) => Some(Data(Header(md), json))
    case Emit(p) => Some(Data(Message(p), json))
    case EncodeFailed(text) => Some(ResetMsg(INTERNAL, text, json))
    case Finish(code, text, md) => Some(Data(Trailer(code, text, md), json))
    case DeadlineFires => Some(Data(Trailer(DEADLINE_EXCEEDED, "deadline exceeded", map[]), json))
    case CloseStream => Some(Close(NORMAL))
    case _ => None
  }

  predicate TaskEnabled(s: Server, step: TaskStep) {
    && s.stream.Some?
    && var st := s.stream.value;
       && (TaskMessage(step, st.json).Some? ==> CanSend(s.out))
       && match step {
            case Resolved => st.phase == Resolving
            case ResolveFailed(_, _) => st.phase == Resolving && st.json
            case CallFailed(_) => st.phase == Calling
            case Respond(_) => st.phase == Calling
            case Emit(_) => st.phase == Pumping
            case EncodeFailed(_) => st.phase == Pumping && st.json
            case Finish(_, _, _) => st.phase == Pumping
            case DeadlineFires => (st.phase == Calling || st.phase == Pumping) && st.deadline
            case CloseStream => st.phase == Closing
            case TakeRequest => st.queue != []
            case DropBody => true
          }
  }

  /** The phase a sending step leads to; a response message that cannot be sent ends the pump. */
  function TaskNext(step: TaskStep, sent: bool): Phase {
    match step
    case Respond(_) => Pumping
    case Emit(_) => if sent then Pumping else Closing
    case CloseStream => Done
    case _ => Closing
  }

  /** The response payload a step emits. */
  function Emitted(step: TaskStep): seq<Bytes> {
    match step
    case Emit(p) => [p]
    case _ => []
  }

  function DropRequests(st: Stream): Stream {
    st.(reading := false, queue := [])
  }

  function TaskApply(s: Server, step: TaskStep): Server
    requires TaskEnabled(s, step)
  {
    var st := s.stream.value;
    match step
    case Resolved => s.(stream := Some(st.(phase := Calling)))
    case TakeRequest => s.(stream := Some(st.(queue := st.queue[1..])))
    case DropBody => s.(stream := Some(DropRequests(st)))
    case _ =>
      var m := TaskMessage(step, st.json).value;
      var st1 := st.(phase := TaskNext(step, s.out.open), out := if s.out.open then st.out + [m] else st.out);
      var st2 := if step.CloseStream? then DropRequests(st1) else st1;
      var emitted := if s.out.open then Emitted(step) else [];
      s.(stream := Some(st2), out := Send(s.out, m), history := s.history.(emitted := s.history.emitted + emitted))
  }

  // ----- the writer -----

  predicate WriterEnabled(s: Server, step: WriterStep) {
    && s.out.open
    && s.out.written <= |s.out.trace|
    && match step {
         case Write => s.out.written < |s.out.trace|
         case WriteFails => true
         case Ping => true
         case WriterEnds => s.out.written == |s.out.trace| && s.reader.done && s.stream.None?
       }
  }

  /** The writer stops: everything still queued is dropped with its receiver. */
  function StopWriter(out: Outbound): Outbound
    requires out.written <= |out.trace|
  {
    out.(open := false, trace := out.trace[..out.written])
  }

  function WriterApply(s: Server, step: WriterStep): Outbound
    requires WriterEnabled(s, step)
  {
    match step
    case Write =>
      var out := s.out.(written := s.out.written + 1);
      // A close is the last thing written.
      if s.out.trace[s.out.written].Close? then StopWriter(out) else out
    case Ping => s.out.(pings := s.out.pings + [s.out.written])
    case _ => StopWriter(s.out)
  }

  // ----- executions -----

  predicate Next(cfg: Config, s: Server, step: Step, s': Server) {
    match step
    case ByReader(r) => ReaderEnabled(s, r) && s' == ReaderApply(cfg, s, r)
    case ByTask(t) => TaskEnabled(s, t) && s' == TaskApply(s, t)
    case ByWriter(w) => WriterEnabled(s, w) && s' == s.(out := WriterApply(s, w))
  }

  /** `run` is an execution of one connection taking `steps`. */
  predicate IsRun(cfg: Config, run: seq<Server>, steps: seq<Step>) {
    && |run| == |steps| + 1
    && run[0] == Init(cfg)
    && forall i {:trigger steps[i]} :: 0 <= i < |steps| ==> Next(cfg, run[i], steps[i], run[i + 1])
  }
}
