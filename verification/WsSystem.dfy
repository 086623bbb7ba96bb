/** One `SingleStreamConn` talking to the server over a FIFO socket in each direction. */
module WsSystem {
  import opened Common
  import opened WsFrames
  import opened WsServer
  import opened WsServerProofs
  import opened WsServerTheorems
  import opened WsClient

  /** Whether the browser's socket is still connecting, delivers messages, or is gone. */
  datatype Socket = Connecting | Established | Gone

  /** `serverRead` and `clientRead` count the messages each side has taken from its socket. When the client
      finishes, `stop` is how many it had taken before that event and `cause` the message that did it, if any.
      `asked` is what the user has asked for and the client has accepted. */
  datatype Sys = Sys(
    server: Server, client: Client, socket: Socket, serverRead: nat, clientRead: nat, stop: nat, cause: Option<OutMsg>,
    asked: seq<Ask>)

  /** What a user asks of the request: send a message, or end it. */
  datatype Ask = SendIt(payload: Bytes) | EndIt

  datatype ClientStep =
    | SocketOpens
    | UserSends(payload: Bytes)
    | UserEnds
    | UserCancels(code: nat, details: string)
    | TransportCloses
    | ClientTakes(reason: string)
    | SocketFails

  datatype SysStep = ServerMoves(step: Step) | ClientMoves(move: ClientStep)

  function Begin(cfg: Config, json: bool, headers: Meta, timeoutMillis: nat): Sys {
    Sys(Init(cfg), Start(json, headers, timeoutMillis), Connecting, 0, 0, 0, None, [])
  }

  /** Messages on their way to the client. */
  function Downstream(s: Sys): seq<OutMsg>
    requires s.server.out.written <= |s.server.out.trace|
  {
    Wire(s.server.out)
  }

  /** The client after an event, remembering what finished it. */
  function Becomes(s: Sys, c: Client, taken: nat, why: Option<OutMsg>): Sys {
    var s1 := s.(client := c, clientRead := taken);
    if c.finished && !s.client.finished then s1.(stop := s.clientRead, cause := why) else s1
  }

  /** The client takes one message off its socket. */
  function TakeOne(s: Sys, m: OutMsg, reason: string): Sys {
    match m
    case Data(f, json) => Becomes(s, Received(s.client, ToTung(f, json)), s.clientRead + 1, Some(m))
    case Close(code) =>
      Becomes(s, Closed(s.client, Some(code), reason), s.clientRead + 1, Some(m)).(socket := Gone)
  }

  /** The server reads the client's messages in order; control messages may come at any time. */
  predicate FromClient(s: Sys, msg: Inbound) {
    msg.ControlIn? || (s.serverRead < |s.client.sent| && msg == s.client.sent[s.serverRead])
  }

  predicate Reads(step: Step) {
    step.ByReader? && step.r.Recv? && !step.r.msg.ControlIn?
  }

  predicate ServerNext(cfg: Config, s: Sys, step: Step, s': Sys) {
    && (step.ByReader? && step.r.Recv? ==> FromClient(s, step.r.msg))
    && Next(cfg, s.server, step, s'.server)
    && s' == s.(server := s'.server, serverRead := if Reads(step) then s.serverRead + 1 else s.serverRead)
  }

  predicate ClientNext(s: Sys, step: ClientStep, s': Sys) {
    match step
    case SocketOpens =>
      s.socket.Connecting? && s' == s.(client := Opened(s.client), socket := Established)
    case UserSends(p) =>
      s' == s.(client := SendRaw(s.client, EncodeMessage(s.client.json, p)),
               asked := if s.client.finished then s.asked else s.asked + [SendIt(p)])
    case UserEnds =>
      s' == s.(client := SendRaw(s.client, EncodeHalfClose(s.client.json)),
               asked := if s.client.finished then s.asked else s.asked + [EndIt])
    case UserCancels(code, details) =>
      s' == Becomes(s, Terminated(s.client, code, details), s.clientRead, None)
            .(socket := if s.socket.Connecting? then Gone else s.socket)
    case TransportCloses =>
      s' == s.(client := CloseSocket(s.client), socket := if s.socket.Connecting? then Gone else s.socket)
    case ClientTakes(reason) =>
      && s.socket.Established?
      && s.server.out.written <= |s.server.out.trace|
      && s.clientRead < |Downstream(s)|
      && s' == TakeOne(s, Downstream(s)[s.clientRead], reason)
    case SocketFails =>
      s' == Becomes(s, Closed(s.client, None, ""), s.clientRead, None).(socket := Gone)
  }

  predicate SysNext(cfg: Config, s: Sys, step: SysStep, s': Sys) {
    match step
    case ServerMoves(st) => ServerNext(cfg, s, st, s')
    case ClientMoves(c) => ClientNext(s, c, s')
  }

  predicate IsSysRun(cfg: Config, json: bool, headers: Meta, timeoutMillis: nat, run: seq<Sys>, steps: seq<SysStep>) {
    && |run| == |steps| + 1
    && run[0] == Begin(cfg, json, headers, timeoutMillis)
    && forall i {:trigger steps[i]} :: 0 <= i < |steps| ==> SysNext(cfg, run[i], steps[i], run[i + 1])
  }

  // ----- upstream: the client opens one stream -----

  /** The opening frame: the server reads it as an open without a payload. */
  predicate Opening(json: bool, m: Inbound) {
    && m.DataIn?
    && m.data.Text? == json
    && var f := Decode(m.data, false);
       f.0.Some? && f.0.value.Subscribe? && f.0.value.initialPayload == [] && f.1
  }

  /** A message the client sends after its opening frame. */
  predicate Later(json: bool, m: Inbound) {
    match m
    case CloseIn => true
    case ControlIn => false
    case DataIn(d) =>
      && d.Text? == json
      && var f := Decode(d, true); f.0.Some? && !f.0.value.Subscribe? && f.1
  }

  /** The frame kinds that make up a request body. */
  predicate BodyKind(f: Frame) {
    f.Message? || f.HalfClose?
  }

  function Kept(f: Frame): seq<Frame> {
    if BodyKind(f) then [f] else []
  }

  /** The part of a request body that a client message, after the first, is read as. */
  function BodyIn(m: Inbound): seq<Frame> {
    if m.DataIn? && Decode(m.data, true).0.Some? then Kept(Decode(m.data, true).0.value) else []
  }

  /** The client gives up the stream. */
  predicate ResetIn(m: Inbound) {
    m.DataIn? && Decode(m.data, true).0.Some? && Decode(m.data, true).0.value.Reset?
  }

  /** The request body that the messages after the opening one are read as. */
  function BodyOf(ms: seq<Inbound>): seq<Frame> {
    if |ms| <= 1 then [] else BodyOf(ms[..|ms| - 1]) + BodyIn(ms[|ms| - 1])
  }

  lemma BodyOfSnoc(ms: seq<Inbound>, m: Inbound)
    ensures BodyOf(ms + [m]) == if ms == [] then [] else BodyOf(ms) + BodyIn(m)
  {
    assert (ms + [m])[..|ms|] == ms;
  }

  lemma {:induction false} BodyOfPrefix(ms: seq<Inbound>, k: nat)
    requires k <= |ms|
    ensures BodyOf(ms[..k]) <= BodyOf(ms)
  {
    if k == |ms| {
      assert ms[..k] == ms;
    } else {
      BodyOfPrefix(ms[..|ms| - 1], k);
      assert ms[..|ms| - 1][..k] == ms[..k];
    }
  }

  /** What the server reads a user's wish as: the text codec turns a null message into the end of the request. */
  function Arrives(json: bool, a: Ask): Frame {
    match a
    case SendIt(p) => if Lost(json, p) then HalfClose else Message(p)
    case EndIt => HalfClose
  }

  function Arrivals(json: bool, asked: seq<Ask>): seq<Frame> {
    if asked == [] then [] else Arrivals(json, asked[..|asked| - 1]) + [Arrives(json, asked[|asked| - 1])]
  }

  lemma ArrivalsSnoc(json: bool, asked: seq<Ask>, a: Ask)
    ensures Arrivals(json, asked + [a]) == Arrivals(json, asked) + [Arrives(json, a)]
  {
    assert (asked + [a])[..|asked|] == asked;
  }

  /** Everything the client has put on its socket or still holds for it. */
  function Outgoing(c: Client): seq<Inbound> {
    c.sent + AsInbound(c.pending)
  }

  /** The opening frame comes first and only later kinds after it; nothing is held back once anything was sent. */
  predicate ClientSends(c: Client, asked: seq<Ask>) {
    var out := Outgoing(c);
    && out != []
    && (c.sent == [] || c.pending == [])
    && (c.isOpen ==> c.sent != [])
    && (!c.isOpen && !c.finished ==> c.sent == [])
    && Opening(c.json, out[0])
    && (forall i :: 1 <= i < |out| ==> Later(c.json, out[i]))
    && (!c.finished ==> forall i :: 0 <= i < |out| ==> !ResetIn(out[i]))
    && BodyOf(out) == Arrivals(c.json, asked)
  }

  /** `c'` continues `c`: nothing sent is taken back, and its messages are still well ordered. */
  predicate Continues(c: Client, c': Client, asked: seq<Ask>) {
    c.sent <= c'.sent && c'.json == c.json && ClientSends(c', asked)
  }

  /** A client that queues or sends one more message; a reset only as it finishes. */
  lemma ClientSendsMore(c: Client, asked: seq<Ask>, c': Client, m: Inbound, asked': seq<Ask>)
    requires ClientSends(c, asked) && Outgoing(c') == Outgoing(c) + [m] && Later(c.json, m) && c'.json == c.json
    requires (c'.sent == [] || c'.pending == []) && (c'.isOpen ==> c'.sent != [])
    requires !c'.isOpen && !c'.finished ==> c'.sent == []
    requires c'.finished || (!ResetIn(m) && !c.finished)
    requires Arrivals(c.json, asked') == Arrivals(c.json, asked) + BodyIn(m)
    ensures ClientSends(c', asked')
  {
    hide Arrivals, Later, Opening, ResetIn, BodyIn;
    BodyOfSnoc(Outgoing(c), m);
  }

  lemma SendRawSends(c: Client, asked: seq<Ask>, d: WsData, asked': seq<Ask>)
    requires ClientSends(c, asked) && Later(c.json, DataIn(d)) && !c.finished && !ResetIn(DataIn(d))
    requires Arrivals(c.json, asked') == Arrivals(c.json, asked) + BodyIn(DataIn(d))
    ensures Continues(c, SendRaw(c, d), asked')
  {
    hide Arrivals, Later, Opening, ResetIn, BodyIn, BodyOf;
    var c' := SendRaw(c, d);
    assert Outgoing(c') == Outgoing(c) + [DataIn(d)];
    ClientSendsMore(c, asked, c', DataIn(d), asked');
  }

  lemma CloseSocketSends(c: Client, asked: seq<Ask>)
    requires ClientSends(c, asked)
    ensures Continues(c, CloseSocket(c), asked)
  {
    hide Arrivals, BodyOf;
    if c.isOpen {
      assert Outgoing(CloseSocket(c)) == Outgoing(c) + [CloseIn];
      assert Arrivals(c.json, asked) + BodyIn(CloseIn) == Arrivals(c.json, asked);
      ClientSendsMore(c, asked, CloseSocket(c), CloseIn, asked);
    }
  }

  lemma ClientSendsKept(c: Client, asked: seq<Ask>, c': Client)
    requires ClientSends(c, asked) && c'.json == c.json && c'.sent == c.sent && c'.pending == c.pending
    requires (c'.isOpen ==> c.isOpen) && (c'.finished || (c'.isOpen == c.isOpen && !c.finished))
    ensures ClientSends(c', asked)
  {
    assert Outgoing(c') == Outgoing(c);
  }

  lemma TerminatedSends(c: Client, asked: seq<Ask>, code: nat, details: string)
    requires ClientSends(c, asked)
    ensures Continues(c, Terminated(c, code, details), asked)
  {
    hide Arrivals, BodyOf;
    if !c.finished {
      var reset := EncodeReset(c.json, code, details);
      var c1 := Finished(SendRaw(c, reset), OnStatus(code, details, map[]));
      assert Outgoing(c1) == Outgoing(c) + [DataIn(reset)];
      assert BodyIn(DataIn(reset)) == [];
      assert Arrivals(c.json, asked) + [] == Arrivals(c.json, asked);
      ClientSendsMore(c, asked, c1, DataIn(reset), asked);
      CloseSocketSends(c1, asked);
    }
  }

  lemma OpenedSends(c: Client, asked: seq<Ask>)
    requires ClientSends(c, asked)
    ensures Continues(c, Opened(c), asked)
  {
    assert Outgoing(Opened(c)) == Outgoing(c);
  }

  lemma TakeOneSends(s: Sys, m: OutMsg, reason: string)
    requires ClientSends(s.client, s.asked)
    ensures Continues(s.client, TakeOne(s, m, reason).client, s.asked) && TakeOne(s, m, reason).asked == s.asked
  {
    ClientSendsKept(s.client, s.asked, TakeOne(s, m, reason).client);
  }

  /** A wish is one frame, read as what the wish arrives as. */
  lemma AskIsFrame(json: bool, a: Ask)
    ensures
      var d := if a.SendIt? then EncodeMessage(json, a.payload) else EncodeHalfClose(json);
      Later(json, DataIn(d)) && !ResetIn(DataIn(d)) && BodyIn(DataIn(d)) == [Arrives(json, a)]
  {
    if a.SendIt? {
      CodecsAgree(json, Header(map[]), map[], 0, a.payload, 0, "");
    }
  }

  /** The user sends a message, or ends the request. */
  lemma UserAsks(c: Client, asked: seq<Ask>, a: Ask)
    requires ClientSends(c, asked) && !c.finished
    ensures
      var d := if a.SendIt? then EncodeMessage(c.json, a.payload) else EncodeHalfClose(c.json);
      Continues(c, SendRaw(c, d), asked + [a])
  {
    hide ClientSends, Arrivals, Later, ResetIn, BodyIn, SendRaw;
    var d := if a.SendIt? then EncodeMessage(c.json, a.payload) else EncodeHalfClose(c.json);
    AskIsFrame(c.json, a);
    ArrivalsSnoc(c.json, asked, a);
    SendRawSends(c, asked, d, asked + [a]);
  }

  // ----- upstream: what the server makes of it -----

  /** The request body among `fs`, past the opening frame. */
  function BodyFrames(fs: seq<Frame>): seq<Frame> {
    if |fs| <= 1 then [] else BodyFrames(fs[..|fs| - 1]) + Kept(fs[|fs| - 1])
  }

  lemma BodyFramesSnoc(fs: seq<Frame>, f: Frame)
    ensures BodyFrames(fs + [f]) == if fs == [] then [] else BodyFrames(fs) + Kept(f)
  {
    assert (fs + [f])[..|fs|] == fs;
  }

  /** Other frames do not count towards the body. */
  lemma {:induction false} BodyOfFrames(fs: seq<Frame>)
    requires fs != []
    ensures BodyPayloads(fs[1..]) == BodyPayloads(BodyFrames(fs))
    ensures HalfClosed(fs[1..]) == HalfClosed(BodyFrames(fs))
  {
    hide BodyPayloads, HalfClosed;
    if |fs| > 1 {
      var front, last := fs[..|fs| - 1], fs[|fs| - 1];
      assert fs[1..] == front[1..] + [last];
      BodyOfFrames(front);
      BodyPayloadsSnoc(front[1..], last);
      BodyPayloadsSnoc(BodyFrames(front), last);
      assert BodyFrames(front) + [] == BodyFrames(front);
    } else {
      assert fs[1..] == [] == BodyFrames(fs);
    }
  }

  /** A longer list gives a longer body, and the same one once it is half-closed. */
  lemma {:induction false} BodyGrows(a: seq<Frame>, b: seq<Frame>)
    requires a <= b
    ensures BodyPayloads(a) <= BodyPayloads(b)
    ensures HalfClosed(a) ==> BodyPayloads(a) == BodyPayloads(b)
    decreases |b|
  {
    hide BodyPayloads, HalfClosed;
    if a != b {
      var front, last := b[..|b| - 1], b[|b| - 1];
      assert b == front + [last];
      BodyGrows(a, front);
      BodyPayloadsSnoc(front, last);
      HalfClosedGrows(a, front);
    }
  }

  lemma HalfClosedGrows(a: seq<Frame>, b: seq<Frame>)
    requires a <= b
    ensures HalfClosed(a) ==> HalfClosed(b)
  {
    if HalfClosed(a) {
      var i :| 0 <= i < |a| && a[i].HalfClose?;
      assert b[i].HalfClose?;
    }
  }

  /** The server has dispatched what the client sent, message by message, and opened a stream on the first of them if the
      method is valid. */
  predicate Dispatches(cfg: Config, s: Server, sent: seq<Inbound>, read: nat) {
    var frames := s.history.dispatched;
    && |frames| <= read <= |sent|
    && (!s.reader.done ==> |frames| == read)
    && (|frames| > 0 ==> s.reader.begun && frames[0].Subscribe? && frames[0].initialPayload == [])
    && (|frames| == 0 ==> !s.reader.begun && s.stream.None?)
    && (read > 0 ==> |frames| > 0)
    && s.history.opens == (if |frames| > 0 && cfg.methodOk then 1 else 0)
    && (forall j :: 1 <= j < |frames| ==> !frames[j].Subscribe?)
    && (forall j :: 0 <= j < |frames| && frames[j].Reset? ==> ResetIn(sent[j]))
    && BodyFrames(frames) == BodyOf(sent[..|frames|])
  }

  lemma HandleFrameOpens(cfg: Config, s: Server, f: Frame, json: bool)
    requires s.history.dispatched != []
    ensures var s' := HandleFrame(cfg, s, f, json);
            && s'.history.dispatched == s.history.dispatched
            && s'.reader.begun == s.reader.begun && s'.reader.done == s.reader.done
            && (!f.Subscribe? ==> s'.history.opens == s.history.opens)
            && (f.Subscribe? && s.stream.None? && f.initialPayload == [] ==>
                  s'.history.opens == s.history.opens + (if cfg.methodOk then 1 else 0))
  {
  }

  /** The frame the next client message decodes to. */
  lemma NextFrame(json: bool, s: Server, m: Inbound)
    requires m.DataIn? && s.reader.codec == Some(json)
    requires if s.reader.begun then Later(json, m) else Opening(json, m)
    ensures Decoded(s, m.data).Some?
    ensures var f := Decoded(s, m.data).value;
            && f.Subscribe? == !s.reader.begun
            && (f.Subscribe? ==> f.initialPayload == [])
            && (f.Reset? ==> ResetIn(m))
            && (s.reader.begun ==> BodyIn(m) == Kept(f))
    ensures Accept(s, m.data).reader.begun
  {
  }

  lemma DispatchOne(cfg: Config, s: Server, s': Server, sent: seq<Inbound>, read: nat, f: Frame)
    requires Dispatches(cfg, s, sent, read) && !s.reader.done && read < |sent|
    requires s'.history.dispatched == s.history.dispatched + [f] && s'.reader.begun
    requires f.Subscribe? == (read == 0) && (f.Subscribe? ==> f.initialPayload == [])
    requires f.Reset? ==> ResetIn(sent[read])
    requires read > 0 ==> BodyIn(sent[read]) == Kept(f)
    requires s'.history.opens == s.history.opens + (if f.Subscribe? && cfg.methodOk then 1 else 0)
    ensures Dispatches(cfg, s', sent, read + 1)
  {
    hide BodyOf, BodyFrames, BodyIn, Kept, ResetIn;
    assert sent[..read + 1] == sent[..read] + [sent[read]];
    BodyOfSnoc(sent[..read], sent[read]);
    BodyFramesSnoc(s.history.dispatched, f);
  }

  lemma OtherStepsDispatch(cfg: Config, s: Server, step: Step, s': Server)
    requires Next(cfg, s, step, s')
    requires !(step.ByReader? && step.r.Recv? && step.r.msg.DataIn?)
    ensures s'.history.dispatched == s.history.dispatched && s'.history.opens == s.history.opens
    ensures s'.reader.begun == s.reader.begun && (s.reader.done ==> s'.reader.done)
    ensures Reads(step) ==> !s.reader.done && s'.reader.done
    ensures s.stream.None? ==> s'.stream.None?
  {
  }

  predicate UpInv(cfg: Config, s: Sys) {
    && ClientSends(s.client, s.asked)
    && s.server.reader.codec == Some(s.client.json)
    && Dispatches(cfg, s.server, s.client.sent, s.serverRead)
  }

  lemma ServerUp(cfg: Config, s: Sys, step: Step, s': Sys)
    requires UpInv(cfg, s) && Inv(cfg, s.server) && ServerNext(cfg, s, step, s')
    ensures UpInv(cfg, s')
  {
    hide HandleFrame, AdvanceReader, TaskApply, WriterApply, BodyOf, BodyFrames, Arrivals;
    CodecStep(cfg, s.server, step, s'.server);
    if step.ByReader? && step.r.Recv? && step.r.msg.DataIn? {
      assert s.client.sent[s.serverRead] == Outgoing(s.client)[s.serverRead];
      var d := step.r.msg.data;
      NextFrame(s.client.json, s.server, DataIn(d));
      HandleFrameOpens(cfg, Accept(s.server, d), Decoded(s.server, d).value, s.client.json);
      DispatchOne(cfg, s.server, s'.server, s.client.sent, s.serverRead, Decoded(s.server, d).value);
    } else {
      OtherStepsDispatch(cfg, s.server, step, s'.server);
      if Reads(step) {
        assert s.client.sent[s.serverRead] == Outgoing(s.client)[s.serverRead];
      }
    }
  }

  lemma DispatchesKept(cfg: Config, s: Server, sent: seq<Inbound>, sent': seq<Inbound>, read: nat)
    requires Dispatches(cfg, s, sent, read) && sent <= sent'
    ensures Dispatches(cfg, s, sent', read)
  {
    var n := |s.history.dispatched|;
    assert sent'[..n] == sent[..n];
  }

  lemma Upward(cfg: Config, s: Sys, s': Sys)
    requires UpInv(cfg, s) && Continues(s.client, s'.client, s'.asked)
    requires s'.server == s.server && s'.serverRead == s.serverRead
    ensures UpInv(cfg, s')
  {
    DispatchesKept(cfg, s.server, s.client.sent, s'.client.sent, s.serverRead);
  }

  lemma ClientUp(cfg: Config, s: Sys, step: ClientStep, s': Sys)
    requires UpInv(cfg, s) && ClientNext(s, step, s')
    requires s'.server == s.server && s'.serverRead == s.serverRead
    ensures UpInv(cfg, s')
  {
    hide Dispatches, ClientSends, Continues, Opened, Terminated, CloseSocket, SendRaw, TakeOne;
    match step {
      case UserSends(p) =>
        if !s.client.finished {
          UserAsks(s.client, s.asked, SendIt(p));
          Upward(cfg, s, s');
        } else {
          FinishedSendsNothing(s.client, EncodeMessage(s.client.json, p));
        }
      case UserEnds =>
        if !s.client.finished {
          UserAsks(s.client, s.asked, EndIt);
          Upward(cfg, s, s');
        } else {
          FinishedSendsNothing(s.client, EncodeHalfClose(s.client.json));
        }
      case SocketOpens =>
        OpenedSends(s.client, s.asked);
        Upward(cfg, s, s');
      case UserCancels(code, details) =>
        TerminatedSends(s.client, s.asked, code, details);
        Upward(cfg, s, s');
      case TransportCloses =>
        CloseSocketSends(s.client, s.asked);
        Upward(cfg, s, s');
      case ClientTakes(reason) =>
        TakeOneSends(s, Downstream(s)[s.clientRead], reason);
        Upward(cfg, s, s');
      case SocketFails =>
        FailedSends(s.client, s.asked);
        Upward(cfg, s, s');
    }
  }

  lemma FinishedSendsNothing(c: Client, d: WsData)
    requires c.finished
    ensures SendRaw(c, d) == c
  {
  }

  lemma FailedSends(c: Client, asked: seq<Ask>)
    requires ClientSends(c, asked)
    ensures Continues(c, Closed(c, None, ""), asked)
  {
    ClientSendsKept(c, asked, Closed(c, None, ""));
  }

  // ----- downstream: what the client surfaces -----

  /** The message payloads handed to the caller. */
  function Delivered(log: seq<Callback>): seq<Bytes> {
    if log == [] then []
    else
      var cb := log[|log| - 1];
      Delivered(log[..|log| - 1]) + (if cb.OnMessage? then [cb.payload] else [])
  }

  lemma DeliveredSnoc(log: seq<Callback>, cb: Callback)
    ensures Delivered(log + [cb]) == Delivered(log) + (if cb.OnMessage? then [cb.payload] else [])
  {
    assert (log + [cb])[..|log|] == log;
  }

  /** A status, if there is one, is the last callback; there is one exactly when the client has finished. */
  predicate StatusLast(c: Client) {
    && (forall i :: 0 <= i < |c.log| && c.log[i].OnStatus? ==> i == |c.log| - 1)
    && (c.finished <==> c.log != [] && c.log[|c.log| - 1].OnStatus?)
  }

  /** How far down `wire` the log goes. */
  function Mark(s: Sys): nat {
    if s.client.finished then s.stop else s.clientRead
  }

  predicate DownInv(s: Sys, wire: seq<OutMsg>) {
    && StatusLast(s.client)
    && s.clientRead <= |wire|
    && Mark(s) <= s.clientRead
    && Delivered(s.client.log) == MessagesOf(wire[..Mark(s)])
    && (forall j :: 0 <= j < Mark(s) ==> !Terminal(wire[j]))
    && (s.cause.Some? ==> s.client.finished && s.stop < |wire| && wire[s.stop] == s.cause.value)
    && (s.cause.Some? && s.cause.value.Data? ==>
          OnBinaryFrame(s.cause.value.frame) == Some(s.client.log[|s.client.log| - 1]))
    && (s.cause.Some? && s.cause.value.Close? ==> CloseStatus(s.cause.value.code, s.client.log[|s.client.log| - 1]))
  }

  /** A close with a private code reports the status it carries, every other close unavailability. */
  predicate CloseStatus(code: nat, status: Callback) {
    status.OnStatus? && status.code == (if 4000 <= code <= 4016 then code - 4000 else 14) && status.metadata == map[]
  }

  lemma DownGrows(s: Sys, s': Sys, wire: seq<OutMsg>, wire': seq<OutMsg>)
    requires DownInv(s, wire) && wire <= wire'
    requires s'.client.log == s.client.log && s'.client.finished == s.client.finished
    requires s'.clientRead == s.clientRead && s'.stop == s.stop && s'.cause == s.cause
    ensures DownInv(s', wire')
  {
    assert wire'[..Mark(s)] == wire[..Mark(s)];
  }

  /** A finished client ignores what still arrives. */
  lemma DownIgnores(s: Sys, c: Client, taken: nat, why: Option<OutMsg>, wire: seq<OutMsg>)
    requires DownInv(s, wire) && s.client.finished && c.finished && c.log == s.client.log
    requires s.clientRead <= taken <= |wire|
    ensures DownInv(Becomes(s, c, taken, why), wire)
  {
  }

  /** A status finishes the client. */
  lemma DownFinishes(s: Sys, c: Client, taken: nat, why: Option<OutMsg>, wire: seq<OutMsg>, status: Callback)
    requires DownInv(s, wire) && !s.client.finished && status.OnStatus?
    requires c.finished && c.log == s.client.log + [status]
    requires why.None? ==> s.clientRead <= taken <= |wire|
    requires why.Some? ==> taken == s.clientRead + 1 && s.clientRead < |wire| && wire[s.clientRead] == why.value
    requires why.Some? && why.value.Data? ==> OnBinaryFrame(why.value.frame) == Some(status)
    requires why.Some? && why.value.Close? ==> CloseStatus(why.value.code, status)
    ensures DownInv(Becomes(s, c, taken, why), wire)
  {
    DeliveredSnoc(s.client.log, status);
  }

  /** A header or message is surfaced. */
  lemma DownSurfaces(s: Sys, c: Client, wire: seq<OutMsg>, m: OutMsg, cb: Callback)
    requires DownInv(s, wire) && !s.client.finished && s.clientRead < |wire| && m == wire[s.clientRead]
    requires m.Data? && OnBinaryFrame(m.frame) == Some(cb) && !cb.OnStatus?
    requires !c.finished && c.log == s.client.log + [cb]
    ensures DownInv(Becomes(s, c, s.clientRead + 1, Some(m)), wire)
  {
    assert wire[..s.clientRead + 1] == wire[..s.clientRead] + [m];
    MessagesOfSnoc(wire[..s.clientRead], m);
    DeliveredSnoc(s.client.log, cb);
  }

  /** What a message from the server is to the client. */
  function Surfaced(m: OutMsg, reason: string): Option<Callback> {
    match m
    case Data(f, _) => OnBinaryFrame(f)
    case Close(code) => Some(StatusForClose(Some(code), reason))
  }

  lemma TakeEffect(s: Sys, m: OutMsg, reason: string, cb: Callback)
    requires (m.Data? ==> ServerKind(m.frame)) && Surfaced(m, reason) == Some(cb)
    ensures var s' := TakeOne(s, m, reason);
            && s' == Becomes(s, s'.client, s.clientRead + 1, Some(m)).(socket := s'.socket)
            && s'.client.finished == (s.client.finished || cb.OnStatus?)
            && s'.client.log == (if s.client.finished then s.client.log else s.client.log + [cb])
  {
    if m.Data? {
      CodecsAgree(m.json, m.frame, map[], 0, [], 0, "");
    }
  }

  lemma DownTakes(s: Sys, c: Client, wire: seq<OutMsg>, reason: string, cb: Callback)
    requires DownInv(s, wire) && s.clientRead < |wire| && Surfaced(wire[s.clientRead], reason) == Some(cb)
    requires c.finished == (s.client.finished || cb.OnStatus?)
    requires c.log == if s.client.finished then s.client.log else s.client.log + [cb]
    ensures DownInv(Becomes(s, c, s.clientRead + 1, Some(wire[s.clientRead])), wire)
  {
    var m := wire[s.clientRead];
    if s.client.finished {
      DownIgnores(s, c, s.clientRead + 1, Some(m), wire);
    } else if cb.OnStatus? {
      DownFinishes(s, c, s.clientRead + 1, Some(m), wire, cb);
    } else {
      DownSurfaces(s, c, wire, m, cb);
    }
  }

  /** The client finishes, or had finished, without taking a message. */
  lemma DownGivesUp(s: Sys, c: Client, wire: seq<OutMsg>, status: Callback)
    requires DownInv(s, wire) && status.OnStatus? && c.finished
    requires c.log == if s.client.finished then s.client.log else s.client.log + [status]
    ensures DownInv(Becomes(s, c, s.clientRead, None), wire)
  {
    if s.client.finished {
      DownIgnores(s, c, s.clientRead, None, wire);
    } else {
      DownFinishes(s, c, s.clientRead, None, wire, status);
    }
  }

  lemma TakingDown(cfg: Config, s: Sys, reason: string)
    requires Inv(cfg, s.server) && DownInv(s, Downstream(s)) && s.clientRead < |Downstream(s)|
    ensures DownInv(TakeOne(s, Downstream(s)[s.clientRead], reason), Downstream(s))
  {
    var wire := Downstream(s);
    var m := wire[s.clientRead];
    assert m == s.server.out.trace[s.clientRead];
    assert m.Data? ==> ServerKind(m.frame);
    var cb := Surfaced(m, reason).value;
    TakeEffect(s, m, reason, cb);
    var s' := TakeOne(s, m, reason);
    DownTakes(s, s'.client, wire, reason, cb);
    DownGrows(Becomes(s, s'.client, s.clientRead + 1, Some(m)), s', wire, wire);
  }

  /** A step that surfaces nothing. */
  predicate Quiet(step: ClientStep) {
    step.SocketOpens? || step.UserSends? || step.UserEnds? || step.TransportCloses?
  }

  lemma QuietEffect(s: Sys, step: ClientStep, s': Sys)
    requires ClientNext(s, step, s') && Quiet(step)
    ensures s'.client.log == s.client.log && s'.client.finished == s.client.finished
    ensures s'.clientRead == s.clientRead && s'.stop == s.stop && s'.cause == s.cause
    ensures s'.server == s.server && s'.serverRead == s.serverRead
  {
  }

  /** The client finishes by itself: cancelled, or its socket failed. */
  lemma GivesUpEffect(s: Sys, step: ClientStep, s': Sys, status: Callback)
    requires ClientNext(s, step, s') && (step.UserCancels? || step.SocketFails?)
    requires status == if step.UserCancels? then OnStatus(step.code, step.details, map[]) else StatusForClose(None, "")
    ensures s' == Becomes(s, s'.client, s.clientRead, None).(socket := s'.socket) && s'.client.finished
    ensures s'.client.log == if s.client.finished then s.client.log else s.client.log + [status]
  {
  }

  lemma GivesUpDown(s: Sys, step: ClientStep, s': Sys, wire: seq<OutMsg>)
    requires ClientNext(s, step, s') && (step.UserCancels? || step.SocketFails?) && DownInv(s, wire)
    ensures DownInv(s', wire)
  {
    hide DownInv, ClientNext, StatusForClose;
    var status := if step.UserCancels? then OnStatus(step.code, step.details, map[]) else StatusForClose(None, "");
    GivesUpEffect(s, step, s', status);
    assert status.OnStatus? by { ClosesAreStatuses(); }
    DownGivesUp(s, s'.client, wire, status);
    DownGrows(Becomes(s, s'.client, s.clientRead, None), s', wire, wire);
  }

  lemma ClosesAreStatuses()
    ensures StatusForClose(None, "").OnStatus?
  {
  }

  lemma TakesEffect(s: Sys, step: ClientStep, s': Sys)
    requires ClientNext(s, step, s') && step.ClientTakes?
    ensures s.server.out.written <= |s.server.out.trace| && s.clientRead < |Downstream(s)|
    ensures s' == TakeOne(s, Downstream(s)[s.clientRead], step.reason)
  {
  }

  lemma ClientDown(cfg: Config, s: Sys, step: ClientStep, s': Sys)
    requires Inv(cfg, s.server) && DownInv(s, Downstream(s)) && ClientNext(s, step, s')
    ensures DownInv(s', Downstream(s))
  {
    hide DownInv, ClientNext, TakeOne;
    assert s.server.out.written <= |s.server.out.trace|;
    hide Inv;
    if step.ClientTakes? {
      TakesEffect(s, step, s');
      TakingDown(cfg, s, step.reason);
    } else if Quiet(step) {
      QuietEffect(s, step, s');
      DownGrows(s, s', Downstream(s), Downstream(s));
    } else {
      GivesUpDown(s, step, s', Downstream(s));
    }
  }

  // ----- whole runs -----

  predicate SysInv(cfg: Config, s: Sys) {
    && Inv(cfg, s.server)
    && UpInv(cfg, s)
    && DownInv(s, Downstream(s))
    && (s.cause == Some(Close(GOING_AWAY)) ==> s.server.history.opens == 0)
  }

  /** A client still waiting when the going-away close reaches it never had a stream. */
  lemma AwayMeansUnopened(cfg: Config, s: Sys)
    requires Inv(cfg, s.server) && UpInv(cfg, s) && DownInv(s, Downstream(s)) && !s.client.finished
    requires s.clientRead < |Downstream(s)| && Downstream(s)[s.clientRead] == Close(GOING_AWAY)
    ensures s.server.history.opens == 0
  {
    var t := s.server.out.trace;
    assert t[s.clientRead] == Close(GOING_AWAY);
    assert Over(s.server, s.clientRead);
    assert forall j :: 0 <= j < s.clientRead ==> t[j] == Downstream(s)[j];
    assert forall j :: 0 <= j < |s.client.sent| ==> s.client.sent[j] == Outgoing(s.client)[j];
  }

  /** Once the going-away close is out no stream is opened. */
  lemma AwayStays(cfg: Config, s: Sys, step: Step, s': Sys)
    requires SysInv(cfg, s) && ServerNext(cfg, s, step, s') && s.cause == Some(Close(GOING_AWAY))
    ensures s'.server.history.opens == 0
  {
    assert Downstream(s)[s.stop] == s.server.out.trace[s.stop];
    assert Close(GOING_AWAY) in s.server.out.trace;
    OtherStepsDispatch(cfg, s.server, step, s'.server);
  }

  lemma StartSends(json: bool, headers: Meta, timeoutMillis: nat)
    ensures ClientSends(Start(json, headers, timeoutMillis), [])
  {
    var out := Outgoing(Start(json, headers, timeoutMillis));
    assert out == [DataIn(EncodeOpen(json, headers, timeoutMillis))];
    assert BodyOf(out) == [] == Arrivals(json, []);
  }

  lemma BeginDown(cfg: Config, json: bool, headers: Meta, timeoutMillis: nat)
    ensures var s := Begin(cfg, json, headers, timeoutMillis); DownInv(s, Downstream(s))
  {
    var s := Begin(cfg, json, headers, timeoutMillis);
    assert Downstream(s)[..0] == [];
  }

  lemma BeginUp(cfg: Config, json: bool, headers: Meta, timeoutMillis: nat)
    requires cfg.codec == Some(json)
    ensures UpInv(cfg, Begin(cfg, json, headers, timeoutMillis))
  {
    hide ClientSends;
    StartSends(json, headers, timeoutMillis);
  }

  lemma BeginParts(cfg: Config, json: bool, headers: Meta, timeoutMillis: nat)
    ensures
      var s := Begin(cfg, json, headers, timeoutMillis);
      s.server == Init(cfg) && s.cause == None && s.server.out.written <= |s.server.out.trace|
  {
  }

  lemma ServerStepInv(cfg: Config, s: Sys, step: Step, s': Sys)
    requires SysInv(cfg, s) && ServerNext(cfg, s, step, s')
    ensures SysInv(cfg, s')
  {
    StepInv(cfg, s.server, step, s'.server);
    ServerUp(cfg, s, step, s');
    WriterInvStep(cfg, s.server, step, s'.server);
    DownGrows(s, s', Downstream(s), Downstream(s'));
    if s.cause == Some(Close(GOING_AWAY)) {
      AwayStays(cfg, s, step, s');
    }
  }

  /** Only taking a message gives the client a cause. */
  lemma CauseEffect(s: Sys, step: ClientStep, s': Sys)
    requires ClientNext(s, step, s')
    ensures s'.server == s.server && s'.serverRead == s.serverRead
    ensures s'.cause == s.cause || s'.cause == None || (step.ClientTakes? && !s.client.finished)
    ensures step.ClientTakes? && s'.cause != s.cause ==>
      && s.server.out.written <= |s.server.out.trace| && s.clientRead < |Downstream(s)|
      && s'.cause == Some(Downstream(s)[s.clientRead])
  {
    hide Received, Closed, SendRaw, Terminated, Opened, CloseSocket;
  }

  lemma ClientCause(cfg: Config, s: Sys, step: ClientStep, s': Sys)
    requires SysInv(cfg, s) && ClientNext(s, step, s')
    ensures s'.server == s.server && s'.serverRead == s.serverRead
    ensures s'.cause == Some(Close(GOING_AWAY)) ==> s.server.history.opens == 0
  {
    hide Inv, UpInv, DownInv, ClientNext;
    CauseEffect(s, step, s');
    if s'.cause == Some(Close(GOING_AWAY)) && s'.cause != s.cause {
      AwayMeansUnopened(cfg, s);
    }
  }

  lemma ClientStepInv(cfg: Config, s: Sys, step: ClientStep, s': Sys)
    requires SysInv(cfg, s) && ClientNext(s, step, s')
    ensures SysInv(cfg, s')
  {
    ClientCause(cfg, s, step, s');
    SysParts(cfg, s);
    hide Inv, UpInv, DownInv, ClientNext;
    ClientDown(cfg, s, step, s');
    ClientUp(cfg, s, step, s');
  }

  lemma SysParts(cfg: Config, s: Sys)
    requires SysInv(cfg, s)
    ensures s.server.out.written <= |s.server.out.trace|
  {
  }

  lemma SysStepInv(cfg: Config, s: Sys, step: SysStep, s': Sys)
    requires SysInv(cfg, s) && SysNext(cfg, s, step, s')
    ensures SysInv(cfg, s')
  {
    hide SysInv, ServerNext, ClientNext;
    match step
    case ServerMoves(st) => ServerStepInv(cfg, s, st, s');
    case ClientMoves(c) => ClientStepInv(cfg, s, c, s');
  }

  lemma {:induction false} SysRunInv(
    cfg: Config, json: bool, headers: Meta, timeoutMillis: nat, run: seq<Sys>, steps: seq<SysStep>, i: nat)
    requires cfg.codec == Some(json) && IsSysRun(cfg, json, headers, timeoutMillis, run, steps) && i < |run|
    ensures SysInv(cfg, run[i])
  {
    hide Inv, UpInv, DownInv, SysNext, Begin, Init;
    if i == 0 {
      InitInv(cfg);
      BeginParts(cfg, json, headers, timeoutMillis);
      BeginUp(cfg, json, headers, timeoutMillis);
      BeginDown(cfg, json, headers, timeoutMillis);
    } else {
      SysRunInv(cfg, json, headers, timeoutMillis, run, steps, i - 1);
      SysStepInv(cfg, run[i - 1], steps[i - 1], run[i]);
    }
  }

  /** With one stream, the messages on the wire before a trailer are all the messages the stream task emitted. */
  lemma TrailerIsComplete(s: Server, wire: seq<OutMsg>, k: nat)
    requires EmitInv(s) && s.history.opens <= 1 && wire <= s.out.trace && TrailerAt(wire, k)
    ensures MessagesOf(wire[..k]) == s.history.emitted
  {
    assert TrailerAt(s.out.trace, k);
    assert wire[..k] == s.out.trace[..k];
  }

  lemma PrefixOfWire(s: Server, wire: seq<OutMsg>, k: nat)
    requires OrderInv(s.out, s.history.emitted) && wire <= s.out.trace && k <= |wire|
    ensures MessagesOf(wire[..k]) <= s.history.emitted
  {
    assert wire[..k] == s.out.trace[..k];
    MessagesOfPrefix(s.out.trace, k);
  }

  /** Responses end to end. In every state of every run the client's status, if any, is its last callback and
      there is exactly one; the payloads it has delivered are a prefix of the messages the one stream task
      emitted, in order; and if the status came from a trailer they are all of them, and the status is the
      trailer's own. */
  lemma ResponsesEndToEnd(
    cfg: Config, json: bool, headers: Meta, timeoutMillis: nat, run: seq<Sys>, steps: seq<SysStep>, i: nat)
    requires cfg.codec == Some(json) && IsSysRun(cfg, json, headers, timeoutMillis, run, steps) && i < |run|
    ensures var s := run[i];
            && (forall j :: 0 <= j < |s.client.log| && s.client.log[j].OnStatus? ==> j == |s.client.log| - 1)
            && (s.client.finished <==> exists j :: 0 <= j < |s.client.log| && s.client.log[j].OnStatus?)
            && s.server.history.opens <= 1
            && Delivered(s.client.log) <= s.server.history.emitted
            && (s.cause.Some? && s.cause.value.Data? && s.cause.value.frame.Trailer? ==>
                  var t := s.cause.value.frame;
                  && Delivered(s.client.log) == s.server.history.emitted
                  && s.client.log != []
                  && s.client.log[|s.client.log| - 1] == OnStatus(t.code, t.text, t.metadata))
  {
    SysRunInv(cfg, json, headers, timeoutMillis, run, steps, i);
    hide IsSysRun, SysInv;
    ResponsesAt(cfg, run[i]);
  }

  /** The parts of the invariant that responses rest on. */
  lemma ResponseParts(cfg: Config, s: Sys)
    requires SysInv(cfg, s)
    ensures s.server.out.written <= |s.server.out.trace| && DownInv(s, Downstream(s))
    ensures EmitInv(s.server) && OrderInv(s.server.out, s.server.history.emitted) && s.server.history.opens <= 1
  {
  }

  lemma ResponsesAt(cfg: Config, s: Sys)
    requires SysInv(cfg, s)
    ensures (forall j :: 0 <= j < |s.client.log| && s.client.log[j].OnStatus? ==> j == |s.client.log| - 1)
    ensures s.client.finished <==> exists j :: 0 <= j < |s.client.log| && s.client.log[j].OnStatus?
    ensures s.server.history.opens <= 1
    ensures Delivered(s.client.log) <= s.server.history.emitted
    ensures s.cause.Some? && s.cause.value.Data? && s.cause.value.frame.Trailer? ==>
      var t := s.cause.value.frame;
      && Delivered(s.client.log) == s.server.history.emitted
      && s.client.log != []
      && s.client.log[|s.client.log| - 1] == OnStatus(t.code, t.text, t.metadata)
  {
    hide SysInv, EmitInv, OrderInv, MessagesOf;
    ResponseParts(cfg, s);
    PrefixOfWire(s.server, Downstream(s), Mark(s));
    if s.cause.Some? && s.cause.value.Data? && s.cause.value.frame.Trailer? {
      TrailerIsComplete(s.server, Downstream(s), s.stop);
    }
  }

  /** Every request on a valid method is served: once the server has read anything at all, one stream has been opened if
      the method is valid, and none if it is not. */
  lemma OpensExactly(
    cfg: Config, json: bool, headers: Meta, timeoutMillis: nat, run: seq<Sys>, steps: seq<SysStep>, i: nat)
    requires cfg.codec == Some(json) && IsSysRun(cfg, json, headers, timeoutMillis, run, steps) && i < |run|
    ensures run[i].server.history.opens == if run[i].serverRead > 0 && cfg.methodOk then 1 else 0
  {
    SysRunInv(cfg, json, headers, timeoutMillis, run, steps, i);
    hide IsSysRun, Inv, DownInv, ClientSends;
    assert UpInv(cfg, run[i]);
  }

  /** A close that finishes the client is reported with the status its private code carries, or as unavailability; in
      particular a refused handshake's own code reaches the caller. */
  lemma CloseCodesSurface(
    cfg: Config, json: bool, headers: Meta, timeoutMillis: nat, run: seq<Sys>, steps: seq<SysStep>, i: nat)
    requires cfg.codec == Some(json) && IsSysRun(cfg, json, headers, timeoutMillis, run, steps) && i < |run|
    requires run[i].cause.Some? && run[i].cause.value.Close?
    ensures run[i].client.log != [] && CloseStatus(run[i].cause.value.code, run[i].client.log[|run[i].client.log| - 1])
    ensures cfg.reject.Some? ==> run[i].cause == Some(Close(4000 + cfg.reject.value))
  {
    SysRunInv(cfg, json, headers, timeoutMillis, run, steps, i);
    if cfg.reject.Some? {
      RejectedWire(cfg, json, headers, timeoutMillis, run, steps, i);
    }
    hide IsSysRun, Inv, UpInv;
  }

  /** A refused handshake: the close with its code is all the server ever sends. */
  lemma {:induction false} RejectedWire(
    cfg: Config, json: bool, headers: Meta, timeoutMillis: nat, run: seq<Sys>, steps: seq<SysStep>, i: nat)
    requires cfg.reject.Some? && IsSysRun(cfg, json, headers, timeoutMillis, run, steps) && i < |run|
    ensures
      var s := run[i].server;
      s.reader.done && s.stream.None? && s.out == Outbound(false, [Close(4000 + cfg.reject.value)], 1, [])
  {
    if i > 0 {
      hide Next;
      RejectedWire(cfg, json, headers, timeoutMillis, run, steps, i - 1);
      assert SysNext(cfg, run[i - 1], steps[i - 1], run[i]);
      if steps[i - 1].ServerMoves? {
        ClosedServerIsStill(cfg, run[i - 1].server, steps[i - 1].step, run[i].server);
      } else {
        CauseEffect(run[i - 1], steps[i - 1].move, run[i]);
      }
    }
  }

  lemma ClosedServerIsStill(cfg: Config, s: Server, step: Step, s': Server)
    requires s.reader.done && s.stream.None? && !s.out.open
    ensures !Next(cfg, s, step, s')
  {
  }

  /** Cancelling an unfinished call reports its status at once, and gives the server a `Reset` with the same code and text as
      the next thing it is sent. */
  lemma CancelIsTold(
    cfg: Config, json: bool, headers: Meta, timeoutMillis: nat, run: seq<Sys>, steps: seq<SysStep>, i: nat, code: nat,
    details: string)
    requires cfg.codec == Some(json) && IsSysRun(cfg, json, headers, timeoutMillis, run, steps) && i < |steps|
    requires steps[i] == ClientMoves(UserCancels(code, details)) && !run[i].client.finished
    ensures run[i + 1].client.finished
    ensures run[i + 1].client.log == run[i].client.log + [OnStatus(code, details, map[])]
    ensures
      var before, after := Outgoing(run[i].client), Outgoing(run[i + 1].client);
      && |after| > |before| && after[..|before|] == before && after[|before|].DataIn?
      && after[|before|].data.Text? == run[i].client.json
      && Decode(after[|before|].data, true).0 == Some(Reset(code, details))
  {
    SysRunInv(cfg, json, headers, timeoutMillis, run, steps, i);
    assert SysNext(cfg, run[i], steps[i], run[i + 1]);
    CancelEffect(run[i], code, details, run[i + 1]);
  }

  lemma CancelEffect(s: Sys, code: nat, details: string, s': Sys)
    requires ClientNext(s, UserCancels(code, details), s') && !s.client.finished
    requires (s.client.sent == [] || s.client.pending == []) && (s.client.isOpen ==> s.client.sent != [])
    requires !s.client.isOpen ==> s.client.sent == []
    ensures s'.client.finished && s'.client.log == s.client.log + [OnStatus(code, details, map[])]
    ensures
      var before, after := Outgoing(s.client), Outgoing(s'.client);
      && |after| > |before| && after[..|before|] == before && after[|before|].DataIn?
      && after[|before|].data.Text? == s.client.json
      && Decode(after[|before|].data, true).0 == Some(Reset(code, details))
  {
    var reset := EncodeReset(s.client.json, code, details);
    var more := if s.client.isOpen then [CloseIn] else [];
    assert Outgoing(s'.client) == Outgoing(s.client) + [DataIn(reset)] + more;
  }

  /** The client counts its socket as open exactly while it is, so that once it is gone nothing is ever sent on it. */
  lemma {:induction false} OpenIffEstablished(
    cfg: Config, json: bool, headers: Meta, timeoutMillis: nat, run: seq<Sys>, steps: seq<SysStep>, i: nat)
    requires IsSysRun(cfg, json, headers, timeoutMillis, run, steps) && i < |run|
    ensures run[i].client.isOpen <==> run[i].socket.Established?
    ensures run[i].socket.Gone? && i < |steps| ==> run[i + 1].socket.Gone? && run[i + 1].client.sent == run[i].client.sent
  {
    hide Next;
    if i > 0 {
      OpenIffEstablished(cfg, json, headers, timeoutMillis, run, steps, i - 1);
      assert SysNext(cfg, run[i - 1], steps[i - 1], run[i]);
      OpenStep(cfg, run[i - 1], steps[i - 1], run[i]);
    }
    if i < |steps| {
      assert SysNext(cfg, run[i], steps[i], run[i + 1]);
      OpenStep(cfg, run[i], steps[i], run[i + 1]);
    }
  }

  lemma OpenStep(cfg: Config, s: Sys, step: SysStep, s': Sys)
    requires SysNext(cfg, s, step, s') && (s.client.isOpen <==> s.socket.Established?)
    ensures s'.client.isOpen <==> s'.socket.Established?
    ensures s.socket.Gone? ==> s'.socket.Gone? && s'.client.sent == s.client.sent
  {
    hide Next, ClientNext;
    if step.ClientMoves? {
      if step.move.ClientTakes? {
        TakesWhileOpen(s, step.move, s');
        TakeOpen(s, Downstream(s)[s.clientRead], step.move.reason);
      } else {
        MoveOpen(s, step.move, s');
      }
    }
  }

  lemma TakesWhileOpen(s: Sys, step: ClientStep, s': Sys)
    requires ClientNext(s, step, s') && step.ClientTakes?
    ensures s.socket.Established? && s.server.out.written <= |s.server.out.trace| && s.clientRead < |Downstream(s)|
    ensures s' == TakeOne(s, Downstream(s)[s.clientRead], step.reason)
  {
    hide TakeOne;
  }

  lemma TakeOpen(s: Sys, m: OutMsg, reason: string)
    requires s.client.isOpen && s.socket.Established?
    ensures var s' := TakeOne(s, m, reason);
            s'.client.isOpen <==> s'.socket.Established?
  {
    hide OnData, StatusForClose;
  }

  lemma MoveOpen(s: Sys, step: ClientStep, s': Sys)
    requires ClientNext(s, step, s') && !step.ClientTakes? && (s.client.isOpen <==> s.socket.Established?)
    ensures s'.client.isOpen <==> s'.socket.Established?
    ensures s.socket.Gone? ==> s'.socket.Gone? && s'.client.sent == s.client.sent
  {
    hide TakeOne, OnData, StatusForClose, EncodeReset, EncodeMessage, EncodeHalfClose;
  }

  /** How a close surfaces. A client is never finished by a normal close: the terminal frame before it got there
      first, so the server's orderly teardown is never reported as unavailability. And a client finished by the
      going-away close of a draining server never had a stream opened, so retrying elsewhere repeats nothing. */
  lemma ClosesSurfaceRightly(
    cfg: Config, json: bool, headers: Meta, timeoutMillis: nat, run: seq<Sys>, steps: seq<SysStep>, i: nat)
    requires cfg.codec == Some(json) && IsSysRun(cfg, json, headers, timeoutMillis, run, steps) && i < |run|
    ensures run[i].cause != Some(Close(NORMAL))
    ensures run[i].cause == Some(Close(GOING_AWAY)) ==> run[i].server.history.opens == 0
  {
    SysRunInv(cfg, json, headers, timeoutMillis, run, steps, i);
    var s := run[i];
    var t := s.server.out.trace;
    assert forall j :: 0 <= j < |Downstream(s)| ==> t[j] == Downstream(s)[j];
    assert !TerminalBefore(t, Mark(s));
  }

  // ----- requests, end to end -----

  /** The request body a user means: the messages before the request is ended. */
  function Meant(asked: seq<Ask>): seq<Bytes> {
    if asked == [] || asked[0].EndIt? then [] else [asked[0].payload] + Meant(asked[1..])
  }

  /** The request body that arrives: under the text codec a null message ends it too. */
  function Intended(json: bool, asked: seq<Ask>): seq<Bytes> {
    BodyPayloads(Arrivals(json, asked))
  }

  /** Some message that counts is lost to the codec. */
  predicate LosesSome(json: bool, asked: seq<Ask>) {
    exists i :: 0 <= i < |Meant(asked)| && Lost(json, Meant(asked)[i])
  }

  lemma {:induction false} ArrivalsCons(json: bool, asked: seq<Ask>)
    requires asked != []
    ensures Arrivals(json, asked) == [Arrives(json, asked[0])] + Arrivals(json, asked[1..])
  {
    var front, last := asked[..|asked| - 1], asked[|asked| - 1];
    if front == [] {
      assert asked == [] + [last] && asked[1..] == [];
      ArrivalsSnoc(json, [], last);
    } else {
      hide Arrivals;
      ArrivalsCons(json, front);
      assert asked == front + [last] && asked[1..] == front[1..] + [last];
      ArrivalsSnoc(json, front, last);
      ArrivalsSnoc(json, front[1..], last);
      Assoc([Arrives(json, asked[0])], Arrivals(json, front[1..]), [Arrives(json, last)]);
    }
  }

  /** What arrives is a prefix of what was meant, and all of it exactly when no message is a null in the text codec. */
  lemma {:induction false} IntendedIff(json: bool, asked: seq<Ask>)
    ensures Intended(json, asked) <= Meant(asked)
    ensures Intended(json, asked) == Meant(asked) <==> !LosesSome(json, asked)
  {
    if asked != [] {
      ArrivalsCons(json, asked);
      var fs := Arrivals(json, asked);
      assert fs[1..] == Arrivals(json, asked[1..]);
      IntendedIff(json, asked[1..]);
      if asked[0].SendIt? {
        var m, later := Meant(asked), Meant(asked[1..]);
        assert m[0] == asked[0].payload && m[1..] == later;
        assert LosesSome(json, asked) <==> Lost(json, m[0]) || LosesSome(json, asked[1..]) by {
          if i :| 0 <= i < |m| && Lost(json, m[i]) && i > 0 {
            assert Lost(json, later[i - 1]);
          }
          if i :| 0 <= i < |later| && Lost(json, later[i]) {
            assert Lost(json, m[i + 1]);
          }
        }
      }
    }
  }

  /** For instance, a null sent first in the text codec ends the request: nothing the user meant arrives. */
  lemma NullEndsRequest(more: seq<Ask>)
    ensures Intended(true, [SendIt(JsonNull)] + more) == [] && Meant([SendIt(JsonNull)] + more) != []
  {
    var asked := [SendIt(JsonNull)] + more;
    ArrivalsCons(true, asked);
    assert asked[0] == SendIt(JsonNull);
  }

  lemma BodyWithinAsked(cfg: Config, s: Sys)
    requires UpInv(cfg, s) && FeedInv(cfg, s.server) && s.server.stream.Some? && cfg.annotation != Some(false)
    ensures
      var st := s.server.stream.value;
      var frames := s.server.history.dispatched;
      && st.openedAt == 0 && frames != []
      && st.fed <= Intended(s.client.json, s.asked)
      && (st.reading && s.server.reader.at.Event? ==> st.fed == BodyPayloads(frames[1..]))
      && BodyPayloads(frames[1..]) <= Intended(s.client.json, s.asked)
      && (HalfClosed(frames[1..]) ==> BodyPayloads(frames[1..]) == Intended(s.client.json, s.asked))
  {
    hide BodyPayloads, HalfClosed, Arrivals, BodyOf, BodyFrames;
    var frames := s.server.history.dispatched;
    var st := s.server.stream.value;
    assert st.openedAt == 0;
    assert FirstPayloads(cfg, frames[0]) == [];
    var out := Outgoing(s.client);
    BodyOfPrefix(out, |frames|);
    assert out[..|frames|] == s.client.sent[..|frames|];
    BodyOfFrames(frames);
    BodyGrows(BodyFrames(frames), Arrivals(s.client.json, s.asked));
  }

  /** Requests end to end. Whatever the stream task has been given is, in order, a prefix of the body that arrives, hence
      of what the user meant. Once the end of the request has been dispatched, and as long as the stream task reads and the
      reader is not in the middle of feeding it, it has been given the whole body that arrives; and that is all the user
      meant exactly when no message was lost to the codec. */
  lemma RequestsEndToEnd(
    cfg: Config, json: bool, headers: Meta, timeoutMillis: nat, run: seq<Sys>, steps: seq<SysStep>, i: nat)
    requires cfg.codec == Some(json) && IsSysRun(cfg, json, headers, timeoutMillis, run, steps) && i < |run|
    requires cfg.annotation != Some(false)
    ensures run[i].server.stream.Some? ==>
      var st := run[i].server.stream.value;
      var frames := run[i].server.history.dispatched;
      && frames != []
      && st.fed <= Intended(run[i].client.json, run[i].asked) <= Meant(run[i].asked)
      && (st.reading && run[i].server.reader.at.Event? && HalfClosed(frames[1..]) ==>
            && st.fed == Intended(run[i].client.json, run[i].asked)
            && (st.fed == Meant(run[i].asked) <==> !LosesSome(run[i].client.json, run[i].asked)))
  {
    hide Inv, UpInv, DownInv, Intended, Meant, LosesSome;
    SysRunInv(cfg, json, headers, timeoutMillis, run, steps, i);
    if run[i].server.stream.Some? {
      assert FeedInv(cfg, run[i].server) by { InvFeeds(cfg, run[i].server); }
      BodyWithinAsked(cfg, run[i]);
      IntendedIff(run[i].client.json, run[i].asked);
    }
  }

  lemma InvFeeds(cfg: Config, s: Server)
    requires Inv(cfg, s)
    ensures FeedInv(cfg, s)
  {
  }
}
