/** What every execution of the server's half of a connection keeps. */
module WsServerProofs {
  import opened Common
  import opened WsFrames
  import opened WsServer

  // ----- vocabulary -----

  predicate Terminal(m: OutMsg) {
    m.Data? && (m.frame.Trailer? || m.frame.Reset?)
  }

  /** A terminal frame stands before position `k` of `t`. */
  predicate TerminalBefore(t: seq<OutMsg>, k: nat)
    requires k <= |t|
  {
    exists j :: 0 <= j < k && Terminal(t[j])
  }

  predicate NoClose(t: seq<OutMsg>, k: nat)
    requires k <= |t|
  {
    forall j :: 0 <= j < k ==> !t[j].Close?
  }

  /** `n` may directly follow `m` in one task's output. */
  predicate Follows(m: OutMsg, n: OutMsg) {
    if m.Close? then false
    else if Terminal(m) then n == Close(NORMAL)
    else if m.frame.Header? || m.frame.Message? then n.Data? && (n.frame.Message? || Terminal(n))
    else false
  }

  /** A prefix of `Header? Message* (Trailer | Reset) Close`. */
  predicate StreamOutput(out: seq<OutMsg>) {
    && (out != [] ==> out[0].Data? && (out[0].frame.Header? || Terminal(out[0])))
    && forall i :: 0 <= i < |out| - 1 ==> Follows(out[i], out[i + 1])
  }

  /** The response payloads carried by a sequence of messages. */
  function MessagesOf(t: seq<OutMsg>): seq<Bytes> {
    if t == [] then []
    else
      var m := t[|t| - 1];
      MessagesOf(t[..|t| - 1]) + (if m.Data? && m.frame.Message? then [m.frame.payload] else [])
  }

  lemma MessagesOfSnoc(t: seq<OutMsg>, m: OutMsg)
    ensures MessagesOf(t + [m]) == MessagesOf(t) + (if m.Data? && m.frame.Message? then [m.frame.payload] else [])
  {
    assert (t + [m])[..|t|] == t;
  }

  lemma {:induction false} MessagesOfPrefix(t: seq<OutMsg>, k: nat)
    requires k <= |t|
    ensures MessagesOf(t[..k]) <= MessagesOf(t)
  {
    if k == |t| {
      assert t[..k] == t;
    } else {
      MessagesOfPrefix(t[..|t| - 1], k);
      assert t[..|t| - 1][..k] == t[..k];
    }
  }

  /** The messages among `fs` that precede the first half-close. */
  function BodyPayloads(fs: seq<Frame>): seq<Bytes> {
    if fs == [] || fs[0].HalfClose? then []
    else (if fs[0].Message? then [fs[0].payload] else []) + BodyPayloads(fs[1..])
  }

  predicate HalfClosed(fs: seq<Frame>) {
    exists i :: 0 <= i < |fs| && fs[i].HalfClose?
  }

  lemma {:induction false} BodyPayloadsSnoc(fs: seq<Frame>, f: Frame)
    ensures BodyPayloads(fs + [f])
         == BodyPayloads(fs) + (if !HalfClosed(fs) && f.Message? then [f.payload] else [])
    ensures HalfClosed(fs + [f]) == (HalfClosed(fs) || f.HalfClose?)
  {
    if fs != [] {
      assert (fs + [f])[1..] == fs[1..] + [f];
      BodyPayloadsSnoc(fs[1..], f);
      assert HalfClosed(fs) <==> fs[0].HalfClose? || HalfClosed(fs[1..]) by {
        if i :| 0 <= i < |fs| && fs[i].HalfClose? && i > 0 {
          assert fs[1..][i - 1].HalfClose?;
        }
      }
    }
    assert HalfClosed(fs + [f]) == (HalfClosed(fs) || f.HalfClose?) by {
      assert (fs + [f])[|fs|] == f;
      if i :| 0 <= i < |fs| && fs[i].HalfClose? {
        assert (fs + [f])[i].HalfClose?;
      }
    }
  }

  // ----- what one step sends -----

  /** The message the reader is about to send. */
  function ReaderMessage(at: Await): Option<OutMsg> {
    match at
    case Reply(code, text, json, _) => Some(ResetMsg(code, text, json))
    case SayClose => Some(Close(NORMAL))
    case SayGoingAway => Some(Close(GOING_AWAY))
    case _ => None
  }

  /** The message a step puts in the outbound FIFO (if the writer is still there). */
  function Sends(s: Server, step: Step): Option<OutMsg> {
    match step
    case ByReader(Advance) =>
      ReaderMessage(s.reader.at)
    case ByTask(t) => if s.stream.Some? then TaskMessage(t, s.stream.value.json) else None
    case _ => None
  }

  /** Only sends and writer steps touch the outbound side. */
  lemma OutEffect(cfg: Config, s: Server, step: Step, s': Server)
    requires Next(cfg, s, step, s') && !step.ByWriter?
    ensures s'.out == if Sends(s, step).Some? then Send(s.out, Sends(s, step).value) else s.out
  {
  }

  // ----- the writer -----

  predicate WriterInv(out: Outbound) {
    && out.written <= |out.trace|
    && (!out.open ==> out.written == |out.trace|)
    && (out.open ==> NoClose(out.trace, out.written))
    && (out.written > 0 ==> NoClose(out.trace, out.written - 1))
    && forall i :: 0 <= i < |out.pings| ==> out.pings[i] <= out.written && NoClose(out.trace, out.pings[i])
  }

  lemma WriterInvStep(cfg: Config, s: Server, step: Step, s': Server)
    requires WriterInv(s.out) && Next(cfg, s, step, s')
    ensures WriterInv(s'.out)
    ensures s.out.written <= s'.out.written && Wire(s.out) == Wire(s'.out)[..s.out.written]
  {
    if step.ByWriter? {
      WriterMoves(s, step.w);
    } else {
      OutEffect(cfg, s, step, s');
      if Sends(s, step).Some? {
        WriterQueues(s.out, Sends(s, step).value);
      }
    }
  }

  lemma WriterQueues(out: Outbound, m: OutMsg)
    requires WriterInv(out)
    ensures WriterInv(Send(out, m)) && Wire(out) == Wire(Send(out, m)) && Send(out, m).written == out.written
  {
    assert out.open ==> forall i :: 0 <= i < |out.trace| ==> (out.trace + [m])[i] == out.trace[i];
  }

  lemma WriterMoves(s: Server, w: WriterStep)
    requires WriterInv(s.out) && WriterEnabled(s, w)
    ensures var out := WriterApply(s, w);
            && WriterInv(out) && s.out.written <= out.written
            && Wire(s.out) == Wire(out)[..s.out.written]
  {
  }

  // ----- closes -----

  /** Some party is about to send the normal close. */
  predicate ClosingSoon(s: Server) {
    || s.reader.at.SayClose?
    || (s.stream.Some? && s.stream.value.phase == Closing)
  }

  predicate CloseInv(s: Server) {
    && (forall k :: 0 <= k < |s.out.trace| && s.out.trace[k] == Close(NORMAL) ==> TerminalBefore(s.out.trace, k))
    && (s.out.open && ClosingSoon(s) ==> TerminalBefore(s.out.trace, |s.out.trace|))
  }

  lemma HandleFrameCloses(cfg: Config, s: Server, f: Frame, json: bool)
    requires s.history.dispatched != []
    ensures ClosingSoon(HandleFrame(cfg, s, f, json)) ==> ClosingSoon(s)
  {
  }

  lemma ReaderCloses(cfg: Config, s: Server, r: ReaderStep)
    requires ReaderEnabled(s, r)
    ensures ClosingSoon(ReaderApply(cfg, s, r)) ==> ClosingSoon(s) || s.reader.at.Reply?
  {
    if r.Recv? && r.msg.DataIn? && Decoded(s, r.msg.data).Some? {
      HandleFrameCloses(cfg, Accept(s, r.msg.data), Decoded(s, r.msg.data).value, r.msg.data.Text?);
    }
  }

  lemma TaskCloses(s: Server, t: TaskStep)
    requires TaskEnabled(s, t) && s.out.open
    ensures ClosingSoon(TaskApply(s, t)) ==>
              ClosingSoon(s) || exists m :: TaskMessage(t, s.stream.value.json) == Some(m) && Terminal(m)
  {
  }

  /** A party newly about to close has just sent its terminal frame. */
  lemma ClosingEffect(cfg: Config, s: Server, step: Step, s': Server)
    requires Next(cfg, s, step, s') && !step.ByWriter? && s.out.open
    ensures ClosingSoon(s') ==> ClosingSoon(s) || (Sends(s, step).Some? && Terminal(Sends(s, step).value))
  {
    match step
    case ByReader(r) => ReaderCloses(cfg, s, r);
    case ByTask(t) => TaskCloses(s, t);
  }

  /** `TerminalBefore` survives appending. */
  lemma TerminalAppend(t: seq<OutMsg>, m: OutMsg)
    ensures forall k :: 0 <= k <= |t| && TerminalBefore(t, k) ==> TerminalBefore(t + [m], k)
    ensures TerminalBefore(t, |t|) || Terminal(m) ==> TerminalBefore(t + [m], |t| + 1)
  {
    var u := t + [m];
    assert u[|t|] == m;
    forall k | 0 <= k <= |t| && TerminalBefore(t, k)
      ensures TerminalBefore(u, k)
    {
      var j :| 0 <= j < k && Terminal(t[j]);
      assert u[j] == t[j];
    }
    if TerminalBefore(t, |t|) {
      var j :| 0 <= j < |t| && Terminal(t[j]);
      assert u[j] == t[j];
    }
  }

  lemma TerminalTruncate(t: seq<OutMsg>, n: nat)
    requires n <= |t|
    ensures forall k :: 0 <= k <= n && TerminalBefore(t, k) ==> TerminalBefore(t[..n], k)
  {
    forall k | 0 <= k <= n && TerminalBefore(t, k)
      ensures TerminalBefore(t[..n], k)
    {
      var j :| 0 <= j < k && Terminal(t[j]);
      assert t[..n][j] == t[j];
    }
  }

  lemma CloseStep(cfg: Config, s: Server, step: Step, s': Server)
    requires WriterInv(s.out) && CloseInv(s) && Next(cfg, s, step, s')
    ensures CloseInv(s')
  {
    if step.ByWriter? {
      TerminalTruncate(s.out.trace, s'.out.written);
    } else {
      OutEffect(cfg, s, step, s');
      if s.out.open {
        ClosingEffect(cfg, s, step, s');
      }
      if Sends(s, step).Some? {
        TerminalAppend(s.out.trace, Sends(s, step).value);
      }
    }
  }

  // ----- going away -----

  /** Once the reader says goodbye it has no stream and opens none. */
  predicate AwayInv(s: Server) {
    && (s.reader.done || s.reader.at.SayGoingAway? || s.reader.at.Leaving? ==> s.stream.None?)
    && (Close(GOING_AWAY) in s.out.trace ==> s.reader.done || s.reader.at.Leaving?)
  }

  /** The reader is leaving or has left. */
  predicate Gone(r: Reader) {
    r.done || r.at.Leaving?
  }

  lemma HandleFrameStays(cfg: Config, s: Server, f: Frame, json: bool)
    requires s.history.dispatched != [] && s.reader.at.Event?
    ensures var r := HandleFrame(cfg, s, f, json).reader;
            r.done == s.reader.done && !r.at.SayGoingAway? && !r.at.Leaving?
  {
  }

  lemma ReaderAway(cfg: Config, s: Server, r: ReaderStep)
    requires ReaderEnabled(s, r)
    requires s.reader.at.SayGoingAway? || s.reader.at.Leaving? ==> s.stream.None?
    ensures var s' := ReaderApply(cfg, s, r);
            && (s'.reader.done || s'.reader.at.SayGoingAway? || s'.reader.at.Leaving? ==> s'.stream.None?)
            && (Gone(s.reader) ==> Gone(s'.reader))
            && (r.Advance? && s.reader.at.SayGoingAway? ==> Gone(s'.reader))
  {
    hide HandleFrame;
    if r.Recv? && r.msg.DataIn? && Decoded(s, r.msg.data).Some? {
      HandleFrameStays(cfg, Accept(s, r.msg.data), Decoded(s, r.msg.data).value, r.msg.data.Text?);
    }
  }

  lemma TaskStays(s: Server, t: TaskStep)
    requires TaskEnabled(s, t)
    ensures TaskApply(s, t).reader == s.reader && TaskMessage(t, s.stream.value.json) != Some(Close(GOING_AWAY))
  {
  }

  lemma WriterKeepsTrace(s: Server, w: WriterStep)
    requires WriterEnabled(s, w)
    ensures WriterApply(s, w).trace <= s.out.trace
  {
  }

  lemma AwayStep(cfg: Config, s: Server, step: Step, s': Server)
    requires WriterInv(s.out) && AwayInv(s) && Next(cfg, s, step, s')
    ensures AwayInv(s')
  {
    hide WriterInv, ReaderApply, TaskApply, WriterApply, ReaderEnabled, TaskEnabled, WriterEnabled;
    match step
    case ByReader(r) =>
      OutEffect(cfg, s, step, s');
      ReaderAway(cfg, s, r);
    case ByTask(t) =>
      OutEffect(cfg, s, step, s');
      TaskStays(s, t);
      assert !Gone(s.reader) || s.stream.None?;
      TaskNeedsStream(s, t);
    case ByWriter(w) => WriterKeepsTrace(s, w);
  }

  lemma TaskNeedsStream(s: Server, t: TaskStep)
    requires TaskEnabled(s, t)
    ensures s.stream.Some?
  {
  }

  predicate ResetSeen(frames: seq<Frame>) {
    exists j :: 0 <= j < |frames| && frames[j].Reset?
  }

  /** Streams have been opened, yet none is open: the peer reset one, or a terminal frame is out or on its way. */
  predicate Over(s: Server, k: nat)
    requires k <= |s.out.trace|
  {
    s.history.opens == 0 || ResetSeen(s.history.dispatched) || TerminalBefore(s.out.trace, k)
  }

  predicate IdleInv(s: Server) {
    && (s.stream.None? && !s.reader.done && s.out.open ==>
          (s.reader.at.Reply? && s.reader.at.rejecting) || Over(s, |s.out.trace|))
    && (forall k :: 0 <= k < |s.out.trace| && s.out.trace[k] == Close(GOING_AWAY) ==> Over(s, k))
  }

  lemma ResetSeenSnoc(frames: seq<Frame>, f: Frame)
    ensures ResetSeen(frames) || f.Reset? ==> ResetSeen(frames + [f])
  {
    assert (frames + [f])[|frames|] == f;
    if ResetSeen(frames) {
      var j :| 0 <= j < |frames| && frames[j].Reset?;
      assert (frames + [f])[j].Reset?;
    }
  }

  lemma HandleFrameIdle(cfg: Config, s: Server, f: Frame, json: bool)
    requires s.history.dispatched != []
    requires f.Reset? ==> ResetSeen(s.history.dispatched)
    requires s.stream.None? && s.out.open ==> Over(s, |s.out.trace|)
    ensures var s' := HandleFrame(cfg, s, f, json);
            && s'.out == s.out && s'.history.dispatched == s.history.dispatched
            && (s'.stream.None? && s.out.open ==> (s'.reader.at.Reply? && s'.reader.at.rejecting) || Over(s', |s.out.trace|))
  {
  }

  lemma ReaderIdle(cfg: Config, s: Server, r: ReaderStep, s': Server)
    requires AwayInv(s) && CloseInv(s) && IdleInv(s) && ReaderEnabled(s, r) && s' == ReaderApply(cfg, s, r)
    ensures IdleInv(s')
  {
    match r
    case Recv(DataIn(d)) =>
      assert s'.out == s.out by { OutEffect(cfg, s, ByReader(r), s'); }
      assert Close(GOING_AWAY) !in s.out.trace;
      if Decoded(s, d).Some? {
        ResetSeenSnoc(s.history.dispatched, Decoded(s, d).value);
        HandleFrameIdle(cfg, Accept(s, d), Decoded(s, d).value, d.Text?);
      } else {
        assert s'.history.dispatched == s.history.dispatched;
      }
    case Advance =>
      OutEffect(cfg, s, ByReader(r), s');
      if Sends(s, ByReader(r)).Some? {
        TerminalAppend(s.out.trace, Sends(s, ByReader(r)).value);
      }
    case _ =>
  }

  lemma IdleStep(cfg: Config, s: Server, step: Step, s': Server)
    requires WriterInv(s.out) && AwayInv(s) && CloseInv(s) && IdleInv(s) && Next(cfg, s, step, s')
    ensures IdleInv(s')
  {
    match step
    case ByReader(r) => ReaderIdle(cfg, s, r, s');
    case ByTask(t) =>
      OutEffect(cfg, s, step, s');
      if Sends(s, step).Some? {
        TerminalAppend(s.out.trace, Sends(s, step).value);
      }
    case ByWriter(_) => TerminalTruncate(s.out.trace, s'.out.written);
  }

  // ----- a task's own output -----

  /** The phase of a task says what it has sent so far. */
  predicate PhaseMatches(st: Stream) {
    match st.phase
    case Resolving => st.out == []
    case Calling => st.out == []
    case Pumping => st.out != [] && var m := st.out[|st.out| - 1]; m.Data? && (m.frame.Header? || m.frame.Message?)
    case Closing => st.out != [] && Terminal(st.out[|st.out| - 1])
    case Done => st.out != [] && st.out[|st.out| - 1].Close?
  }

  predicate TaskInv(s: Server) {
    && (s.stream.Some? ==> StreamOutput(s.stream.value.out) && (s.out.open ==> PhaseMatches(s.stream.value)))
    && forall i :: 0 <= i < |s.history.past| ==> StreamOutput(s.history.past[i])
  }

  lemma HandleFrameTask(cfg: Config, s: Server, f: Frame, json: bool)
    requires s.history.dispatched != [] && TaskInv(s)
    ensures TaskInv(HandleFrame(cfg, s, f, json))
  {
  }

  lemma TaskStepTask(s: Server, t: TaskStep)
    requires TaskEnabled(s, t) && TaskInv(s)
    ensures TaskInv(TaskApply(s, t))
  {
  }

  lemma TaskInvStep(cfg: Config, s: Server, step: Step, s': Server)
    requires TaskInv(s) && Next(cfg, s, step, s')
    ensures TaskInv(s')
  {
    match step
    case ByReader(Recv(DataIn(d))) =>
      if Decoded(s, d).Some? {
        HandleFrameTask(cfg, Accept(s, d), Decoded(s, d).value, d.Text?);
      }
    case ByTask(t) => TaskStepTask(s, t);
    case _ =>
  }

  // ----- one codec -----

  /** Every data frame of `t` is one a server sends, encoded in `codec`. */
  predicate AllIn(codec: Option<bool>, t: seq<OutMsg>) {
    forall k :: 0 <= k < |t| && t[k].Data? ==> codec == Some(t[k].json) && ServerKind(t[k].frame)
  }

  predicate CodecInv(s: Server) {
    && (s.stream.Some? ==> s.reader.codec == Some(s.stream.value.json))
    && (s.reader.at.Reply? ==> s.reader.codec == Some(s.reader.at.json))
    && AllIn(s.reader.codec, s.out.trace)
  }

  lemma HandleFrameCodec(cfg: Config, s: Server, f: Frame, json: bool)
    requires s.history.dispatched != [] && CodecInv(s) && s.reader.codec == Some(json)
    ensures CodecInv(HandleFrame(cfg, s, f, json))
    ensures HandleFrame(cfg, s, f, json).reader.codec == s.reader.codec
    ensures HandleFrame(cfg, s, f, json).history.dispatched == s.history.dispatched
  {
  }

  lemma SendCodec(s: Server, s': Server, step: Step)
    requires CodecInv(s) && Sends(s, step).Some? && s'.out == Send(s.out, Sends(s, step).value)
    ensures AllIn(s.reader.codec, s'.out.trace)
  {
  }

  lemma ReaderCodec(cfg: Config, s: Server, r: ReaderStep)
    requires CodecInv(s) && ReaderEnabled(s, r)
    ensures var s' := ReaderApply(cfg, s, r);
            && CodecInv(s')
            && (s.reader.codec.Some? ==> s'.reader.codec == s.reader.codec)
            && (s.history.dispatched != s'.history.dispatched ==>
                  r.Recv? && r.msg.DataIn? && s'.reader.codec == Some(r.msg.data.Text?))
  {
    match r
    case Recv(DataIn(d)) =>
      if Decoded(s, d).Some? {
        HandleFrameCodec(cfg, Accept(s, d), Decoded(s, d).value, d.Text?);
      }
    case Advance =>
      var s' := ReaderApply(cfg, s, r);
      OutEffect(cfg, s, ByReader(r), s');
      if Sends(s, ByReader(r)).Some? {
        SendCodec(s, s', ByReader(r));
      }
    case _ =>
  }

  /** Every message that goes out, and every frame that is dispatched, is in the one codec. */
  lemma CodecStep(cfg: Config, s: Server, step: Step, s': Server)
    requires WriterInv(s.out) && CodecInv(s) && Next(cfg, s, step, s')
    ensures CodecInv(s')
    ensures s.reader.codec.Some? ==> s'.reader.codec == s.reader.codec
    ensures s.history.dispatched != s'.history.dispatched ==>
              step.ByReader? && step.r.Recv? && step.r.msg.DataIn? && s'.reader.codec == Some(step.r.msg.data.Text?)
  {
    match step
    case ByReader(r) =>
      ReaderCodec(cfg, s, r);
    case ByTask(t) =>
      OutEffect(cfg, s, step, s');
      if Sends(s, step).Some? {
        SendCodec(s, s', step);
      }
    case ByWriter(_) =>
  }

  // ----- the request body -----

  /** What the request body of the stream opened by `frames[k]` is given, as long as the stream task reads it. */
  function Expected(cfg: Config, frames: seq<Frame>, k: nat): seq<Bytes>
    requires k < |frames| && frames[k].Subscribe?
  {
    FirstPayloads(cfg, frames[k]) + (if cfg.annotation == Some(false) then [] else BodyPayloads(frames[k + 1..]))
  }

  /** Frames that end the stream they follow. */
  predicate Ends(cfg: Config, f: Frame) {
    f.Reset? || (f.Message? && |f.payload| > cfg.maxBytes)
  }

  /** `st` has been fed its expected body, but for the payload the reader is at; if the stream task stopped reading,
      some prefix of it. */
  predicate StreamFed(cfg: Config, frames: seq<Frame>, st: Stream, feeding: seq<Bytes>) {
    && st.openedAt < |frames|
    && frames[st.openedAt].Subscribe?
    && |frames[st.openedAt].initialPayload| <= cfg.maxBytes
    && (forall j :: st.openedAt < j < |frames| ==> !Ends(cfg, frames[j]))
    && st.sender == (cfg.annotation != Some(false) && !HalfClosed(frames[st.openedAt + 1..]))
    && st.fed <= Expected(cfg, frames, st.openedAt)
    && (st.reading ==> st.fed + feeding == Expected(cfg, frames, st.openedAt))
  }

  function FeedingNow(at: Await): seq<Bytes> {
    if at.Feeding? then [at.payload] else []
  }

  predicate FeedInv(cfg: Config, s: Server) {
    && (s.stream.Some? ==> StreamFed(cfg, s.history.dispatched, s.stream.value, FeedingNow(s.reader.at)))
    && (s.reader.at.Feeding? ==> s.stream.Some?)
  }

  /** What one more frame adds to the expected body. */
  lemma ExpectedSnoc(cfg: Config, frames: seq<Frame>, k: nat, f: Frame)
    requires k < |frames| && frames[k].Subscribe?
    ensures Expected(cfg, frames + [f], k)
         == Expected(cfg, frames, k)
          + if cfg.annotation != Some(false) && !HalfClosed(frames[k + 1..]) && f.Message? then [f.payload] else []
    ensures HalfClosed((frames + [f])[k + 1..]) == (HalfClosed(frames[k + 1..]) || f.HalfClose?)
  {
    assert (frames + [f])[k + 1..] == frames[k + 1..] + [f];
    BodyPayloadsSnoc(frames[k + 1..], f);
  }

  /** A live stream takes a frame that does not end it. */
  lemma StreamFedSnoc(cfg: Config, frames: seq<Frame>, st: Stream, f: Frame)
    requires StreamFed(cfg, frames, st, []) && !Ends(cfg, f)
    ensures StreamFed(cfg, frames + [f], st.(sender := st.sender && !f.HalfClose?),
                      if f.Message? && st.sender then [f.payload] else [])
  {
    ExpectedSnoc(cfg, frames, st.openedAt, f);
  }

  lemma OpenStreamFed(cfg: Config, s: Server, f: Frame, json: bool)
    requires s.history.dispatched != [] && f == s.history.dispatched[|s.history.dispatched| - 1]
    requires f.Subscribe? && |f.initialPayload| <= cfg.maxBytes
    ensures StreamFed(cfg, s.history.dispatched, OpenStream(cfg, s, f, json).stream.value, [])
  {
    var frames := s.history.dispatched;
    assert frames[|frames| - 1 + 1..] == [];
  }

  lemma HandleFrameFeeds(cfg: Config, s: Server, s1: Server, f: Frame, json: bool)
    requires FeedInv(cfg, s) && s.reader.at.Event? && s1.reader.at.Event?
    requires s1.stream == s.stream && s1.history.dispatched == s.history.dispatched + [f]
    ensures FeedInv(cfg, HandleFrame(cfg, s1, f, json))
  {
    if s.stream.Some? && !Ends(cfg, f) {
      StreamFedSnoc(cfg, s.history.dispatched, s.stream.value, f);
    } else if s.stream.None? && f.Subscribe? && |f.initialPayload| <= cfg.maxBytes {
      OpenStreamFed(cfg, s1, f, json);
    }
  }

  /** Feeding the payload the reader is at completes the body; every other change leaves `fed` alone. */
  lemma StreamFedKept(cfg: Config, frames: seq<Frame>, st: Stream, feeding: seq<Bytes>, st': Stream)
    requires StreamFed(cfg, frames, st, feeding) && |feeding| <= 1
    requires st'.openedAt == st.openedAt && st'.sender == st.sender && (st'.reading ==> st.reading)
    ensures st'.fed == st.fed ==> StreamFed(cfg, frames, st', feeding)
    ensures |feeding| == 1 && st'.reading == st.reading && st'.fed == FeedStream(st, feeding[0]).fed ==>
              StreamFed(cfg, frames, st', [])
  {
    hide BodyPayloads, HalfClosed, FirstPayloads;
  }

  lemma TaskFeeds(cfg: Config, s: Server, t: TaskStep)
    requires FeedInv(cfg, s) && TaskEnabled(s, t)
    ensures FeedInv(cfg, TaskApply(s, t))
  {
    StreamFedKept(cfg, s.history.dispatched, s.stream.value, FeedingNow(s.reader.at), TaskApply(s, t).stream.value);
  }

  lemma AdvanceFeeds(cfg: Config, s: Server)
    requires FeedInv(cfg, s) && CanAdvance(s)
    ensures FeedInv(cfg, AdvanceReader(s))
  {
    if s.reader.at.Feeding? {
      StreamFedKept(cfg, s.history.dispatched, s.stream.value, [s.reader.at.payload],
                    FeedStream(s.stream.value, s.reader.at.payload));
    }
  }

  lemma FeedStep(cfg: Config, s: Server, step: Step, s': Server)
    requires FeedInv(cfg, s) && Next(cfg, s, step, s')
    ensures FeedInv(cfg, s')
  {
    match step
    case ByReader(Recv(DataIn(d))) =>
      if Decoded(s, d).Some? {
        HandleFrameFeeds(cfg, s, Accept(s, d), Decoded(s, d).value, d.Text?);
      } else {
        assert s'.history.dispatched == s.history.dispatched;
      }
    case ByReader(Advance) => AdvanceFeeds(cfg, s);
    case ByTask(t) => TaskFeeds(cfg, s, t);
    case _ =>
  }

  // ----- response messages -----

  predicate TrailerAt(t: seq<OutMsg>, k: nat) {
    k < |t| && t[k].Data? && t[k].frame.Trailer?
  }

  /** The trace carries the emitted messages in order, all of them as long as the writer is there. */
  predicate OrderInv(out: Outbound, emitted: seq<Bytes>) {
    MessagesOf(out.trace) <= emitted && (out.open ==> MessagesOf(out.trace) == emitted)
  }

  /** A trailer stands after every message, and its task sends no more. */
  predicate TrailerInv(t: seq<OutMsg>, emitted: seq<Bytes>, live: bool) {
    forall k :: 0 <= k < |t| && TrailerAt(t, k) ==> MessagesOf(t[..k]) == emitted && !live
  }

  /** The stream task may still send response messages. */
  predicate Live(stream: Option<Stream>) {
    stream.Some? && stream.value.phase !in {Closing, Done}
  }

  predicate EmitInv(s: Server) {
    && OrderInv(s.out, s.history.emitted)
    && (s.history.opens == 0 ==> s.stream.None? && TrailerInv(s.out.trace, [], true) && s.history.emitted == [])
    && (s.history.opens <= 1 ==> TrailerInv(s.out.trace, s.history.emitted, Live(s.stream)))
  }

  lemma HandleFrameEmits(cfg: Config, s: Server, f: Frame, json: bool)
    requires s.history.dispatched != [] && EmitInv(s)
    ensures EmitInv(HandleFrame(cfg, s, f, json))
  {
    var s' := HandleFrame(cfg, s, f, json);
    assert s'.out == s.out && s'.history.emitted == s.history.emitted;
  }

  lemma TrailerAppend(t: seq<OutMsg>, m: OutMsg, emitted: seq<Bytes>, live: bool)
    requires TrailerInv(t, emitted, live)
    requires TrailerAt([m], 0) ==> MessagesOf(t) == emitted
    ensures TrailerInv(t + [m], emitted, live && !TrailerAt([m], 0))
    ensures live && m.Data? && m.frame.Message? ==> TrailerInv(t + [m], emitted + [m.frame.payload], live)
  {
    var u := t + [m];
    forall k | 0 <= k < |u| && TrailerAt(u, k)
      ensures u[..k] == (if k < |t| then t[..k] else t)
      ensures k < |t| ==> TrailerAt(t, k)
    {
    }
  }

  /** What a task step means for the message order. */
  lemma TaskEffect(s: Server, t: TaskStep)
    requires TaskEnabled(s, t)
    ensures var s' := TaskApply(s, t);
            var m := TaskMessage(t, s.stream.value.json);
            && s'.history.opens == s.history.opens && s'.stream.Some?
            && (Live(s'.stream) ==> Live(s.stream))
            && s'.out == (if m.Some? then Send(s.out, m.value) else s.out)
            && s'.history.emitted == s.history.emitted + (if s.out.open then Emitted(t) else [])
            && (m.Some? && m.value.Data? ==> Live(s.stream))
            && (m.Some? && TrailerAt([m.value], 0) ==> !Live(s'.stream))
  {
  }

  lemma TaskEmits(s: Server, t: TaskStep)
    requires TaskEnabled(s, t) && EmitInv(s)
    ensures EmitInv(TaskApply(s, t))
  {
    TaskEffect(s, t);
    var m := TaskMessage(t, s.stream.value.json);
    if s.out.open && m.Some? {
      MessagesOfSnoc(s.out.trace, m.value);
      if s.history.opens <= 1 {
        TrailerAppend(s.out.trace, m.value, s.history.emitted, Live(s.stream));
      }
    }
  }

  lemma ReaderSendsEmit(s: Server, s': Server, m: OutMsg)
    requires EmitInv(s) && s'.out == Send(s.out, m) && s'.stream == s.stream && s'.history == s.history
    requires !TrailerAt([m], 0) && !(m.Data? && m.frame.Message?)
    ensures EmitInv(s')
  {
    MessagesOfSnoc(s.out.trace, m);
    if s.history.opens == 0 {
      TrailerAppend(s.out.trace, m, [], true);
    }
    if s.history.opens <= 1 {
      TrailerAppend(s.out.trace, m, s.history.emitted, Live(s.stream));
    }
  }

  lemma TrailerTruncate(t: seq<OutMsg>, n: nat, emitted: seq<Bytes>, live: bool)
    requires n <= |t| && TrailerInv(t, emitted, live)
    ensures TrailerInv(t[..n], emitted, live)
  {
    forall k | 0 <= k < n
      ensures t[..n][..k] == t[..k]
    {
    }
  }

  lemma WriterEmits(s: Server, w: WriterStep)
    requires WriterInv(s.out) && EmitInv(s) && WriterEnabled(s, w)
    ensures EmitInv(s.(out := WriterApply(s, w)))
  {
    var out := WriterApply(s, w);
    MessagesOfPrefix(s.out.trace, out.written);
    if !out.open {
      if s.history.opens == 0 {
        TrailerTruncate(s.out.trace, out.written, [], true);
      }
      if s.history.opens <= 1 {
        TrailerTruncate(s.out.trace, out.written, s.history.emitted, Live(s.stream));
      }
    }
  }

  lemma EmitStep(cfg: Config, s: Server, step: Step, s': Server)
    requires WriterInv(s.out) && EmitInv(s) && Next(cfg, s, step, s')
    ensures EmitInv(s')
  {
    match step
    case ByReader(r) =>
      OutEffect(cfg, s, step, s');
      if r.Advance? && Sends(s, step).Some? {
        ReaderSendsEmit(s, s', Sends(s, step).value);
      } else if r.Recv? && r.msg.DataIn? && Decoded(s, r.msg.data).Some? {
        HandleFrameEmits(cfg, Accept(s, r.msg.data), Decoded(s, r.msg.data).value, r.msg.data.Text?);
      }
    case ByTask(t) => TaskEmits(s, t);
    case ByWriter(w) => WriterEmits(s, w);
  }
}
