/** What single steps of an execution answer: when a stream is opened, what a refusal says, what drain, departure and the
    stream task send. Codes are written out as numbers here. */
module WsServerSteps {
  import opened Common
  import opened WsFrames
  import opened WsServer
  import opened WsServerProofs
  import opened WsServerTheorems

  // ----- vocabulary -----

  /** Step `i` gives the frame `f` to the reader. */
  predicate Dispatched(run: seq<Server>, i: nat, f: Frame)
    requires i + 1 < |run|
  {
    run[i + 1].history.dispatched == run[i].history.dispatched + [f]
  }

  /** `k` is the reader's next step after step `i`. */
  predicate NextReader(steps: seq<Step>, i: nat, k: nat) {
    i < k < |steps| && steps[k].ByReader? && forall m :: i < m < k ==> !steps[m].ByReader?
  }

  /** The message `m` joins the outbound FIFO, if the writer is still there, and nothing else happens to it. */
  predicate Sent(before: Outbound, after: Outbound, m: OutMsg) {
    after == before.(trace := if before.open then before.trace + [m] else before.trace)
  }

  // ----- between two reader steps -----

  lemma OthersWait(cfg: Config, s: Server, step: Step, s': Server)
    requires Next(cfg, s, step, s') && !step.ByReader?
    ensures s'.reader == s.reader && (s.stream.None? ==> s'.stream.None?)
  {
  }

  lemma {:induction false} ReaderWaits(cfg: Config, run: seq<Server>, steps: seq<Step>, i: nat, k: nat)
    requires IsRun(cfg, run, steps) && i < k < |run| && forall m :: i < m < k ==> !steps[m].ByReader?
    ensures run[k].reader == run[i + 1].reader && (run[i + 1].stream.None? ==> run[k].stream.None?)
  {
    hide Next, Init;
    if k > i + 1 {
      ReaderWaits(cfg, run, steps, i, k - 1);
      OthersWait(cfg, run[k - 1], steps[k - 1], run[k]);
    }
  }

  /** A reader that is not waiting for an event does what it is about to do. */
  lemma MustAdvance(cfg: Config, s: Server, step: Step, s': Server)
    requires Next(cfg, s, step, s') && step.ByReader? && !s.reader.at.Event?
    ensures step == ByReader(Advance)
    ensures s.reader.at.Reply? ==>
      && Sent(s.out, s'.out, Data(Reset(s.reader.at.code, s.reader.at.text), s.reader.at.json))
      && s'.stream == s.stream && s'.history == s.history
      && s'.reader == s.reader.(at := if s.reader.at.rejecting then SayClose else Event)
    ensures s.reader.at.SayClose? ==>
      Sent(s.out, s'.out, Close(1000)) && s'.stream == s.stream && s'.reader == s.reader.(at := Event)
    ensures s.reader.at.SayGoingAway? ==> Sent(s.out, s'.out, Close(1001)) && s'.reader == s.reader.(at := Leaving)
    ensures s.reader.at.Leaving? ==> s'.out == s.out && s'.stream.None? && s'.reader.done
  {
  }

  /** The reader's next step says what it stands at. */
  lemma Follows(cfg: Config, run: seq<Server>, steps: seq<Step>, i: nat, k: nat)
    requires IsRun(cfg, run, steps) && NextReader(steps, i, k) && !run[i + 1].reader.at.Event?
    ensures run[k].reader == run[i + 1].reader && Next(cfg, run[k], steps[k], run[k + 1])
    ensures run[i + 1].stream.None? ==> run[k].stream.None?
  {
    hide Next, Init;
    ReaderWaits(cfg, run, steps, i, k);
  }

  /** A refusal: the `Reset`, and then the normal close. */
  lemma Refuses(cfg: Config, run: seq<Server>, steps: seq<Step>, i: nat, k: nat, l: nat, code: nat, text: string, json: bool)
    requires IsRun(cfg, run, steps) && i < |steps| && run[i + 1].reader.at == Reply(code, text, json, true)
    ensures NextReader(steps, i, k) ==> Sent(run[k].out, run[k + 1].out, Data(Reset(code, text), json))
    ensures NextReader(steps, i, k) && NextReader(steps, k, l) ==> Sent(run[l].out, run[l + 1].out, Close(1000))
  {
    hide Next, Init, Sent;
    if NextReader(steps, i, k) {
      Follows(cfg, run, steps, i, k);
      MustAdvance(cfg, run[k], steps[k], run[k + 1]);
      if NextReader(steps, k, l) {
        Follows(cfg, run, steps, k, l);
        MustAdvance(cfg, run[l], steps[l], run[l + 1]);
      }
    }
  }

  // ----- opening a stream -----

  /** One data message that dispatches `f`. */
  lemma ReceiveDispatch(cfg: Config, s: Server, step: Step, s': Server, f: Frame)
    requires Next(cfg, s, step, s') && s'.history.dispatched == s.history.dispatched + [f]
    ensures step.ByReader? && step.r.Recv? && step.r.msg.DataIn? && s.reader.at.Event? && !s.reader.done
    ensures Decoded(s, step.r.msg.data) == Some(f) && s' == HandleFrame(cfg, Accept(s, step.r.msg.data), f, step.r.msg.data.Text?)
    ensures var a := Accept(s, step.r.msg.data);
            a.stream == s.stream && a.out == s.out && a.reader.at.Event? && !a.reader.done && a.history.opens == s.history.opens
  {
    hide HandleFrame;
    GrowsOnlyByReceiving(cfg, s, step, s');
    if Decoded(s, step.r.msg.data).Some? {
      var g := Decoded(s, step.r.msg.data).value;
      HandleFrameKeeps(cfg, Accept(s, step.r.msg.data), g, step.r.msg.data.Text?);
      assert (s.history.dispatched + [g])[|s.history.dispatched|] == g;
      assert (s.history.dispatched + [f])[|s.history.dispatched|] == f;
    }
  }

  lemma HandleFrameKeeps(cfg: Config, s: Server, f: Frame, json: bool)
    requires s.history.dispatched != []
    ensures HandleFrame(cfg, s, f, json).history.dispatched == s.history.dispatched
    ensures HandleFrame(cfg, s, f, json).out == s.out
  {
  }

  lemma GrowsOnlyByReceiving(cfg: Config, s: Server, step: Step, s': Server)
    requires Next(cfg, s, step, s') && |s'.history.dispatched| > |s.history.dispatched|
    ensures step.ByReader? && step.r.Recv? && step.r.msg.DataIn? && s.reader.at.Event? && !s.reader.done
  {
    hide HandleFrame;
    if step.ByReader? && step.r.Advance? {
      AdvanceDispatchesNothing(s);
    }
  }

  lemma AdvanceDispatchesNothing(s: Server)
    requires CanAdvance(s)
    ensures AdvanceReader(s).history.dispatched == s.history.dispatched
  {
  }

  /** A `Subscribe` opens a stream exactly when none is open, its inline message is within the limit and the method is
      valid. The stream starts with that message, if there is one, and on a route without a body with one empty message
      and its request side closed. Otherwise it is answered: with no stream open, by a `Reset` (8 for size, else 3) and a normal close; with
      one open, by a `Reset` (3) alone, and the stream is not touched. */
  lemma SubscribeIff(cfg: Config, run: seq<Server>, steps: seq<Step>, i: nat, f: Frame, k: nat, l: nat)
    requires IsRun(cfg, run, steps) && i < |steps| && Dispatched(run, i, f) && f.Subscribe?
    ensures steps[i].ByReader? && steps[i].r.Recv? && steps[i].r.msg.DataIn?
    ensures run[i + 1].out == run[i].out
    ensures run[i].stream.None? ==> (run[i + 1].stream.Some? <==> |f.initialPayload| <= cfg.maxBytes && cfg.methodOk)
    ensures run[i + 1].history.opens == run[i].history.opens + (if run[i].stream.None? && run[i + 1].stream.Some? then 1 else 0)
    ensures run[i].stream.None? && run[i + 1].stream.Some? ==>
      var st := run[i + 1].stream.value;
      && st.json == steps[i].r.msg.data.Text? && (st.deadline <==> f.timeoutMillis != 0)
      && st.out == [] && st.reading && run[i + 1].reader.at.Event?
      && st.fed == (if f.initialPayload == [] then [] else [f.initialPayload]) + (if cfg.annotation == Some(false) then [[]] else [])
      && (st.sender <==> cfg.annotation != Some(false))
    ensures run[i].stream.None? && run[i + 1].stream.None? ==>
      var json := steps[i].r.msg.data.Text?;
      && (NextReader(steps, i, k) ==>
            Sent(run[k].out, run[k + 1].out,
                 if |f.initialPayload| > cfg.maxBytes
                 then Data(Reset(8, "request message exceeds size limit"), json)
                 else Data(Reset(3, "invalid method"), json)))
      && (NextReader(steps, i, k) && NextReader(steps, k, l) ==> Sent(run[l].out, run[l + 1].out, Close(1000)))
    ensures run[i].stream.Some? ==>
      && run[i + 1].stream == run[i].stream
      && (NextReader(steps, i, k) ==>
            && Sent(run[k].out, run[k + 1].out, Data(Reset(3, "stream already open"), steps[i].r.msg.data.Text?))
            && run[k + 1].reader.at.Event? && run[k + 1].stream == run[k].stream)
  {
    hide Next, Init, Sent;
    var s, s' := run[i], run[i + 1];
    ReceiveDispatch(cfg, s, steps[i], s', f);
    var json := steps[i].r.msg.data.Text?;
    SubscribeEffect(cfg, Accept(s, steps[i].r.msg.data), f, json);
    if s.stream.Some? {
      if NextReader(steps, i, k) {
        Follows(cfg, run, steps, i, k);
        MustAdvance(cfg, run[k], steps[k], run[k + 1]);
      }
    } else if |f.initialPayload| > cfg.maxBytes {
      Refuses(cfg, run, steps, i, k, l, 8, "request message exceeds size limit", json);
    } else if !cfg.methodOk {
      Refuses(cfg, run, steps, i, k, l, 3, "invalid method", json);
    }
  }

  lemma SubscribeEffect(cfg: Config, s: Server, f: Frame, json: bool)
    requires f.Subscribe? && s.history.dispatched != [] && s.reader.at.Event?
    ensures var s' := HandleFrame(cfg, s, f, json);
            && s'.out == s.out
            && (s.stream.Some? ==>
                  && s'.stream == s.stream && s'.history == s.history
                  && s'.reader.at == Reply(3, "stream already open", json, false))
            && (s.stream.None? && |f.initialPayload| > cfg.maxBytes ==>
                  && s'.stream == s.stream && s'.history == s.history
                  && s'.reader.at == Reply(8, "request message exceeds size limit", json, true))
            && (s.stream.None? && |f.initialPayload| <= cfg.maxBytes && !cfg.methodOk ==>
                  && s'.stream == s.stream && s'.history == s.history
                  && s'.reader.at == Reply(3, "invalid method", json, true))
            && (s.stream.None? && |f.initialPayload| <= cfg.maxBytes && cfg.methodOk ==>
                  && s'.stream.Some? && s'.reader == s.reader && s'.history.opens == s.history.opens + 1
                  && s'.stream.value.json == json && (s'.stream.value.deadline <==> f.timeoutMillis != 0)
                  && s'.stream.value.out == [] && s'.stream.value.reading
                  && s'.stream.value.fed ==
                       (if f.initialPayload == [] then [] else [f.initialPayload]) +
                       (if cfg.annotation == Some(false) then [[]] else [])
                  && (s'.stream.value.sender <==> cfg.annotation != Some(false)))
  {
  }

  /** A message over the limit ends the stream and the connection: a `Reset` (8) and a normal close. A client's `Reset`
      ends the stream and is not answered. */
  lemma EndingFrames(cfg: Config, run: seq<Server>, steps: seq<Step>, i: nat, f: Frame, k: nat, l: nat)
    requires IsRun(cfg, run, steps) && i < |steps| && Dispatched(run, i, f)
    requires f.Reset? || (f.Message? && |f.payload| > cfg.maxBytes)
    ensures steps[i].ByReader? && steps[i].r.Recv? && steps[i].r.msg.DataIn?
    ensures run[i + 1].stream.None? && run[i + 1].out == run[i].out
    ensures f.Reset? ==> run[i + 1].reader.at.Event?
    ensures f.Message? && NextReader(steps, i, k) ==>
      Sent(run[k].out, run[k + 1].out, Data(Reset(8, "request message exceeds size limit"), steps[i].r.msg.data.Text?))
    ensures f.Message? && NextReader(steps, i, k) && NextReader(steps, k, l) ==>
      Sent(run[l].out, run[l + 1].out, Close(1000))
  {
    hide Next, Init, Sent;
    ReceiveDispatch(cfg, run[i], steps[i], run[i + 1], f);
    var json := steps[i].r.msg.data.Text?;
    EndingEffect(cfg, Accept(run[i], steps[i].r.msg.data), f, json);
    if f.Message? {
      Refuses(cfg, run, steps, i, k, l, 8, "request message exceeds size limit", json);
    }
  }

  lemma EndingEffect(cfg: Config, s: Server, f: Frame, json: bool)
    requires s.history.dispatched != [] && s.reader.at.Event?
    requires f.Reset? || (f.Message? && |f.payload| > cfg.maxBytes)
    ensures var s' := HandleFrame(cfg, s, f, json);
            && s'.stream.None? && s'.out == s.out
            && s'.reader.at == if f.Reset? then Event else Reply(8, "request message exceeds size limit", json, true)
  {
  }

  /** A message up to and including the limit, and a half-close, leave a stream open and are not answered. While the
      request side is open the reader's next step gives the message to the stream task, if that still reads; the half-close
      ends the request side. */
  lemma RequestFrames(cfg: Config, run: seq<Server>, steps: seq<Step>, i: nat, f: Frame, k: nat)
    requires IsRun(cfg, run, steps) && i < |steps| && Dispatched(run, i, f) && run[i].stream.Some?
    requires f.HalfClose? || (f.Message? && |f.payload| <= cfg.maxBytes)
    ensures run[i + 1].stream.Some? && run[i + 1].out == run[i].out
    ensures f.HalfClose? ==> run[i + 1].stream == Some(run[i].stream.value.(sender := false)) && run[i + 1].reader.at.Event?
    ensures f.Message? ==> run[i + 1].stream == run[i].stream
    ensures f.Message? && !run[i].stream.value.sender ==> run[i + 1].reader.at.Event?
    ensures f.Message? && run[i].stream.value.sender && NextReader(steps, i, k) && run[k].stream.Some? ==>
      var before, after := run[k].stream.value, run[k + 1].stream;
      && after.Some? && run[k + 1].out == run[k].out && run[k + 1].reader.at.Event?
      && after.value.fed == before.fed + (if before.reading then [f.payload] else [])
      && after.value.queue == before.queue + (if before.reading then [f.payload] else [])
  {
    hide Next, Init;
    ReceiveDispatch(cfg, run[i], steps[i], run[i + 1], f);
    RequestEffect(cfg, Accept(run[i], steps[i].r.msg.data), f, steps[i].r.msg.data.Text?);
    if f.Message? && run[i].stream.value.sender && NextReader(steps, i, k) && run[k].stream.Some? {
      Follows(cfg, run, steps, i, k);
      FeedEffect(cfg, run[k], steps[k], run[k + 1]);
    }
  }

  lemma RequestEffect(cfg: Config, s: Server, f: Frame, json: bool)
    requires s.history.dispatched != [] && s.reader.at.Event? && s.stream.Some?
    requires f.HalfClose? || (f.Message? && |f.payload| <= cfg.maxBytes)
    ensures var s' := HandleFrame(cfg, s, f, json);
            && s'.out == s.out
            && s'.stream == Some(if f.HalfClose? then s.stream.value.(sender := false) else s.stream.value)
            && s'.reader.at == if f.Message? && s.stream.value.sender then Feeding(f.payload) else Event
  {
  }

  lemma FeedEffect(cfg: Config, s: Server, step: Step, s': Server)
    requires Next(cfg, s, step, s') && step.ByReader? && s.reader.at.Feeding? && s.stream.Some?
    ensures s'.stream.Some? && s'.out == s.out && s'.reader.at.Event?
    ensures
      var more := if s.stream.value.reading then [s.reader.at.payload] else [];
      && s'.stream.value.fed == s.stream.value.fed + more
      && s'.stream.value.queue == s.stream.value.queue + more
  {
  }

  // ----- drain and departure -----

  /** Draining with no stream open sends the going-away close and leaves; with one open it changes nothing but the flag. */
  lemma DrainIff(cfg: Config, run: seq<Server>, steps: seq<Step>, i: nat, k: nat, l: nat)
    requires IsRun(cfg, run, steps) && i < |steps| && steps[i] == ByReader(Drain)
    ensures run[i + 1].stream == run[i].stream && run[i + 1].out == run[i].out && run[i + 1].reader.draining
    ensures run[i].stream.Some? ==> run[i + 1].reader == run[i].reader.(draining := true)
    ensures run[i].stream.None? && NextReader(steps, i, k) ==> Sent(run[k].out, run[k + 1].out, Close(1001))
    ensures run[i].stream.None? && NextReader(steps, i, k) && NextReader(steps, k, l) ==> run[l + 1].reader.done
  {
    hide Next, Init, Sent;
    DrainEffect(cfg, run[i], run[i + 1]);
    if run[i].stream.None? && NextReader(steps, i, k) {
      Follows(cfg, run, steps, i, k);
      MustAdvance(cfg, run[k], steps[k], run[k + 1]);
      if NextReader(steps, k, l) {
        Follows(cfg, run, steps, k, l);
        MustAdvance(cfg, run[l], steps[l], run[l + 1]);
      }
    }
  }

  lemma DrainEffect(cfg: Config, s: Server, s': Server)
    requires Next(cfg, s, ByReader(Drain), s')
    ensures s'.stream == s.stream && s'.out == s.out && s'.reader.draining
    ensures s'.reader == s.reader.(draining := true, at := if s.stream.None? then SayGoingAway else s.reader.at)
  {
  }

  /** A peer that closes or is gone ends the reader and the stream with it; nothing is sent, and nothing is read again. */
  lemma PeerLeaves(cfg: Config, run: seq<Server>, steps: seq<Step>, i: nat, j: nat)
    requires IsRun(cfg, run, steps) && i < j < |run|
    requires steps[i] == ByReader(PeerGone) || steps[i] == ByReader(Recv(CloseIn))
    ensures run[i + 1].out == run[i].out
    ensures run[j].reader.done && run[j].stream.None? && (j < |steps| ==> !steps[j].ByReader?)
  {
    hide Next, Init;
    LeaveEffect(cfg, run[i], steps[i], run[i + 1]);
    StaysGone(cfg, run, steps, i + 1, j);
    if j < |steps| {
      GoneReaderIsStill(cfg, run[j], steps[j], run[j + 1]);
    }
  }

  lemma LeaveEffect(cfg: Config, s: Server, step: Step, s': Server)
    requires Next(cfg, s, step, s') && (step == ByReader(PeerGone) || step == ByReader(Recv(CloseIn)))
    ensures s'.out == s.out && s'.reader.done && s'.stream.None?
  {
  }

  lemma GoneReaderIsStill(cfg: Config, s: Server, step: Step, s': Server)
    requires Next(cfg, s, step, s') && s.reader.done
    ensures !step.ByReader? && s'.reader.done
  {
  }

  lemma {:induction false} StaysGone(cfg: Config, run: seq<Server>, steps: seq<Step>, i: nat, j: nat)
    requires IsRun(cfg, run, steps) && i <= j < |run| && run[i].reader.done && run[i].stream.None?
    ensures run[j].reader.done && run[j].stream.None?
  {
    hide Next, Init;
    if i < j {
      StaysGone(cfg, run, steps, i, j - 1);
      GoneReaderIsStill(cfg, run[j - 1], steps[j - 1], run[j]);
      OthersWait(cfg, run[j - 1], steps[j - 1], run[j]);
    }
  }

  // ----- the writer -----

  /** What a step of the writer does to the outbound side. */
  predicate WriterDoes(step: WriterStep, before: Outbound, after: Outbound)
    requires before.written <= |before.trace|
  {
    match step
    case Write =>
      && before.written < |before.trace| && after.written == before.written + 1 && after.pings == before.pings
      && (after.open <==> !before.trace[before.written].Close?)
      && after.trace == (if after.open then before.trace else before.trace[..after.written])
    case Ping => after == before.(pings := before.pings + [before.written])
    case WriteFails => after == before.(open := false, trace := before.trace[..before.written])
    case WriterEnds => after == before.(open := false)
  }

  /** What each step of the writer does: the next message goes out, and after a close nothing more; a ping goes out between
      messages and is noted there; and however it stops, what it had not sent is dropped. */
  lemma WriterSays(cfg: Config, run: seq<Server>, steps: seq<Step>, i: nat)
    requires IsRun(cfg, run, steps) && i < |steps| && steps[i].ByWriter?
    ensures run[i].out.open && run[i].out.written <= |run[i].out.trace|
    ensures run[i + 1].reader == run[i].reader && run[i + 1].stream == run[i].stream
    ensures WriterDoes(steps[i].w, run[i].out, run[i + 1].out)
    ensures steps[i].w.WriterEnds? ==> run[i].reader.done && run[i].stream.None?
  {
    hide Init;
    assert Next(cfg, run[i], steps[i], run[i + 1]);
    assert run[i].out.trace[..|run[i].out.trace|] == run[i].out.trace;
  }

  // ----- the stream task -----

  /** What a step of the stream task does to the outbound side. */
  predicate TaskSends(step: TaskStep, json: bool, before: Outbound, after: Outbound) {
    match step
    case Respond(md) => Sent(before, after, Data(Header(md), json))
    case Emit(p) => Sent(before, after, Data(Message(p), json))
    case Finish(code, text, md) => Sent(before, after, Data(Trailer(code, text, md), json))
    case ResolveFailed(code, text) => json && Sent(before, after, Data(Reset(code, text), json))
    case CallFailed(text) => Sent(before, after, Data(Reset(14, text), json))
    case EncodeFailed(text) => json && Sent(before, after, Data(Reset(13, text), json))
    case DeadlineFires => Sent(before, after, Data(Trailer(4, "deadline exceeded", map[]), json))
    case CloseStream => Sent(before, after, Close(1000))
    case Resolved => after == before
    case TakeRequest => after == before
    case DropBody => after == before
  }

  /** What each step of the stream task sends: the response it relays, in order, or the status of what went wrong. */
  lemma TaskSays(cfg: Config, run: seq<Server>, steps: seq<Step>, i: nat)
    requires IsRun(cfg, run, steps) && i < |steps| && steps[i].ByTask?
    ensures run[i].stream.Some? && TaskSends(steps[i].t, run[i].stream.value.json, run[i].out, run[i + 1].out)
  {
    hide Init;
    assert Next(cfg, run[i], steps[i], run[i + 1]);
  }

  lemma StreamIdentity(cfg: Config, s: Server, step: Step, s': Server)
    requires Next(cfg, s, step, s') && s.stream.Some? && s'.stream.Some?
    ensures s'.stream.value.openedAt == s.stream.value.openedAt && s'.stream.value.deadline == s.stream.value.deadline
  {
    hide HandleFrame, AdvanceReader, TaskApply;
    match step
    case ByReader(Recv(DataIn(d))) =>
      if Decoded(s, d).Some? {
        HandleFrameIdentity(cfg, Accept(s, d), Decoded(s, d).value, d.Text?);
      }
    case ByReader(Advance) => AdvanceIdentity(s);
    case ByTask(t) => TaskIdentity(s, t);
    case _ =>
  }

  lemma HandleFrameIdentity(cfg: Config, s: Server, f: Frame, json: bool)
    requires s.history.dispatched != []
    ensures var s' := HandleFrame(cfg, s, f, json);
            s.stream.Some? && s'.stream.Some? ==>
              s'.stream.value.openedAt == s.stream.value.openedAt && s'.stream.value.deadline == s.stream.value.deadline
  {
  }

  lemma AdvanceIdentity(s: Server)
    requires CanAdvance(s)
    ensures var s' := AdvanceReader(s);
            s.stream.Some? && s'.stream.Some? ==>
              s'.stream.value.openedAt == s.stream.value.openedAt && s'.stream.value.deadline == s.stream.value.deadline
  {
  }

  lemma TaskIdentity(s: Server, t: TaskStep)
    requires TaskEnabled(s, t)
    ensures var st := TaskApply(s, t).stream.value;
            TaskApply(s, t).stream.Some? && st.openedAt == s.stream.value.openedAt && st.deadline == s.stream.value.deadline
  {
  }

  /** Only receiving opens a stream, and the frame that opens it is the last one dispatched. */
  lemma OpensByReceiving(cfg: Config, s: Server, step: Step, s': Server)
    requires Next(cfg, s, step, s') && s.stream.None? && s'.stream.Some?
    ensures var frames := s'.history.dispatched;
            && frames != [] && frames[|frames| - 1].Subscribe?
            && s'.stream.value.openedAt == |frames| - 1
            && (s'.stream.value.deadline <==> frames[|frames| - 1].timeoutMillis != 0)
  {
  }

  lemma DispatchedGrows(cfg: Config, s: Server, step: Step, s': Server)
    requires Next(cfg, s, step, s')
    ensures s.history.dispatched <= s'.history.dispatched
  {
    hide HandleFrame;
    match step
    case ByReader(Recv(DataIn(d))) =>
      if Decoded(s, d).Some? {
        HandleFrameKeeps(cfg, Accept(s, d), Decoded(s, d).value, d.Text?);
      }
    case _ =>
  }

  /** A stream has a deadline exactly when the frame that opened it asked for one, so a deadline fires on no other. */
  lemma {:induction false} DeadlineIff(cfg: Config, run: seq<Server>, steps: seq<Step>, i: nat)
    requires IsRun(cfg, run, steps) && i < |run| && run[i].stream.Some?
    ensures var st, frames := run[i].stream.value, run[i].history.dispatched;
            && st.openedAt < |frames| && frames[st.openedAt].Subscribe?
            && (st.deadline <==> frames[st.openedAt].timeoutMillis != 0)
    ensures i < |steps| && steps[i] == ByTask(DeadlineFires) ==> run[i].stream.value.deadline
  {
    hide Next;
    if i > 0 {
      var s, s' := run[i - 1], run[i];
      assert Next(cfg, s, steps[i - 1], s');
      DispatchedGrows(cfg, s, steps[i - 1], s');
      if s.stream.Some? {
        DeadlineIff(cfg, run, steps, i - 1);
        StreamIdentity(cfg, s, steps[i - 1], s');
      } else {
        OpensByReceiving(cfg, s, steps[i - 1], s');
      }
    }
    if i < |steps| && steps[i] == ByTask(DeadlineFires) {
      DeadlineEnabled(cfg, run[i], run[i + 1]);
    }
  }

  lemma DeadlineEnabled(cfg: Config, s: Server, s': Server)
    requires Next(cfg, s, ByTask(DeadlineFires), s')
    ensures s.stream.Some? && s.stream.value.deadline
  {
  }

  // ----- the first frame -----

  /** Frames count from the first `Subscribe` on, and a text connection has only that one. */
  ghost predicate OpensFirst(s: Server) {
    var frames := s.history.dispatched;
    && (s.reader.begun <==> frames != [])
    && (frames != [] ==> frames[0].Subscribe? && s.reader.codec.Some?)
    && (s.reader.codec == Some(true) ==> forall j :: 1 <= j < |frames| ==> !frames[j].Subscribe?)
  }

  lemma NoDispatch(cfg: Config, s: Server, step: Step, s': Server)
    requires Next(cfg, s, step, s') && !(step.ByReader? && step.r.Recv? && step.r.msg.DataIn?)
    ensures s'.history.dispatched == s.history.dispatched && s'.reader.begun == s.reader.begun
    ensures s'.reader.codec == s.reader.codec
  {
  }

  lemma HandleFrameReader(cfg: Config, s: Server, f: Frame, json: bool)
    requires s.history.dispatched != []
    ensures var r := HandleFrame(cfg, s, f, json).reader;
            r.begun == s.reader.begun && r.codec == s.reader.codec
  {
  }

  lemma AcceptOpensFirst(s: Server, d: WsData)
    requires OpensFirst(s)
    ensures OpensFirst(Accept(s, d))
  {
  }

  lemma StepOpensFirst(cfg: Config, s: Server, step: Step, s': Server)
    requires OpensFirst(s) && Next(cfg, s, step, s')
    ensures OpensFirst(s')
  {
    hide HandleFrame, AdvanceReader, TaskApply, WriterApply;
    if step.ByReader? && step.r.Recv? && step.r.msg.DataIn? {
      var d := step.r.msg.data;
      AcceptOpensFirst(s, d);
      if Decoded(s, d).Some? {
        HandleFrameKeeps(cfg, Accept(s, d), Decoded(s, d).value, d.Text?);
        HandleFrameReader(cfg, Accept(s, d), Decoded(s, d).value, d.Text?);
      }
    } else {
      NoDispatch(cfg, s, step, s');
    }
  }

  /** In every execution the first frame dispatched is a `Subscribe`, and a text connection never has a second. */
  lemma {:induction false} FirstFrame(cfg: Config, run: seq<Server>, steps: seq<Step>, i: nat)
    requires IsRun(cfg, run, steps) && i < |run|
    ensures OpensFirst(run[i])
  {
    hide Next;
    if i > 0 {
      FirstFrame(cfg, run, steps, i - 1);
      StepOpensFirst(cfg, run[i - 1], steps[i - 1], run[i]);
    }
  }

  // ----- capacity -----

  ghost predicate Bounded(s: Server) {
    && s.out.written <= |s.out.trace| && (s.out.open ==> |s.out.trace| - s.out.written <= 64)
    && (s.stream.Some? ==> |s.stream.value.queue| <= 16)
  }

  lemma HandleFrameBounded(cfg: Config, s: Server, f: Frame, json: bool)
    requires s.history.dispatched != [] && (s.stream.Some? ==> |s.stream.value.queue| <= 16)
    ensures var s' := HandleFrame(cfg, s, f, json);
            s'.out == s.out && (s'.stream.Some? ==> |s'.stream.value.queue| <= 16)
  {
  }

  lemma StepBounded(cfg: Config, s: Server, step: Step, s': Server)
    requires Bounded(s) && Next(cfg, s, step, s')
    ensures Bounded(s')
  {
    hide HandleFrame;
    match step
    case ByReader(Recv(DataIn(d))) =>
      if Decoded(s, d).Some? {
        HandleFrameBounded(cfg, Accept(s, d), Decoded(s, d).value, d.Text?);
      }
    case _ =>
  }

  /** The outbound FIFO never holds more than 64 messages, nor a request channel more than 16. */
  lemma {:induction false} QueuesAreBounded(cfg: Config, run: seq<Server>, steps: seq<Step>, i: nat)
    requires IsRun(cfg, run, steps) && i < |run|
    ensures Bounded(run[i])
  {
    hide Next;
    if i > 0 {
      QueuesAreBounded(cfg, run, steps, i - 1);
      StepBounded(cfg, run[i - 1], steps[i - 1], run[i]);
    }
  }

  // ----- progress -----

  /** The outbound FIFO takes another message at once, or is nobody's concern any more. */
  predicate Room(out: Outbound) {
    !out.open || |out.trace| - out.written < 64
  }

  /** A reader that waits takes whatever comes; one about to send needs room; one about to feed needs a place in the request
      channel, or no one to feed. */
  lemma ReaderMoves(s: Server, m: Inbound)
    requires !s.reader.done
    ensures s.reader.at.Event? ==>
      ReaderEnabled(s, Recv(m)) && ReaderEnabled(s, PeerGone) && (ReaderEnabled(s, ReaderStep.Drain) <==> !s.reader.draining)
    ensures s.reader.at.Reply? || s.reader.at.SayClose? || s.reader.at.SayGoingAway? ==>
      (ReaderEnabled(s, Advance) <==> Room(s.out))
    ensures s.reader.at.Leaving? ==> ReaderEnabled(s, Advance)
    ensures s.reader.at.Feeding? ==>
      (ReaderEnabled(s, Advance) <==>
         (s.stream.Some? && s.stream.value.reading ==> |s.stream.value.queue| < 16))
  {
  }

  /** What the stream task may do next, phase by phase: whatever the backend answers can be relayed as soon as there is
      room. */
  lemma TaskMoves(s: Server, md: Meta, p: Bytes, code: nat, text: string)
    requires s.stream.Some?
    ensures
      var st := s.stream.value;
      && (st.phase == Resolving ==>
            TaskEnabled(s, Resolved) && (TaskEnabled(s, ResolveFailed(code, text)) <==> st.json && Room(s.out)))
      && (st.phase == Calling ==>
            (TaskEnabled(s, Respond(md)) <==> Room(s.out)) && (TaskEnabled(s, CallFailed(text)) <==> Room(s.out)))
      && (st.phase == Pumping ==>
            && (TaskEnabled(s, Emit(p)) <==> Room(s.out)) && (TaskEnabled(s, Finish(code, text, md)) <==> Room(s.out))
            && (TaskEnabled(s, EncodeFailed(text)) <==> st.json && Room(s.out)))
      && (st.phase == Closing ==> (TaskEnabled(s, CloseStream) <==> Room(s.out)))
      && (TaskEnabled(s, DeadlineFires) <==> (st.phase == Calling || st.phase == Pumping) && st.deadline && Room(s.out))
      && (TaskEnabled(s, TakeRequest) <==> st.queue != [])
  {
  }

  /** In every state of every execution nobody waits for nobody: a reader that is not done takes whatever comes or can go on,
      or else the writer has a message to send, or the stream task a request to take; and a stream task that is not done
      can go on, or else the writer has a message to send. */
  lemma NeverStuck(cfg: Config, run: seq<Server>, steps: seq<Step>, i: nat)
    requires IsRun(cfg, run, steps) && i < |run|
    ensures !run[i].reader.done ==>
      || run[i].reader.at.Event?
      || ReaderEnabled(run[i], Advance)
      || WriterEnabled(run[i], Write)
      || TaskEnabled(run[i], TakeRequest)
    ensures run[i].stream.Some? && run[i].stream.value.phase != Done ==>
      || TaskEnabled(run[i], Resolved)
      || (forall md :: TaskEnabled(run[i], Respond(md)))
      || (forall p :: TaskEnabled(run[i], Emit(p)))
      || TaskEnabled(run[i], CloseStream)
      || WriterEnabled(run[i], Write)
  {
    var s := run[i];
    QueuesAreBounded(cfg, run, steps, i);
    hide IsRun, TaskEnabled, ReaderEnabled;
    if !s.reader.done {
      ReaderMoves(s, ControlIn);
    }
    if s.stream.Some? {
      forall md: Meta, p: Bytes
        ensures s.stream.value.phase == Calling ==> (TaskEnabled(s, Respond(md)) <==> Room(s.out))
        ensures s.stream.value.phase == Pumping ==> (TaskEnabled(s, Emit(p)) <==> Room(s.out))
      {
        TaskMoves(s, md, p, 0, "");
      }
      TaskMoves(s, map[], [], 0, "");
    }
  }
}
