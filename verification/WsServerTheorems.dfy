/** Whole-run theorems about the server's half of one WebSocket connection: every interleaving of reader, stream
    task, writer, deadline and drain. */
module WsServerTheorems {
  import opened Common
  import opened WsFrames
  import opened WsServer
  import opened WsServerProofs

  predicate Inv(cfg: Config, s: Server) {
    WriterInv(s.out) && CloseInv(s) && AwayInv(s) && IdleInv(s) && TaskInv(s) && CodecInv(s) && FeedInv(cfg, s) && EmitInv(s)
  }

  lemma InitInv(cfg: Config)
    ensures Inv(cfg, Init(cfg))
  {
    var t := Init(cfg).out.trace;
    assert forall k :: 0 <= k < |t| ==> MessagesOf(t[..k]) == [];
  }

  lemma StepInv(cfg: Config, s: Server, step: Step, s': Server)
    requires Inv(cfg, s) && Next(cfg, s, step, s')
    ensures Inv(cfg, s')
  {
    WriterInvStep(cfg, s, step, s');
    CloseStep(cfg, s, step, s');
    AwayStep(cfg, s, step, s');
    IdleStep(cfg, s, step, s');
    TaskInvStep(cfg, s, step, s');
    CodecStep(cfg, s, step, s');
    FeedStep(cfg, s, step, s');
    EmitStep(cfg, s, step, s');
  }

  lemma {:induction false} RunInv(cfg: Config, run: seq<Server>, steps: seq<Step>, i: nat)
    requires IsRun(cfg, run, steps) && i < |run|
    ensures Inv(cfg, run[i])
  {
    if i == 0 {
      InitInv(cfg);
    } else {
      RunInv(cfg, run, steps, i - 1);
      StepInv(cfg, run[i - 1], steps[i - 1], run[i]);
    }
  }

  /** What has been written stays written. */
  lemma {:induction false} WireGrows(cfg: Config, run: seq<Server>, steps: seq<Step>, i: nat, j: nat)
    requires IsRun(cfg, run, steps) && i <= j < |run|
    ensures run[i].out.written <= |run[i].out.trace| && run[j].out.written <= |run[j].out.trace|
    ensures Wire(run[i].out) <= Wire(run[j].out)
  {
    hide Inv, Next, Init;
    WrittenAt(cfg, run, steps, i);
    if i < j {
      WireGrows(cfg, run, steps, i, j - 1);
      WireGrowsOnce(cfg, run, steps, j - 1);
    }
  }

  lemma WrittenAt(cfg: Config, run: seq<Server>, steps: seq<Step>, i: nat)
    requires IsRun(cfg, run, steps) && i < |run|
    ensures WriterInv(run[i].out) && run[i].out.written <= |run[i].out.trace|
  {
    hide IsRun;
    RunInv(cfg, run, steps, i);
  }

  lemma WireGrowsOnce(cfg: Config, run: seq<Server>, steps: seq<Step>, i: nat)
    requires IsRun(cfg, run, steps) && i < |steps|
    ensures run[i].out.written <= |run[i].out.trace| && run[i + 1].out.written <= |run[i + 1].out.trace|
    ensures Wire(run[i].out) <= Wire(run[i + 1].out)
  {
    WrittenAt(cfg, run, steps, i);
    WrittenAt(cfg, run, steps, i + 1);
    assert Next(cfg, run[i], steps[i], run[i + 1]);
    hide Next, IsRun;
    WriterInvStep(cfg, run[i], steps[i], run[i + 1]);
  }

  /** Nothing is written after the first close, not even a ping, and every normal close on the wire comes after
      a `Trailer` or `Reset`. */
  lemma ClosesAreLast(cfg: Config, run: seq<Server>, steps: seq<Step>, i: nat, k: nat)
    requires IsRun(cfg, run, steps) && i < |run|
    ensures run[i].out.written <= |run[i].out.trace|
    ensures var wire := Wire(run[i].out);
            k < |wire| && wire[k].Close? ==>
              && k == |wire| - 1
              && (forall p :: p in run[i].out.pings ==> p <= k)
              && (wire[k].code == NORMAL ==> exists j :: 0 <= j < k && Terminal(wire[j]))
  {
    RunInv(cfg, run, steps, i);
    var s := run[i];
    var wire := Wire(s.out);
    if k < |wire| && wire[k].Close? {
      forall p | p in s.out.pings
        ensures p <= k
      {
        var q :| 0 <= q < |s.out.pings| && s.out.pings[q] == p;
        assert NoClose(s.out.trace, s.out.pings[q]);
      }
      if wire[k].code == NORMAL {
        assert TerminalBefore(s.out.trace, k);
        var j :| 0 <= j < k && Terminal(s.out.trace[j]);
        assert wire[j] == s.out.trace[j];
      }
    }
  }

  /** A going-away close is on the wire only while no stream is open, and none is opened afterwards. */
  lemma GoingAwayOnlyWhenIdle(cfg: Config, run: seq<Server>, steps: seq<Step>, i: nat, j: nat)
    requires IsRun(cfg, run, steps) && i <= j < |run|
    ensures run[i].out.written <= |run[i].out.trace|
    ensures Close(GOING_AWAY) in Wire(run[i].out) ==> run[i].stream.None? && run[j].stream.None?
  {
    RunInv(cfg, run, steps, i);
    RunInv(cfg, run, steps, j);
    WireGrows(cfg, run, steps, i, j);
    if Close(GOING_AWAY) in Wire(run[i].out) {
      assert Close(GOING_AWAY) in Wire(run[j].out);
    }
  }

  /** Whatever each stream task has sent, running or aborted, is a prefix of
      `Header? Message* (Trailer | Reset) Close`. */
  lemma TaskOutputs(cfg: Config, run: seq<Server>, steps: seq<Step>, i: nat)
    requires IsRun(cfg, run, steps) && i < |run|
    ensures run[i].stream.Some? ==> StreamOutput(run[i].stream.value.out)
    ensures forall out :: out in run[i].history.past ==> StreamOutput(out)
  {
    RunInv(cfg, run, steps, i);
  }

  /** The codec across one step of a run. */
  lemma CodecAt(cfg: Config, run: seq<Server>, steps: seq<Step>, i: nat)
    requires IsRun(cfg, run, steps) && i < |steps|
    ensures run[i].reader.codec.Some? ==> run[i + 1].reader.codec == run[i].reader.codec
    ensures run[i].history.dispatched != run[i + 1].history.dispatched ==>
              && steps[i].ByReader? && steps[i].r.Recv? && steps[i].r.msg.DataIn?
              && run[i + 1].reader.codec == Some(steps[i].r.msg.data.Text?)
  {
    RunInv(cfg, run, steps, i);
    CodecStep(cfg, run[i], steps[i], run[i + 1]);
  }

  lemma {:induction false} CodecStays(cfg: Config, run: seq<Server>, steps: seq<Step>, i: nat, j: nat)
    requires IsRun(cfg, run, steps) && i <= j < |run| && run[i].reader.codec.Some?
    ensures run[j].reader.codec == run[i].reader.codec
  {
    if i < j {
      CodecStays(cfg, run, steps, i, j - 1);
      CodecAt(cfg, run, steps, j - 1);
    }
  }

  /** One codec per connection: every data frame ever queued or written, and every message whose frame is
      dispatched, agrees with every other. */
  lemma OneCodec(cfg: Config, run: seq<Server>, steps: seq<Step>, i: nat, j: nat, k: nat)
    requires IsRun(cfg, run, steps) && i < |steps| && j < |run|
    requires run[i].history.dispatched != run[i + 1].history.dispatched
    ensures steps[i].ByReader? && steps[i].r.Recv? && steps[i].r.msg.DataIn?
    ensures k < |run[j].out.trace| && run[j].out.trace[k].Data? ==>
              run[j].out.trace[k].json == steps[i].r.msg.data.Text?
  {
    hide Next, Init;
    CodecAt(cfg, run, steps, i);
    RunInv(cfg, run, steps, j);
    if i + 1 <= j {
      CodecStays(cfg, run, steps, i + 1, j);
    } else if run[j].reader.codec.Some? {
      CodecStays(cfg, run, steps, j, i + 1);
    }
  }

  lemma {:induction false} BodyPayloadsWithin(cfg: Config, frames: seq<Frame>)
    requires forall f :: f in frames ==> !Ends(cfg, f)
    ensures forall p :: p in BodyPayloads(frames) ==> |p| <= cfg.maxBytes
  {
    if frames != [] {
      assert frames[0] in frames;
      BodyPayloadsWithin(cfg, frames[1..]);
    }
  }

  lemma FedWithin(cfg: Config, frames: seq<Frame>, st: Stream, feeding: seq<Bytes>)
    requires StreamFed(cfg, frames, st, feeding)
    ensures forall p :: p in st.fed ==> |p| <= cfg.maxBytes
  {
    BodyPayloadsWithin(cfg, frames[st.openedAt + 1..]);
    assert forall p :: p in st.fed ==> p in Expected(cfg, frames, st.openedAt);
  }

  /** The request body of an open stream. The frame that opened it is a `Subscribe` and nothing dispatched since
      was a `Reset` or an oversize message. While the stream task reads and the reader is not in the middle of feeding,
      the body has been given exactly the nonempty initial payload and then, on a route that takes a body, the
      messages up to the first half-close, in order (on a route without one, a single empty payload); once the
      task has stopped reading, a prefix of that. Every payload is within the limit. */
  lemma RequestBody(cfg: Config, run: seq<Server>, steps: seq<Step>, i: nat)
    requires IsRun(cfg, run, steps) && i < |run| && run[i].stream.Some?
    ensures var st := run[i].stream.value;
            var frames := run[i].history.dispatched;
            && st.openedAt < |frames| && frames[st.openedAt].Subscribe?
            && (forall j :: st.openedAt < j < |frames| ==> !Ends(cfg, frames[j]))
            && st.fed <= Expected(cfg, frames, st.openedAt)
            && (st.reading && run[i].reader.at.Event? ==> st.fed == Expected(cfg, frames, st.openedAt))
            && (forall p :: p in st.fed ==> |p| <= cfg.maxBytes)
  {
    RunInv(cfg, run, steps, i);
    FedWithin(cfg, run[i].history.dispatched, run[i].stream.value, FeedingNow(run[i].reader.at));
  }
}
