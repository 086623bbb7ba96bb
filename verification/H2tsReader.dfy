/** The h2ts read loop, which awaits every delivery, composed with the readable stream and its consumer. */
module H2tsReader {
  import opened Common
  import opened ReadableStream

  /** `body` is the response's messages, `delivered` of them handed to the stream so far. `leaving` says the loop has
      noticed the abort: it was woken by it, or it delivered one more message and then looked. `verdict` is the error the
      call was reported with, if any. Two facts are recorded about
      the consumer: `mixed`, it let `pause()` and an outstanding `next()` overlap; and `early`, the call was reported
      while a `next()` was outstanding and messages were still queued. */
  datatype Call<T> = Call(
    body: seq<T>, delivered: nat, aborted: bool, leaving: bool, reported: bool, verdict: Option<string>,
    stream: Stream<T>, mixed: bool, early: bool)

  datatype Step = ReadOne | Report(error: Option<string>) | Abort | PauseIt | ResumeIt | NextOne

  function Init<T>(body: seq<T>, highWaterMark: int, flowing: bool): Call<T> {
    Call(body, 0, false, false, false, None, Fresh(highWaterMark, flowing), false, false)
  }

  /** The loop reads on only when its last delivery is not parked. An abort frees it, and then only to report; but an
      abort during a read does not stop that read's message from being delivered. A success is reported only at the end
      of the body. One `next()` is outstanding at a time. */
  predicate Enabled<T>(c: Call<T>, step: Step) {
    match step
    case ReadOne => !c.reported && !c.leaving && c.stream.parked == 0 && c.delivered < |c.body|
    case Report(error) =>
      && !c.reported
      && (if c.aborted then error.Some? else c.stream.parked == 0)
      && (error.None? ==> c.delivered == |c.body|)
    case Abort => true
    case PauseIt => true
    case ResumeIt => true
    case NextOne => !c.stream.waiting
  }

  function Apply<T>(c: Call<T>, step: Step): Call<T>
    requires Enabled(c, step)
  {
    match step
    case ReadOne =>
      c.(stream := Deliver(c.stream, c.body[c.delivered]), delivered := c.delivered + 1, leaving := c.aborted)
    case Report(error) =>
      c.(stream := if error.Some? then Fail(c.stream, error.value) else Finish(c.stream), reported := true, verdict := error,
         early := c.stream.waiting && c.stream.queue != [])
    case Abort => c.(aborted := true, leaving := c.leaving || c.stream.parked > 0)
    case PauseIt => c.(stream := Pause(c.stream), mixed := c.mixed || c.stream.waiting)
    case ResumeIt => c.(stream := Resume(c.stream))
    case NextOne => c.(stream := Next(c.stream), mixed := c.mixed || (c.stream.paused && Next(c.stream).waiting))
  }

  function Exec<T>(c: Call<T>, steps: seq<Step>): Option<Call<T>>
    decreases |steps|
  {
    if steps == [] then Some(c)
    else if !Enabled(c, steps[0]) then None
    else Exec(Apply(c, steps[0]), steps[1..])
  }

  // ----- the invariant -----

  /** Every `next()` that settles without a message settles as the call was reported. */
  ghost predicate Told<T>(outcomes: seq<Outcome<T>>, verdict: Option<string>) {
    forall k :: 0 <= k < |outcomes| ==>
      outcomes[k].Item? || outcomes[k] == (if verdict.None? then Done else Failed(verdict.value))
  }

  /** The messages that `next()` settles with. */
  function Items<T>(outcomes: seq<Outcome<T>>): seq<T> {
    if outcomes == [] then []
    else
      var o := outcomes[|outcomes| - 1];
      Items(outcomes[..|outcomes| - 1]) + (if o.Item? then [o.value] else [])
  }

  /** Without a listener, what is taken is what `next()` settles with. */
  ghost predicate Yielded<T>(s: Stream<T>) {
    !s.flowing ==> Items(s.outcomes) == s.taken
  }

  lemma OutcomeSnoc<T>(outcomes: seq<Outcome<T>>, o: Outcome<T>)
    ensures Items(outcomes + [o]) == Items(outcomes) + (if o.Item? then [o.value] else [])
    ensures forall v :: Told(outcomes + [o], v) <==>
      Told(outcomes, v) && (o.Item? || o == (if v.None? then Done else Failed(v.value)))
  {
    var all := outcomes + [o];
    assert all[..|outcomes|] == outcomes;
    forall v
      ensures Told(all, v) <==> Told(outcomes, v) && (o.Item? || o == (if v.None? then Done else Failed(v.value)))
    {
      assert forall k :: 0 <= k < |outcomes| ==> all[k] == outcomes[k];
      assert all[|outcomes|] == o;
    }
  }

  /** Before a report nothing has been told but messages, so any verdict fits. */
  lemma NothingTold<T>(s: Stream<T>)
    requires Valid(s) && !s.ended
    ensures forall v :: Told(s.outcomes, v)
  {
    assert !HasEnd(s.outcomes);
  }

  ghost predicate Inv<T>(c: Call<T>) {
    && Valid(c.stream)
    && c.delivered <= |c.body| && c.stream.accepted == c.body[..c.delivered]
    && c.stream.ended == c.reported
    && |c.stream.queue| <= c.stream.mark
    && (!c.reported && c.stream.parked == 0 ==> |c.stream.queue| < c.stream.mark)
    && (c.reported && c.stream.errored.None? ==> c.delivered == |c.body|)
    && (c.early ==> c.reported)
    && (HasEnd(c.stream.outcomes) && !c.early ==> c.stream.queue == [])
    && (!c.mixed ==> !c.early && (c.stream.waiting ==> !c.stream.paused))
    && c.stream.errored == c.verdict
    && Told(c.stream.outcomes, c.verdict) && Yielded(c.stream)
  }

  lemma InitInv<T>(body: seq<T>, highWaterMark: int, flowing: bool)
    ensures Inv(Init(body, highWaterMark, flowing))
  {
    FreshValid<T>(highWaterMark, flowing);
    assert body[..0] == [];
  }

  lemma ReadKeeps<T>(c: Call<T>)
    requires Inv(c) && Enabled(c, ReadOne)
    ensures Inv(Apply(c, ReadOne))
  {
    hide HasEnd, Valid, Told, Items;
    var m := c.body[c.delivered];
    ValidEnd(c.stream);
    DeliverValid(c.stream, m);
    ValidEnd(Deliver(c.stream, m));
    assert c.body[..c.delivered] + [m] == c.body[..c.delivered + 1];
    OutcomeSnoc(c.stream.outcomes, Item(m));
  }

  lemma ValidEnd<T>(s: Stream<T>)
    requires Valid(s)
    ensures s.mark >= 1 && (HasEnd(s.outcomes) ==> s.ended) && (s.errored.Some? ==> s.ended)
    ensures s.waiting ==> !s.ended && (s.queue == [] || s.paused)
    ensures s.parked > 0 ==> !s.ended && (s.paused || |s.queue| >= s.mark)
    ensures s.flowing && !s.paused ==> s.queue == []
  {
  }

  lemma ReportKeeps<T>(c: Call<T>, error: Option<string>)
    requires Inv(c) && Enabled(c, Report(error))
    ensures Inv(Apply(c, Report(error)))
  {
    hide HasEnd, Valid, Told, Items;
    ValidEnd(c.stream);
    FinishValid(c.stream);
    NothingTold(c.stream);
    var last := if error.None? then Done else Failed(error.value);
    HasEndSnoc(c.stream.outcomes, last);
    OutcomeSnoc(c.stream.outcomes, last);
    assert Items(c.stream.outcomes) + [] == Items(c.stream.outcomes);
  }

  lemma ResumeKeeps<T>(c: Call<T>)
    requires Inv(c)
    ensures Inv(Apply(c, ResumeIt))
  {
    hide HasEnd, Valid, Told, Items;
    ValidEnd(c.stream);
    ResumeValid(c.stream);
    ValidEnd(Resume(c.stream));
    if c.stream.queue != [] {
      HasEndSnoc(c.stream.outcomes, Item(c.stream.queue[0]));
      OutcomeSnoc(c.stream.outcomes, Item(c.stream.queue[0]));
    }
  }

  lemma NextKeeps<T>(c: Call<T>)
    requires Inv(c) && !c.stream.waiting
    ensures Inv(Apply(c, NextOne))
  {
    hide Inv, Apply;
    if c.stream.queue != [] {
      NextMessageKeeps(c);
    } else {
      NextEndKeeps(c);
    }
  }

  lemma NextMessageKeeps<T>(c: Call<T>)
    requires Inv(c) && !c.stream.waiting && c.stream.queue != []
    ensures Inv(Apply(c, NextOne))
  {
    hide HasEnd, Valid, Told, Items;
    ValidEnd(c.stream);
    NextValid(c.stream);
    ValidEnd(Next(c.stream));
    HasEndSnoc(c.stream.outcomes, Item(c.stream.queue[0]));
    OutcomeSnoc(c.stream.outcomes, Item(c.stream.queue[0]));
  }

  lemma NextEndKeeps<T>(c: Call<T>)
    requires Inv(c) && !c.stream.waiting && c.stream.queue == []
    ensures Inv(Apply(c, NextOne))
  {
    hide HasEnd, Valid, Told, Items;
    ValidEnd(c.stream);
    NextValid(c.stream);
    ValidEnd(Next(c.stream));
    OutcomeSnoc(c.stream.outcomes, if c.verdict.None? then Done else Failed(c.verdict.value));
    assert Items(c.stream.outcomes) + [] == Items(c.stream.outcomes);
  }

  lemma PauseKeeps<T>(c: Call<T>)
    requires Inv(c)
    ensures Inv(Apply(c, PauseIt)) && Inv(Apply(c, Abort))
  {
  }

  lemma StepKeeps<T>(c: Call<T>, step: Step)
    requires Inv(c) && Enabled(c, step)
    ensures Inv(Apply(c, step))
    ensures Apply(c, step).body == c.body && Apply(c, step).stream.mark == c.stream.mark
    ensures Apply(c, step).stream.flowing == c.stream.flowing
  {
    hide Inv;
    match step
    case ReadOne => ReadKeeps(c);
    case Report(error) => ReportKeeps(c, error);
    case Abort => PauseKeeps(c);
    case PauseIt => PauseKeeps(c);
    case ResumeIt => ResumeKeeps(c);
    case NextOne => NextKeeps(c);
  }

  lemma {:induction false} RunKeeps<T>(c: Call<T>, steps: seq<Step>)
    requires Inv(c) && Exec(c, steps).Some?
    ensures Inv(Exec(c, steps).value)
    ensures Exec(c, steps).value.body == c.body && Exec(c, steps).value.stream.mark == c.stream.mark
    ensures Exec(c, steps).value.stream.flowing == c.stream.flowing
    decreases |steps|
  {
    hide Inv, Apply, Enabled;
    if steps != [] {
      StepKeeps(c, steps[0]);
      RunKeeps(Apply(c, steps[0]), steps[1..]);
    }
  }

  // ----- theorems over every schedule -----

  /** In every interleaving of the loop, an abort and the consumer: what was yielded, then what is queued, is the body so
      far in order; the queue stays within the mark, pause included; a delivery stays parked only while paused or at
      the mark. */
  lemma Backpressure<T>(body: seq<T>, highWaterMark: int, flowing: bool, steps: seq<Step>)
    requires Exec(Init(body, highWaterMark, flowing), steps).Some?
    ensures
      var c := Exec(Init(body, highWaterMark, flowing), steps).value;
      && c.delivered <= |body|
      && c.stream.taken + c.stream.queue == body[..c.delivered]
      && |c.stream.queue| <= (if highWaterMark < 1 then 1 else highWaterMark)
      && (c.stream.parked > 0 ==>
            !c.reported && (c.stream.paused || |c.stream.queue| >= (if highWaterMark < 1 then 1 else highWaterMark)))
      && c.stream.flowing == flowing
  {
    hide Exec, HasEnd;
    InitInv(body, highWaterMark, flowing);
    RunKeeps(Init(body, highWaterMark, flowing), steps);
  }

  /** An end or an error surfaces with messages still queued in no run that keeps `pause()` and an outstanding `next()`
      apart; and in any run only if the report came while both overlapped. */
  lemma EndComesLast<T>(body: seq<T>, highWaterMark: int, flowing: bool, steps: seq<Step>)
    requires Exec(Init(body, highWaterMark, flowing), steps).Some?
    ensures
      var c := Exec(Init(body, highWaterMark, flowing), steps).value;
      && (c.early ==> c.mixed) && c.delivered <= |body|
      && (HasEnd(c.stream.outcomes) && !c.early ==> c.reported && c.stream.queue == [] && c.stream.taken == body[..c.delivered])
      && (Done in c.stream.outcomes && !c.early ==> c.stream.taken == body)
  {
    hide Exec;
    InitInv(body, highWaterMark, flowing);
    RunKeeps(Init(body, highWaterMark, flowing), steps);
    var c := Exec(Init(body, highWaterMark, flowing), steps).value;
    DoneIsEnd(c.stream.outcomes);
    assert c.stream.queue == [] ==> c.stream.taken + c.stream.queue == c.stream.taken;
    assert body[..|body|] == body;
  }

  /** What a `next()` is told. One that settles without a message is told `Done` if the call was reported without an error
      and that very error otherwise, and is told nothing before the report. Once the call is reported and the queue empty,
      the next `next()` settles at once, with exactly that. The others settle with the messages, in order. */
  lemma OutcomesAreTheVerdict<T>(body: seq<T>, highWaterMark: int, flowing: bool, steps: seq<Step>)
    requires Exec(Init(body, highWaterMark, flowing), steps).Some?
    ensures
      var c := Exec(Init(body, highWaterMark, flowing), steps).value;
      var last := if c.verdict.None? then Done else Failed(c.verdict.value);
      && (forall k :: 0 <= k < |c.stream.outcomes| && !c.stream.outcomes[k].Item? ==>
            c.reported && c.stream.outcomes[k] == last)
      && (c.reported && c.stream.queue == [] ==>
            && Enabled(c, NextOne) && Apply(c, NextOne).stream.outcomes == c.stream.outcomes + [last])
      && (!c.stream.flowing ==> Items(c.stream.outcomes) == c.stream.taken)
  {
    hide Exec;
    InitInv(body, highWaterMark, flowing);
    RunKeeps(Init(body, highWaterMark, flowing), steps);
  }

  /** The verdict is what the one report said. */
  lemma {:induction false} VerdictIsReported<T>(c: Call<T>, steps: seq<Step>)
    requires Exec(c, steps).Some? && !c.reported && c.verdict.None?
    ensures
      var d := Exec(c, steps).value;
      && (d.reported <==> exists k :: 0 <= k < |steps| && steps[k].Report?)
      && (forall k :: 0 <= k < |steps| && steps[k].Report? ==> d.verdict == steps[k].error)
    decreases |steps|
  {
    hide Exec, Apply, Enabled;
    if steps == [] {
      ExecNothing(c);
    } else {
      var d := ExecStep(c, steps);
      if steps[0].Report? {
        AfterReport(d, steps[1..]);
        assert forall k :: 1 <= k < |steps| ==> steps[k] == steps[1..][k - 1];
      } else {
        VerdictIsReported(d, steps[1..]);
        assert forall k :: 1 <= k < |steps| ==> steps[k] == steps[1..][k - 1];
        if Exec(d, steps[1..]).value.reported {
          var k :| 0 <= k < |steps[1..]| && steps[1..][k].Report?;
          assert steps[k + 1].Report?;
        }
      }
    }
  }

  lemma ExecNothing<T>(c: Call<T>)
    ensures Exec(c, []) == Some(c)
  {
  }

  lemma ExecStep<T>(c: Call<T>, steps: seq<Step>) returns (d: Call<T>)
    requires steps != [] && Exec(c, steps).Some?
    ensures Enabled(c, steps[0]) && d == Apply(c, steps[0]) && Exec(c, steps) == Exec(d, steps[1..])
    ensures steps[0].Report? ==> !c.reported && d.reported && d.verdict == steps[0].error
    ensures !steps[0].Report? ==> d.reported == c.reported && d.verdict == c.verdict
  {
    d := Apply(c, steps[0]);
  }

  /** A call is reported once. */
  lemma {:induction false} AfterReport<T>(c: Call<T>, steps: seq<Step>)
    requires c.reported && Exec(c, steps).Some?
    ensures Exec(c, steps).value.reported && Exec(c, steps).value.verdict == c.verdict
    ensures forall k :: 0 <= k < |steps| ==> !steps[k].Report?
    decreases |steps|
  {
    hide Exec, Apply, Enabled;
    if steps == [] {
      ExecNothing(c);
    } else {
      var d := ExecStep(c, steps);
      AfterReport(d, steps[1..]);
      assert forall k :: 1 <= k < |steps| ==> steps[k] == steps[1..][k - 1];
    }
  }

  /** While paused nothing is handed over by a delivery; the message waits in the queue. */
  lemma PausedHolds<T>(c: Call<T>)
    requires Enabled(c, ReadOne) && c.stream.paused && !c.stream.ended && c.stream.errored.None?
    ensures
      var s := Apply(c, ReadOne).stream;
      && s.taken == c.stream.taken && s.outcomes == c.stream.outcomes
      && s.queue == c.stream.queue + [c.body[c.delivered]] && s.parked > 0
    ensures Apply(c, PauseIt).stream.paused && !Apply(c, ResumeIt).stream.paused
  {
  }

  /** The loop is held up by nothing but a parked delivery: otherwise it reads on, or at the end of the body can report it.
      And a parked delivery is held up by nothing but its consumer: on a stream that is not paused a `next()` frees
      it. */
  lemma LoopMovesOn<T>(body: seq<T>, highWaterMark: int, flowing: bool, steps: seq<Step>)
    requires Exec(Init(body, highWaterMark, flowing), steps).Some?
    ensures
      var c := Exec(Init(body, highWaterMark, flowing), steps).value;
      && (!c.reported && !c.aborted && !c.leaving && c.stream.parked == 0 ==>
            Enabled(c, ReadOne) || (c.delivered == |body| && Enabled(c, Report(None))))
      && (!c.reported && c.aborted ==> forall e :: Enabled(c, Report(Some(e))))
      && (c.stream.parked > 0 && !c.stream.paused ==> Enabled(c, NextOne) && Apply(c, NextOne).stream.parked == 0)
  {
    hide Exec;
    InitInv(body, highWaterMark, flowing);
    RunKeeps(Init(body, highWaterMark, flowing), steps);
  }

  /** A report that comes early does surface before the queue is empty, so the condition is exact. */
  lemma EarlyIsEarly<T>(c: Call<T>, error: Option<string>)
    requires Inv(c) && Enabled(c, Report(error)) && Apply(c, Report(error)).early
    ensures HasEnd(Apply(c, Report(error)).stream.outcomes) && Apply(c, Report(error)).stream.queue != []
    ensures c.stream.paused && c.stream.waiting
  {
    hide HasEnd;
    HasEndSnoc(c.stream.outcomes, Done);
    if error.Some? {
      HasEndSnoc(c.stream.outcomes, Failed(error.value));
    }
  }

  /** It can happen: `next()`, `pause()`, a message, then a cancel. */
  lemma EarlyHappens()
    ensures exists steps ::
      && Exec(Init<nat>([7], 32, false), steps).Some?
      && Exec(Init<nat>([7], 32, false), steps).value.early
      && Failed("cancelled") in Exec(Init<nat>([7], 32, false), steps).value.stream.outcomes
      && Exec(Init<nat>([7], 32, false), steps).value.stream.queue == [7]
  {
    hide Exec, Apply, Enabled;
    var c0 := Init<nat>([7], 32, false);
    EarlyStart();
    var c2 := Apply(Apply(c0, NextOne), PauseIt);
    EarlyMiddle(c2);
    var c3 := Apply(c2, ReadOne);
    EarlyLast(c3);
    var late := Report(Some("cancelled"));
    var c5 := Apply(Apply(c3, Abort), late);
    var r4: seq<Step> := [late] + [];
    var r3 := [Abort] + r4;
    var r2 := [ReadOne] + r3;
    var r1 := [PauseIt] + r2;
    var steps := [NextOne] + r1;
    ExecOne(Apply(c3, Abort), late, []);
    ExecOne(c3, Abort, r4);
    ExecOne(c2, ReadOne, r3);
    ExecOne(Apply(c0, NextOne), PauseIt, r2);
    ExecOne(c0, NextOne, r1);
    assert Exec(c0, steps) == Some(c5);
  }

  lemma EarlyStart()
    ensures
      var c0 := Init<nat>([7], 32, false);
      && Enabled(c0, NextOne) && Enabled(Apply(c0, NextOne), PauseIt)
      && Apply(Apply(c0, NextOne), PauseIt).(mixed := true) ==
           Call([7], 0, false, false, false, None, Stream(32, false, [], false, None, true, true, 0, [], [], []), true, false)
      && Apply(Apply(c0, NextOne), PauseIt).mixed
  {
  }

  lemma EarlyMiddle(c: Call<nat>)
    requires c == Call([7], 0, false, false, false, None, Stream(32, false, [], false, None, true, true, 0, [], [], []), true, false)
    ensures Enabled(c, ReadOne)
    ensures Apply(c, ReadOne) ==
      Call([7], 1, false, false, false, None, Stream(32, false, [7], false, None, true, true, 1, [7], [], []), true, false)
  {
    var empty: seq<nat> := [];
    assert empty + [7] == [7];
  }

  lemma EarlyLast(c: Call<nat>)
    requires c == Call([7], 1, false, false, false, None, Stream(32, false, [7], false, None, true, true, 1, [7], [], []), true, false)
    ensures
      var late := Report(Some("cancelled"));
      && Enabled(c, Abort) && Enabled(Apply(c, Abort), late)
      && var d := Apply(Apply(c, Abort), late);
         d.early && d.stream.queue == [7] && Failed("cancelled") in d.stream.outcomes
  {
  }

  lemma ExecOne<T>(c: Call<T>, step: Step, rest: seq<Step>)
    requires Enabled(c, step)
    ensures Exec(c, [step] + rest) == Exec(Apply(c, step), rest)
    ensures Exec(c, []) == Some(c) && Exec(Apply(c, step), []) == Some(Apply(c, step))
  {
    assert ([step] + rest)[1..] == rest;
  }
}
