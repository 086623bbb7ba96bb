/** Calls of one client sharing one token bucket, in every interleaving. */
module SharedThrottle {
  import opened Common
  import opened Retry
  import T = Throttle

  /** Where a call is: in its `k`-th attempt, sleeping after it before the next, or over. */
  datatype Phase = Running(k: nat) | Sleeping(k: nat) | Over

  /** Every call made so far, what they have recorded with the bucket, the attempts started in all, and how many calls
      have ended in success without being committed before. */
  datatype Fleet = Fleet(calls: seq<Phase>, events: seq<T.Event>, started: nat, successes: nat)

  /** A call is made; an attempt ends, its status final if it is committed; a sleep ends, in time or not. */
  datatype Step = Make | AttemptEnds(i: nat, status: StatusResult, committed: bool) | SleepEnds(i: nat, ok: bool)

  const Start := Fleet([], [], 0, 0)

  predicate Enabled(f: Fleet, step: Step) {
    match step
    case Make => true
    case AttemptEnds(i, _, _) => i < |f.calls| && f.calls[i].Running?
    case SleepEnds(i, _) => i < |f.calls| && f.calls[i].Sleeping?
  }

  /** The bucket's verdict as things stand. */
  function Now(c: T.Throttling, f: Fleet): Option<bool> {
    Some(T.Allowed(c, T.Tokens(c, f.events)))
  }

  function Apply(c: T.Throttling, p: Option<Resolved>, f: Fleet, step: Step): Fleet
    requires Enabled(f, step)
  {
    match step
    case Make => f.(calls := f.calls + [Running(1)], started := f.started + 1)
    case AttemptEnds(i, status, committed) =>
      if committed then f.(calls := f.calls[i := Over])
      else
        var k := f.calls[i].k;
        f.(calls := f.calls[i := if Grants(p, Now(c, f), status, k) then Sleeping(k) else Over],
           events := f.events + Closing(p, Now(c, f), status, k),
           successes := if status.code == 0 && !Grants(p, Now(c, f), status, k) then f.successes + 1 else f.successes)
    case SleepEnds(i, ok) =>
      if ok then f.(calls := f.calls[i := Running(f.calls[i].k + 1)], started := f.started + 1)
      else f.(calls := f.calls[i := Over])
  }

  function Exec(c: T.Throttling, p: Option<Resolved>, f: Fleet, steps: seq<Step>): Option<Fleet>
    decreases |steps|
  {
    if steps == [] then Some(f)
    else if !Enabled(f, steps[0]) then None
    else Exec(c, p, Apply(c, p, f, steps[0]), steps[1..])
  }

  /** Calls asleep: each holds a grant that no attempt has used yet. */
  function Asleep(calls: seq<Phase>): nat {
    if calls == [] then 0 else Asleep(calls[..|calls| - 1]) + (if calls[|calls| - 1].Sleeping? then 1 else 0)
  }

  lemma {:induction false} AsleepUpdate(calls: seq<Phase>, i: nat, x: Phase)
    requires i < |calls|
    ensures Asleep(calls[i := x]) - (if x.Sleeping? then 1 else 0) == Asleep(calls) - (if calls[i].Sleeping? then 1 else 0)
  {
    var n := |calls| - 1;
    var now := calls[i := x];
    if i == n {
      assert now[..n] == calls[..n];
    } else {
      AsleepUpdate(calls[..n], i, x);
      assert now[..n] == calls[..n][i := x];
    }
  }

  lemma AsleepSnoc(calls: seq<Phase>, x: Phase)
    ensures Asleep(calls + [x]) == Asleep(calls) + (if x.Sleeping? then 1 else 0)
  {
    assert (calls + [x])[..|calls|] == calls;
  }

  /** The bucket's history is legal, no call is past its limit, and every attempt beyond a call's first was paid for. */
  ghost predicate Inv(c: T.Throttling, p: Option<Resolved>, f: Fleet) {
    && T.Legal(c, f.events)
    && (forall i :: 0 <= i < |f.calls| && f.calls[i].Running? ==> 1 <= f.calls[i].k <= Limit(p))
    && (forall i :: 0 <= i < |f.calls| && f.calls[i].Sleeping? ==> 1 <= f.calls[i].k < Limit(p))
    && f.started + Asleep(f.calls) <= |f.calls| + T.Count(f.events, T.Grant)
    && f.successes == T.Count(f.events, T.Success)
  }

  /** What one attempt records keeps the history legal, and a grant is counted. */
  lemma RecordLegal(c: T.Throttling, p: Option<Resolved>, events: seq<T.Event>, status: StatusResult, k: nat)
    requires T.Legal(c, events)
    ensures
      var allowed := Some(T.Allowed(c, T.Tokens(c, events)));
      var more := events + Closing(p, allowed, status, k);
      && T.Legal(c, more)
      && T.Count(more, T.Grant) == T.Count(events, T.Grant) + (if Grants(p, allowed, status, k) then 1 else 0)
      && T.Count(more, T.Success) ==
           T.Count(events, T.Success) + (if status.code == 0 && !Grants(p, allowed, status, k) then 1 else 0)
  {
    var allowed := Some(T.Allowed(c, T.Tokens(c, events)));
    var recorded := Closing(p, allowed, status, k);
    if recorded == [] {
      assert events + recorded == events;
    } else {
      assert (events + recorded)[..|events|] == events;
    }
  }

  lemma EndKeeps(c: T.Throttling, p: Option<Resolved>, f: Fleet, i: nat, status: StatusResult, committed: bool)
    requires Inv(c, p, f) && Enabled(f, AttemptEnds(i, status, committed))
    ensures Inv(c, p, Apply(c, p, f, AttemptEnds(i, status, committed)))
  {
    hide T.Legal, T.Count, Asleep, Closing, T.Tokens;
    var k := f.calls[i].k;
    RecordLegal(c, p, f.events, status, k);
    AsleepUpdate(f.calls, i, Over);
    AsleepUpdate(f.calls, i, Sleeping(k));
  }

  lemma StepKeeps(c: T.Throttling, p: Option<Resolved>, f: Fleet, step: Step)
    requires Limit(p) >= 1 && Inv(c, p, f) && Enabled(f, step)
    ensures Inv(c, p, Apply(c, p, f, step))
    ensures |Apply(c, p, f, step).calls| == |f.calls| + (if step.Make? then 1 else 0)
  {
    hide T.Legal, T.Count, Asleep, Closing, T.Tokens, Grants;
    match step
    case Make => AsleepSnoc(f.calls, Running(1));
    case AttemptEnds(i, status, committed) => EndKeeps(c, p, f, i, status, committed);
    case SleepEnds(i, ok) =>
      AsleepUpdate(f.calls, i, Over);
      AsleepUpdate(f.calls, i, Running(f.calls[i].k + 1));
  }

  lemma {:induction false} RunKeeps(c: T.Throttling, p: Option<Resolved>, f: Fleet, steps: seq<Step>)
    requires Limit(p) >= 1 && Inv(c, p, f) && Exec(c, p, f, steps).Some?
    ensures Inv(c, p, Exec(c, p, f, steps).value)
    decreases |steps|
  {
    hide Inv, Apply, Enabled;
    if steps != [] {
      StepKeeps(c, p, f, steps[0]);
      RunKeeps(c, p, Apply(c, p, f, steps[0]), steps[1..]);
    }
  }

  /** In every interleaving of any number of calls sharing a bucket, the history is legal and no call starts more than
      its limit of attempts. Attempts in all stay below the calls made, plus half the bucket, one more, and what the calls
      that ended in success returned, a retry costing at least the bucket's price. */
  lemma LoadIsBounded(c: T.Throttling, p: Option<Resolved>, steps: seq<Step>)
    requires c.maxTokens > 0.0 && c.tokenRatio >= 0.0 && Limit(p) >= 1 && Exec(c, p, Start, steps).Some?
    ensures
      var f := Exec(c, p, Start, steps).value;
      var successes := f.successes as real;
      && T.Legal(c, f.events)
      && (forall i :: 0 <= i < |f.calls| && !f.calls[i].Over? ==> 1 <= f.calls[i].k <= Limit(p))
      && f.started - |f.calls| <= T.Count(f.events, T.Grant)
      && T.Price(c) * T.Count(f.events, T.Grant) as real < c.maxTokens / 2.0 + T.Price(c) + c.tokenRatio * successes
      && (c.maxTokens >= 2.0 ==> (f.started - |f.calls|) as real < c.maxTokens / 2.0 + 1.0 + c.tokenRatio * successes)
  {
    hide Exec, T.Legal, T.Count, T.Price;
    assert Inv(c, p, Start) by { StartInv(c, p); }
    RunKeeps(c, p, Start, steps);
    var f := Exec(c, p, Start, steps).value;
    T.GrantsBounded(c, f.events);
    if c.maxTokens >= 2.0 {
      T.GrantsBelow(c, f.events);
    }
  }

  lemma StartInv(c: T.Throttling, p: Option<Resolved>)
    ensures Inv(c, p, Start)
  {
  }
}
