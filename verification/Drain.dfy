/** The drain counter: handlers come and go under a lock while a shutdown waits for none to be left. */
module Drain {
  import opened Common

  /** `closes` counts closings of the idle channel; a second one would panic. `inFlight` is the handlers running,
      `waiting` the shutdowns blocked, and `nils` those that have returned without error. */
  datatype Conns = Conns(n: int, draining: bool, closes: nat, inFlight: nat, waiting: nat, nils: nat)

  /** One critical section, or the two ways a blocked shutdown returns. */
  datatype Step = Add | Done | BeginWait | ReturnNil | Expire

  const Start := Conns(0, false, 0, 0, 0, 0)

  function SignalIfIdle(c: Conns): Conns {
    if !c.draining || c.n != 0 || c.closes > 0 then c else c.(closes := 1)
  }

  /** `done` follows an `add`; a blocked shutdown returns nil only through the closed channel. */
  predicate Enabled(c: Conns, step: Step) {
    match step
    case Add => true
    case Done => c.inFlight > 0
    case BeginWait => true
    case ReturnNil => c.waiting > 0 && c.closes > 0
    case Expire => c.waiting > 0
  }

  function Apply(c: Conns, step: Step): Conns
    requires Enabled(c, step)
  {
    match step
    case Add => c.(n := c.n + 1, inFlight := c.inFlight + 1)
    case Done => SignalIfIdle(c.(n := c.n - 1, inFlight := c.inFlight - 1))
    case BeginWait => SignalIfIdle(c.(draining := true, waiting := c.waiting + 1))
    case ReturnNil => c.(waiting := c.waiting - 1, nils := c.nils + 1)
    case Expire => c.(waiting := c.waiting - 1)
  }

  function Exec(steps: seq<Step>): Option<Conns> {
    if steps == [] then Some(Start)
    else
      var before := Exec(steps[..|steps| - 1]);
      if before.None? || !Enabled(before.value, steps[|steps| - 1]) then None
      else Some(Apply(before.value, steps[|steps| - 1]))
  }

  /** The counter itself; each method is one critical section. */
  class LiveConns {
    var n: int
    var draining: bool
    var idle: bool
    ghost var closes: nat
    ghost var inFlight: nat
    ghost var waiting: nat
    ghost var nils: nat

    ghost predicate Valid()
      reads this
    {
      idle <==> closes > 0
    }

    ghost function State(): Conns
      reads this
    {
      Conns(n, draining, closes, inFlight, waiting, nils)
    }

    constructor()
      ensures Valid() && State() == Start
    {
      n, draining, idle, closes, inFlight, waiting, nils := 0, false, false, 0, 0, 0, 0;
    }

    method AddOne()
      requires Valid()
      modifies this
      ensures Valid() && State() == Apply(old(State()), Add)
    {
      n := n + 1;
      inFlight := inFlight + 1;
    }

    method DoneOne()
      requires Valid() && inFlight > 0
      modifies this
      ensures Valid() && State() == Apply(old(State()), Done)
    {
      n := n - 1;
      inFlight := inFlight - 1;
      Signal();
    }

    /** The locked half of `wait`; the caller then blocks on the channel or its context. */
    method StartWait()
      requires Valid()
      modifies this
      ensures Valid() && State() == Apply(old(State()), BeginWait)
    {
      draining := true;
      waiting := waiting + 1;
      Signal();
    }

    method Signal()
      requires Valid()
      modifies this
      ensures Valid() && State() == SignalIfIdle(old(State()))
    {
      if !draining || n != 0 {
        return;
      }
      if !idle {
        idle := true;
        closes := closes + 1;
      }
    }
  }

  // ----- every interleaving -----

  /** Nothing was in flight at the end of this run, with draining begun. */
  ghost predicate QuietAt(steps: seq<Step>, k: nat) {
    k <= |steps| && Exec(steps[..k]).Some? && Exec(steps[..k]).value.draining && Exec(steps[..k]).value.inFlight == 0
  }

  ghost predicate WasQuiet(steps: seq<Step>) {
    exists k: nat :: QuietAt(steps, k)
  }

  lemma WasQuietStep(steps: seq<Step>)
    requires steps != [] && Exec(steps).Some?
    ensures WasQuiet(steps) <==>
      WasQuiet(steps[..|steps| - 1]) || (Exec(steps).value.draining && Exec(steps).value.inFlight == 0)
  {
    hide Exec;
    var before := steps[..|steps| - 1];
    assert steps[..|steps|] == steps;
    assert forall k: nat :: k < |steps| ==> before[..k] == steps[..k];
    if WasQuiet(before) {
      var k: nat :| QuietAt(before, k);
      assert QuietAt(steps, k);
    }
    if Exec(steps).value.draining && Exec(steps).value.inFlight == 0 {
      assert QuietAt(steps, |steps|);
    }
    if WasQuiet(steps) {
      var k: nat :| QuietAt(steps, k);
      if k < |steps| {
        assert QuietAt(before, k);
      }
    }
  }

  /** In every interleaving: the count is the handlers in flight, the channel is closed at most once, and it is closed
      exactly when nothing was in flight at some instant since draining began. */
  lemma {:induction false} DrainInvariant(steps: seq<Step>)
    requires Exec(steps).Some?
    ensures
      var c := Exec(steps).value;
      && c.n == c.inFlight
      && c.closes <= 1
      && (c.draining && c.n == 0 ==> c.closes == 1)
      && (c.closes == 1 <==> WasQuiet(steps))
      && (c.nils > 0 ==> WasQuiet(steps))
      && (Enabled(c, ReturnNil) <==> c.waiting > 0 && WasQuiet(steps))
  {
    if steps == [] {
      forall k: nat | k <= |steps|
        ensures steps[..k] == []
      {
      }
    } else {
      DrainInvariant(steps[..|steps| - 1]);
      WasQuietStep(steps);
      StepFacts(Exec(steps[..|steps| - 1]).value, steps[|steps| - 1]);
    }
  }

  /** What one step does to the facts above. */
  lemma StepFacts(c: Conns, step: Step)
    requires Enabled(c, step) && c.n == c.inFlight && c.closes <= 1 && (c.draining && c.n == 0 ==> c.closes == 1)
    requires c.nils > 0 ==> c.closes == 1
    ensures
      var d := Apply(c, step);
      && d.n == d.inFlight && d.closes <= 1
      && (d.closes == 1 <==> c.closes == 1 || (d.draining && d.inFlight == 0))
      && (d.nils > 0 ==> d.closes == 1)
  {
  }

  /** A shutdown may return nil with a handler in flight: one that arrived after the quiet instant. */
  lemma NilWithHandlerInFlight()
    ensures exists steps :: Exec(steps).Some? && Exec(steps).value.nils == 1 && Exec(steps).value.inFlight == 1
  {
    var s1, s2, s3 := [BeginWait], [BeginWait, Add], [BeginWait, Add, ReturnNil];
    assert s1[..0] == [] && s2[..1] == s1 && s3[..2] == s2;
    assert Exec([]) == Some(Start);
    assert Exec(s1) == Some(Conns(0, true, 1, 0, 1, 0));
    assert Exec(s2) == Some(Conns(1, true, 1, 1, 1, 0));
    assert Exec(s3) == Some(Conns(1, true, 1, 1, 0, 1));
  }
}
