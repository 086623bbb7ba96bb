/** The h2ts transport's cached tunnel and the connectivity state it reports. */
module Channel {
  import opened Common

  datatype Connectivity = Idle | Connecting | Ready | TransientFailure

  // ----- the watch -----

  /** What each listener is told, in order. */
  function Notices(listeners: seq<nat>, s: Connectivity): seq<(nat, Connectivity)> {
    seq(|listeners|, i requires 0 <= i < |listeners| => (listeners[i], s))
  }

  class ConnectivityWatch {
    var current: Connectivity
    var listeners: seq<nat>
    /** Every state so far, the initial one first. */
    ghost var log: seq<Connectivity>
    ghost var notices: seq<(nat, Connectivity)>

    /** No listener is listed twice. */
    ghost predicate Valid()
      reads this
    {
      && log != [] && log[|log| - 1] == current
      && forall i, j :: 0 <= i < j < |listeners| ==> listeners[i] != listeners[j]
    }

    constructor()
      ensures Valid() && log == [Idle] && listeners == [] && notices == []
    {
      current, listeners, log, notices := Idle, [], [Idle], [];
    }

    /** A repeat is not an event; anything else is told to every listener once. */
    method Set(s: Connectivity)
      requires Valid()
      modifies this
      ensures Valid() && current == s && listeners == old(listeners)
      ensures log == Recorded(old(log), s)
      ensures notices == old(notices) + if old(current) == s then [] else Notices(listeners, s)
    {
      if current == s {
        return;
      }
      current := s;
      log := log + [s];
      for i := 0 to |listeners|
        invariant Valid() && current == s && listeners == old(listeners) && log == old(log) + [s]
        invariant notices == old(notices) + Notices(listeners, s)[..i]
      {
        assert Notices(listeners, s)[..i] + [(listeners[i], s)] == Notices(listeners, s)[..i + 1];
        notices := notices + [(listeners[i], s)];
      }
    }

    method Watch(listener: nat)
      requires Valid()
      modifies this
      ensures Valid() && listeners == if listener in old(listeners) then old(listeners) else old(listeners) + [listener]
      ensures current == old(current) && log == old(log) && notices == old(notices)
    {
      if listener !in listeners {
        listeners := listeners + [listener];
      }
    }
  }

  function Recorded(log: seq<Connectivity>, s: Connectivity): seq<Connectivity>
    requires log != []
  {
    if log[|log| - 1] == s then log else log + [s]
  }

  // ----- the transport -----

  datatype Phase = Dialing | Open | Refused | Dropped

  datatype Tunnel = Tunnel(alive: bool, phase: Phase)

  /** All tunnels ever dialled, the cached one, and the states reported so far. */
  datatype Channel = Channel(tunnels: seq<Tunnel>, cached: Option<nat>, closed: bool, log: seq<Connectivity>)

  datatype Event = Call | DialOpened(i: nat) | DialRefused(i: nat) | TunnelClosed(i: nat) | Shut

  const Start := Channel([], None, false, [Idle])

  predicate Enabled(c: Channel, e: Event) {
    && c.log != []
    && (c.cached.Some? ==> c.cached.value < |c.tunnels|)
    && match e
       case Call => true
       case Shut => true
       case DialOpened(i) => i < |c.tunnels| && c.tunnels[i].phase.Dialing?
       case DialRefused(i) => i < |c.tunnels| && c.tunnels[i].phase.Dialing?
       case TunnelClosed(i) => i < |c.tunnels| && c.tunnels[i].phase.Open?
  }

  function Apply(c: Channel, e: Event): Channel
    requires Enabled(c, e)
  {
    match e
    case Call =>
      if c.cached.Some? && c.tunnels[c.cached.value].alive then c
      else c.(log := Recorded(c.log, Connecting), tunnels := c.tunnels + [Tunnel(true, Dialing)], cached := Some(|c.tunnels|))
    case DialOpened(i) => c.(tunnels := c.tunnels[i := Tunnel(c.tunnels[i].alive, Open)], log := Recorded(c.log, Ready))
    case DialRefused(i) =>
      c.(tunnels := c.tunnels[i := Tunnel(false, Refused)], cached := if c.cached == Some(i) then None else c.cached,
         log := Recorded(c.log, TransientFailure))
    case TunnelClosed(i) =>
      c.(tunnels := c.tunnels[i := Tunnel(false, Dropped)], cached := if c.cached == Some(i) then None else c.cached,
         log := if c.cached == Some(i) && !c.closed then Recorded(c.log, Idle) else c.log)
    case Shut => if c.closed then c else c.(closed := true, cached := None)
  }

  function Exec(c: Channel, events: seq<Event>): Option<Channel>
    decreases |events|
  {
    if events == [] then Some(c)
    else if !Enabled(c, events[0]) then None
    else Exec(Apply(c, events[0]), events[1..])
  }

  /** The transport itself: `conn`, the two ends of a dial, the loss of a connection, and `close`. */
  class H2tsTransport {
    var tunnels: seq<Tunnel>
    var tunnel: Option<nat>
    var closed: bool
    const connectivity: ConnectivityWatch

    ghost function State(): Channel
      reads this, connectivity
    {
      Channel(tunnels, tunnel, closed, connectivity.log)
    }

    ghost predicate Valid()
      reads this, connectivity
    {
      connectivity.Valid() && (tunnel.Some? ==> tunnel.value < |tunnels|)
    }

    constructor()
      ensures Valid() && State() == Start && fresh(connectivity)
    {
      tunnels, tunnel, closed := [], None, false;
      connectivity := new ConnectivityWatch();
    }

    method Conn() returns (i: nat)
      requires Valid()
      modifies this, connectivity
      ensures Valid() && State() == Apply(old(State()), Call) && tunnel == Some(i) && tunnels[i].alive
    {
      if tunnel.Some? && tunnels[tunnel.value].alive {
        return tunnel.value;
      }
      connectivity.Set(Connecting);
      i := |tunnels|;
      tunnels := tunnels + [Tunnel(true, Dialing)];
      tunnel := Some(i);
    }

    method OnDialOpened(i: nat)
      requires Valid() && Enabled(State(), DialOpened(i))
      modifies this, connectivity
      ensures Valid() && State() == Apply(old(State()), DialOpened(i))
    {
      tunnels := tunnels[i := Tunnel(tunnels[i].alive, Open)];
      connectivity.Set(Ready);
    }

    method OnDialRefused(i: nat)
      requires Valid() && Enabled(State(), DialRefused(i))
      modifies this, connectivity
      ensures Valid() && State() == Apply(old(State()), DialRefused(i))
    {
      tunnels := tunnels[i := Tunnel(false, Refused)];
      if tunnel == Some(i) {
        tunnel := None;
      }
      connectivity.Set(TransientFailure);
    }

    method OnTunnelClosed(i: nat)
      requires Valid() && Enabled(State(), TunnelClosed(i))
      modifies this, connectivity
      ensures Valid() && State() == Apply(old(State()), TunnelClosed(i))
    {
      tunnels := tunnels[i := Tunnel(false, Dropped)];
      if tunnel == Some(i) {
        tunnel := None;
        if !closed {
          connectivity.Set(Idle);
        }
      }
    }

    method Close()
      requires Valid()
      modifies this
      ensures Valid() && State() == Apply(old(State()), Shut)
    {
      if closed {
        return;
      }
      closed := true;
      tunnel := None;
    }
  }

  // ----- before `close()` -----

  /** The state a channel in this position reports: where its last dial got to. */
  function Reports(tunnels: seq<Tunnel>): Connectivity {
    if tunnels == [] then Idle
    else
      match tunnels[|tunnels| - 1].phase
      case Dialing => Connecting
      case Open => Ready
      case Refused => TransientFailure
      case Dropped => Idle
  }

  /** The transitions a watcher can see. */
  predicate Follows(a: Connectivity, b: Connectivity) {
    match a
    case Idle => b.Connecting?
    case Connecting => b.Ready? || b.TransientFailure?
    case Ready => b.Idle?
    case TransientFailure => b.Connecting?
  }

  predicate Orderly(log: seq<Connectivity>) {
    forall i {:trigger log[i]} :: 0 <= i < |log| - 1 ==> Follows(log[i], log[i + 1])
  }

  /** Only the last tunnel can be alive; it is alive exactly when it is dialling or open, and then it is the cached one. */
  ghost predicate Inv(c: Channel) {
    && !c.closed && c.log != [] && Orderly(c.log)
    && (forall i :: 0 <= i < |c.tunnels| ==> (c.tunnels[i].alive <==> c.tunnels[i].phase.Dialing? || c.tunnels[i].phase.Open?))
    && (forall i :: 0 <= i < |c.tunnels| ==> (c.tunnels[i].alive <==> c.cached == Some(i)))
    && (c.cached.Some? ==> c.cached.value == |c.tunnels| - 1)
    && c.log[|c.log| - 1] == Reports(c.tunnels)
  }

  lemma RecordedOrderly(log: seq<Connectivity>, s: Connectivity)
    requires log != [] && Orderly(log) && Follows(log[|log| - 1], s)
    ensures Recorded(log, s) == log + [s] && Orderly(log + [s])
  {
    var all := log + [s];
    forall i | 0 <= i < |all| - 1
      ensures Follows(all[i], all[i + 1])
    {
      if i < |log| - 1 {
        assert all[i] == log[i] && all[i + 1] == log[i + 1];
      }
    }
  }

  lemma StepKeeps(c: Channel, e: Event)
    requires Inv(c) && Enabled(c, e) && !e.Shut?
    ensures Inv(Apply(c, e))
  {
    hide Orderly;
    var last := c.log[|c.log| - 1];
    match e
    case Call =>
      if c.cached.None? {
        assert c.tunnels != [] ==> !c.tunnels[|c.tunnels| - 1].alive;
        RecordedOrderly(c.log, Connecting);
      }
    case DialOpened(i) =>
      assert c.tunnels[i].alive;
      RecordedOrderly(c.log, Ready);
    case DialRefused(i) =>
      assert c.tunnels[i].alive;
      RecordedOrderly(c.log, TransientFailure);
    case TunnelClosed(i) =>
      assert c.tunnels[i].alive;
      RecordedOrderly(c.log, Idle);
  }

  lemma {:induction false} RunKeeps(c: Channel, events: seq<Event>)
    requires Inv(c) && Shut !in events && Exec(c, events).Some?
    ensures Inv(Exec(c, events).value)
    decreases |events|
  {
    hide Inv, Apply, Enabled;
    if events != [] {
      StepKeeps(c, events[0]);
      RunKeeps(Apply(c, events[0]), events[1..]);
    }
  }

  /** Before `close()`, in every run of calls, dials and drops: at most one tunnel is alive and it is the cached one; the
      reported state is the cached tunnel's, and without one it says how the last tunnel ended. */
  lemma OneTunnel(events: seq<Event>)
    requires Shut !in events && Exec(Start, events).Some?
    ensures
      var c := Exec(Start, events).value;
      && (forall i :: 0 <= i < |c.tunnels| ==> (c.tunnels[i].alive <==> c.cached == Some(i)))
      && c.log != []
      && var now := c.log[|c.log| - 1];
         && now == Reports(c.tunnels)
         && (c.cached.Some? ==>
               && c.cached.value < |c.tunnels|
               && (now.Ready? <==> c.tunnels[c.cached.value].phase.Open?)
               && (now.Connecting? <==> c.tunnels[c.cached.value].phase.Dialing?))
         && (c.cached.None? ==> now.Idle? || now.TransientFailure?)
  {
    hide Exec, Orderly;
    assert Inv(Start) by { StartInv(); }
    RunKeeps(Start, events);
  }

  lemma StartInv()
    ensures Inv(Start)
  {
  }

  /** And the recorded states never repeat, follow the channel's automaton, and put an IDLE right after every READY that
      is not the last. */
  lemma LogIsOrderly(events: seq<Event>)
    requires Shut !in events && Exec(Start, events).Some?
    ensures
      var log := Exec(Start, events).value.log;
      && Orderly(log)
      && (forall i {:trigger log[i]} :: 0 <= i < |log| - 1 ==> log[i] != log[i + 1])
      && (forall i, j :: 0 <= i < j < |log| && log[i].Ready? && log[j].Connecting? ==>
            exists k :: i < k < j && log[k].Idle?)
  {
    hide Exec;
    StartInv();
    RunKeeps(Start, events);
    var log := Exec(Start, events).value.log;
    forall i, j | 0 <= i < j < |log| && log[i].Ready? && log[j].Connecting?
      ensures exists k :: i < k < j && log[k].Idle?
    {
      assert Follows(log[i], log[i + 1]);
      assert log[i + 1].Idle?;
    }
  }

  // ----- and after it -----

  lemma ExecOne(c: Channel, e: Event, rest: seq<Event>)
    requires Enabled(c, e)
    ensures Exec(c, [e] + rest) == Exec(Apply(c, e), rest)
    ensures Exec(Apply(c, e), []) == Some(Apply(c, e))
  {
    assert ([e] + rest)[1..] == rest;
  }

  lemma {:induction false} ExecConcat(c: Channel, a: seq<Event>, b: seq<Event>)
    ensures Exec(c, a + b) == if Exec(c, a).None? then None else Exec(Exec(c, a).value, b)
    decreases |a|
  {
    hide Apply, Enabled;
    if a == [] {
      assert a + b == b;
    } else {
      assert (a + b)[1..] == a[1..] + b && (a + b)[0] == a[0];
      if Enabled(c, a[0]) {
        ExecConcat(Apply(c, a[0]), a[1..], b);
      }
    }
  }

  /** This event ends tunnel `i`. */
  predicate EndsTunnel(e: Event, i: nat) {
    e == DialRefused(i) || e == TunnelClosed(i)
  }

  /** While nothing is cached and no call is made, tunnels only end, each by an event of its own. */
  lemma {:induction false} OnlyEnds(c: Channel, b: seq<Event>)
    requires Call !in b && c.cached.None? && c.closed && Exec(c, b).Some?
    ensures
      var d := Exec(c, b).value;
      && d.cached.None? && d.closed && |d.tunnels| == |c.tunnels|
      && forall i :: 0 <= i < |d.tunnels| ==>
           (d.tunnels[i].alive <==> c.tunnels[i].alive && forall e :: e in b ==> !EndsTunnel(e, i))
    decreases |b|
  {
    if b != [] {
      var e := b[0];
      assert e in b;
      OnlyEnds(Apply(c, e), b[1..]);
      assert forall x :: x in b <==> x == e || x in b[1..];
    }
  }

  /** After the first `close()` the next call always dials, whatever happens in between. The tunnels alive are then the
      new one and, exactly when neither its dial was refused nor its connection closed in between, the one that was
      cached at the `close()`. */
  lemma CallAfterCloseDials(a: seq<Event>, b: seq<Event>)
    requires Shut !in a && Call !in b && Exec(Start, a + [Shut] + b + [Call]).Some?
    ensures Exec(Start, a).Some?
    ensures
      var before := Exec(Start, a).value;
      var after := Exec(Start, a + [Shut] + b + [Call]).value;
      var n := |before.tunnels|;
      && |after.tunnels| == n + 1 && after.cached == Some(n) && after.tunnels[n] == Tunnel(true, Dialing)
      && forall i :: 0 <= i < n ==>
           (after.tunnels[i].alive <==> before.cached == Some(i) && forall e :: e in b ==> !EndsTunnel(e, i))
  {
    hide Exec, Orderly;
    ExecConcat(Start, a + [Shut] + b, [Call]);
    ExecConcat(Start, a + [Shut], b);
    ExecConcat(Start, a, [Shut]);
    StartInv();
    RunKeeps(Start, a);
    var before := Exec(Start, a).value;
    ExecLast(before, Shut);
    var shut := Apply(before, Shut);
    OnlyEnds(shut, b);
    ExecLast(Exec(shut, b).value, Call);
  }

  lemma ExecLast(c: Channel, e: Event)
    ensures Exec(c, [e]) == if Enabled(c, e) then Some(Apply(c, e)) else None
  {
    assert [e][1..] == [];
  }

  /** `close()` ends the guarantee: a later call dials again while the old tunnel is still closing, so two are alive, and
      READY is followed by CONNECTING with no IDLE between. */
  lemma CloseDoesNotStopDialling()
    ensures exists events ::
      && Exec(Start, events).Some?
      && var c := Exec(Start, events).value;
         |c.tunnels| == 2 && c.tunnels[0].alive && c.tunnels[1].alive && c.log == [Idle, Connecting, Ready, Connecting]
  {
    hide Exec;
    var c1 := Apply(Start, Call);
    var c2 := Apply(c1, DialOpened(0));
    var c3 := Apply(c2, Shut);
    var c4 := Apply(c3, Call);
    var r3 := [Call] + [];
    var r2 := [Shut] + r3;
    var r1 := [DialOpened(0)] + r2;
    var events := [Call] + r1;
    ExecOne(c3, Call, []);
    ExecOne(c2, Shut, r3);
    ExecOne(c1, DialOpened(0), r2);
    ExecOne(Start, Call, r1);
    assert Exec(Start, events) == Some(c4);
  }
}
