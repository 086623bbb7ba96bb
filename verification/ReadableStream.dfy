/** The client's readable stream. The functions say what each call does to its state; the class is the stream itself. */
module ReadableStream {
  import opened Common

  /** How one `next()` settles. */
  datatype Outcome<T> = Item(value: T) | Done | Failed(error: string)

  /** `waiting` is an outstanding `next()`, `parked` the deliveries whose promise is unresolved. `accepted`, `taken` and
      `outcomes` are history: messages let in, messages handed to a listener or an iterator, and settled `next()`s. */
  datatype Stream<T> = Stream(
    mark: nat, flowing: bool, queue: seq<T>, ended: bool, errored: Option<string>, paused: bool, waiting: bool,
    parked: nat, accepted: seq<T>, taken: seq<T>, outcomes: seq<Outcome<T>>)

  function Fresh<T>(highWaterMark: int, flowing: bool): Stream<T> {
    Stream(if highWaterMark < 1 then 1 else highWaterMark, flowing, [], false, None, false, false, 0, [], [], [])
  }

  function Pause<T>(s: Stream<T>): Stream<T> {
    s.(paused := true)
  }

  /** Hand the head of the queue to a `next()`. */
  function Shift<T>(s: Stream<T>): Stream<T>
    requires s.queue != []
  {
    s.(queue := s.queue[1..], taken := s.taken + [s.queue[0]], outcomes := s.outcomes + [Item(s.queue[0])])
  }

  function Release<T>(s: Stream<T>): Stream<T> {
    if s.paused || |s.queue| >= s.mark then s else s.(parked := 0)
  }

  function Flush<T>(s: Stream<T>): Stream<T> {
    if s.flowing then s.(queue := [], taken := s.taken + s.queue) else s
  }

  function Resume<T>(s: Stream<T>): Stream<T> {
    if !s.paused then s
    else
      var t := Flush(s.(paused := false));
      Release(if t.queue != [] && t.waiting then Shift(t.(waiting := false)) else t)
  }

  function Deliver<T>(s: Stream<T>, m: T): Stream<T> {
    if s.ended || s.errored.Some? then s
    else if !s.paused && s.flowing then s.(accepted := s.accepted + [m], taken := s.taken + [m])
    else if !s.paused && s.waiting then
      s.(accepted := s.accepted + [m], taken := s.taken + [m], waiting := false, outcomes := s.outcomes + [Item(m)])
    else
      var t := s.(accepted := s.accepted + [m], queue := s.queue + [m]);
      if !t.paused && |t.queue| < t.mark then t else t.(parked := t.parked + 1)
  }

  /** What the end of the stream tells a `next()`. */
  function Ending<T>(s: Stream<T>): Outcome<T> {
    match s.errored
    case Some(e) => Failed(e)
    case None => Done
  }

  function Finish<T>(s: Stream<T>): Stream<T> {
    var t := s.(ended := true, parked := 0);
    if t.waiting then t.(waiting := false, outcomes := t.outcomes + [Ending(t)]) else t
  }

  function Fail<T>(s: Stream<T>, e: string): Stream<T> {
    Finish(s.(errored := Some(e)))
  }

  function Next<T>(s: Stream<T>): Stream<T> {
    if s.queue != [] then Release(Shift(s))
    else if s.errored.Some? || s.ended then s.(outcomes := s.outcomes + [Ending(s)])
    else s.(waiting := true)
  }

  /** The stream itself. A `data` listener, if any, is attached from the start. */
  class ClientReadableStream<T> {
    const highWaterMark: nat
    const hasDataListener: bool
    var queue: seq<T>
    var ended: bool
    var errored: Option<string>
    var paused: bool
    var waiter: bool
    var ready: nat
    ghost var accepted: seq<T>
    ghost var taken: seq<T>
    ghost var outcomes: seq<Outcome<T>>

    ghost function State(): Stream<T>
      reads this
    {
      Stream(highWaterMark, hasDataListener, queue, ended, errored, paused, waiter, ready, accepted, taken, outcomes)
    }

    constructor(highWaterMark: int, flowing: bool)
      ensures State() == Fresh(highWaterMark, flowing)
    {
      this.highWaterMark := if highWaterMark < 1 then 1 else highWaterMark;
      hasDataListener := flowing;
      queue, ended, errored, paused, waiter, ready := [], false, None, false, false, 0;
      accepted, taken, outcomes := [], [], [];
    }

    method PauseStream()
      modifies this
      ensures State() == Pause(old(State()))
    {
      paused := true;
    }

    method ReleaseParked()
      modifies this
      ensures State() == Release(old(State()))
    {
      if paused || |queue| >= highWaterMark {
        return;
      }
      ready := 0;
    }

    /** Hand the backlog to a listener one by one, or one message to an outstanding `next()`. */
    method ResumeStream()
      modifies this
      ensures State() == Resume(old(State()))
    {
      if !paused {
        return;
      }
      paused := false;
      assert old(queue)[0..] == old(queue) && old(taken) + [] == old(taken);
      ghost var k := 0;
      while queue != [] && hasDataListener
        invariant 0 <= k <= |old(queue)| && queue == old(queue)[k..] && taken == old(taken) + old(queue)[..k]
        invariant !hasDataListener ==> k == 0
        invariant State() == old(State()).(paused := false, queue := queue, taken := taken)
        decreases |queue|
      {
        assert old(queue)[..k] + [queue[0]] == old(queue)[..k + 1];
        taken := taken + [queue[0]];
        queue := queue[1..];
        k := k + 1;
      }
      assert State() == Flush(old(State()).(paused := false));
      if queue != [] && waiter {
        waiter := false;
        ShiftHead();
      }
      ReleaseParked();
    }

    method ShiftHead()
      requires queue != []
      modifies this
      ensures State() == Shift(old(State()))
    {
      taken, outcomes := taken + [queue[0]], outcomes + [Item(queue[0])];
      queue := queue[1..];
    }

    /** Returns whether the transport is handed a promise to wait on. */
    method DeliverMessage(m: T) returns (wait: bool)
      modifies this
      ensures State() == Deliver(old(State()), m)
      ensures wait <==> ready > old(ready)
    {
      if ended || errored.Some? {
        return false;
      }
      accepted := accepted + [m];
      if !paused {
        if hasDataListener {
          taken := taken + [m];
          return false;
        }
        if waiter {
          waiter := false;
          taken, outcomes := taken + [m], outcomes + [Item(m)];
          return false;
        }
      }
      queue := queue + [m];
      if !paused && |queue| < highWaterMark {
        return false;
      }
      ready := ready + 1;
      return true;
    }

    method FinishStream()
      modifies this
      ensures State() == Finish(old(State()))
    {
      ended := true;
      ready := 0;
      if waiter {
        waiter := false;
        outcomes := outcomes + [if errored.Some? then Failed(errored.value) else Done];
      }
    }

    method FailStream(e: string)
      modifies this
      ensures State() == Fail(old(State()), e)
    {
      errored := Some(e);
      FinishStream();
    }

    method NextMessage()
      modifies this
      ensures State() == Next(old(State()))
    {
      if queue != [] {
        ShiftHead();
        ReleaseParked();
      } else if errored.Some? {
        outcomes := outcomes + [Failed(errored.value)];
      } else if ended {
        outcomes := outcomes + [Done];
      } else {
        waiter := true;
      }
    }
  }

  // ----- what every call keeps, whatever the transport -----

  ghost predicate HasEnd<T>(outcomes: seq<Outcome<T>>) {
    exists k :: 0 <= k < |outcomes| && !outcomes[k].Item?
  }

  /** Nothing is lost, duplicated or reordered, and nothing is parked without a reason. */
  ghost predicate Valid<T>(s: Stream<T>) {
    && s.mark >= 1
    && s.taken + s.queue == s.accepted
    && (s.parked > 0 ==> !s.ended && (s.paused || |s.queue| >= s.mark))
    && (s.waiting ==> !s.ended && (s.queue == [] || s.paused))
    && (s.flowing && !s.paused ==> s.queue == [])
    && (s.errored.Some? ==> s.ended)
    && (HasEnd(s.outcomes) ==> s.ended)
    && (Done in s.outcomes ==> s.errored.None?)
  }

  lemma HasEndSnoc<T>(outcomes: seq<Outcome<T>>, o: Outcome<T>)
    ensures HasEnd(outcomes + [o]) <==> HasEnd(outcomes) || !o.Item?
    ensures Done in outcomes + [o] <==> Done in outcomes || o == Done
  {
    var all := outcomes + [o];
    assert all[|outcomes|] == o;
    if HasEnd(outcomes) {
      var k :| 0 <= k < |outcomes| && !outcomes[k].Item?;
      assert all[k] == outcomes[k];
    }
    if HasEnd(all) && o.Item? {
      var k :| 0 <= k < |all| && !all[k].Item?;
      assert all[k] == outcomes[k];
    }
  }

  lemma FreshValid<T>(highWaterMark: int, flowing: bool)
    ensures Valid(Fresh<T>(highWaterMark, flowing))
  {
  }

  lemma ShiftValid<T>(s: Stream<T>)
    requires Valid(s) && s.queue != []
    ensures Valid(Release(Shift(s)))
  {
    hide HasEnd;
    HasEndSnoc(s.outcomes, Item(s.queue[0]));
    assert [s.queue[0]] + s.queue[1..] == s.queue;
    Assoc(s.taken, [s.queue[0]], s.queue[1..]);
  }

  lemma DeliverValid<T>(s: Stream<T>, m: T)
    requires Valid(s)
    ensures Valid(Deliver(s, m))
    ensures Deliver(s, m).accepted == if s.ended then s.accepted else s.accepted + [m]
    ensures !s.ended && s.parked == 0 ==>
      |Deliver(s, m).queue| <= |s.queue| + 1 && (Deliver(s, m).parked == 0 ==> |Deliver(s, m).queue| < s.mark || |s.queue| >= s.mark)
  {
    hide HasEnd;
    HasEndSnoc(s.outcomes, Item(m));
    Assoc(s.taken, s.queue, [m]);
    assert s.queue == [] ==> s.taken + s.queue == s.taken;
    assert s.queue == [] ==> (s.taken + [m]) + s.queue == s.taken + [m];
  }

  lemma ResumeValid<T>(s: Stream<T>)
    requires Valid(s)
    ensures Valid(Resume(s))
    ensures |Resume(s).queue| <= |s.queue| && Resume(s).accepted == s.accepted && Resume(s).ended == s.ended
  {
    hide HasEnd;
    if s.paused {
      var t := Flush(s.(paused := false));
      assert (s.taken + s.queue) + [] == s.accepted;
      if t.queue != [] && t.waiting {
        HasEndSnoc(t.outcomes, Item(t.queue[0]));
        assert [t.queue[0]] + t.queue[1..] == t.queue;
        Assoc(t.taken, [t.queue[0]], t.queue[1..]);
      }
    }
  }

  lemma FinishValid<T>(s: Stream<T>)
    requires Valid(s) && !s.ended
    ensures Valid(Finish(s)) && forall e :: Valid(Fail(s, e))
  {
    hide HasEnd;
    forall e
      ensures Valid(Fail(s, e))
    {
      HasEndSnoc(s.outcomes, Failed(e));
      DoneIsEnd(s.outcomes);
    }
    HasEndSnoc(s.outcomes, Done);
  }

  lemma DoneIsEnd<T>(outcomes: seq<Outcome<T>>)
    ensures Done in outcomes ==> HasEnd(outcomes)
  {
  }

  lemma NextValid<T>(s: Stream<T>)
    requires Valid(s) && !s.waiting
    ensures Valid(Next(s))
  {
    hide HasEnd;
    if s.queue != [] {
      ShiftValid(s);
    } else {
      HasEndSnoc(s.outcomes, Ending(s));
    }
  }

  /** No wake-up is lost: on a stream that is not paused and not past its mark, one `next()` frees every parked delivery. */
  lemma NextFreesParked<T>(s: Stream<T>)
    requires Valid(s) && !s.paused && |s.queue| <= s.mark
    ensures Next(s).parked == 0
  {
  }
}
