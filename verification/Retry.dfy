/** Retrying unary and server-streaming calls. Attempts, sleeps, the throttle's verdicts and random numbers are given as
    functions of the attempt, so that every outcome and every interleaving with other calls is covered. */
module Retry {
  import opened Common
  import T = Throttle

  const OK := 0
  const UNAVAILABLE := 14

  // ----- policy -----

  datatype RetryPolicy = RetryPolicy(
    maxAttempts: Option<real>, initialBackoffMs: Option<real>, maxBackoffMs: Option<real>,
    backoffMultiplier: Option<real>, retryableStatusCodes: Option<set<nat>>)

  datatype Resolved = Resolved(
    maxAttempts: nat, initialBackoffMs: real, maxBackoffMs: real, backoffMultiplier: real, codes: set<nat>)

  function Or<X>(o: Option<X>, default: X): X {
    match o case Some(x) => x case None => default
  }

  function ResolvePolicy(p: RetryPolicy): (r: Resolved)
    ensures r.maxAttempts >= 1 && r.initialBackoffMs >= 0.0 && r.maxBackoffMs >= 0.0 && r.backoffMultiplier >= 1.0
  {
    var n := Or(p.maxAttempts, 5.0).Floor;
    Resolved(
      if n < 1 then 1 else n, T.Max(0.0, Or(p.initialBackoffMs, 100.0)), T.Max(0.0, Or(p.maxBackoffMs, 2000.0)),
      T.Max(1.0, Or(p.backoffMultiplier, 2.0)), Or(p.retryableStatusCodes, {UNAVAILABLE}))
  }

  /** `pushback` is the server's header: absent, unreadable, or a number. */
  datatype StatusResult = StatusResult(code: nat, details: string, pushback: Option<Option<int>>)

  datatype Pushback = NoPushback | Stop | Delay(ms: nat)

  function ReadPushback(status: StatusResult): Pushback {
    match status.pushback
    case None => NoPushback
    case Some(None) => Stop
    case Some(Some(ms)) => if ms < 0 then Stop else Delay(ms)
  }

  function Pow(x: real, n: nat): real {
    if n == 0 then 1.0 else x * Pow(x, n - 1)
  }

  function BackoffMs(p: Resolved, attempt: nat, random: real): real
    requires attempt >= 1
  {
    random * T.Min(p.initialBackoffMs * Pow(p.backoffMultiplier, attempt - 1), p.maxBackoffMs)
  }

  function Retryable(p: Resolved, status: StatusResult, attempt: nat): bool {
    attempt < p.maxAttempts && status.code in p.codes
  }

  /** The delay before another attempt, or `None` to give up. `allowed` is the throttle's verdict, if there is one. */
  function NextDelay(p: Resolved, allowed: Option<bool>, status: StatusResult, attempt: nat, random: real): Option<real>
    requires attempt >= 1
  {
    var pushback := ReadPushback(status);
    if pushback.Stop? then None
    else if pushback.Delay? && attempt >= p.maxAttempts then None
    else if !pushback.Delay? && !Retryable(p, status, attempt) then None
    else if allowed == Some(false) then None
    else Some(if pushback.Delay? then pushback.ms as real else BackoffMs(p, attempt, random))
  }

  /** Another attempt is granted exactly under these four conditions. The status code matters only without a pushback
      delay: a server that names one gets its retry even for a success. */
  predicate Grants(p: Option<Resolved>, allowed: Option<bool>, status: StatusResult, attempt: nat) {
    && p.Some? && attempt < p.value.maxAttempts
    && allowed != Some(false)
    && (status.pushback.Some? ==> status.pushback.value.Some? && status.pushback.value.value >= 0)
    && (status.pushback.None? ==> status.code in p.value.codes)
  }

  lemma NextDelayIff(p: Resolved, allowed: Option<bool>, status: StatusResult, attempt: nat, random: real)
    requires attempt >= 1
    ensures NextDelay(p, allowed, status, attempt, random).Some? <==> Grants(Some(p), allowed, status, attempt)
    ensures Grants(Some(p), allowed, status, attempt) ==>
      NextDelay(p, allowed, status, attempt, random).value ==
        if status.pushback.Some? then status.pushback.value.value as real else BackoffMs(p, attempt, random)
  {
  }

  lemma {:induction false} PowAtLeastOne(x: real, n: nat)
    requires x >= 1.0
    ensures Pow(x, n) >= 1.0
  {
    if n > 0 {
      PowAtLeastOne(x, n - 1);
      assert x * Pow(x, n - 1) >= 1.0 by { Products(x, Pow(x, n - 1)); }
    }
  }

  lemma Products(x: real, y: real)
    requires x >= 1.0 && y >= 1.0
    ensures x * y >= 1.0
  {
    assert x * y == y + (x - 1.0) * y;
    assert (x - 1.0) * y >= 0.0;
  }

  /** Settings in range are kept as configured, others are moved to the nearest bound, and missing ones have gRPC's values. */
  lemma ResolvedSettings(p: RetryPolicy)
    ensures
      var r := ResolvePolicy(p);
      && (p.maxAttempts.None? ==> r.maxAttempts == 5)
      && (p.maxAttempts.Some? ==>
            if p.maxAttempts.value < 1.0 then r.maxAttempts == 1
            else r.maxAttempts as real <= p.maxAttempts.value < r.maxAttempts as real + 1.0)
      && r.initialBackoffMs == Setting(p.initialBackoffMs, 100.0, 0.0)
      && r.maxBackoffMs == Setting(p.maxBackoffMs, 2000.0, 0.0)
      && r.backoffMultiplier == Setting(p.backoffMultiplier, 2.0, 1.0)
      && r.codes == (if p.retryableStatusCodes.None? then {14} else p.retryableStatusCodes.value)
  {
  }

  function Setting(given: Option<real>, default: real, floor: real): real {
    if given.None? then default else if given.value < floor then floor else given.value
  }

  /** Before the jitter the delay is the initial one first, and each time the multiple of the last, up to the ceiling. */
  lemma BackoffGrows(p: Resolved, attempt: nat, random: real)
    requires attempt >= 1
    ensures p.initialBackoffMs <= p.maxBackoffMs ==> BackoffMs(p, 1, random) == random * p.initialBackoffMs
    ensures
      var target := p.initialBackoffMs * Pow(p.backoffMultiplier, attempt - 1);
      var next := p.initialBackoffMs * Pow(p.backoffMultiplier, attempt);
      && next == p.backoffMultiplier * target
      && (target >= p.maxBackoffMs ==> BackoffMs(p, attempt, random) == random * p.maxBackoffMs)
      && (target <= p.maxBackoffMs ==> BackoffMs(p, attempt, random) == random * target)
  {
    var x, m, y := p.initialBackoffMs, p.backoffMultiplier, Pow(p.backoffMultiplier, attempt - 1);
    assert Pow(m, attempt) == m * y;
    Shuffle(x, m, y);
    assert Pow(m, 0) == 1.0 && x * 1.0 == x;
  }

  lemma Shuffle(x: real, m: real, y: real)
    ensures x * (m * y) == m * (x * y)
  {
  }

  /** Jitter stays between zero and the ceiling, and below the uncapped target. */
  lemma BackoffInRange(p: RetryPolicy, attempt: nat, random: real)
    requires attempt >= 1 && 0.0 <= random < 1.0
    ensures
      var r := ResolvePolicy(p);
      && 0.0 <= BackoffMs(r, attempt, random) <= r.maxBackoffMs
      && BackoffMs(r, attempt, random) <= r.initialBackoffMs * Pow(r.backoffMultiplier, attempt - 1)
  {
    hide Pow, ResolvePolicy;
    var r := ResolvePolicy(p);
    var grown := Pow(r.backoffMultiplier, attempt - 1);
    PowAtLeastOne(r.backoffMultiplier, attempt - 1);
    NonNegative(r.initialBackoffMs, grown);
    Jittered(random, r.initialBackoffMs * grown, r.maxBackoffMs);
  }

  lemma Jittered(f: real, x: real, y: real)
    requires 0.0 <= f < 1.0 && x >= 0.0 && y >= 0.0
    ensures 0.0 <= f * T.Min(x, y) <= y && f * T.Min(x, y) <= x
  {
    Fraction(f, T.Min(x, y));
  }

  lemma NonNegative(x: real, y: real)
    requires x >= 0.0 && y >= 0.0
    ensures x * y >= 0.0
  {
  }

  lemma Fraction(f: real, x: real)
    requires 0.0 <= f < 1.0 && x >= 0.0
    ensures 0.0 <= f * x <= x
  {
    NonNegative(f, x);
    NonNegative(1.0 - f, x);
    assert (1.0 - f) * x == x - f * x;
  }

  /** The most attempts a call may start. */
  function Limit(p: Option<Resolved>): nat {
    if p.Some? then p.value.maxAttempts else 1
  }

  type Verdicts = Option<nat -> bool>

  function Verdict(throttle: Verdicts, attempt: nat): Option<bool> {
    if throttle.Some? then Some((throttle.value)(attempt)) else None
  }

  /** What an attempt that may still be thrown away records with the throttle, if there is one. */
  function Closing(p: Option<Resolved>, allowed: Option<bool>, status: StatusResult, attempt: nat): seq<T.Event> {
    if allowed.None? then []
    else if Grants(p, allowed, status, attempt) then [T.Grant]
    else if status.code == OK then [T.Success]
    else if p.Some? && status.code in p.value.codes then [T.Failure]
    else []
  }

  function GrantsOf(throttle: Verdicts, n: nat): seq<T.Event> {
    if throttle.None? then [] else seq(n, _ => T.Grant)
  }

  lemma GrantsAgain(throttle: Verdicts, n: nat)
    ensures GrantsOf(throttle, n + 1) == GrantsOf(throttle, n) + (if throttle.None? then [] else [T.Grant])
    ensures GrantsOf(throttle, 0) == []
  {
  }

  /** The decision after an attempt whose status may still be thrown away, and what it records with the throttle. */
  method AfterAttempt(p: Option<Resolved>, throttle: Verdicts, status: StatusResult, attempt: nat, random: real)
    returns (granted: bool, recorded: seq<T.Event>)
    requires attempt >= 1
    ensures granted <==> Grants(p, Verdict(throttle, attempt), status, attempt)
    ensures granted ==> attempt < Limit(p) && recorded == (if throttle.None? then [] else [T.Grant])
    ensures recorded == Closing(p, Verdict(throttle, attempt), status, attempt)
    ensures throttle.None? ==> recorded == []
    ensures throttle.Some? && !granted && status.code == 0 ==> recorded == [T.Success]
    ensures throttle.Some? && !granted && status.code != 0 ==>
      recorded == if p.Some? && status.code in p.value.codes then [T.Failure] else []
  {
    var delay := None;
    if p.Some? {
      delay := NextDelay(p.value, Verdict(throttle, attempt), status, attempt, random);
      NextDelayIff(p.value, Verdict(throttle, attempt), status, attempt, random);
    }
    granted, recorded := delay.Some?, [];
    if throttle.Some? {
      if granted {
        recorded := [T.Grant];
      } else if status.code == OK {
        recorded := [T.Success];
      } else if p.Some? && status.code in p.value.codes {
        recorded := [T.Failure];
      }
    }
  }

  /** The same on a bucket shared with other calls: the verdict is read and the outcome recorded in one step. A granted
      retry, and a retryable failure that is not granted one, take a token if there is one; a success that is not retried
      returns `tokenRatio`, up to the maximum; any other status leaves the balance alone. */
  method AfterAttemptOn(bucket: T.Bucket, p: Option<Resolved>, status: StatusResult, attempt: nat, random: real)
    returns (granted: bool)
    requires bucket.Valid() && attempt >= 1
    modifies bucket
    ensures bucket.Valid()
    ensures granted <==> Grants(p, Some(old(bucket.tokens) > bucket.config.maxTokens / 2.0), status, attempt)
    ensures bucket.events == old(bucket.events) + Closing(p, Some(old(bucket.IsAllowed())), status, attempt)
    ensures old(T.Legal(bucket.config, bucket.events)) ==> T.Legal(bucket.config, bucket.events)
    ensures granted || (status.code != 0 && p.Some? && status.code in p.value.codes) ==>
      bucket.tokens == if old(bucket.tokens) < 1.0 then 0.0 else old(bucket.tokens) - 1.0
    ensures !granted && status.code == 0 ==>
      bucket.tokens ==
        if old(bucket.tokens) + bucket.config.tokenRatio > bucket.config.maxTokens then bucket.config.maxTokens
        else old(bucket.tokens) + bucket.config.tokenRatio
    ensures !granted && status.code != 0 && !(p.Some? && status.code in p.value.codes) ==> bucket.tokens == old(bucket.tokens)
  {
    var delay := None;
    if p.Some? {
      delay := NextDelay(p.value, Some(bucket.IsAllowed()), status, attempt, random);
      NextDelayIff(p.value, Some(bucket.IsAllowed()), status, attempt, random);
    }
    granted := delay.Some?;
    assert granted ==> bucket.IsAllowed();
    if granted {
      bucket.RecordFailure(true);
    } else if status.code == OK {
      bucket.RecordSuccess();
    } else if p.Some? && status.code in p.value.codes {
      bucket.RecordFailure(false);
    } else {
      assert bucket.events + [] == bucket.events;
    }
  }

  // ----- unary -----

  datatype Attempt =
    | Answered(headers: string, message: Bytes, reply: StatusResult)
    | Threw(failure: StatusResult)

  function StatusOf(a: Attempt): StatusResult {
    if a.Answered? then a.reply else a.failure
  }

  datatype UnaryEvent = UnaryMetadata(headers: string) | UnaryStatus(status: StatusResult)
                      | CallbackError(status: StatusResult) | CallbackValue(message: Bytes)

  /** A transport failure is never a success. */
  ghost predicate Honest(script: nat -> Attempt) {
    forall k :: script(k).Threw? ==> script(k).failure.code != OK
  }

  /** What the caller sees of a final attempt. */
  function Reported(a: Attempt): seq<UnaryEvent>
    requires a.Threw? ==> a.failure.code != OK
  {
    (if a.Answered? then [UnaryMetadata(a.headers), UnaryStatus(a.reply)] else []) +
    (if StatusOf(a).code != OK then [CallbackError(StatusOf(a))] else [CallbackValue(a.message)])
  }

  /** The caller's callback fires once and last: with the message of a success, else with the status as an error. An
      answered attempt's headers and status come before it, once each; of one that threw nothing else is seen. */
  lemma ReportedShape(a: Attempt)
    requires a.Threw? ==> a.failure.code != OK
    ensures
      var log := Reported(a);
      var status := StatusOf(a);
      && status == (if a.Threw? then a.failure else a.reply)
      && |log| == (if a.Threw? then 1 else 3)
      && (a.Answered? ==> log[0] == UnaryMetadata(a.headers) && log[1] == UnaryStatus(a.reply))
      && log[|log| - 1] == (if status.code == 0 then CallbackValue(a.message) else CallbackError(status))
  {
  }

  /** Attempt `k` is followed by another. */
  predicate Continues(p: Option<Resolved>, throttle: Verdicts, slept: nat -> bool, status: StatusResult, k: nat) {
    Grants(p, Verdict(throttle, k), status, k) && slept(k)
  }

  /** The unary loop: at most `maxAttempts` attempts, and the caller sees exactly the first one that is not followed. */
  method UnaryCall(p: Option<Resolved>, throttle: Verdicts, script: nat -> Attempt, slept: nat -> bool, random: nat -> real)
    returns (attempts: nat, log: seq<UnaryEvent>, events: seq<T.Event>)
    requires Limit(p) >= 1 && Honest(script)
    ensures 1 <= attempts <= Limit(p)
    ensures forall k :: 1 <= k < attempts ==> Continues(p, throttle, slept, StatusOf(script(k)), k)
    ensures !Continues(p, throttle, slept, StatusOf(script(attempts)), attempts)
    ensures log == Reported(script(attempts))
    ensures events == GrantsOf(throttle, attempts - 1) + Closing(p, Verdict(throttle, attempts), StatusOf(script(attempts)), attempts)
  {
    hide Grants, GrantsOf;
    GrantsAgain(throttle, 0);
    attempts, log, events := 1, [], [];
    while true
      invariant 1 <= attempts <= Limit(p) && log == []
      invariant forall k :: 1 <= k < attempts ==> Continues(p, throttle, slept, StatusOf(script(k)), k)
      invariant events == GrantsOf(throttle, attempts - 1)
      decreases Limit(p) - attempts
    {
      var a := script(attempts);
      var status := StatusOf(a);
      var granted, recorded := AfterAttempt(p, throttle, status, attempts, random(attempts));
      GrantsAgain(throttle, attempts - 1);
      events := events + recorded;
      if granted && slept(attempts) {
        attempts := attempts + 1;
        continue;
      }
      if a.Answered? {
        log := [UnaryMetadata(a.headers), UnaryStatus(a.reply)];
      }
      if status.code != OK {
        log := log + [CallbackError(status)];
      } else {
        log := log + [CallbackValue(a.message)];
      }
      return;
    }
  }

  /** A success is retried exactly when the server named a delay, or said nothing and the policy lists success as
      retryable, while attempts remain and the throttle allows it. */
  lemma SuccessRetriedIff(p: Resolved, allowed: Option<bool>, status: StatusResult, attempt: nat, random: real)
    requires attempt >= 1 && status.code == OK
    ensures NextDelay(p, allowed, status, attempt, random).Some? <==>
      && (ReadPushback(status).Delay? || (ReadPushback(status).NoPushback? && OK in p.codes))
      && attempt < p.maxAttempts && allowed != Some(false)
  {
  }

  // ----- server streaming -----

  /** One transport callback of an attempt; its one status comes last. */
  datatype Signal = Headers(md: string) | Message(m: Bytes)
  datatype StreamAttempt = StreamAttempt(signals: seq<Signal>, status: StatusResult)

  datatype Emitted = Metadata(md: string) | Data(m: Bytes) | Status(status: StatusResult) | End | Error(status: StatusResult)

  /** The closures' shared variables and what the stream has emitted. */
  datatype Streaming = Streaming(committed: bool, headers: Option<string>, log: seq<Emitted>)

  function MetaPart(headers: Option<string>): seq<Emitted> {
    if headers.Some? then [Metadata(headers.value)] else []
  }

  function Commit(s: Streaming): Streaming {
    if s.committed then s else s.(committed := true, log := s.log + MetaPart(s.headers))
  }

  function OnSignal(s: Streaming, x: Signal): Streaming {
    match x
    case Headers(md) => s.(headers := Some(md))
    case Message(m) => var t := Commit(s); t.(log := t.log + [Data(m)])
  }

  function OnSignals(s: Streaming, xs: seq<Signal>): Streaming
    decreases |xs|
  {
    if xs == [] then s else OnSignals(OnSignal(s, xs[0]), xs[1..])
  }

  function Ending(status: StatusResult): seq<Emitted> {
    [Status(status), if status.code != OK then Error(status) else End]
  }

  // What an attempt's signals say, read off the list.

  function Datas(xs: seq<Signal>): seq<Emitted> {
    if xs == [] then []
    else (match xs[0] case Message(m) => [Data(m)] case Headers(_) => []) + Datas(xs[1..])
  }

  /** The last headers, starting from those already held. */
  function Latest(held: Option<string>, xs: seq<Signal>): Option<string>
    decreases |xs|
  {
    if xs == [] then held
    else Latest(match xs[0] case Headers(md) => Some(md) case Message(_) => held, xs[1..])
  }

  /** The last headers before the first message. */
  function AtCommit(held: Option<string>, xs: seq<Signal>): Option<string>
    decreases |xs|
  {
    if xs == [] || xs[0].Message? then held else AtCommit(Some(xs[0].md), xs[1..])
  }

  /** All four readings of a list, one signal further. */
  lemma SignalsCons(s: Streaming, xs: seq<Signal>)
    requires xs != []
    ensures OnSignals(s, xs) == OnSignals(OnSignal(s, xs[0]), xs[1..])
    ensures xs[0].Headers? ==>
      && Datas(xs) == Datas(xs[1..])
      && Latest(s.headers, xs) == Latest(Some(xs[0].md), xs[1..])
      && AtCommit(s.headers, xs) == AtCommit(Some(xs[0].md), xs[1..])
    ensures xs[0].Message? ==>
      && Datas(xs) == [Data(xs[0].m)] + Datas(xs[1..])
      && Latest(s.headers, xs) == Latest(s.headers, xs[1..])
      && AtCommit(s.headers, xs) == s.headers
  {
    assert [] + Datas(xs[1..]) == Datas(xs[1..]);
  }

  lemma SignalsNone(s: Streaming)
    ensures OnSignals(s, []) == s && Datas([]) == [] && Latest(s.headers, []) == AtCommit(s.headers, []) == s.headers
  {
  }

  lemma {:induction false} CommittedSignals(s: Streaming, xs: seq<Signal>)
    requires s.committed
    ensures OnSignals(s, xs) == Streaming(true, Latest(s.headers, xs), s.log + Datas(xs))
    decreases |xs|
  {
    hide OnSignals, Datas, Latest, AtCommit;
    if xs == [] {
      SignalsNone(s);
      assert s.log + [] == s.log;
    } else {
      SignalsCons(s, xs);
      CommittedSignals(OnSignal(s, xs[0]), xs[1..]);
      if xs[0].Message? {
        Assoc(s.log, [Data(xs[0].m)], Datas(xs[1..]));
      }
    }
  }

  /** What an attempt's signals add to the log before its status. */
  function Shown(held: Option<string>, xs: seq<Signal>): seq<Emitted> {
    if Datas(xs) == [] then [] else MetaPart(AtCommit(held, xs)) + Datas(xs)
  }

  /** One attempt's signals, from a state that is not committed. */
  lemma {:induction false} AttemptSignals(s: Streaming, xs: seq<Signal>)
    requires !s.committed
    ensures OnSignals(s, xs) == Streaming(Datas(xs) != [], Latest(s.headers, xs), s.log + Shown(s.headers, xs))
    ensures Datas(xs) == [] ==> AtCommit(s.headers, xs) == Latest(s.headers, xs)
    decreases |xs|
  {
    hide OnSignals, Datas, Latest, AtCommit;
    if xs == [] {
      SignalsNone(s);
      assert s.log + [] == s.log;
    } else {
      SignalsCons(s, xs);
      var t := OnSignal(s, xs[0]);
      if xs[0].Headers? {
        AttemptSignals(t, xs[1..]);
      } else {
        CommittedSignals(t, xs[1..]);
        var meta, d, later := MetaPart(s.headers), [Data(xs[0].m)], Datas(xs[1..]);
        Assoc(s.log + meta, d, later);
        Assoc(s.log, meta, d + later);
      }
    }
  }

  /** The headers held after the first `k` attempts. */
  function HeldAfter(script: nat -> StreamAttempt, k: nat): Option<string> {
    if k == 0 then None else Latest(HeldAfter(script, k - 1), script(k).signals)
  }

  lemma HeldStep(script: nat -> StreamAttempt, k: nat)
    requires k >= 1
    ensures HeldAfter(script, 0) == None
    ensures HeldAfter(script, k) == Latest(HeldAfter(script, k - 1), script(k).signals)
  {
  }

  /** An attempt is followed by another only if it delivered no message. */
  predicate Restarts(p: Option<Resolved>, throttle: Verdicts, slept: nat -> bool, a: StreamAttempt, k: nat) {
    Datas(a.signals) == [] && Continues(p, throttle, slept, a.status, k)
  }

  /** The call makes exactly this many attempts: each but the last is followed by another. */
  predicate Attempted(p: Option<Resolved>, throttle: Verdicts, script: nat -> StreamAttempt, slept: nat -> bool, attempts: nat) {
    && 1 <= attempts <= Limit(p)
    && (forall k :: 1 <= k < attempts ==> Restarts(p, throttle, slept, script(k), k))
    && !Restarts(p, throttle, slept, script(attempts), attempts)
  }

  /** What a call of this many attempts emits. */
  function StreamLog(script: nat -> StreamAttempt, attempts: nat): seq<Emitted>
    requires attempts >= 1
  {
    var last := script(attempts);
    MetaPart(AtCommit(HeldAfter(script, attempts - 1), last.signals)) + Datas(last.signals) + Ending(last.status)
  }

  /** The messages among what a call emits. */
  function Delivered(log: seq<Emitted>): seq<Bytes> {
    if log == [] then [] else Delivered(log[..|log| - 1]) + (if log[|log| - 1].Data? then [log[|log| - 1].m] else [])
  }

  /** The messages among an attempt's signals. */
  function MessagesOf(xs: seq<Signal>): seq<Bytes> {
    if xs == [] then [] else MessagesOf(xs[..|xs| - 1]) + (if xs[|xs| - 1].Message? then [xs[|xs| - 1].m] else [])
  }

  lemma DeliveredSnoc(log: seq<Emitted>, x: Emitted)
    ensures Delivered(log + [x]) == Delivered(log) + (if x.Data? then [x.m] else [])
  {
    assert (log + [x])[..|log|] == log;
  }

  lemma {:induction false} DatasSnoc(xs: seq<Signal>, x: Signal)
    ensures Datas(xs + [x]) == Datas(xs) + (if x.Message? then [Data(x.m)] else [])
    decreases |xs|
  {
    if xs == [] {
      assert [] + [x] == [x] && [x][1..] == [] && Datas([]) == [];
    } else {
      assert (xs + [x])[1..] == xs[1..] + [x] && (xs + [x])[0] == xs[0];
      DatasSnoc(xs[1..], x);
    }
  }

  /** The data part of a log is the attempt's messages, and nothing else. */
  lemma {:induction false} DatasAreMessages(meta: seq<Emitted>, xs: seq<Signal>)
    requires Delivered(meta) == []
    ensures Delivered(meta + Datas(xs)) == MessagesOf(xs)
    ensures forall x :: x in Datas(xs) ==> x.Data?
  {
    hide Datas;
    if xs == [] {
      NoDatas();
      assert meta + [] == meta;
    } else {
      var front, last := xs[..|xs| - 1], xs[|xs| - 1];
      assert xs == front + [last];
      DatasAreMessages(meta, front);
      DatasSnoc(front, last);
      if last.Message? {
        Assoc(meta, Datas(front), [Data(last.m)]);
        DeliveredSnoc(meta + Datas(front), Data(last.m));
      } else {
        assert Datas(front) + [] == Datas(front);
      }
    }
  }

  lemma NoDatas()
    ensures Datas([]) == []
  {
  }

  /** What a call emits, part by part: metadata at most once and only first; the last attempt's messages in order; its
      status once, last but one; and last of all the end for a success, or else an error with that status. */
  lemma StreamShape(script: nat -> StreamAttempt, attempts: nat)
    requires attempts >= 1
    ensures
      var log, last := StreamLog(script, attempts), script(attempts);
      && |log| >= 2
      && log[|log| - 2] == Status(last.status)
      && log[|log| - 1] == (if last.status.code == 0 then End else Error(last.status))
      && Delivered(log) == MessagesOf(last.signals)
      && (forall i :: 0 <= i < |log| - 2 ==> log[i].Data? || (i == 0 && log[i].Metadata?))
  {
    hide Datas, AtCommit, HeldAfter, Delivered;
    var last := script(attempts);
    var meta := MetaPart(AtCommit(HeldAfter(script, attempts - 1), last.signals));
    var body := meta + Datas(last.signals);
    var log := StreamLog(script, attempts);
    MetaDeliversNothing(AtCommit(HeldAfter(script, attempts - 1), last.signals));
    DatasAreMessages(meta, last.signals);
    var fin := if last.status.code != OK then Error(last.status) else End;
    assert log == body + [Status(last.status)] + [fin];
    DeliveredSnoc(body, Status(last.status));
    DeliveredSnoc(body + [Status(last.status)], fin);
    forall i | 0 <= i < |log| - 2
      ensures log[i].Data? || (i == 0 && log[i].Metadata?)
    {
      assert log[i] == body[i];
      assert i >= |meta| ==> body[i] in Datas(last.signals);
    }
  }

  lemma MetaDeliversNothing(held: Option<string>)
    ensures Delivered(MetaPart(held)) == []
  {
    var none: seq<Emitted> := [];
    if held.Some? {
      DeliveredSnoc(none, Metadata(held.value));
      assert none + [Metadata(held.value)] == MetaPart(held);
    }
  }

  /** A server-streaming call: at most `maxAttempts` attempts; what it emits is the metadata, at most once and first, the
      messages of the last attempt and of no other, that attempt's status, and then exactly one of end and error. */
  method ServerStreamCall(p: Option<Resolved>, throttle: Verdicts, script: nat -> StreamAttempt, slept: nat -> bool,
                          random: nat -> real)
    returns (attempts: nat, log: seq<Emitted>, events: seq<T.Event>)
    requires Limit(p) >= 1
    ensures Attempted(p, throttle, script, slept, attempts)
    ensures log == StreamLog(script, attempts)
    ensures
      var last := script(attempts);
      events == GrantsOf(throttle, attempts - 1) +
                (if Datas(last.signals) != [] then [] else Closing(p, Verdict(throttle, attempts), last.status, attempts))
  {
    hide Grants, GrantsOf, OnSignals, Datas, Latest, AtCommit, Closing, Ending, MetaPart, HeldAfter, Limit;
    GrantsAgain(throttle, 0);
    HeldStep(script, 1);
    attempts, events := 1, [];
    var s := Streaming(false, None, []);
    while true
      invariant 1 <= attempts <= Limit(p)
      invariant forall k :: 1 <= k < attempts ==> Restarts(p, throttle, slept, script(k), k)
      invariant s == Streaming(false, HeldAfter(script, attempts - 1), [])
      invariant events == GrantsOf(throttle, attempts - 1)
      decreases Limit(p) - attempts
    {
      var a := script(attempts);
      AttemptSignals(s, a.signals);
      HeldStep(script, attempts);
      s := HandleSignals(s, a.signals);
      if !s.committed {
        var granted, recorded := AfterAttempt(p, throttle, a.status, attempts, random(attempts));
        GrantsAgain(throttle, attempts - 1);
        events := events + recorded;
        if granted && slept(attempts) {
          attempts := attempts + 1;
          continue;
        }
      }
      assert [] + Shown(HeldAfter(script, attempts - 1), a.signals) == Shown(HeldAfter(script, attempts - 1), a.signals);
      s := Commit(s);
      log := s.log + Ending(a.status);
      return;
    }
  }

  /** The transport's callbacks of one attempt, in order. */
  method HandleSignals(s: Streaming, xs: seq<Signal>) returns (t: Streaming)
    ensures t == OnSignals(s, xs)
  {
    t := s;
    for i := 0 to |xs|
      invariant OnSignals(s, xs) == OnSignals(t, xs[i..])
    {
      assert xs[i..][1..] == xs[i + 1..];
      t := OnSignal(t, xs[i]);
    }
  }

  // ----- whose metadata is emitted -----

  predicate SendsHeaders(xs: seq<Signal>) {
    exists i :: 0 <= i < |xs| && xs[i].Headers?
  }

  /** Headers arrive before the first message, if there is one. */
  predicate HeadersFirst(xs: seq<Signal>) {
    xs != [] && xs[0].Headers?
  }

  lemma {:induction false} LatestNone(held: Option<string>, xs: seq<Signal>)
    ensures Latest(held, xs).None? <==> held.None? && !SendsHeaders(xs)
    decreases |xs|
  {
    if xs != [] {
      LatestNone(match xs[0] case Headers(md) => Some(md) case Message(_) => held, xs[1..]);
      assert SendsHeaders(xs) <==> xs[0].Headers? || SendsHeaders(xs[1..]) by {
        if i :| 0 <= i < |xs| && xs[i].Headers? && i > 0 {
          assert xs[1..][i - 1].Headers?;
        }
        if i :| 0 <= i < |xs[1..]| && xs[1..][i].Headers? {
          assert xs[i + 1].Headers?;
        }
      }
    }
  }

  lemma {:induction false} HeldNone(script: nat -> StreamAttempt, k: nat)
    ensures HeldAfter(script, k).None? <==> forall j :: 1 <= j <= k ==> !SendsHeaders(script(j).signals)
  {
    if k > 0 {
      HeldNone(script, k - 1);
      LatestNone(HeldAfter(script, k - 1), script(k).signals);
    }
  }

  /** With headers of its own before the first message, an attempt's commit does not depend on what was held. */
  lemma {:induction false} OwnHeaders(held: Option<string>, xs: seq<Signal>)
    ensures HeadersFirst(xs) ==> AtCommit(held, xs) == AtCommit(None, xs) && AtCommit(None, xs).Some?
    ensures !HeadersFirst(xs) ==> AtCommit(held, xs) == held && AtCommit(None, xs) == None
    decreases |xs|
  {
    if HeadersFirst(xs) {
      var later := xs[1..];
      OwnHeaders(Some(xs[0].md), later);
    }
  }

  /** The metadata of a call is its last attempt's own, or absent where that attempt had none before its first message,
      exactly when that attempt did send headers first or no earlier attempt sent any. */
  lemma MetadataIsLastAttemptsIff(script: nat -> StreamAttempt, attempts: nat)
    requires attempts >= 1
    ensures
      var last := script(attempts);
      StreamLog(script, attempts) == MetaPart(AtCommit(None, last.signals)) + Datas(last.signals) + Ending(last.status)
      <==> HeadersFirst(last.signals) || forall j :: 1 <= j < attempts ==> !SendsHeaders(script(j).signals)
  {
    hide AtCommit, Latest, HeldAfter, Datas;
    var last := script(attempts);
    var held := HeldAfter(script, attempts - 1);
    HeldNone(script, attempts - 1);
    OwnHeaders(held, last.signals);
    if !HeadersFirst(last.signals) && held.Some? {
      var rest := Datas(last.signals) + Ending(last.status);
      Assoc(MetaPart(held), Datas(last.signals), Ending(last.status));
      Assoc([], Datas(last.signals), Ending(last.status));
      assert |StreamLog(script, attempts)| == |rest| + 1;
      assert |[] + Datas(last.signals) + Ending(last.status)| == |rest|;
    }
  }

  const TwoAttempts := Resolved(2, 100.0, 2000.0, 2.0, {UNAVAILABLE})

  /** Headers and a retryable failure, then a bare failure. */
  function HeadersThenNothing(k: nat): StreamAttempt {
    StreamAttempt(if k == 1 then [Headers("first")] else [], StatusResult(UNAVAILABLE, "", None))
  }

  /** It does happen: a call that throws its first attempt away emits that attempt's metadata with the second's status. */
  lemma MetadataFromEarlierAttempt()
    ensures
      var failed := StatusResult(UNAVAILABLE, "", None);
      && Attempted(Some(TwoAttempts), None, HeadersThenNothing, k => true, 2)
      && StreamLog(HeadersThenNothing, 2) == [Metadata("first"), Status(failed), Error(failed)]
  {
    var script, slept := HeadersThenNothing, (k: nat) => true;
    var first := [Headers("first")];
    assert first[1..] == [];
    assert Datas([]) == [] && Datas(first) == [] + Datas(first[1..]);
    assert Restarts(Some(TwoAttempts), None, slept, script(1), 1);
    assert !Restarts(Some(TwoAttempts), None, slept, script(2), 2);
    assert HeldAfter(script, 0) == None;
    assert HeldAfter(script, 1) == Latest(None, first) == Latest(Some("first"), []) == Some("first");
    assert AtCommit(Some("first"), []) == Some("first");
  }
}
