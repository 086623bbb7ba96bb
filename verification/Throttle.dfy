/** The retry token bucket shared by every call of a client, over real numbers. */
module Throttle {
  import opened Common

  datatype Throttling = Throttling(maxTokens: real, tokenRatio: real)

  /** What calls do to the bucket: take a retry, record a failure that is not retried, record a success. */
  datatype Event = Grant | Failure | Success

  function Min(a: real, b: real): real { if a < b then a else b }
  function Max(a: real, b: real): real { if a < b then b else a }

  function Allowed(c: Throttling, tokens: real): bool {
    tokens > c.maxTokens / 2.0
  }

  function OnFailure(tokens: real): real {
    Max(0.0, tokens - 1.0)
  }

  function OnSuccess(c: Throttling, tokens: real): real {
    Min(c.maxTokens, tokens + c.tokenRatio)
  }

  /** The balance after a history of events. */
  function Tokens(c: Throttling, events: seq<Event>): real {
    if events == [] then c.maxTokens
    else
      var before := Tokens(c, events[..|events| - 1]);
      match events[|events| - 1]
      case Success => OnSuccess(c, before)
      case Failure => OnFailure(before)
      case Grant => OnFailure(before)
  }

  /** Calls interleave as they like, but a retry is granted only while the bucket allows it. */
  predicate Legal(c: Throttling, events: seq<Event>) {
    events == [] ||
    (var before := events[..|events| - 1];
     Legal(c, before) && (events[|events| - 1].Grant? ==> Allowed(c, Tokens(c, before))))
  }

  function Count(events: seq<Event>, e: Event): nat {
    if events == [] then 0
    else Count(events[..|events| - 1], e) + (if events[|events| - 1] == e then 1 else 0)
  }

  /** The bucket itself. */
  class Bucket {
    const config: Throttling
    var tokens: real
    ghost var events: seq<Event>

    ghost predicate Valid()
      reads this
    {
      tokens == Tokens(config, events)
    }

    constructor(config: Throttling)
      ensures Valid() && this.config == config && events == []
    {
      this.config := config;
      tokens := config.maxTokens;
      events := [];
    }

    function IsAllowed(): bool
      reads this
    {
      tokens > config.maxTokens / 2.0
    }

    /** One recorded failure; `granted` when it pays for a retry. */
    method RecordFailure(ghost granted: bool)
      requires Valid()
      modifies this
      ensures Valid() && events == old(events) + [if granted then Grant else Failure]
      ensures Legal(config, old(events)) && (granted ==> old(IsAllowed())) ==> Legal(config, events)
    {
      tokens := if tokens - 1.0 > 0.0 then tokens - 1.0 else 0.0;
      ghost var e := if granted then Grant else Failure;
      assert (events + [e])[..|events|] == events;
      events := events + [e];
    }

    method RecordSuccess()
      requires Valid()
      modifies this
      ensures Valid() && events == old(events) + [Success]
      ensures Legal(config, old(events)) ==> Legal(config, events)
    {
      var next := tokens + config.tokenRatio;
      tokens := if next < config.maxTokens then next else config.maxTokens;
      assert (events + [Success])[..|events|] == events;
      events := events + [Success];
    }
  }

  // ----- the balance -----

  lemma {:induction false} TokensInRange(c: Throttling, events: seq<Event>)
    requires c.maxTokens >= 0.0 && c.tokenRatio >= 0.0
    ensures 0.0 <= Tokens(c, events) <= c.maxTokens
  {
    if events != [] {
      TokensInRange(c, events[..|events| - 1]);
    }
  }

  /** `n` failures in a row. */
  function Failures(n: nat): seq<Event> {
    seq(n, _ => Failure)
  }

  lemma {:induction false} FailuresDrain(c: Throttling, n: nat)
    requires c.maxTokens >= 0.0
    ensures Tokens(c, Failures(n)) == Max(0.0, c.maxTokens - n as real)
    ensures Legal(c, Failures(n))
  {
    if n > 0 {
      FailuresDrain(c, n - 1);
      assert Failures(n)[..n - 1] == Failures(n - 1);
      assert Failures(n)[n - 1] == Failure;
    }
  }

  /** The balance stays in range over every history exactly when neither setting is negative. */
  lemma RangeIff(c: Throttling)
    ensures (forall events :: Legal(c, events) ==> 0.0 <= Tokens(c, events) <= c.maxTokens)
       <==> c.maxTokens >= 0.0 && c.tokenRatio >= 0.0
  {
    if c.maxTokens < 0.0 {
      assert Legal(c, []) && Tokens(c, []) < 0.0;
    } else if c.tokenRatio < 0.0 {
      var n := c.maxTokens.Floor + 1;
      FailuresDrain(c, n);
      var events := Failures(n) + [Success];
      assert events[..|events| - 1] == Failures(n);
      assert Tokens(c, Failures(n)) == 0.0;
      assert Legal(c, events) && Tokens(c, events) < 0.0;
    } else {
      forall events | Legal(c, events)
        ensures 0.0 <= Tokens(c, events) <= c.maxTokens
      {
        TokensInRange(c, events);
      }
    }
  }

  // ----- how many retries the bucket can grant -----

  /** The least a granted retry takes out of the bucket: one token, unless half the bucket is less than that. */
  function Price(c: Throttling): real {
    Min(1.0, c.maxTokens / 2.0)
  }

  /** `n` times `x`, by addition. */
  ghost function Scale(x: real, n: nat): real {
    if n == 0 then 0.0 else Scale(x, n - 1) + x
  }

  lemma {:induction false} ScaleIsProduct(x: real, n: nat)
    ensures Scale(x, n) == x * n as real
  {
    if n > 0 {
      ScaleIsProduct(x, n - 1);
      assert n as real == (n - 1) as real + 1.0;
      assert x * n as real == x * (n - 1) as real + x;
    }
  }

  /** Every grant has been paid for. */
  lemma {:induction false} Paid(c: Throttling, events: seq<Event>)
    requires c.maxTokens > 0.0 && c.tokenRatio >= 0.0 && Legal(c, events)
    ensures Tokens(c, events)
         <= c.maxTokens - Scale(Price(c), Count(events, Grant)) + Scale(c.tokenRatio, Count(events, Success))
  {
    if events != [] {
      var before := events[..|events| - 1];
      Paid(c, before);
      TokensInRange(c, before);
    }
  }

  lemma {:induction false} GrantsScaled(c: Throttling, events: seq<Event>)
    requires c.maxTokens > 0.0 && c.tokenRatio >= 0.0 && Legal(c, events)
    ensures Scale(Price(c), Count(events, Grant)) < c.maxTokens / 2.0 + Price(c) + Scale(c.tokenRatio, Count(events, Success))
  {
    if events != [] {
      var before := events[..|events| - 1];
      GrantsScaled(c, before);
      Paid(c, before);
    }
  }

  /** Over every interleaving of calls, retries are bounded by half the bucket, one more, and what successes returned. */
  lemma GrantsBounded(c: Throttling, events: seq<Event>)
    requires c.maxTokens > 0.0 && c.tokenRatio >= 0.0 && Legal(c, events)
    ensures Price(c) * Count(events, Grant) as real
          < c.maxTokens / 2.0 + Price(c) + c.tokenRatio * Count(events, Success) as real
  {
    hide Price, Scale, Count, Legal;
    GrantsScaled(c, events);
    ScaleIsProduct(Price(c), Count(events, Grant));
    ScaleIsProduct(c.tokenRatio, Count(events, Success));
  }

  /** With a bucket of two or more the price is a whole token. */
  lemma GrantsBelow(c: Throttling, events: seq<Event>)
    requires c.maxTokens >= 2.0 && c.tokenRatio >= 0.0 && Legal(c, events)
    ensures Count(events, Grant) as real < c.maxTokens / 2.0 + 1.0 + c.tokenRatio * Count(events, Success) as real
  {
    GrantsScaled(c, events);
    ScaleIsProduct(Price(c), Count(events, Grant));
    ScaleIsProduct(c.tokenRatio, Count(events, Success));
    assert Price(c) == 1.0;
  }

  // ----- below two the whole-token bound fails -----

  /** `n` rounds of a success and a retry, after a first retry. */
  function Rounds(n: nat): seq<Event> {
    if n == 0 then [Grant] else Rounds(n - 1) + [Success, Grant]
  }

  lemma RoundsStep(c: Throttling, events: seq<Event>)
    ensures
      var one, two := events + [Success], events + [Success, Grant];
      && Tokens(c, one) == OnSuccess(c, Tokens(c, events)) && Tokens(c, two) == OnFailure(Tokens(c, one))
      && (Legal(c, events) && Allowed(c, Tokens(c, one)) ==> Legal(c, two))
      && Count(two, Grant) == Count(events, Grant) + 1 && Count(two, Success) == Count(events, Success) + 1
  {
    var one, two := events + [Success], events + [Success, Grant];
    assert one[..|one| - 1] == events && two[..|two| - 1] == one;
  }

  /** A success worth more than half a small bucket always buys the next retry, which empties the bucket at worst. */
  lemma {:induction false} RoundsAreLegal(c: Throttling, n: nat)
    requires 0.0 < c.maxTokens < 2.0 && c.maxTokens / 2.0 < c.tokenRatio
    ensures Legal(c, Rounds(n)) && Tokens(c, Rounds(n)) >= 0.0
    ensures Count(Rounds(n), Grant) == n + 1 && Count(Rounds(n), Success) == n
  {
    hide Tokens, Legal, Count;
    if n == 0 {
      OneGrant(c);
    } else {
      RoundsAreLegal(c, n - 1);
      RoundsStep(c, Rounds(n - 1));
    }
  }

  lemma OneGrant(c: Throttling)
    requires c.maxTokens > 0.0
    ensures Legal(c, [Grant]) && Tokens(c, [Grant]) >= 0.0 && Count([Grant], Grant) == 1 && Count([Grant], Success) == 0
  {
    assert [Grant][..0] == [];
  }

  /** The bound that a retry paying a whole token would give. */
  ghost predicate WholeTokenBound(max: real) {
    forall ratio: real, events: seq<Event> :: ratio >= 0.0 && Legal(Throttling(max, ratio), events) ==>
      Count(events, Grant) as real < max / 2.0 + 1.0 + ratio * Count(events, Success) as real
  }

  /** Enough rounds outgrow any bound whose successes count less than one. */
  lemma Outgrows(max: real, ratio: real) returns (n: nat)
    requires max > 0.0 && ratio < 1.0
    ensures (n + 1) as real >= max / 2.0 + 1.0 + ratio * n as real
  {
    n := Multiples(max / 2.0, 1.0 - ratio);
    Spread(1.0 - ratio, ratio, n as real);
  }

  /** Some multiple of a positive step reaches any height. */
  lemma Multiples(height: real, step: real) returns (n: nat)
    requires height > 0.0 && step > 0.0
    ensures step * n as real >= height
  {
    var x := Quotient(height, step);
    n := x.Floor + 1;
    Monotone(step, x, n as real);
  }

  lemma Spread(gap: real, ratio: real, r: real)
    requires gap == 1.0 - ratio
    ensures gap * r == r - ratio * r
  {
  }

  lemma Quotient(a: real, b: real) returns (q: real)
    requires a > 0.0 && b > 0.0
    ensures b * q == a && q >= 0.0
  {
    q := a / b;
    if q < 0.0 {
      Monotone(b, q, 0.0);
      assert false;
    }
  }

  lemma Monotone(g: real, x: real, y: real)
    requires g > 0.0 && x <= y
    ensures g * x <= g * y
  {
    assert g * y == g * x + g * (y - x);
    assert g * (y - x) >= 0.0;
  }

  /** For a bucket of this size the whole-token bound holds, whatever the ratio and the history, exactly when the bucket
      holds two tokens or more. */
  lemma WholeTokenIff(max: real)
    requires max > 0.0
    ensures WholeTokenBound(max) <==> max >= 2.0
  {
    hide Legal, Count;
    if max >= 2.0 {
      forall ratio: real, events: seq<Event> | ratio >= 0.0 && Legal(Throttling(max, ratio), events)
        ensures Count(events, Grant) as real < max / 2.0 + 1.0 + ratio * Count(events, Success) as real
      {
        GrantsBelow(Throttling(max, ratio), events);
      }
    } else {
      var ratio := (max / 2.0 + 1.0) / 2.0;
      var c := Throttling(max, ratio);
      var n := Outgrows(max, ratio);
      RoundsAreLegal(c, n);
      assert Legal(Throttling(max, ratio), Rounds(n));
    }
  }

  /** For instance: a bucket of one token and a ratio of 0.6 grants four retries for three successes. */
  lemma SmallBucketGrantsMore()
    ensures
      var c := Throttling(1.0, 0.6);
      && Legal(c, Rounds(3))
      && Count(Rounds(3), Grant) as real >= c.maxTokens / 2.0 + 1.0 + c.tokenRatio * Count(Rounds(3), Success) as real
  {
    hide Legal, Count;
    RoundsAreLegal(Throttling(1.0, 0.6), 3);
  }
}
