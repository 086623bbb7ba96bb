/** The matcher against the language of the template, and the round trip through a filled-in path. */
module HttpMatchProofs {
  import opened Common
  import opened HttpTemplate
  import opened HttpTemplateProofs
  import opened HttpMatch

  // ----- soundness: what the matcher consumes is a filling of the template -----

  lemma {:induction false} Sound(segments: seq<Segment>, parts: seq<string>, i: nat) returns (fs: seq<Fill>)
    requires i <= |parts| && Match(segments, parts, i).Some?
    ensures FitsAll(segments, fs)
    ensures YieldAll(fs) == parts[i..Match(segments, parts, i).value.0]
    ensures CapturesAll(segments, fs) == Match(segments, parts, i).value.1
    decreases segments
  {
    hide MatchOne, Fits, Yield, Captures, Bound;
    if segments == [] {
      fs := [];
    } else {
      var m := MatchOne(segments[0], parts, i).value.0;
      var f := SoundOne(segments[0], parts, i);
      var later := Sound(segments[1..], parts, m);
      var j := Match(segments, parts, i).value.0;
      fs := [f] + later;
      assert fs[1..] == later;
      assert parts[i..m] + parts[m..j] == parts[i..j];
    }
  }

  lemma {:induction false} SoundOne(segment: Segment, parts: seq<string>, i: nat) returns (f: Fill)
    requires i <= |parts| && MatchOne(segment, parts, i).Some?
    ensures Fits(segment, f)
    ensures Yield(f) == parts[i..MatchOne(segment, parts, i).value.0]
    ensures Captures(segment, f) == MatchOne(segment, parts, i).value.1
    decreases segment
  {
    hide Match, FitsAll, YieldAll, CapturesAll, Bound;
    var j := MatchOne(segment, parts, i).value.0;
    match segment
    case Literal(t) => f := Words(parts[i..j]);
    case AnyOne => f := Words(parts[i..j]);
    case AnyRest => f := Words(parts[i..j]);
    case Capture(field, subs) =>
      var fs := Sound(subs, parts, i);
      f := Inside(fs);
  }

  // ----- completeness -----

  /** `w` is what `parts` holds from `i` on. */
  ghost predicate At(parts: seq<string>, i: nat, w: seq<string>) {
    i + |w| <= |parts| && parts[i..i + |w|] == w
  }

  lemma AtSplit(parts: seq<string>, i: nat, v: seq<string>, w: seq<string>)
    requires At(parts, i, v + w)
    ensures At(parts, i, v) && At(parts, i + |v|, w)
  {
    var u := v + w;
    assert u[..|v|] == v && u[|v|..] == w;
    assert parts[i..i + |u|][..|v|] == parts[i..i + |v|];
    assert parts[i..i + |u|][|v|..] == parts[i + |v|..i + |u|];
  }

  /** A template without `**` matches exactly the components a filling yields, with the filling's captures. */
  lemma {:induction false} FixedComplete(segments: seq<Segment>, fs: seq<Fill>, parts: seq<string>, i: nat)
    requires FitsAll(segments, fs) && AnyRest !in FlatAll(segments) && At(parts, i, YieldAll(fs))
    ensures Match(segments, parts, i) == Some((i + |YieldAll(fs)|, CapturesAll(segments, fs)))
    decreases segments
  {
    hide MatchOne, Fits, Yield, Captures, At, Flat;
    if segments != [] {
      AtSplit(parts, i, Yield(fs[0]), YieldAll(fs[1..]));
      AtBounds(parts, i, YieldAll(fs));
      FixedCompleteOne(segments[0], fs[0], parts, i);
      FixedComplete(segments[1..], fs[1..], parts, i + |Yield(fs[0])|);
    }
  }

  lemma AtBounds(parts: seq<string>, i: nat, w: seq<string>)
    requires At(parts, i, w)
    ensures i + |w| <= |parts|
  {
  }

  lemma {:induction false} FixedCompleteOne(segment: Segment, f: Fill, parts: seq<string>, i: nat)
    requires Fits(segment, f) && AnyRest !in Flat(segment) && At(parts, i, Yield(f))
    ensures MatchOne(segment, parts, i) == Some((i + |Yield(f)|, Captures(segment, f)))
    decreases segment
  {
    hide Match, FitsAll, YieldAll, CapturesAll, Bound, FlatAll;
    if segment.Capture? {
      FixedComplete(segment.subs, f.fills, parts, i);
    } else {
      var w := Yield(f);
      assert |w| == 1 ==> parts[i] == parts[i..i + 1][0] == w[0];
    }
  }

  lemma OnlyLastSplit(a: seq<Segment>, b: seq<Segment>)
    requires OnlyLast(a + b)
    ensures (AnyRest !in a && OnlyLast(b)) || (b == [] && OnlyLast(a))
  {
    var c := a + b;
    if b == [] {
      assert c == a;
    } else {
      forall k | 0 <= k < |a|
        ensures a[k] != AnyRest
      {
        assert c[k] == a[k];
      }
      forall k | 0 <= k < |b| - 1
        ensures b[k] != AnyRest
      {
        assert c[|a| + k] == b[k];
      }
    }
  }

  /** With `**` only last, a filling of all that is left is matched, and its captures are the ones returned. */
  lemma {:induction false} Complete(segments: seq<Segment>, fs: seq<Fill>, parts: seq<string>, i: nat)
    requires i <= |parts|
    requires FitsAll(segments, fs) && OnlyLast(FlatAll(segments)) && YieldAll(fs) == parts[i..]
    ensures Match(segments, parts, i) == Some((|parts|, CapturesAll(segments, fs)))
    decreases segments
  {
    hide MatchOne, Fits, Yield, Captures, Flat, OnlyLast;
    if segments == [] {
      assert parts[i..] == [];
    } else {
      var a, b := Flat(segments[0]), FlatAll(segments[1..]);
      var v, w := Yield(fs[0]), YieldAll(fs[1..]);
      OnlyLastSplit(a, b);
      assert parts[i..] == parts[i..i + |v + w|];
      AtSplit(parts, i, v, w);
      assert parts[i + |v|..] == w;
      if AnyRest !in a && OnlyLast(b) {
        FixedCompleteOne(segments[0], fs[0], parts, i);
        Complete(segments[1..], fs[1..], parts, i + |v|);
      } else {
        NothingFills(segments[1..], fs[1..]);
        assert v == parts[i..];
        CompleteOne(segments[0], fs[0], parts, i);
        FixedComplete(segments[1..], fs[1..], parts, |parts|);
      }
    }
  }

  lemma {:induction false} NothingFills(segments: seq<Segment>, fs: seq<Fill>)
    requires FitsAll(segments, fs) && FlatAll(segments) == []
    ensures YieldAll(fs) == []
    decreases segments
  {
    if segments != [] {
      if segments[0].Capture? {
        NothingFills(segments[0].subs, fs[0].fills);
      }
      NothingFills(segments[1..], fs[1..]);
    }
  }

  lemma {:induction false} CompleteOne(segment: Segment, f: Fill, parts: seq<string>, i: nat)
    requires i <= |parts|
    requires Fits(segment, f) && OnlyLast(Flat(segment)) && Yield(f) == parts[i..]
    ensures MatchOne(segment, parts, i) == Some((|parts|, Captures(segment, f)))
    decreases segment
  {
    hide Match, FitsAll, YieldAll, CapturesAll, Bound, FlatAll, OnlyLast;
    if segment.Capture? {
      Complete(segment.subs, f.fills, parts, i);
      assert parts[i..|parts|] == parts[i..];
    } else {
      assert |parts[i..]| == 1 ==> parts[i] == parts[i..][0];
    }
  }

  // ----- where `**` may stand -----

  ghost predicate AllRest(flat: seq<Segment>) {
    forall p :: p in flat ==> p == AnyRest
  }

  /** After a `**` has eaten the path only `**` can follow. */
  lemma {:induction false} AtTheEnd(segments: seq<Segment>, parts: seq<string>)
    ensures Match(segments, parts, |parts|).Some? <==> AllRest(FlatAll(segments))
    decreases segments
  {
    hide MatchOne, Flat, AllRest;
    AllRestSplit([], []);
    if segments != [] {
      AtTheEndOne(segments[0], parts);
      AtTheEnd(segments[1..], parts);
      var a, b := Flat(segments[0]), FlatAll(segments[1..]);
      AllRestSplit(a, b);
      var one := MatchOne(segments[0], parts, |parts|);
      assert one.Some? ==> one.value.0 == |parts|;
    }
  }

  lemma AllRestSplit(a: seq<Segment>, b: seq<Segment>)
    ensures AllRest([])
    ensures AllRest(a + b) <==> AllRest(a) && AllRest(b)
  {
    assert forall p :: p in a + b <==> p in a || p in b;
  }

  lemma {:induction false} AtTheEndOne(segment: Segment, parts: seq<string>)
    ensures MatchOne(segment, parts, |parts|).Some? <==> AllRest(Flat(segment))
    decreases segment
  {
    hide Match, FlatAll, Bound;
    if segment.Capture? {
      AtTheEnd(segment.subs, parts);
    } else {
      assert segment in Flat(segment);
    }
  }

  lemma RestSplit(a: seq<Segment>, b: seq<Segment>)
    ensures OnlyRestAfterRest(a + b) <==>
      OnlyRestAfterRest(a) && OnlyRestAfterRest(b) && (AnyRest in a ==> AllRest(b))
  {
    var c := a + b;
    if OnlyRestAfterRest(c) {
      forall j, k | 0 <= j < k < |a| && a[j] == AnyRest
        ensures a[k] == AnyRest
      {
        assert c[j] == a[j] && c[k] == a[k];
      }
      forall j, k | 0 <= j < k < |b| && b[j] == AnyRest
        ensures b[k] == AnyRest
      {
        assert c[|a| + j] == b[j] && c[|a| + k] == b[k];
      }
      if AnyRest in a {
        var j :| 0 <= j < |a| && a[j] == AnyRest;
        forall p | p in b
          ensures p == AnyRest
        {
          var k :| 0 <= k < |b| && b[k] == p;
          assert c[j] == a[j] && c[|a| + k] == b[k];
        }
      }
    } else {
      var j, k :| 0 <= j < k < |c| && c[j] == AnyRest && c[k] != AnyRest;
      if |a| <= j {
        assert b[j - |a|] == AnyRest && b[k - |a|] != AnyRest;
      } else if |a| <= k {
        assert a[j] in a && b[k - |a|] in b;
      }
    }
  }

  /** A template that matches anything at all has only `**` after a `**`, and then a `**` reaches the end. */
  lemma {:induction false} MatchesMeansRestLast(segments: seq<Segment>, parts: seq<string>, i: nat)
    requires i <= |parts| && Match(segments, parts, i).Some?
    ensures OnlyRestAfterRest(FlatAll(segments))
    ensures AnyRest in FlatAll(segments) ==> Match(segments, parts, i).value.0 == |parts|
    decreases segments
  {
    hide OnlyRestAfterRest, Bound;
    if segments == [] {
      RestSplitEmpty();
    } else {
      var s := segments[0];
      var m := MatchOne(s, parts, i).value.0;
      if s.Capture? {
        MatchesMeansRestLast(s.subs, parts, i);
      } else {
        RestSplitOne(s);
      }
      MatchesMeansRestLast(segments[1..], parts, m);
      RestSplit(Flat(s), FlatAll(segments[1..]));
      if AnyRest in Flat(s) {
        AtTheEnd(segments[1..], parts);
      }
    }
  }

  lemma RestSplitEmpty()
    ensures OnlyRestAfterRest([])
  {
  }

  lemma RestSplitOne(p: Segment)
    ensures OnlyRestAfterRest([p])
  {
  }

  /** With only `**` after a `**`, a filling of a beginning of the path is matched. */
  lemma {:induction false} RestLastMatches(segments: seq<Segment>, fs: seq<Fill>, parts: seq<string>, i: nat)
    requires OnlyRestAfterRest(FlatAll(segments)) && FitsAll(segments, fs) && At(parts, i, YieldAll(fs))
    ensures Match(segments, parts, i).Some?
    ensures Match(segments, parts, i).value.0 == if AnyRest in FlatAll(segments) then |parts| else i + |YieldAll(fs)|
    decreases segments
  {
    hide OnlyRestAfterRest, Bound, At, MatchOne, Fits, Flat, Yield;
    AtBounds(parts, i, YieldAll(fs));
    if segments != [] {
      var s, f := segments[0], fs[0];
      RestSplit(Flat(s), FlatAll(segments[1..]));
      AtSplit(parts, i, Yield(f), YieldAll(fs[1..]));
      RestLastMatchesOne(s, f, parts, i);
      if AnyRest in Flat(s) {
        AtTheEnd(segments[1..], parts);
      } else {
        RestLastMatches(segments[1..], fs[1..], parts, i + |Yield(f)|);
      }
    }
  }

  lemma {:induction false} RestLastMatchesOne(segment: Segment, f: Fill, parts: seq<string>, i: nat)
    requires OnlyRestAfterRest(Flat(segment)) && Fits(segment, f) && At(parts, i, Yield(f))
    ensures MatchOne(segment, parts, i).Some?
    ensures MatchOne(segment, parts, i).value.0 == if AnyRest in Flat(segment) then |parts| else i + |Yield(f)|
    decreases segment
  {
    hide OnlyRestAfterRest, Bound, Match, FitsAll, FlatAll, YieldAll;
    if segment.Capture? {
      RestLastMatches(segment.subs, f.fills, parts, i);
    } else {
      var w := Yield(f);
      assert |w| == 1 ==> parts[i] == parts[i..i + 1][0] == w[0];
    }
  }

  /** Every template has a filling. */
  lemma {:induction false} Sample(segments: seq<Segment>) returns (fs: seq<Fill>)
    ensures FitsAll(segments, fs)
    decreases segments
  {
    if segments == [] {
      fs := [];
    } else {
      var f: Fill;
      match segments[0] {
        case Literal(t) => f := Words([t]);
        case AnyOne => f := Words(["x"]);
        case AnyRest => f := Words([]);
        case Capture(_, subs) =>
          var inner := Sample(subs);
          f := Inside(inner);
      }
      var later := Sample(segments[1..]);
      fs := [f] + later;
      assert fs[1..] == later;
    }
  }

  // ----- the theorems on component lists -----

  /** `parts` is in the template's language. */
  ghost predicate InLanguage(segments: seq<Segment>, parts: seq<string>) {
    exists fs :: FitsAll(segments, fs) && YieldAll(fs) == parts
  }

  lemma SoundAll(segments: seq<Segment>, parts: seq<string>)
    requires MatchAll(segments, parts).Some?
    ensures exists fs ::
      FitsAll(segments, fs) && YieldAll(fs) == parts && CapturesAll(segments, fs) == MatchAll(segments, parts).value
  {
    var fs := Sound(segments, parts, 0);
    assert parts[0..|parts|] == parts;
  }

  /** The matcher decides the language of exactly the templates in which nothing but `**` follows a `**`. Any other
      template matches no path at all, although its language is not empty. */
  lemma DecidesIff(segments: seq<Segment>)
    ensures (forall parts :: MatchAll(segments, parts).Some? <==> InLanguage(segments, parts))
       <==> OnlyRestAfterRest(FlatAll(segments))
    ensures !OnlyRestAfterRest(FlatAll(segments)) ==> forall parts :: MatchAll(segments, parts).None?
    ensures exists parts :: InLanguage(segments, parts)
  {
    hide Match, FitsAll, YieldAll, CapturesAll, OnlyRestAfterRest, FlatAll;
    var fs := Sample(segments);
    assert InLanguage(segments, YieldAll(fs));
    forall parts | MatchAll(segments, parts).Some?
      ensures InLanguage(segments, parts) && OnlyRestAfterRest(FlatAll(segments))
    {
      SoundAll(segments, parts);
      MatchesMeansRestLast(segments, parts, 0);
    }
    if OnlyRestAfterRest(FlatAll(segments)) {
      forall parts | InLanguage(segments, parts)
        ensures MatchAll(segments, parts).Some?
      {
        var gs :| FitsAll(segments, gs) && YieldAll(gs) == parts;
        assert parts[0..0 + |parts|] == parts;
        RestLastMatches(segments, gs, parts, 0);
      }
    }
  }

  /** With `**` only last, the captures are those of every filling there is: derivations cannot disagree. */
  lemma CapturesAreUnique(segments: seq<Segment>, parts: seq<string>, fs: seq<Fill>)
    requires OnlyLast(FlatAll(segments)) && FitsAll(segments, fs) && YieldAll(fs) == parts
    ensures MatchAll(segments, parts) == Some(CapturesAll(segments, fs))
  {
    hide Match, FitsAll, YieldAll, CapturesAll, OnlyLast, FlatAll;
    assert parts[0..] == parts;
    Complete(segments, fs, parts, 0);
  }

  lemma RestCapture(field: string, ws: seq<string>)
    ensures
      var c, f := Capture([field], [AnyRest]), Inside([Words(ws)]);
      Fits(c, f) && Yield(f) == ws && Captures(c, f) == [([field], Bound(ws))]
  {
    assert [AnyRest][1..] == [] && [Words(ws)][1..] == [];
    assert FitsAll([AnyRest], [Words(ws)]);
    assert ws + [] == ws;
    assert YieldAll([Words(ws)]) == ws;
    assert CapturesAll([AnyRest], [Words(ws)]) == [];
  }

  lemma PairFits(a: Segment, b: Segment, f: Fill, g: Fill)
    requires Fits(a, f) && Fits(b, g)
    ensures FitsAll([a, b], [f, g]) && YieldAll([f, g]) == Yield(f) + Yield(g)
    ensures CapturesAll([a, b], [f, g]) == Captures(a, f) + Captures(b, g)
  {
    hide Fits, Yield, Captures;
    assert [a, b][1..] == [b] && [f, g][1..] == [g] && [b][1..] == [] && [g][1..] == [];
    assert FitsAll([b], [g]);
    assert YieldAll([g]) == Yield(g);
    assert CapturesAll([b], [g]) == Captures(b, g);
  }

  lemma BoundSamples()
    ensures Bound(["x"]) == "x" && Bound([]) == ""
  {
    assert ["x"][1..] == [] && "x"[1..] == "";
    assert PercentDecode("x") == "x";
    assert DecodeEach([]) == [];
    assert DecodeEach(["x"]) == ["x"];
  }

  /** Two `**` in a row are where derivations do disagree. */
  lemma TwoRestsAreAmbiguous()
    ensures
      var t := [Capture(["a"], [AnyRest]), Capture(["b"], [AnyRest])];
      exists fs, gs ::
        FitsAll(t, fs) && FitsAll(t, gs) && YieldAll(fs) == YieldAll(gs) && CapturesAll(t, fs) != CapturesAll(t, gs)
  {
    hide Fits, FitsAll, YieldAll, Yield, Captures, CapturesAll, Bound;
    var a, b := Capture(["a"], [AnyRest]), Capture(["b"], [AnyRest]);
    var full, bare := Inside([Words(["x"])]), Inside([Words([])]);
    RestCapture("a", ["x"]);
    RestCapture("a", []);
    RestCapture("b", ["x"]);
    RestCapture("b", []);
    BoundSamples();
    PairFits(a, b, full, bare);
    PairFits(a, b, bare, full);
    assert CapturesAll([a, b], [full, bare])[0].1 == "x" && CapturesAll([a, b], [bare, full])[0].1 == "";
  }
}
