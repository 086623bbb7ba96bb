/** Compiling the text of a template gives the template back. */
module HttpTemplateProofs {
  import opened Common
  import opened HttpTemplate

  // ----- text the splitter leaves in one piece -----

  /** The brace depth after reading `w`. */
  ghost function EndDepth(w: string, braces: bool, depth: nat): nat {
    if w == "" then depth else EndDepth(w[1..], braces, Deeper(w[0], braces, depth))
  }

  /** Reading `w` from `depth` meets no separator that counts. */
  ghost predicate Solid(w: string, sep: char, braces: bool, depth: nat) {
    w == "" || (!Cuts(w[0], sep, braces, depth) && Solid(w[1..], sep, braces, Deeper(w[0], braces, depth)))
  }

  lemma {:induction false} SplitSolid(w: string, rest: string, sep: char, braces: bool, depth: nat)
    requires Solid(w, sep, braces, depth)
    ensures Split(w + rest, sep, braces, depth) == Prepend(w, Split(rest, sep, braces, EndDepth(w, braces, depth)))
  {
    if w == "" {
      assert w + rest == rest;
      PrependNothing(Split(rest, sep, braces, depth));
    } else {
      var d := Deeper(w[0], braces, depth);
      SplitSolid(w[1..], rest, sep, braces, d);
      assert (w + rest)[1..] == w[1..] + rest;
      PrependTwice([w[0]], w[1..], Split(rest, sep, braces, EndDepth(w[1..], braces, d)));
      assert [w[0]] + w[1..] == w;
    }
  }

  lemma {:induction false} SolidConcat(v: string, w: string, sep: char, depth: nat)
    requires Solid(v, sep, true, depth) && Solid(w, sep, true, EndDepth(v, true, depth))
    ensures Solid(v + w, sep, true, depth)
    ensures EndDepth(v + w, true, depth) == EndDepth(w, true, EndDepth(v, true, depth))
  {
    if v == "" {
      assert v + w == w;
    } else {
      SolidConcat(v[1..], w, sep, Deeper(v[0], true, depth));
      assert (v + w)[1..] == v[1..] + w;
    }
  }

  /** Text without braces is in one piece inside a brace, and outside when it holds no separator. */
  lemma {:induction false} SolidPlain(w: string, sep: char, braces: bool, depth: nat)
    requires (braces ==> Without(w, {'{', '}'})) && (depth > 0 || sep !in w)
    ensures Solid(w, sep, braces, depth) && EndDepth(w, braces, depth) == depth
  {
    if w != "" {
      assert w[0] in w;
      assert forall c :: c in w[1..] ==> c in w;
      SolidPlain(w[1..], sep, braces, depth);
    }
  }

  /** Braces around brace-free text hide every separator in it. */
  lemma SolidBraced(w: string, sep: char)
    requires Without(w, {'{', '}'})
    ensures Solid("{" + w + "}", sep, true, 0) && EndDepth("{" + w + "}", true, 0) == 0
  {
    SolidPlain(w, sep, true, 1);
    assert Solid("}", sep, true, 1) && EndDepth("}", true, 1) == 0 by {
      assert "}"[1..] == "" && "}"[0] == '}';
      assert Deeper('}', true, 1) == 0;
      assert EndDepth("", true, 0) == 0 && Solid("", sep, true, 0);
    }
    SolidConcat(w, "}", sep, 1);
    var all := "{" + w + "}";
    assert all[1..] == w + "}" && all[0] == '{';
  }

  // ----- splitting undoes joining, and joining undoes splitting -----

  ghost predicate Pieces(ws: seq<string>, sep: char, braces: bool) {
    forall w :: w in ws ==> Solid(w, sep, braces, 0) && EndDepth(w, braces, 0) == 0
  }

  lemma {:induction false} SplitJoin(ws: seq<string>, sep: char, braces: bool)
    requires ws != [] && Pieces(ws, sep, braces) && (braces ==> sep !in {'{', '}'})
    ensures Split(Join(ws, sep), sep, braces, 0) == ws
  {
    var w := ws[0];
    assert w in ws;
    if |ws| == 1 {
      assert w + "" == w;
      SplitSolid(w, "", sep, braces, 0);
    } else {
      var tail := Join(ws[1..], sep);
      SplitJoin(ws[1..], sep, braces);
      assert w + [sep] + tail == w + ([sep] + tail);
      SplitSolid(w, [sep] + tail, sep, braces, 0);
      assert ([sep] + tail)[1..] == tail;
      assert ([""] + ws[1..])[1..] == ws[1..];
      assert w + "" == w;
    }
  }

  lemma {:induction false} JoinSplit(s: string, sep: char, braces: bool, depth: nat)
    ensures Join(Split(s, sep, braces, depth), sep) == s
  {
    if s != "" {
      var d := if Cuts(s[0], sep, braces, depth) then depth else Deeper(s[0], braces, depth);
      var later := Split(s[1..], sep, braces, d);
      JoinSplit(s[1..], sep, braces, d);
      if Cuts(s[0], sep, braces, depth) {
        assert ([""] + later)[1..] == later;
        assert "" + [sep] + s[1..] == s;
      } else {
        JoinPrepend([s[0]], later, sep);
        assert [s[0]] + s[1..] == s;
      }
    }
  }

  lemma JoinPrepend(w: string, pieces: seq<string>, sep: char)
    requires pieces != []
    ensures Join(Prepend(w, pieces), sep) == w + Join(pieces, sep)
  {
    var q := Prepend(w, pieces);
    assert q[1..] == pieces[1..];
    if |pieces| > 1 {
      assert (w + pieces[0]) + [sep] + Join(pieces[1..], sep) == w + (pieces[0] + [sep] + Join(pieces[1..], sep));
    }
  }

  lemma SplitCons(c: char, s: string, sep: char, braces: bool, depth: nat)
    ensures Split("", sep, braces, depth) == [""]
    ensures Cuts(c, sep, braces, depth) ==> Split([c] + s, sep, braces, depth) == [""] + Split(s, sep, braces, depth)
    ensures !Cuts(c, sep, braces, depth) ==>
      Split([c] + s, sep, braces, depth) == Prepend([c], Split(s, sep, braces, Deeper(c, braces, depth)))
  {
    assert ([c] + s)[1..] == s;
  }

  /** A separator outside braces splits a text into what its two sides split into. */
  lemma {:induction false} SplitAt(v: string, w: string, sep: char, braces: bool, depth: nat)
    requires EndDepth(v, braces, depth) == 0 && (braces ==> sep !in {'{', '}'})
    ensures Split(v + [sep] + w, sep, braces, depth) == Split(v, sep, braces, depth) + Split(w, sep, braces, 0)
  {
    hide Split;
    if v == "" {
      assert v + [sep] + w == [sep] + w;
      SplitCons(sep, w, sep, braces, 0);
    } else {
      var c, front := v[0], v[1..];
      var d := Deeper(c, braces, depth);
      assert v == [c] + front && v + [sep] + w == [c] + (front + [sep] + w);
      SplitCons(c, front, sep, braces, depth);
      SplitCons(c, front + [sep] + w, sep, braces, depth);
      var more := Split(w, sep, braces, 0);
      if Cuts(c, sep, braces, depth) {
        SplitAt(front, w, sep, braces, depth);
        Assoc([""], Split(front, sep, braces, depth), more);
      } else {
        SplitAt(front, w, sep, braces, d);
        PrependConcat([c], Split(front, sep, braces, d), more);
      }
    }
  }

  lemma PrependConcat(w: string, a: seq<string>, b: seq<string>)
    requires a != []
    ensures Prepend(w, a + b) == Prepend(w, a) + b
  {
  }

  lemma {:induction false} EndDepthSnoc(v: string, c: char, braces: bool, depth: nat)
    ensures EndDepth(v + [c], braces, depth) == Deeper(c, braces, EndDepth(v, braces, depth))
  {
    if v == "" {
      assert v + [c] == [c] && [c][1..] == "";
    } else {
      assert (v + [c])[1..] == v[1..] + [c];
      EndDepthSnoc(v[1..], c, braces, Deeper(v[0], braces, depth));
    }
  }

  lemma {:induction false} FlatDepth(v: string)
    ensures EndDepth(v, false, 0) == 0
  {
    if v != "" {
      FlatDepth(v[1..]);
    }
  }

  lemma {:induction false} NonEmptyConcat(a: seq<string>, b: seq<string>)
    ensures NonEmpty(a + b) == NonEmpty(a) + NonEmpty(b)
  {
    if a == [] {
      assert a + b == b;
    } else {
      assert (a + b)[1..] == a[1..] + b;
      NonEmptyConcat(a[1..], b);
    }
  }

  lemma BlankPiece(braces: bool)
    ensures NonEmpty(Split("", '/', braces, 0)) == []
  {
    assert [""][1..] == [];
  }

  lemma {:induction false} TrimLeftKeeps(s: string, braces: bool)
    requires EndDepth(s, braces, 0) == 0
    ensures NonEmpty(Split(TrimLeft(s), '/', braces, 0)) == NonEmpty(Split(s, '/', braces, 0))
    ensures EndDepth(TrimLeft(s), braces, 0) == 0
  {
    if s != "" && s[0] == '/' {
      assert s == "" + "/" + s[1..];
      SplitAt("", s[1..], '/', braces, 0);
      BlankPiece(braces);
      NonEmptyConcat(Split("", '/', braces, 0), Split(s[1..], '/', braces, 0));
      assert [] + NonEmpty(Split(s[1..], '/', braces, 0)) == NonEmpty(Split(s[1..], '/', braces, 0));
      TrimLeftKeeps(s[1..], braces);
    }
  }

  lemma {:induction false} TrimRightKeeps(s: string, braces: bool)
    requires EndDepth(s, braces, 0) == 0
    ensures NonEmpty(Split(TrimRight(s), '/', braces, 0)) == NonEmpty(Split(s, '/', braces, 0))
    decreases |s|
  {
    if s != "" && s[|s| - 1] == '/' {
      var front := s[..|s| - 1];
      assert s == front + "/" && s == front + "/" + "";
      EndDepthSnoc(front, '/', braces, 0);
      SplitAt(front, "", '/', braces, 0);
      BlankPiece(braces);
      NonEmptyConcat(Split(front, '/', braces, 0), Split("", '/', braces, 0));
      assert NonEmpty(Split(front, '/', braces, 0)) + [] == NonEmpty(Split(front, '/', braces, 0));
      TrimRightKeeps(front, braces);
    }
  }

  /** Trimming slashes first makes no difference to the pieces. */
  lemma TrimKeeps(s: string, braces: bool)
    requires EndDepth(s, braces, 0) == 0
    ensures NonEmpty(Split(Trim(s), '/', braces, 0)) == NonEmpty(Split(s, '/', braces, 0))
  {
    TrimLeftKeeps(s, braces);
    TrimRightKeeps(TrimLeft(s), braces);
  }

  // ----- trimming and dropping empty pieces -----

  lemma {:induction false} NonEmptyAll(ws: seq<string>)
    requires "" !in ws
    ensures NonEmpty(ws) == ws
  {
    if ws != [] {
      assert ws[0] in ws;
      NonEmptyAll(ws[1..]);
    }
  }

  lemma {:induction false} JoinWithout(ws: seq<string>, sep: char, bad: set<char>)
    requires sep !in bad && forall w :: w in ws ==> Without(w, bad)
    ensures Without(Join(ws, sep), bad)
  {
    if ws != [] {
      assert ws[0] in ws;
      JoinWithout(ws[1..], sep, bad);
    }
  }

  lemma {:induction false} JoinDepth(ws: seq<string>, braces: bool)
    requires Pieces(ws, '/', braces)
    ensures EndDepth(Join(ws, '/'), braces, 0) == 0
  {
    if ws != [] {
      assert ws[0] in ws;
      if |ws| > 1 {
        JoinDepth(ws[1..], braces);
        assert ws[0] + "/" + Join(ws[1..], '/') == (ws[0] + "/") + Join(ws[1..], '/');
        EndDepthSnoc(ws[0], '/', braces, 0);
        EndDepthConcat(ws[0] + "/", Join(ws[1..], '/'), braces, 0);
      }
    }
  }

  lemma {:induction false} EndDepthConcat(v: string, w: string, braces: bool, depth: nat)
    ensures EndDepth(v + w, braces, depth) == EndDepth(w, braces, EndDepth(v, braces, depth))
  {
    if v == "" {
      assert v + w == w;
    } else {
      assert (v + w)[1..] == v[1..] + w;
      EndDepthConcat(v[1..], w, braces, Deeper(v[0], braces, depth));
    }
  }

  /** Split, trim and filter give the nonempty pieces back. */
  lemma ComponentsOfJoin(ws: seq<string>, braces: bool)
    requires Pieces(ws, '/', braces)
    ensures NonEmpty(Split(Trim(Join(ws, '/')), '/', braces, 0)) == NonEmpty(ws)
  {
    JoinDepth(ws, braces);
    TrimKeeps(Join(ws, '/'), braces);
    if ws == [] {
      BlankPiece(braces);
    } else {
      SplitJoin(ws, '/', braces);
    }
  }

  // ----- segments -----

  lemma {:induction false} PlainsBack(ps: seq<Segment>)
    requires forall p :: p in ps ==> !p.Capture? && GoodSub(p)
    ensures PlainSegments(RenderPlains(ps)) == ps
    ensures forall w :: w in RenderPlains(ps) ==> w != "" && Without(w, {'/', '{', '}'})
  {
    if ps != [] {
      assert ps[0] in ps;
      PlainsBack(ps[1..]);
    }
  }

  /** Words without slashes come back from the plain splitter. */
  lemma PlainPieces(ws: seq<string>)
    requires forall w :: w in ws ==> '/' !in w
    ensures Pieces(ws, '/', false)
  {
    hide Solid, EndDepth;
    forall w | w in ws
      ensures Solid(w, '/', false, 0) && EndDepth(w, false, 0) == 0
    {
      SolidPlain(w, '/', false, 0);
    }
  }

  lemma {:induction false} SplitOnceAt(v: string, c: char, w: string)
    requires c !in v
    ensures SplitOnce(v + [c] + w, c) == Some((v, w))
  {
    var s := v + [c] + w;
    if v == "" {
      assert s[1..] == w;
    } else {
      assert s[1..] == v[1..] + [c] + w;
      SplitOnceAt(v[1..], c, w);
      assert [v[0]] + v[1..] == v;
    }
  }

  lemma FieldBack(field: seq<string>)
    requires field != [] && forall f :: f in field ==> Without(f, {'.', '=', '{', '}'})
    ensures SplitOn(Join(field, '.'), '.') == field
    ensures Without(Join(field, '.'), {'=', '{', '}'})
  {
    forall f | f in field
      ensures Solid(f, '.', false, 0) && EndDepth(f, false, 0) == 0 && Without(f, {'=', '{', '}'})
    {
      SolidPlain(f, '.', false, 0);
    }
    JoinWithout(field, '.', {'=', '{', '}'});
    SplitJoin(field, '.', false);
  }

  /** Text that both splitters leave alone. */
  ghost predicate Whole(w: string) {
    w != "" && Solid(w, '/', true, 0) && Solid(w, ':', true, 0) && EndDepth(w, true, 0) == 0
  }

  /** One segment: either text compiles back to it, and neither splitter cuts it. */
  lemma SegmentBack(p: Segment, short: bool)
    requires GoodSegment(p)
    ensures ParseSegment(Render(p, short)) == p
    ensures Whole(Render(p, short))
  {
    hide Split, Solid, EndDepth, Join, PlainSegments, RenderPlains, NonEmpty, Trim, SplitOnce;
    if p.Capture? && short && p.subs == [AnyOne] {
      ShortBack(p.field);
    } else if p.Capture? {
      CaptureBack(p);
    } else {
      PlainBack(p);
    }
  }

  /** `{f}` without a pattern captures one component. */
  lemma ShortBack(field: seq<string>)
    requires field != [] && forall f :: f in field ==> Without(f, {'.', '=', '{', '}'})
    ensures ParseSegment("{" + Join(field, '.') + "}") == Capture(field, [AnyOne])
    ensures Whole("{" + Join(field, '.') + "}")
  {
    hide Split, Solid, EndDepth, Join, PlainSegments, NonEmpty, Trim, SplitOnce;
    var inner := Join(field, '.');
    var s := "{" + inner + "}";
    FieldBack(field);
    SolidBraced(inner, '/');
    SolidBraced(inner, ':');
    assert s[1..|s| - 1] == inner;
    SplitOnceNone(inner, '=');
    StarPattern();
  }

  lemma {:induction false} SplitOnceNone(s: string, c: char)
    requires c !in s
    ensures SplitOnce(s, c) == None
  {
    if s != "" {
      assert s[0] in s;
      assert forall x :: x in s[1..] ==> x in s;
      SplitOnceNone(s[1..], c);
    }
  }

  /** The pattern that is understood. */
  lemma StarPattern()
    ensures PlainSegments(NonEmpty(SplitOn(Trim("*"), '/'))) == [AnyOne]
  {
    hide Split, Trim;
    PlainPieces(["*"]);
    ComponentsOfJoin(["*"], false);
    assert Join(["*"], '/') == "*";
    assert ["*"][1..] == [];
    assert NonEmpty(["*"]) == ["*"];
  }

  lemma CaptureBack(p: Segment)
    requires GoodSegment(p) && p.Capture?
    ensures ParseSegment(Render(p, false)) == p
    ensures Whole(Render(p, false))
  {
    hide Split, Solid, EndDepth, Join, PlainSegments, RenderPlains, NonEmpty, Trim, SplitOnce;
    var field := Join(p.field, '.');
    var ws := RenderPlains(p.subs);
    var pattern := Join(ws, '/');
    var inner := field + "=" + pattern;
    var s := "{" + inner + "}";
    FieldBack(p.field);
    PlainsBack(p.subs);
    PlainPieces(ws);
    JoinWithout(ws, '/', {'{', '}'});
    assert Without(inner, {'{', '}'});
    SolidBraced(inner, '/');
    SolidBraced(inner, ':');
    assert s[1..|s| - 1] == inner;
    SplitOnceAt(field, '=', pattern);
    ComponentsOfJoin(ws, false);
    NonEmptyAll(ws);
  }

  lemma PlainBack(p: Segment)
    requires GoodSegment(p) && !p.Capture?
    ensures ParseSegment(Render(p, false)) == p && Render(p, true) == Render(p, false)
    ensures Whole(Render(p, false))
  {
    hide Split, Solid, EndDepth;
    var w := Render(p, false);
    assert w[0] in w;
    SolidPlain(w, '/', true, 0);
    SolidPlain(w, ':', true, 0);
  }

  lemma {:induction false} SegmentsBack(ps: seq<Segment>, shorts: seq<bool>)
    requires GoodTemplate(ps) && |shorts| == |ps|
    ensures ParseSegments(RenderAll(ps, shorts)) == ps
    ensures forall w :: w in RenderAll(ps, shorts) ==> Whole(w)
  {
    hide Whole, Render, ParseSegment, GoodSegment;
    if ps != [] {
      assert ps[0] in ps;
      SegmentBack(ps[0], shorts[0]);
      SegmentsBack(ps[1..], shorts[1..]);
      var w, later := Render(ps[0], shorts[0]), RenderAll(ps[1..], shorts[1..]);
      var ws := RenderAll(ps, shorts);
      assert ws == [w] + later && ws[0] == w && ws[1..] == later;
      assert forall v :: v in ws ==> v == w || v in later;
    }
  }

  lemma {:induction false} JoinSolid(ws: seq<string>, sep: char)
    requires Pieces(ws, sep, true) && sep != '/'
    ensures Solid(Join(ws, '/'), sep, true, 0) && EndDepth(Join(ws, '/'), true, 0) == 0
  {
    if ws != [] {
      assert ws[0] in ws;
      if |ws| > 1 {
        JoinSolid(ws[1..], sep);
        SolidPlain("/", sep, true, 0);
        SolidConcat(ws[0], "/", sep, 0);
        SolidConcat(ws[0] + "/", Join(ws[1..], '/'), sep, 0);
      }
    }
  }

  lemma {:induction false} InNonEmpty(ws: seq<string>, w: string)
    ensures w in NonEmpty(ws) <==> w in ws && w != ""
  {
    if ws != [] {
      InNonEmpty(ws[1..], w);
      assert w in ws <==> w == ws[0] || w in ws[1..];
    }
  }

  /** Pieces that are whole or empty. */
  lemma PaddedPieces(padded: seq<string>)
    requires forall w :: w in NonEmpty(padded) ==> Whole(w)
    ensures Pieces(padded, '/', true) && Pieces(padded, ':', true)
  {
    hide NonEmpty;
    forall w | w in padded
      ensures Solid(w, '/', true, 0) && Solid(w, ':', true, 0) && EndDepth(w, true, 0) == 0
    {
      InNonEmpty(padded, w);
    }
  }

  /** Any text of any template the syntax can express, in either form of each capture, with any slashes to spare and any
      custom verb, compiles to that template. */
  lemma TemplateRoundTrip(segments: seq<Segment>, shorts: seq<bool>, padded: seq<string>, verb: string)
    requires GoodTemplate(segments) && |shorts| == |segments| && NonEmpty(padded) == RenderAll(segments, shorts)
    ensures ParseTemplate(TemplateText(padded, verb)) == (segments, verb)
  {
    hide Split, Solid, EndDepth, Join, NonEmpty, Trim, ParseSegments, RenderAll, GoodSegment, Whole;
    var path := Join(padded, '/');
    SegmentsBack(segments, shorts);
    PaddedPieces(padded);
    JoinSolid(padded, ':');
    ComponentsOfJoin(padded, true);
    var tail := if verb == "" then "" else ":" + verb;
    SplitSolid(path, tail, ':', true, 0);
    assert path + "" == path;
    if verb == "" {
      SplitEmpty(':', 0);
      JoinNone();
    } else {
      SplitStep(tail, 0, ':', 0);
      assert tail[0..] == tail && tail[1..] == verb;
      var later := Split(verb, ':', true, 0);
      assert Prepend(path, [""] + later) == [path] + later;
      JoinSplit(verb, ':', true, 0);
    }
  }

  lemma JoinNone()
    ensures Join([], ':') == ""
  {
  }

  /** For instance, `/v1/{id}` captures one component. */
  lemma ShortTemplate()
    ensures ParseTemplate("/v1/{id}") == ([Literal("v1"), Capture(["id"], [AnyOne])], "")
  {
    hide ParseTemplate, RenderAll, NonEmpty, Join, GoodSegment;
    var segments := [Literal("v1"), Capture(["id"], [AnyOne])];
    SampleRendering();
    SampleText();
    assert TemplateText(["", "v1", "{id}"], "") == "/v1/{id}" + "" == "/v1/{id}";
    TemplateRoundTrip(segments, [true, true], ["", "v1", "{id}"], "");
  }

  lemma SampleRendering()
    ensures
      var segments := [Literal("v1"), Capture(["id"], [AnyOne])];
      GoodTemplate(segments) && RenderAll(segments, [true, true]) == ["v1", "{id}"]
  {
    var id := Capture(["id"], [AnyOne]);
    var segments, shorts := [Literal("v1"), id], [true, true];
    assert GoodSub(AnyOne) && Without("id", {'.', '=', '{', '}'});
    assert GoodSegment(id) && GoodSegment(Literal("v1"));
    assert segments[1..] == [id] && shorts[1..] == [true] && [id][1..] == [] && [true][1..] == [];
    assert Join(["id"], '.') == "id";
    assert Render(id, true) == "{id}";
    assert RenderAll([], []) == [];
    assert RenderAll([id], [true]) == ["{id}"];
  }

  lemma SampleText()
    ensures Join(["", "v1", "{id}"], '/') == "/v1/{id}" && NonEmpty(["", "v1", "{id}"]) == ["v1", "{id}"]
  {
    var ws := ["", "v1", "{id}"];
    assert ws[1..] == ["v1", "{id}"] && ws[1..][1..] == ["{id}"] && ["{id}"][1..] == [];
    assert Join(["{id}"], '/') == "{id}" && NonEmpty(["{id}"]) == ["{id}"] + NonEmpty([]);
    assert Join(ws[1..], '/') == "v1" + "/" + "{id}" && NonEmpty(ws[1..]) == ["v1"] + ["{id}"];
    assert Join(ws, '/') == "" + "/" + Join(ws[1..], '/');
    assert NonEmpty(ws) == [] + NonEmpty(ws[1..]);
  }
}
