/** `google.api.http` path templates: the brace-aware splitter and the compiler. A string is read one char per byte;
    every character these functions look at is ASCII. */
module HttpTemplate {
  import opened Common

  /** `{f=p}` holds its own sub-pattern, so a capture can span several components. */
  datatype Segment =
    | Literal(text: string)
    | AnyOne
    | AnyRest
    | Capture(field: seq<string>, subs: seq<Segment>)

  // ----- splitting -----

  /** Put `w` in front of the first piece. */
  function Prepend(w: string, pieces: seq<string>): seq<string>
    requires pieces != []
  {
    [w + pieces[0]] + pieces[1..]
  }

  /** The brace depth after one more character. */
  function Deeper(c: char, braces: bool, depth: nat): nat {
    if braces && c == '{' then depth + 1
    else if braces && c == '}' then (if depth == 0 then 0 else depth - 1)
    else depth
  }

  /** `c` is a separator the splitter honours at this depth. */
  predicate Cuts(c: char, sep: char, braces: bool, depth: nat) {
    c == sep && depth == 0 && !(braces && (c == '{' || c == '}'))
  }

  /** Split `s` at every separator outside braces (or, with `braces` off, at every separator). */
  function Split(s: string, sep: char, braces: bool, depth: nat): (pieces: seq<string>)
    ensures pieces != []
  {
    if s == "" then [""]
    else if Cuts(s[0], sep, braces, depth) then [""] + Split(s[1..], sep, braces, depth)
    else Prepend([s[0]], Split(s[1..], sep, braces, Deeper(s[0], braces, depth)))
  }

  function SplitOn(s: string, sep: char): seq<string> {
    Split(s, sep, false, 0)
  }

  function Join(pieces: seq<string>, sep: char): string {
    if pieces == [] then ""
    else if |pieces| == 1 then pieces[0]
    else pieces[0] + [sep] + Join(pieces[1..], sep)
  }

  lemma PrependTwice(v: string, w: string, pieces: seq<string>)
    requires pieces != []
    ensures Prepend(v, Prepend(w, pieces)) == Prepend(v + w, pieces)
  {
    assert Prepend(w, pieces)[1..] == pieces[1..];
    assert v + (w + pieces[0]) == (v + w) + pieces[0];
  }

  lemma PrependNothing(pieces: seq<string>)
    requires pieces != []
    ensures Prepend("", pieces) == pieces
  {
    assert "" + pieces[0] == pieces[0];
  }

  /** The splitter itself: one pass with a depth counter. */
  method SplitOutsideBraces(s: string, sep: char) returns (out: seq<string>)
    ensures out == Split(s, sep, true, 0)
  {
    hide Split;
    out := [];
    var depth: nat, start: nat := 0, 0;
    PrependNothing(Split(s, sep, true, 0));
    assert s[0..] == s && s[0..0] == "";
    for i := 0 to |s|
      invariant 0 <= start <= i
      invariant Split(s, sep, true, 0) == out + Prepend(s[start..i], Split(s[i..], sep, true, depth))
    {
      var c := s[i];
      ghost var later := Split(s[i + 1..], sep, true, Deeper(c, true, depth));
      SplitStep(s, i, sep, depth);
      if Cuts(c, sep, true, depth) {
        assert s[start..i] + "" == s[start..i];
        assert [""][1..] + later == later;
        PrependNothing(later);
        Assoc(out, [s[start..i]], later);
        out := out + [s[start..i]];
        start := i + 1;
        assert s[start..i + 1] == "";
      } else {
        PrependTwice(s[start..i], [c], later);
        assert s[start..i] + [c] == s[start..i + 1];
        match c {
          case '{' => depth := depth + 1;
          case '}' => depth := if depth == 0 then 0 else depth - 1;
          case _ =>
        }
      }
    }
    assert s[|s|..] == "";
    SplitEmpty(sep, depth);
    assert Prepend(s[start..|s|], [""]) == [s[start..]] by {
      assert s[start..|s|] + "" == s[start..];
    }
    out := out + [s[start..]];
  }

  lemma SplitStep(s: string, i: nat, sep: char, depth: nat)
    requires i < |s|
    ensures Cuts(s[i], sep, true, depth) ==> Split(s[i..], sep, true, depth) == [""] + Split(s[i + 1..], sep, true, depth)
    ensures !Cuts(s[i], sep, true, depth) ==>
      Split(s[i..], sep, true, depth) == Prepend([s[i]], Split(s[i + 1..], sep, true, Deeper(s[i], true, depth)))
  {
    assert s[i..][1..] == s[i + 1..];
  }

  lemma SplitEmpty(sep: char, depth: nat)
    ensures Split("", sep, true, depth) == [""]
  {
  }

  // ----- the rest of the string vocabulary -----

  function TrimLeft(s: string): string {
    if s != "" && s[0] == '/' then TrimLeft(s[1..]) else s
  }

  function TrimRight(s: string): string {
    if s != "" && s[|s| - 1] == '/' then TrimRight(s[..|s| - 1]) else s
  }

  /** `trim_matches('/')` */
  function Trim(s: string): string {
    TrimRight(TrimLeft(s))
  }

  function NonEmpty(pieces: seq<string>): seq<string> {
    if pieces == [] then []
    else (if pieces[0] == "" then [] else [pieces[0]]) + NonEmpty(pieces[1..])
  }

  /** `split_once`: what is before and after the first `c`. */
  function SplitOnce(s: string, c: char): Option<(string, string)> {
    if s == "" then None
    else if s[0] == c then Some(("", s[1..]))
    else
      var r := SplitOnce(s[1..], c);
      if r.None? then None else Some(([s[0]] + r.value.0, r.value.1))
  }

  // ----- the compiler -----

  function PlainSegment(s: string): Segment {
    if s == "*" then AnyOne else if s == "**" then AnyRest else Literal(s)
  }

  function PlainSegments(pieces: seq<string>): seq<Segment> {
    if pieces == [] then [] else [PlainSegment(pieces[0])] + PlainSegments(pieces[1..])
  }

  predicate Braced(s: string) {
    |s| >= 2 && s[0] == '{' && s[|s| - 1] == '}'
  }

  function ParseSegment(s: string): Segment {
    if Braced(s) then
      var inner := s[1..|s| - 1];
      var once := SplitOnce(inner, '=');
      var field := if once.Some? then once.value.0 else inner;
      var pattern := if once.Some? then once.value.1 else "*";
      Capture(SplitOn(field, '.'), PlainSegments(NonEmpty(SplitOn(Trim(pattern), '/'))))
    else PlainSegment(s)
  }

  function ParseSegments(pieces: seq<string>): seq<Segment> {
    if pieces == [] then [] else [ParseSegment(pieces[0])] + ParseSegments(pieces[1..])
  }

  /** A template's segments and its custom verb (empty if it has none). */
  function ParseTemplate(template: string): (seq<Segment>, string) {
    var parts := Split(template, ':', true, 0);
    (ParseSegments(NonEmpty(Split(Trim(parts[0]), '/', true, 0))), Join(parts[1..], ':'))
  }

  // ----- rendering -----

  function RenderPlain(p: Segment): string
    requires !p.Capture?
  {
    match p
    case Literal(t) => t
    case AnyOne => "*"
    case AnyRest => "**"
  }

  function RenderPlains(ps: seq<Segment>): seq<string>
    requires forall p :: p in ps ==> !p.Capture?
  {
    if ps == [] then [] else [RenderPlain(ps[0])] + RenderPlains(ps[1..])
  }

  /** Text with none of `bad` in it. */
  predicate Without(s: string, bad: set<char>) {
    forall c :: c in s ==> c !in bad
  }

  /** A plain segment inside a capture. */
  predicate GoodSub(p: Segment) {
    !p.Capture? && (p.Literal? ==> p.text != "" && Without(p.text, {'/', '{', '}'}) && p.text != "*" && p.text != "**")
  }

  /** A segment the template syntax can express. */
  predicate GoodSegment(p: Segment) {
    if p.Capture? then
      && p.field != []
      && (forall f :: f in p.field ==> Without(f, {'.', '=', '{', '}'}))
      && (forall q :: q in p.subs ==> GoodSub(q))
    else GoodSub(p) && (p.Literal? ==> ':' !in p.text)
  }

  predicate GoodTemplate(segments: seq<Segment>) {
    forall p :: p in segments ==> GoodSegment(p)
  }

  /** A capture of one component may leave its pattern out; `short` says whether this one does. */
  function Render(p: Segment, short: bool): string
    requires GoodSegment(p)
  {
    if p.Capture? then
      if short && p.subs == [AnyOne] then "{" + Join(p.field, '.') + "}"
      else "{" + (Join(p.field, '.') + "=" + Join(RenderPlains(p.subs), '/')) + "}"
    else RenderPlain(p)
  }

  function RenderAll(ps: seq<Segment>, shorts: seq<bool>): (r: seq<string>)
    requires GoodTemplate(ps) && |shorts| == |ps|
    ensures |r| == |ps|
  {
    if ps == [] then [] else [Render(ps[0], shorts[0])] + RenderAll(ps[1..], shorts[1..])
  }

  /** A template's text. `pieces` are its segments with empty pieces thrown in: a slash more or less, anywhere between
      segments or at either end, makes no difference. */
  function TemplateText(pieces: seq<string>, verb: string): string {
    Join(pieces, '/') + (if verb == "" then "" else ":" + verb)
  }
}
