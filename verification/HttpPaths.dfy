/** Whole paths: how components and a custom verb are read off one, and what a filled-in template captures. */
module HttpPaths {
  import opened Common
  import opened HttpTemplate
  import opened HttpTemplateProofs
  import opened HttpMatch
  import opened HttpMatchProofs

  // ----- reading the verb -----

  lemma {:induction false} SplitOnceSpec(s: string, c: char)
    ensures c !in s ==> SplitOnce(s, c) == None
    ensures c in s ==> SplitOnce(s, c).Some?
    ensures SplitOnce(s, c).Some? ==> s == SplitOnce(s, c).value.0 + [c] + SplitOnce(s, c).value.1
    ensures SplitOnce(s, c).Some? ==> c !in SplitOnce(s, c).value.0
  {
    if s != "" && s[0] != c {
      assert forall x :: x in s <==> x == s[0] || x in s[1..];
      SplitOnceSpec(s[1..], c);
      var r := SplitOnce(s[1..], c);
      if r.Some? {
        assert s == [s[0]] + s[1..];
        assert [s[0]] + (r.value.0 + [c] + r.value.1) == ([s[0]] + r.value.0) + [c] + r.value.1;
      }
    } else if s != "" {
      assert s == "" + [c] + s[1..];
    }
  }

  lemma {:induction false} NonEmptyHasNone(ws: seq<string>)
    ensures "" !in NonEmpty(ws)
  {
    if ws != [] {
      NonEmptyHasNone(ws[1..]);
    }
  }

  /** What the matcher reads off the components: the same components without the verb, and the verb. */
  ghost function Told(comps: seq<string>): Option<(seq<string>, string)> {
    if comps == [] then Some(([], ""))
    else
      var n := |comps| - 1;
      var once := SplitOnce(comps[n], ':');
      if once.None? then Some((comps, ""))
      else if once.value.0 == "" then None
      else Some((comps[n := once.value.0], once.value.1))
  }

  /** A list of components says at most one thing, and the matcher reads exactly that. */
  lemma ToldSpells(comps: seq<string>, parts: seq<string>, verb: string)
    requires "" !in comps
    ensures Spells(comps, parts, verb) <==> Told(comps) == Some((parts, verb))
  {
    hide SplitOnce;
    if comps != [] && |parts| == |comps| {
      var n := |comps| - 1;
      var last := comps[n];
      assert last in comps;
      SplitOnceSpec(last, ':');
      if Spells(comps, parts, verb) {
        assert comps[..n] + [parts[n]] == parts;
        assert comps[n := parts[n]] == parts && comps[n := last] == comps;
        if last == parts[n] + ":" + verb {
          SplitOnceAt(parts[n], ':', verb);
          assert parts[n] + [':'] + verb == last;
          assert ':' in last;
        }
      }
    }
  }

  /** A path matches with captures `vars` exactly when it says some components, with the template's own verb, that the
      template matches with those captures. */
  lemma MatchPathSpells(segments: seq<Segment>, verb: string, path: string, vars: seq<PathVar>)
    ensures MatchPath(segments, verb, path) == Some(vars) <==>
      exists parts :: Spells(Components(path), parts, verb) && MatchAll(segments, parts) == Some(vars)
  {
    hide SplitOnce, MatchAll, Spells;
    var comps := Components(path);
    ComponentsNonEmpty(path);
    forall parts
      ensures Spells(comps, parts, verb) <==> Told(comps) == Some((parts, verb))
    {
      ToldSpells(comps, parts, verb);
    }
    if comps != [] {
      var n := |comps| - 1;
      SplitOnceSpec(comps[n], ':');
      assert comps[n] in comps;
      assert comps[n := comps[n]] == comps;
    }
    if Told(comps).Some? {
      assert MatchPath(segments, verb, path) ==
             if Told(comps).value.1 == verb then MatchAll(segments, Told(comps).value.0) else None;
    }
  }

  /** For every template whose `**` occurs only last, a path matches exactly when its components and verb are in the
      template's language, and the captures are the ones every derivation gives. */
  lemma MatchPathIff(segments: seq<Segment>, verb: string, path: string, vars: seq<PathVar>)
    requires OnlyLast(FlatAll(segments))
    ensures MatchPath(segments, verb, path) == Some(vars) <==>
      exists parts, fs ::
        && Spells(Components(path), parts, verb)
        && FitsAll(segments, fs) && YieldAll(fs) == parts && CapturesAll(segments, fs) == vars
  {
    hide MatchPath, MatchAll, Spells, FitsAll, YieldAll, CapturesAll, Components, FlatAll, OnlyLast;
    MatchPathSpells(segments, verb, path, vars);
    var comps := Components(path);
    if MatchPath(segments, verb, path) == Some(vars) {
      var parts :| Spells(comps, parts, verb) && MatchAll(segments, parts) == Some(vars);
      SoundAll(segments, parts);
      var fs :| FitsAll(segments, fs) && YieldAll(fs) == parts && CapturesAll(segments, fs) == vars;
      assert Spells(comps, parts, verb) && FitsAll(segments, fs) && YieldAll(fs) == parts;
    }
    forall parts, fs | Spells(comps, parts, verb) && FitsAll(segments, fs) && YieldAll(fs) == parts
      ensures MatchAll(segments, parts) == Some(CapturesAll(segments, fs))
    {
      CapturesAreUnique(segments, parts, fs);
    }
  }

  /** Two templates with different custom verbs never match the same path. */
  lemma VerbsSeparate(segments: seq<Segment>, verb: string, others: seq<Segment>, otherVerb: string, path: string)
    requires MatchPath(segments, verb, path).Some? && MatchPath(others, otherVerb, path).Some?
    ensures verb == otherVerb
  {
    hide MatchPath, MatchAll, Spells, Components;
    MatchPathSpells(segments, verb, path, MatchPath(segments, verb, path).value);
    MatchPathSpells(others, otherVerb, path, MatchPath(others, otherVerb, path).value);
    ComponentsNonEmpty(path);
    var comps := Components(path);
    var parts :| Spells(comps, parts, verb);
    var other :| Spells(comps, other, otherVerb);
    ToldSpells(comps, parts, verb);
    ToldSpells(comps, other, otherVerb);
  }

  lemma ComponentsNonEmpty(path: string)
    ensures "" !in Components(path)
  {
    NonEmptyHasNone(SplitOn(Trim(path), '/'));
  }

  // ----- writing a path -----

  function Suffix(verb: string): string {
    if verb == "" then "" else ":" + verb
  }

  function PathText(parts: seq<string>, verb: string): string {
    "/" + Join(parts, '/') + Suffix(verb)
  }

  /** A component that needs no further escaping. */
  predicate Safe(w: string) {
    w != "" && '/' !in w && ':' !in w
  }

  lemma {:induction false} JoinLast(parts: seq<string>, t: string)
    requires parts != []
    ensures Join(parts[|parts| - 1 := parts[|parts| - 1] + t], '/') == Join(parts, '/') + t
  {
    var n := |parts| - 1;
    var ws := parts[n := parts[n] + t];
    if n > 0 {
      JoinLast(parts[1..], t);
      assert ws[1..] == parts[1..][n - 1 := parts[1..][n - 1] + t];
      assert parts[0] + "/" + (Join(parts[1..], '/') + t) == (parts[0] + "/" + Join(parts[1..], '/')) + t;
    }
  }

  /** A slash separates components, and nothing else does: two paths joined by one have the components of both, and a
      nonempty word without slashes is one component. */
  lemma ComponentsConcat(v: string, w: string)
    ensures Components(v + "/" + w) == Components(v) + Components(w)
    ensures Components("") == []
    ensures v != "" && '/' !in v ==> Components(v) == [v]
  {
    hide Split, NonEmpty, Trim;
    FlatDepth(v);
    FlatDepth(w);
    FlatDepth(v + "/" + w);
    FlatDepth("");
    TrimKeeps(v, false);
    TrimKeeps(w, false);
    TrimKeeps(v + "/" + w, false);
    TrimKeeps("", false);
    BlankPiece(false);
    SplitAt(v, w, '/', false, 0);
    NonEmptyConcat(SplitOn(v, '/'), SplitOn(w, '/'));
    if v != "" && '/' !in v {
      PlainPieces([v]);
      OneWordSplit(v);
    }
  }

  lemma OneWordSplit(v: string)
    requires v != "" && '/' !in v
    ensures NonEmpty(SplitOn(v, '/')) == [v]
  {
    PlainPieces([v]);
    SplitJoin([v], '/', false);
    assert [v][1..] == [];
  }

  /** The components of a path whose last one has `t` behind it. */
  lemma ComponentsWithTail(parts: seq<string>, t: string)
    requires parts != [] && (forall w :: w in parts ==> Safe(w)) && '/' !in t
    ensures Components("/" + Join(parts, '/') + t) == parts[|parts| - 1 := parts[|parts| - 1] + t]
  {
    hide Join, NonEmpty, Split, Trim, Pieces, Solid, EndDepth;
    var n := |parts| - 1;
    assert parts[n] in parts;
    var ws := parts[n := parts[n] + t];
    forall w | w in ws
      ensures w != "" && '/' !in w
    {
      var k :| 0 <= k < |ws| && ws[k] == w;
      assert parts[k] in parts;
    }
    JoinLast(parts, t);
    assert "/" + Join(parts, '/') + t == "" + "/" + Join(ws, '/');
    ComponentsConcat("", Join(ws, '/'));
    PlainPieces(ws);
    ComponentsOfJoin(ws, false);
    NonEmptyAll(ws);
    assert [] + ws == ws;
  }

  /** Writing safe components and a verb into a path, and reading them back. */
  lemma PathTextSpells(parts: seq<string>, verb: string)
    requires (forall w :: w in parts ==> Safe(w)) && '/' !in verb && (parts == [] ==> verb == "")
    ensures Spells(Components(PathText(parts, verb)), parts, verb)
  {
    hide Join, NonEmpty, Split, Trim, Components;
    if parts == [] {
      NoComponents();
    } else {
      var n := |parts| - 1;
      assert parts[n] in parts;
      ComponentsWithTail(parts, Suffix(verb));
      assert parts[n] + (":" + verb) == parts[n] + ":" + verb;
      assert parts[n] + "" == parts[n];
    }
  }

  lemma NoComponents()
    ensures Components(PathText([], "")) == []
  {
    ComponentsConcat("", "");
    assert PathText([], "") == "" + "/" + "";
  }

  /** A bare trailing colon says no verb: the path is matched, and captures, as if it were not there. */
  lemma BareColonIsIgnored(segments: seq<Segment>, parts: seq<string>)
    requires parts != [] && forall w :: w in parts ==> Safe(w)
    ensures MatchPath(segments, "", PathText(parts, "") + ":") == MatchAll(segments, parts)
    ensures MatchPath(segments, "", PathText(parts, "")) == MatchAll(segments, parts)
  {
    hide Join, Components, MatchAll;
    var n := |parts| - 1;
    assert parts[n] in parts;
    assert PathText(parts, "") + ":" == "/" + Join(parts, '/') + ":";
    ComponentsWithTail(parts, ":");
    ComponentsWithTail(parts, "");
    assert parts[n] + "" == parts[n] && parts[n := parts[n]] == parts;
    SplitOnceAt(parts[n], ':', "");
    assert parts[n] + [':'] + "" == parts[n] + ":";
    assert parts[n := parts[n] + ":"][n := parts[n]] == parts;
    SplitOnceSpec(parts[n], ':');
  }

  /** Which paths with a colon in their last component a template without a verb matches: exactly those whose one colon
      ends it, behind something, and only as if the colon were not there. */
  lemma ColonWithoutVerbIff(segments: seq<Segment>, path: string)
    requires Components(path) != []
    requires ':' in Components(path)[|Components(path)| - 1]
    ensures
      var comps := Components(path);
      var n := |comps| - 1;
      MatchPath(segments, "", path).Some? <==>
      exists head :: head != "" && ':' !in head && comps[n] == head + ":" && MatchAll(segments, comps[n := head]).Some?
  {
    hide Components, MatchAll;
    var comps := Components(path);
    var n := |comps| - 1;
    var last := comps[n];
    SplitOnceSpec(last, ':');
    var head := SplitOnce(last, ':').value.0;
    if MatchPath(segments, "", path).Some? {
      assert last == head + [':'] + "" == head + ":";
    }
    if h :| h != "" && ':' !in h && last == h + ":" && MatchAll(segments, comps[n := h]).Some? {
      SplitOnceAt(h, ':', "");
      assert h + [':'] + "" == last;
    }
  }

  /** For instance, `/v1/{id}` matches `/v1/5:` and captures `5`. */
  lemma BareColonMatches()
    ensures MatchPath([Literal("v1"), Capture(["id"], [AnyOne])], "", "/v1/5:") == Some([(["id"], "5")])
  {
    hide MatchPath, Join;
    var parts := ["v1", "5"];
    assert PathText(parts, "") + ":" == "/v1/5:" by { SampleText(); }
    BareColonIsIgnored([Literal("v1"), Capture(["id"], [AnyOne])], parts);
    SampleMatch();
  }

  lemma SampleText()
    ensures PathText(["v1", "5"], "") == "/v1/5"
  {
    assert ["v1", "5"][1..] == ["5"];
    assert Join(["5"], '/') == "5";
    assert Join(["v1", "5"], '/') == "v1" + "/" + "5";
  }

  lemma SampleMatch()
    ensures MatchAll([Literal("v1"), Capture(["id"], [AnyOne])], ["v1", "5"]) == Some([(["id"], "5")])
  {
    var one: seq<Segment> := [Capture(["id"], [AnyOne])];
    var parts := ["v1", "5"];
    assert parts[1..2] == ["5"];
    assert [AnyOne][1..] == [] && one[1..] == [] && [Literal("v1"), Capture(["id"], [AnyOne])][1..] == one;
    MatchNothing(parts, 2);
    var none: seq<PathVar>, id: PathVar := [], (["id"], "5");
    assert none + none == none && none + [id] == [id] && [id] + none == [id];
    assert MatchOne(AnyOne, parts, 1) == Some((2, none));
    assert Match([AnyOne], parts, 1) == Some((2, none));
    PlainDecodes("5");
    DecodeEachAt(["5"]);
    assert DecodeEach(["5"]) == ["5"] && Bound(["5"]) == "5";
    MatchCapture("id", parts, 1, 2, none, "5");
    assert Match(one, parts, 1) == Some((2, [id]));
    assert MatchOne(Literal("v1"), parts, 0) == Some((1, none));
  }

  lemma MatchCapture(field: string, parts: seq<string>, i: nat, j: nat, vars: seq<PathVar>, value: string)
    requires i <= j <= |parts| && Match([AnyOne], parts, i) == Some((j, vars)) && Bound(parts[i..j]) == value
    ensures MatchOne(Capture([field], [AnyOne]), parts, i) == Some((j, vars + [([field], value)]))
  {
  }

  lemma MatchNothing(parts: seq<string>, i: nat)
    requires i <= |parts|
    ensures Match([], parts, i) == Some((i, []))
  {
  }

  // ----- encoded components -----

  /** `e` is a percent-encoding of `v` that escapes at least the slash, the colon and the percent sign. */
  predicate Encodes(e: string, v: string) {
    if v == "" then e == ""
    else if Escaped(e) then HexPair(e[1], e[2]).value as char == v[0] && Encodes(e[3..], v[1..])
    else e != "" && e[0] == v[0] && v[0] !in {'/', ':', '%'} && Encodes(e[1..], v[1..])
  }

  function Escape(v: string): string {
    if v == "" then ""
    else (match v[0] case '/' => "%2F" case ':' => "%3A" case '%' => "%25" case c => [c]) + Escape(v[1..])
  }

  lemma {:induction false} EscapeEncodes(v: string)
    ensures Encodes(Escape(v), v)
  {
    if v != "" {
      EscapeEncodes(v[1..]);
      var e, later := Escape(v), Escape(v[1..]);
      if v[0] in {'/', ':', '%'} {
        assert e[3..] == later;
      } else {
        assert e[1..] == later;
      }
    }
  }

  /** An encoding decodes to its value and is a safe component. */
  lemma {:induction false} EncodesDecodes(e: string, v: string)
    requires Encodes(e, v)
    ensures PercentDecode(e) == v
    ensures '/' !in e && ':' !in e && (v != "" ==> e != "")
  {
    if v != "" {
      assert [v[0]] + v[1..] == v;
      if Escaped(e) {
        EncodesDecodes(e[3..], v[1..]);
        assert e == [e[0], e[1], e[2]] + e[3..];
      } else {
        EncodesDecodes(e[1..], v[1..]);
        assert e == [e[0]] + e[1..];
      }
    }
  }

  /** The hexadecimal digit for `i`. */
  function HexChar(i: nat, upper: bool): char
    requires i < 16
  {
    if i < 10 then '0' + i as char else (if upper then 'A' else 'a') + (i - 10) as char
  }

  /** `c` is the hexadecimal digit for `i`, in either case. */
  predicate HexOf(c: char, i: nat) {
    i < 16 && (c == HexChar(i, false) || c == HexChar(i, true))
  }

  lemma HexDigitIff(c: char, i: nat)
    ensures HexDigit(c) == Some(i) <==> HexOf(c, i)
    ensures HexOf(c, i) ==> c != '+'
  {
  }

  /** Two characters are read as a byte exactly when they are its hexadecimal digits, or a plus sign and the one digit of
      a value below sixteen. */
  lemma HexPairIff(a: char, b: char, n: nat)
    ensures HexPair(a, b) == Some(n) <==>
      n < 256 && HexOf(b, n % 16) && (HexOf(a, n / 16) || (a == '+' && n < 16))
  {
    hide HexDigit, HexOf;
    HexDigitIff(a, n / 16);
    HexDigitIff(b, n % 16);
    if HexDigit(a).Some? && HexDigit(b).Some? && a != '+' {
      var hi, lo := HexDigit(a).value, HexDigit(b).value;
      assert (16 * hi + lo) / 16 == hi && (16 * hi + lo) % 16 == lo;
      assert n == n / 16 * 16 + n % 16;
    }
  }

  predicate AllBytes(v: string) {
    forall k :: 0 <= k < |v| ==> v[k] as int < 256
  }

  /** Escape every character. */
  function EscapeAll(v: string, upper: bool): string
    requires AllBytes(v)
  {
    if v == "" then ""
    else
      var n := v[0] as int;
      ['%', HexChar(n / 16, upper), HexChar(n % 16, upper)] + EscapeAll(v[1..], upper)
  }

  /** Escaping every byte, in either case, is an encoding: it decodes to what it was. */
  lemma {:induction false} EscapeAllDecodes(v: string, upper: bool)
    requires AllBytes(v)
    ensures Encodes(EscapeAll(v, upper), v) && PercentDecode(EscapeAll(v, upper)) == v
  {
    var e := EscapeAll(v, upper);
    if v != "" {
      var n := v[0] as int;
      EscapeAllDecodes(v[1..], upper);
      HexPairIff(e[1], e[2], n);
      assert e[1] == HexChar(n / 16, upper) && e[2] == HexChar(n % 16, upper);
      assert e[3..] == EscapeAll(v[1..], upper);
    }
    EncodesDecodes(e, v);
  }

  /** The method a route is looked up by: the same length, lower-case letters raised and nothing else changed. */
  lemma {:induction false} UpperAt(s: string, k: nat)
    requires k < |s|
    ensures |Upper(s)| == |s|
    ensures 'a' <= s[k] <= 'z' ==> Upper(s)[k] as int == s[k] as int - 32
    ensures !('a' <= s[k] <= 'z') ==> Upper(s)[k] == s[k]
  {
    if |s| > 1 {
      UpperAt(s[1..], if k > 0 then k - 1 else 0);
    } else {
      assert s[1..] == "";
    }
  }

  lemma {:induction false} PlainDecodes(s: string)
    requires '%' !in s
    ensures PercentDecode(s) == s
  {
    if s != "" {
      assert s[0] in s;
      PlainDecodes(s[1..]);
      assert s == [s[0]] + s[1..];
    }
  }

  predicate EncodesEach(es: seq<string>, vs: seq<string>) {
    |es| == |vs| && forall k :: 0 <= k < |es| ==> vs[k] != "" && Encodes(es[k], vs[k])
  }

  /** `es` fills the template with encodings of the nonempty values `vs`; its literals stand for themselves. */
  predicate EncodedFill(segment: Segment, vs: Fill, es: Fill)
    decreases segment
  {
    match segment
    case Literal(t) => vs == es == Words([t])
    case AnyOne => vs.Words? && es.Words? && |vs.words| == 1 && EncodesEach(es.words, vs.words)
    case AnyRest => vs.Words? && es.Words? && EncodesEach(es.words, vs.words)
    case Capture(_, subs) => vs.Inside? && es.Inside? && EncodedFills(subs, vs.fills, es.fills)
  }

  predicate EncodedFills(segments: seq<Segment>, vs: seq<Fill>, es: seq<Fill>)
    decreases segments
  {
    if segments == [] then vs == es == []
    else
      && vs != [] && es != []
      && EncodedFill(segments[0], vs[0], es[0])
      && EncodedFills(segments[1..], vs[1..], es[1..])
  }

  /** The captures a client means: the values themselves, joined by slashes. */
  function Meant(segment: Segment, vs: Fill): seq<PathVar>
    requires Fits(segment, vs)
    decreases segment
  {
    match segment
    case Capture(field, subs) => MeantAll(subs, vs.fills) + [(field, Join(YieldAll(vs.fills), '/'))]
    case Literal(_) => []
    case AnyOne => []
    case AnyRest => []
  }

  function MeantAll(segments: seq<Segment>, vs: seq<Fill>): seq<PathVar>
    requires FitsAll(segments, vs)
    decreases segments
  {
    if segments == [] then [] else Meant(segments[0], vs[0]) + MeantAll(segments[1..], vs[1..])
  }

  /** Literals that are safe components and hold no percent sign. */
  predicate PlainLiterals(flat: seq<Segment>) {
    forall p :: p in flat && p.Literal? ==> Safe(p.text) && '%' !in p.text
  }

  lemma {:induction false} DecodeEachAt(parts: seq<string>)
    ensures |DecodeEach(parts)| == |parts|
    ensures forall k :: 0 <= k < |parts| ==> DecodeEach(parts)[k] == PercentDecode(parts[k])
  {
    hide PercentDecode;
    if parts != [] {
      DecodeEachAt(parts[1..]);
      var r := DecodeEach(parts);
      forall k | 0 <= k < |parts|
        ensures |r| == |parts| && r[k] == PercentDecode(parts[k])
      {
        assert k > 0 ==> r[k] == DecodeEach(parts[1..])[k - 1] && parts[k] == parts[1..][k - 1];
      }
    }
  }

  lemma {:induction false} DecodeEachConcat(a: seq<string>, b: seq<string>)
    ensures DecodeEach(a + b) == DecodeEach(a) + DecodeEach(b)
  {
    if a == [] {
      assert a + b == b;
    } else {
      assert (a + b)[1..] == a[1..] + b;
      DecodeEachConcat(a[1..], b);
      Assoc([PercentDecode(a[0])], DecodeEach(a[1..]), DecodeEach(b));
    }
  }

  lemma EncodesEachDecodes(es: seq<string>, vs: seq<string>)
    requires EncodesEach(es, vs)
    ensures DecodeEach(es) == vs
    ensures forall e :: e in es ==> Safe(e)
  {
    hide Encodes, PercentDecode, DecodeEach;
    DecodeEachAt(es);
    forall k | 0 <= k < |es|
      ensures DecodeEach(es)[k] == vs[k] && Safe(es[k])
    {
      EncodesDecodes(es[k], vs[k]);
    }
  }

  lemma PlainSplit(a: seq<Segment>, b: seq<Segment>)
    requires PlainLiterals(a + b)
    ensures PlainLiterals(a) && PlainLiterals(b)
  {
    assert forall p :: p in a || p in b ==> p in a + b;
  }

  lemma {:induction false} EncodedFillsFit(segments: seq<Segment>, vs: seq<Fill>, es: seq<Fill>)
    requires EncodedFills(segments, vs, es) && PlainLiterals(FlatAll(segments))
    ensures FitsAll(segments, vs) && FitsAll(segments, es)
    ensures DecodeEach(YieldAll(es)) == YieldAll(vs)
    ensures forall e :: e in YieldAll(es) ==> Safe(e)
    ensures CapturesAll(segments, es) == MeantAll(segments, vs)
    decreases segments
  {
    hide EncodedFill, PlainLiterals, Fits, Safe, Flat, Captures, Meant, Yield, PercentDecode;
    if segments != [] {
      PlainSplit(Flat(segments[0]), FlatAll(segments[1..]));
      EncodedFillFits(segments[0], vs[0], es[0]);
      EncodedFillsFit(segments[1..], vs[1..], es[1..]);
      DecodeEachConcat(Yield(es[0]), YieldAll(es[1..]));
    }
  }

  lemma {:induction false} EncodedFillFits(segment: Segment, vs: Fill, es: Fill)
    requires EncodedFill(segment, vs, es) && PlainLiterals(Flat(segment))
    ensures Fits(segment, vs) && Fits(segment, es)
    ensures DecodeEach(Yield(es)) == Yield(vs)
    ensures forall e :: e in Yield(es) ==> Safe(e)
    ensures Captures(segment, es) == Meant(segment, vs)
    decreases segment
  {
    hide EncodedFills, EncodesEach, FitsAll, Safe, FlatAll, CapturesAll, MeantAll, YieldAll, PercentDecode, Join, DecodeEach;
    match segment
    case Literal(t) =>
      assert segment in Flat(segment);
      PlainDecodes(t);
      DecodeEachAt([t]);
    case AnyOne => OneWord(vs, es);
    case AnyRest => EncodesEachDecodes(es.words, vs.words);
    case Capture(_, subs) => EncodedFillsFit(subs, vs.fills, es.fills);
  }

  lemma OneWord(vs: Fill, es: Fill)
    requires vs.Words? && es.Words? && |vs.words| == 1 && EncodesEach(es.words, vs.words)
    ensures |es.words| == 1 && DecodeEach(es.words) == vs.words
    ensures forall e :: e in es.words ==> Safe(e)
  {
    EncodesEachDecodes(es.words, vs.words);
  }

  /** Compile any of a template's texts, write a path by filling its wildcards with encodings of nonempty values, and match:
      the captures are the values themselves. */
  lemma FilledPathMatches(
    segments: seq<Segment>, shorts: seq<bool>, padded: seq<string>, verb: string, vs: seq<Fill>, es: seq<Fill>)
    requires GoodTemplate(segments) && OnlyLast(FlatAll(segments)) && PlainLiterals(FlatAll(segments)) && '/' !in verb
    requires |shorts| == |segments| && NonEmpty(padded) == RenderAll(segments, shorts)
    requires EncodedFills(segments, vs, es) && (YieldAll(es) == [] ==> verb == "")
    ensures FitsAll(segments, vs)
    ensures
      var compiled := ParseTemplate(TemplateText(padded, verb));
      MatchPath(compiled.0, compiled.1, PathText(YieldAll(es), verb)) == Some(MeantAll(segments, vs))
  {
    hide GoodTemplate, OnlyLast, PlainLiterals, EncodedFills, FitsAll, MatchPath, Spells, CapturesAll, MeantAll,
      TemplateText, ParseTemplate, FlatAll, YieldAll, PathText, NonEmpty, RenderAll;
    TemplateRoundTrip(segments, shorts, padded, verb);
    EncodedFillsFit(segments, vs, es);
    var parts := YieldAll(es);
    PathTextSpells(parts, verb);
    MatchPathIff(segments, verb, PathText(parts, verb), CapturesAll(segments, es));
  }
}
