/** Matching a request path against a compiled template. */
module HttpMatch {
  import opened Common
  import opened HttpTemplate

  /** A captured field path and its decoded value. */
  type PathVar = (seq<string>, string)

  // ----- percent-decoding, section 2.1 of RFC 3986 -----

  function HexDigit(c: char): (r: Option<nat>)
    ensures r.Some? ==> r.value < 16
  {
    if '0' <= c <= '9' then Some((c - '0') as nat)
    else if 'a' <= c <= 'f' then Some((c - 'a') as nat + 10)
    else if 'A' <= c <= 'F' then Some((c - 'A') as nat + 10)
    else None
  }

  /** `u8::from_str_radix` on two characters: it also takes a leading plus sign. */
  function HexPair(a: char, b: char): (r: Option<nat>)
    ensures r.Some? ==> r.value < 256
  {
    if a == '+' then HexDigit(b)
    else
      match (HexDigit(a), HexDigit(b))
      case (Some(hi), Some(lo)) => Some(16 * hi + lo)
      case _ => None
  }

  /** An escape starts `s`: both hex characters are there and they parse. */
  predicate Escaped(s: string) {
    |s| > 2 && s[0] == '%' && HexPair(s[1], s[2]).Some?
  }

  function PercentDecode(s: string): string {
    if s == "" then ""
    else if Escaped(s) then [HexPair(s[1], s[2]).value as char] + PercentDecode(s[3..])
    else [s[0]] + PercentDecode(s[1..])
  }

  /** The decoder itself: one cursor over the bytes. */
  method PercentDecodeLoop(s: string) returns (out: string)
    ensures out == PercentDecode(s)
  {
    hide PercentDecode, HexPair;
    out := "";
    var i := 0;
    assert s[0..] == s && "" + PercentDecode(s) == PercentDecode(s);
    while i < |s|
      invariant 0 <= i <= |s|
      invariant PercentDecode(s) == out + PercentDecode(s[i..])
    {
      DecodeStep(s, i);
      if s[i] == '%' && i + 2 < |s| {
        var b := HexPair(s[i + 1], s[i + 2]);
        if b.Some? {
          Assoc(out, [b.value as char], PercentDecode(s[i + 3..]));
          out := out + [b.value as char];
          i := i + 3;
          continue;
        }
      }
      Assoc(out, [s[i]], PercentDecode(s[i + 1..]));
      out := out + [s[i]];
      i := i + 1;
    }
    assert s[|s|..] == "";
    DecodeEmpty();
    assert out + "" == out;
  }

  lemma DecodeStep(s: string, i: nat)
    requires i < |s|
    ensures s[i] == '%' && i + 2 < |s| && HexPair(s[i + 1], s[i + 2]).Some? ==>
      PercentDecode(s[i..]) == [HexPair(s[i + 1], s[i + 2]).value as char] + PercentDecode(s[i + 3..])
    ensures !(s[i] == '%' && i + 2 < |s| && HexPair(s[i + 1], s[i + 2]).Some?) ==>
      PercentDecode(s[i..]) == [s[i]] + PercentDecode(s[i + 1..])
  {
    var t := s[i..];
    assert t[1..] == s[i + 1..];
    if i + 2 < |s| {
      assert t[3..] == s[i + 3..] && t[1] == s[i + 1] && t[2] == s[i + 2];
    }
  }

  lemma DecodeEmpty()
    ensures PercentDecode("") == ""
  {
  }

  // ----- the matcher -----

  /** The value a capture binds: its components, each decoded on its own, joined by slashes. */
  function DecodeEach(parts: seq<string>): seq<string> {
    if parts == [] then [] else [PercentDecode(parts[0])] + DecodeEach(parts[1..])
  }

  function Bound(parts: seq<string>): string {
    Join(DecodeEach(parts), '/')
  }

  /** Match `segments` from component `i`: the index past what was consumed, and the captures in order. */
  function Match(segments: seq<Segment>, parts: seq<string>, i: nat): (r: Option<(nat, seq<PathVar>)>)
    requires i <= |parts|
    ensures r.Some? ==> i <= r.value.0 <= |parts|
    decreases segments
  {
    if segments == [] then Some((i, []))
    else
      var first := MatchOne(segments[0], parts, i);
      if first.None? then None
      else
        var later := Match(segments[1..], parts, first.value.0);
        if later.None? then None else Some((later.value.0, first.value.1 + later.value.1))
  }

  function MatchOne(segment: Segment, parts: seq<string>, i: nat): (r: Option<(nat, seq<PathVar>)>)
    requires i <= |parts|
    ensures r.Some? ==> i <= r.value.0 <= |parts|
    decreases segment
  {
    match segment
    case Literal(t) => if i < |parts| && parts[i] == t then Some((i + 1, [])) else None
    case AnyOne => if i < |parts| then Some((i + 1, [])) else None
    case AnyRest => Some((|parts|, []))
    case Capture(field, subs) =>
      var r := Match(subs, parts, i);
      if r.None? then None
      else Some((r.value.0, r.value.1 + [(field, Bound(parts[i..r.value.0]))]))
  }

  /** The matcher itself: one pass that advances an index and appends to the captures it was given. */
  method MatchList(segments: seq<Segment>, parts: seq<string>, start: nat, vars: seq<PathVar>)
    returns (end: Option<nat>, found: seq<PathVar>)
    requires start <= |parts|
    ensures end.Some? <==> Match(segments, parts, start).Some?
    ensures end.Some? ==> Match(segments, parts, start).value.0 == end.value
    ensures end.Some? ==> found == vars + Match(segments, parts, start).value.1
    decreases segments
  {
    hide Match, Continues, Bound;
    var i := start;
    found := vars;
    ContinuesStart(segments, parts, start, vars);
    for k := 0 to |segments|
      invariant start <= i <= |parts|
      invariant Continues(segments, parts, start, vars, k, i, found)
    {
      MatchStep(segments, parts, start, vars, k, i, found);
      assert found + [] == found;
      match segments[k] {
        case Literal(t) =>
          if !(i < |parts| && parts[i] == t) {
            return None, found;
          }
          i := i + 1;
        case AnyOne =>
          if i >= |parts| {
            return None, found;
          }
          i := i + 1;
        case AnyRest =>
          i := |parts|;
        case Capture(field, subs) =>
          var stop, inner := MatchList(subs, parts, i, found);
          if stop.None? {
            return None, inner;
          }
          var value := (field, Bound(parts[i..stop.value]));
          Assoc(found, Match(subs, parts, i).value.1, [value]);
          found := inner + [value];
          i := stop.value;
      }
    }
    ContinuesEnd(segments, parts, start, vars, i, found);
    end := Some(i);
  }

  /** What is left to match after `k` segments completes the whole match. */
  ghost predicate Continues(segments: seq<Segment>, parts: seq<string>, start: nat, vars: seq<PathVar>,
                            k: nat, i: nat, found: seq<PathVar>)
    requires start <= |parts| && k <= |segments| && i <= |parts|
  {
    var whole, rest := Match(segments, parts, start), Match(segments[k..], parts, i);
    && whole.Some? == rest.Some?
    && (whole.Some? ==> whole.value.0 == rest.value.0 && vars + whole.value.1 == found + rest.value.1)
  }

  lemma ContinuesStart(segments: seq<Segment>, parts: seq<string>, start: nat, vars: seq<PathVar>)
    requires start <= |parts|
    ensures Continues(segments, parts, start, vars, 0, start, vars)
  {
    assert segments[0..] == segments;
  }

  lemma ContinuesEnd(segments: seq<Segment>, parts: seq<string>, start: nat, vars: seq<PathVar>, i: nat,
                     found: seq<PathVar>)
    requires start <= |parts| && i <= |parts| && Continues(segments, parts, start, vars, |segments|, i, found)
    ensures var m := Match(segments, parts, start); m.Some? && m.value.0 == i && found == vars + m.value.1
  {
    assert segments[|segments|..] == [];
    assert found + [] == found;
  }

  /** One more segment. */
  lemma MatchStep(segments: seq<Segment>, parts: seq<string>, start: nat, vars: seq<PathVar>, k: nat, i: nat,
                  found: seq<PathVar>)
    requires start <= |parts| && k < |segments| && i <= |parts|
    requires Continues(segments, parts, start, vars, k, i, found)
    ensures MatchOne(segments[k], parts, i).None? ==> Match(segments, parts, start).None?
    ensures MatchOne(segments[k], parts, i).Some? ==>
      var m := MatchOne(segments[k], parts, i).value;
      Continues(segments, parts, start, vars, k + 1, m.0, found + m.1)
  {
    hide MatchOne;
    assert segments[k..][1..] == segments[k + 1..];
    var m := MatchOne(segments[k], parts, i);
    if m.Some? {
      var later := Match(segments[k + 1..], parts, m.value.0);
      if later.Some? {
        Assoc(found, m.value.1, later.value.1);
      }
    }
  }

  /** A path's components. */
  function Components(path: string): seq<string> {
    NonEmpty(SplitOn(Trim(path), '/'))
  }

  /** Match a whole path: the last component's verb must be the template's own, and no component may be left over. */
  function MatchPath(segments: seq<Segment>, verb: string, path: string): Option<seq<PathVar>> {
    var parts := Components(path);
    if parts == [] then
      if verb != "" then None else MatchAll(segments, parts)
    else
      var last := parts[|parts| - 1];
      var once := SplitOnce(last, ':');
      var head := if once.Some? then once.value.0 else last;
      var given := if once.Some? then once.value.1 else "";
      if given != verb || (head == "" && ':' in last) then None
      else MatchAll(segments, parts[|parts| - 1 := head])
  }

  function MatchAll(segments: seq<Segment>, parts: seq<string>): Option<seq<PathVar>> {
    var r := Match(segments, parts, 0);
    if r.Some? && r.value.0 == |parts| then Some(r.value.1) else None
  }

  /** The path matcher itself: the verb is cut off the last component in place. */
  method MatchSegments(segments: seq<Segment>, verb: string, path: string) returns (r: Option<seq<PathVar>>)
    ensures r == MatchPath(segments, verb, path)
  {
    hide Match;
    var parts := Components(path);
    if parts != [] {
      var last := parts[|parts| - 1];
      var once := SplitOnce(last, ':');
      var head, given := last, "";
      if once.Some? {
        head, given := once.value.0, once.value.1;
      }
      if given != verb || (head == "" && ':' in last) {
        return None;
      }
      parts := parts[|parts| - 1 := head];
    } else if verb != "" {
      return None;
    }
    var end, vars := MatchList(segments, parts, 0, []);
    assert end.Some? ==> vars == [] + Match(segments, parts, 0).value.1 == Match(segments, parts, 0).value.1;
    return if end == Some(|parts|) then Some(vars) else None;
  }

  /** What of a binding decides whether it takes a request. */
  datatype Route = Route(httpKind: string, segments: seq<Segment>, verb: string)

  function Upper(s: string): string {
    if s == "" then "" else [if 'a' <= s[0] <= 'z' then s[0] - 'a' + 'A' else s[0]] + Upper(s[1..])
  }

  /** This route takes this request, with these captures. */
  predicate Takes(b: Route, httpMethod: string, path: string, vars: seq<PathVar>) {
    (b.httpKind == Upper(httpMethod) || b.httpKind == "*") && MatchPath(b.segments, b.verb, path) == Some(vars)
  }

  /** The first route, in table order, that takes the request. */
  method MatchRequest(routes: seq<Route>, httpMethod: string, path: string) returns (r: Option<(nat, seq<PathVar>)>)
    ensures r.Some? ==> r.value.0 < |routes| && Takes(routes[r.value.0], httpMethod, path, r.value.1)
    ensures forall k, vars :: 0 <= k < (if r.Some? then r.value.0 else |routes|) ==> !Takes(routes[k], httpMethod, path, vars)
  {
    hide MatchPath;
    var want := Upper(httpMethod);
    for i := 0 to |routes|
      invariant forall k, vars :: 0 <= k < i ==> !Takes(routes[k], httpMethod, path, vars)
    {
      var b := routes[i];
      if b.httpKind != want && b.httpKind != "*" {
        continue;
      }
      var vars := MatchSegments(b.segments, b.verb, path);
      if vars.Some? {
        return Some((i, vars.value));
      }
    }
    return None;
  }

  // ----- the language of a template -----

  /** One way of filling a segment: the components it stands for, following the segment's own structure. */
  datatype Fill = Words(words: seq<string>) | Inside(fills: seq<Fill>)

  predicate Fits(segment: Segment, f: Fill)
    decreases segment
  {
    match segment
    case Literal(t) => f == Words([t])
    case AnyOne => f.Words? && |f.words| == 1
    case AnyRest => f.Words?
    case Capture(_, subs) => f.Inside? && FitsAll(subs, f.fills)
  }

  predicate FitsAll(segments: seq<Segment>, fs: seq<Fill>)
    decreases segments
  {
    if segments == [] then fs == []
    else fs != [] && Fits(segments[0], fs[0]) && FitsAll(segments[1..], fs[1..])
  }

  function Yield(f: Fill): seq<string>
    decreases f
  {
    match f
    case Words(ws) => ws
    case Inside(fs) => YieldAll(fs)
  }

  function YieldAll(fs: seq<Fill>): seq<string>
    decreases fs
  {
    if fs == [] then [] else Yield(fs[0]) + YieldAll(fs[1..])
  }

  /** The captures a filling gives. */
  function Captures(segment: Segment, f: Fill): seq<PathVar>
    requires Fits(segment, f)
    decreases segment
  {
    match segment
    case Capture(field, subs) => CapturesAll(subs, f.fills) + [(field, Bound(YieldAll(f.fills)))]
    case Literal(_) => []
    case AnyOne => []
    case AnyRest => []
  }

  function CapturesAll(segments: seq<Segment>, fs: seq<Fill>): seq<PathVar>
    requires FitsAll(segments, fs)
    decreases segments
  {
    if segments == [] then [] else Captures(segments[0], fs[0]) + CapturesAll(segments[1..], fs[1..])
  }

  /** The plain segments of a template, through its captures. */
  function Flat(segment: Segment): seq<Segment>
    decreases segment
  {
    match segment
    case Capture(_, subs) => FlatAll(subs)
    case Literal(_) => [segment]
    case AnyOne => [segment]
    case AnyRest => [segment]
  }

  function FlatAll(segments: seq<Segment>): seq<Segment>
    decreases segments
  {
    if segments == [] then [] else Flat(segments[0]) + FlatAll(segments[1..])
  }

  /** `**` occurs only last. */
  predicate OnlyLast(flat: seq<Segment>) {
    forall k :: 0 <= k < |flat| - 1 ==> flat[k] != AnyRest
  }

  /** Nothing but `**` follows a `**`. */
  predicate OnlyRestAfterRest(flat: seq<Segment>) {
    forall j, k :: 0 <= j < k < |flat| && flat[j] == AnyRest ==> flat[k] == AnyRest
  }

  /** The raw components `comps` say `parts` with custom verb `verb`; a bare trailing colon says no verb. */
  predicate Spells(comps: seq<string>, parts: seq<string>, verb: string) {
    && |comps| == |parts|
    && if comps == [] then verb == ""
       else
         var n := |comps| - 1;
         && comps[..n] == parts[..n]
         && parts[n] != "" && ':' !in parts[n]
         && (comps[n] == parts[n] + ":" + verb || (verb == "" && comps[n] == parts[n]))
  }
}
