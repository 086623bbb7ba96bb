/** Building a request message from body, path variables and query parameters. Scalar conversion and the JSON decoder
    are library code, so they are parameters. */
module HttpMessage {
  import opened Common
  import opened HttpTemplate
  import opened HttpMatch

  // ----- descriptors and messages -----

  /** `known`: a well-known type that has its own JSON form. */
  datatype Kind = Plain | BytesKind | Message(of: string, known: bool)
  datatype Shape = Singular | Repeated | Mapped

  /** `rivals` are the other members of the field's oneof. */
  datatype Field = Field(name: string, json: string, kind: Kind, shape: Shape, rivals: set<string>)

  type Schema = map<string, seq<Field>>

  datatype Value = Scalar(text: string) | List(items: seq<Value>) | Sub(fields: map<string, Value>)
  type Msg = map<string, Value>

  /** `coerce` converts a scalar's text, `decode` reads one field's JSON text, `body` a whole message of a type. */
  datatype Codec = Codec(
    coerce: (Field, string) -> Option<Value>,
    decode: (Field, string) -> Option<Value>,
    body: (string, Bytes) -> Option<Msg>,
    bodyField: (Field, Bytes) -> Option<Value>)

  function FieldsOf(s: Schema, t: string): seq<Field> {
    if t in s then s[t] else []
  }

  function ByName(fields: seq<Field>, name: string): Option<Field> {
    if fields == [] then None
    else if fields[0].name == name then Some(fields[0]) else ByName(fields[1..], name)
  }

  function ByJson(fields: seq<Field>, name: string): Option<Field> {
    if fields == [] then None
    else if fields[0].json == name then Some(fields[0]) else ByJson(fields[1..], name)
  }

  /** The `.proto` name first, then the JSON name. */
  function Resolve(s: Schema, t: string, name: string): Option<Field> {
    var f := ByName(FieldsOf(s, t), name);
    if f.Some? then f else ByJson(FieldsOf(s, t), name)
  }

  /** Set a field, clearing the rest of its oneof. */
  function Put(m: Msg, f: Field, v: Value): Msg {
    (m - f.rivals)[f.name := v]
  }

  function SubOf(m: Msg, f: Field): Msg {
    if f.name in m && m[f.name].Sub? then m[f.name].fields else map[]
  }

  function ItemsOf(v: Option<Value>): seq<Value> {
    if v.Some? && v.value.List? then v.value.items else []
  }

  /** The one value a path or query text gives a field, if it may be bound at all. */
  function LeafValue(c: Codec, f: Field, raw: string): Option<Value> {
    match f.kind
    case BytesKind => c.decode(f, raw)
    case Message(_, known) => if f.shape.Singular? && known then c.decode(f, raw) else None
    case Plain => c.coerce(f, raw)
  }

  /** A field's value after one more text is bound to it: a repeated field grows, any other is replaced. */
  function Written(c: Codec, f: Field, was: Option<Value>, raw: string): Option<Value> {
    var v := LeafValue(c, f, raw);
    if v.None? then None
    else if f.kind.Plain? && f.shape.Repeated? then Some(List(ItemsOf(was) + [v.value])) else v
  }

  function Lookup(m: Msg, name: string): Option<Value> {
    if name in m then Some(m[name]) else None
  }

  /** Set the field at `path`, making the messages on the way; `None` is a refusal. */
  function SetByPath(s: Schema, c: Codec, t: string, m: Msg, path: seq<string>, raw: string): Option<Msg>
    requires path != []
    decreases |path|
  {
    match Resolve(s, t, path[0])
    case None => None
    case Some(f) =>
      if |path| == 1 then
        match Written(c, f, Lookup(m, f.name), raw)
        case None => None
        case Some(v) => Some(Put(m, f, v))
      else if f.kind.Message? && f.shape.Singular? then
        match SetByPath(s, c, f.kind.of, SubOf(m, f), path[1..], raw)
        case None => None
        case Some(inner) => Some(Put(m, f, Sub(inner)))
      else None
  }

  // ----- the overlay -----

  datatype BodyRule = Wildcard | OneField(name: string) | NoBody

  function PlusToSpace(s: string): string {
    if s == "" then "" else [if s[0] == '+' then ' ' else s[0]] + PlusToSpace(s[1..])
  }

  function QueryPair(pair: string): PathVar {
    var once := SplitOnce(pair, '=');
    var key := if once.Some? then once.value.0 else pair;
    var value := if once.Some? then once.value.1 else "";
    (SplitOn(PercentDecode(PlusToSpace(key)), '.'), PercentDecode(PlusToSpace(value)))
  }

  function QueryPairs(pieces: seq<string>): seq<PathVar> {
    if pieces == [] then [] else [QueryPair(pieces[0])] + QueryPairs(pieces[1..])
  }

  function ParseQuery(query: string): seq<PathVar> {
    QueryPairs(NonEmpty(SplitOn(query, '&')))
  }

  /** A path variable is spelled exactly like this query key. */
  predicate BoundInPath(vars: seq<PathVar>, path: seq<string>) {
    exists v :: v in vars && v.0 == path
  }

  /** The query parameters that are not skipped. */
  function Unbound(vars: seq<PathVar>, pairs: seq<PathVar>): seq<PathVar> {
    if pairs == [] then []
    else (if BoundInPath(vars, pairs[0].0) then [] else [pairs[0]]) + Unbound(vars, pairs[1..])
  }

  function QueryEntries(rule: BodyRule, vars: seq<PathVar>, query: Option<string>): (entries: seq<PathVar>)
    ensures Nonempty(entries)
  {
    if rule.Wildcard? || query.None? then []
    else
      UnboundNonempty(vars, query.value);
      Unbound(vars, ParseQuery(query.value))
  }

  function BodyMessage(s: Schema, c: Codec, t: string, rule: BodyRule, body: Bytes): Option<Msg> {
    match rule
    case Wildcard => if body == [] then Some(map[]) else c.body(t, body)
    case NoBody => Some(map[])
    case OneField(name) =>
      if body == [] then Some(map[])
      else
        match Resolve(s, t, name)
        case None => None
        case Some(f) => match c.bodyField(f, body) case None => None case Some(v) => Some(Put(map[], f, v))
  }

  predicate Nonempty(entries: seq<PathVar>) {
    forall e :: e in entries ==> e.0 != []
  }

  function ApplyAll(s: Schema, c: Codec, t: string, m: Msg, entries: seq<PathVar>): Option<Msg>
    requires Nonempty(entries)
    decreases |entries|
  {
    if entries == [] then Some(m)
    else
      var e := entries[0];
      assert e in entries;
      match SetByPath(s, c, t, m, e.0, e.1)
      case None => None
      case Some(n) => ApplyAll(s, c, t, n, entries[1..])
  }

  lemma {:induction false} ApplySnoc(s: Schema, c: Codec, t: string, m: Msg, entries: seq<PathVar>, e: PathVar)
    requires Nonempty(entries) && e.0 != []
    ensures
      var r := ApplyAll(s, c, t, m, entries);
      ApplyAll(s, c, t, m, entries + [e]) == if r.None? then None else SetByPath(s, c, t, r.value, e.0, e.1)
    decreases |entries|
  {
    hide SetByPath;
    if entries == [] {
      assert [] + [e] == [e] && [e][1..] == [];
    } else {
      var d := entries[0];
      assert d in entries && (entries + [e])[1..] == entries[1..] + [e] && (entries + [e])[0] == d;
      var n := SetByPath(s, c, t, m, d.0, d.1);
      if n.Some? {
        ApplySnoc(s, c, t, n.value, entries[1..], e);
      }
    }
  }

  lemma {:induction false} ApplyStops(s: Schema, c: Codec, t: string, m: Msg, entries: seq<PathVar>, more: seq<PathVar>)
    requires Nonempty(entries) && Nonempty(more) && ApplyAll(s, c, t, m, entries).None?
    ensures ApplyAll(s, c, t, m, entries + more).None?
    decreases |entries|
  {
    hide SetByPath;
    var all := entries + more;
    if entries != [] {
      assert entries[0] in entries && all[1..] == entries[1..] + more && all[0] == entries[0];
      var n := SetByPath(s, c, t, m, entries[0].0, entries[0].1);
      if n.Some? {
        ApplyStops(s, c, t, n.value, entries[1..], more);
      }
    }
  }

  lemma {:induction false} QueryNonempty(pieces: seq<string>)
    ensures Nonempty(QueryPairs(pieces))
  {
    if pieces != [] {
      QueryNonempty(pieces[1..]);
    }
  }

  lemma {:induction false} UnboundIn(vars: seq<PathVar>, pairs: seq<PathVar>, e: PathVar)
    ensures e in Unbound(vars, pairs) <==> e in pairs && !BoundInPath(vars, e.0)
  {
    hide BoundInPath;
    if pairs != [] {
      UnboundIn(vars, pairs[1..], e);
      assert e in pairs <==> e == pairs[0] || e in pairs[1..];
    }
  }

  lemma UnboundNonempty(vars: seq<PathVar>, query: string)
    ensures Nonempty(Unbound(vars, ParseQuery(query)))
  {
    var pairs := ParseQuery(query);
    QueryNonempty(NonEmpty(SplitOn(query, '&')));
    forall e | e in Unbound(vars, pairs)
      ensures e.0 != []
    {
      UnboundIn(vars, pairs, e);
    }
  }

  /** What the builder computes: the body, then the path variables in order, then the query parameters in order. */
  function Built(s: Schema, c: Codec, t: string, rule: BodyRule, vars: seq<PathVar>, query: Option<string>, body: Bytes)
    : Option<Msg>
    requires Nonempty(vars)
  {
    match BodyMessage(s, c, t, rule, body)
    case None => None
    case Some(m) => ApplyAll(s, c, t, m, vars + QueryEntries(rule, vars, query))
  }

  /** The builder itself: two loops over one message. */
  method BuildMessage(s: Schema, c: Codec, t: string, rule: BodyRule, vars: seq<PathVar>, query: Option<string>, body: Bytes)
    returns (r: Option<Msg>)
    requires Nonempty(vars)
    ensures r == Built(s, c, t, rule, vars, query, body)
  {
    hide SetByPath, ApplyAll, BodyMessage, Unbound, ParseQuery, BoundInPath;
    ghost var entries := QueryEntries(rule, vars, query);
    var start := BodyMessage(s, c, t, rule, body);
    if start.None? {
      return None;
    }
    var m := start.value;
    ghost var done: seq<PathVar> := [];
    ApplyNone(s, c, t, m);
    for i := 0 to |vars|
      invariant done == vars[..i] && ApplyAll(s, c, t, start.value, done) == Some(m)
    {
      assert vars[i] in vars;
      ApplySnoc(s, c, t, start.value, done, vars[i]);
      var next := SetByPath(s, c, t, m, vars[i].0, vars[i].1);
      done := done + [vars[i]];
      assert vars[..i + 1] == done;
      if next.None? {
        assert vars + entries == done + (vars[i + 1..] + entries);
        ApplyStops(s, c, t, start.value, done, vars[i + 1..] + entries);
        return None;
      }
      m := next.value;
    }
    assert done == vars;
    if !rule.Wildcard? && query.Some? {
      var pairs := ParseQuery(query.value);
      assert pairs[..0] == [];
      UnboundStart(vars, pairs);
      assert vars + [] == vars;
      for j := 0 to |pairs|
        invariant done == vars + Unbound(vars, pairs[..j])
        invariant entries == Unbound(vars, pairs[..j]) + Unbound(vars, pairs[j..])
        invariant Nonempty(done) && ApplyAll(s, c, t, start.value, done) == Some(m)
      {
        var pair := pairs[j];
        UnboundStep(vars, pairs, j);
        if BoundInPath(vars, pair.0) {
          continue;
        }
        assert pair.0 != [] by { EntryNonempty(entries, Unbound(vars, pairs[..j]), pair, Unbound(vars, pairs[j + 1..])); }
        ApplySnoc(s, c, t, start.value, done, pair);
        var next := SetByPath(s, c, t, m, pair.0, pair.1);
        Assoc(vars, Unbound(vars, pairs[..j]), [pair]);
        done := done + [pair];
        if next.None? {
          Assoc(vars, Unbound(vars, pairs[..j + 1]), Unbound(vars, pairs[j + 1..]));
          assert vars + entries == done + Unbound(vars, pairs[j + 1..]);
          ApplyStops(s, c, t, start.value, done, Unbound(vars, pairs[j + 1..]));
          return None;
        }
        m := next.value;
      }
      assert pairs[..|pairs|] == pairs && pairs[|pairs|..] == [];
      UnboundStart(vars, pairs);
      assert entries == Unbound(vars, pairs);
    }
    assert done == vars + entries;
    return Some(m);
  }

  lemma ApplyNone(s: Schema, c: Codec, t: string, m: Msg)
    ensures ApplyAll(s, c, t, m, []) == Some(m)
  {
  }

  lemma UnboundStart(vars: seq<PathVar>, pairs: seq<PathVar>)
    ensures Unbound(vars, []) == [] && Unbound(vars, pairs[..0]) + Unbound(vars, pairs[0..]) == Unbound(vars, pairs)
  {
    assert pairs[..0] == [] && pairs[0..] == pairs;
  }

  lemma EntryNonempty(entries: seq<PathVar>, before: seq<PathVar>, e: PathVar, after: seq<PathVar>)
    requires Nonempty(entries) && entries == before + [e] + after
    ensures e.0 != [] && Nonempty(after)
  {
    assert e in entries;
    assert forall x :: x in after ==> x in entries;
  }

  lemma {:induction false} UnboundSnoc(vars: seq<PathVar>, pairs: seq<PathVar>, e: PathVar)
    ensures Unbound(vars, pairs + [e]) == Unbound(vars, pairs) + (if BoundInPath(vars, e.0) then [] else [e])
  {
    hide BoundInPath;
    if pairs == [] {
      assert [] + [e] == [e] && [e][1..] == [];
    } else {
      assert (pairs + [e])[1..] == pairs[1..] + [e] && (pairs + [e])[0] == pairs[0];
      UnboundSnoc(vars, pairs[1..], e);
    }
  }

  lemma UnboundStep(vars: seq<PathVar>, pairs: seq<PathVar>, j: nat)
    requires j < |pairs|
    ensures
      var kept := if BoundInPath(vars, pairs[j].0) then [] else [pairs[j]];
      && Unbound(vars, pairs[..j + 1]) == Unbound(vars, pairs[..j]) + kept
      && Unbound(vars, pairs[j..]) == kept + Unbound(vars, pairs[j + 1..])
      && Unbound(vars, pairs[..j]) + Unbound(vars, pairs[j..])
         == Unbound(vars, pairs[..j + 1]) + Unbound(vars, pairs[j + 1..])
  {
    hide BoundInPath;
    assert pairs[..j + 1] == pairs[..j] + [pairs[j]];
    UnboundSnoc(vars, pairs[..j], pairs[j]);
    assert pairs[j..][1..] == pairs[j + 1..] && pairs[j..][0] == pairs[j];
  }
}
