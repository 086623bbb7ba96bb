/** Which value each field ends up with, for every body, path and query. */
module HttpMessageProofs {
  import opened Common
  import opened HttpTemplate
  import opened HttpTemplateProofs
  import opened HttpMatch
  import opened HttpMessage

  /** The fields a spelled path names, whatever spelling it uses. */
  function Address(s: Schema, t: string, path: seq<string>): (r: Option<seq<Field>>)
    requires path != []
    ensures r.Some? ==> |r.value| == |path|
    decreases |path|
  {
    match Resolve(s, t, path[0])
    case None => None
    case Some(f) =>
      if |path| == 1 then Some([f])
      else if f.kind.Message? && f.shape.Singular? then
        match Address(s, f.kind.of, path[1..])
        case None => None
        case Some(rest) => Some([f] + rest)
      else None
  }

  function Get(m: Msg, at: seq<Field>): Option<Value>
    requires at != []
    decreases |at|
  {
    if at[0].name !in m then None
    else if |at| == 1 then Some(m[at[0].name])
    else if m[at[0].name].Sub? then Get(m[at[0].name].fields, at[1..])
    else None
  }

  /** Two addresses part at some field, and there they are not members of one oneof. */
  predicate Apart(a: seq<Field>, b: seq<Field>)
    decreases |a|
  {
    && a != [] && b != []
    && if a[0] == b[0] then b[0].name !in a[0].rivals && Apart(a[1..], b[1..])
       else a[0].name != b[0].name && b[0].name !in a[0].rivals
  }

  function Last(at: seq<Field>): Field
    requires at != []
  {
    at[|at| - 1]
  }

  lemma GetInside(m: Msg, at: seq<Field>)
    requires |at| > 1
    ensures Get(m, at) == Get(SubOf(m, at[0]), at[1..])
  {
  }

  // ----- the laws of one assignment -----

  /** An assignment is refused exactly when its path does not resolve or its text does not convert: never because of
      what the message already holds. */
  lemma {:induction false} AcceptedIff(s: Schema, c: Codec, t: string, m: Msg, path: seq<string>, raw: string)
    requires path != []
    ensures SetByPath(s, c, t, m, path, raw).Some? <==>
      Address(s, t, path).Some? && LeafValue(c, Last(Address(s, t, path).value), raw).Some?
    decreases |path|
  {
    hide Resolve, LeafValue, Put;
    var f := Resolve(s, t, path[0]);
    if f.Some? && |path| > 1 && f.value.kind.Message? && f.value.shape.Singular? {
      AcceptedIff(s, c, f.value.kind.of, SubOf(m, f.value), path[1..], raw);
    }
  }

  /** Get after set. */
  lemma {:induction false} GetSet(s: Schema, c: Codec, t: string, m: Msg, path: seq<string>, raw: string)
    requires path != [] && SetByPath(s, c, t, m, path, raw).Some?
    ensures
      && Address(s, t, path).Some?
      && var at := Address(s, t, path).value;
         Get(SetByPath(s, c, t, m, path, raw).value, at) == Written(c, Last(at), Get(m, at), raw)
    decreases |path|
  {
    hide Resolve, LeafValue, Written;
    var f := Resolve(s, t, path[0]).value;
    if |path| > 1 {
      GetSet(s, c, f.kind.of, SubOf(m, f), path[1..], raw);
      var rest := Address(s, f.kind.of, path[1..]).value;
      var at := [f] + rest;
      assert at[1..] == rest && Last(at) == Last(rest);
      GetInside(m, at);
      var inner := SetByPath(s, c, f.kind.of, SubOf(m, f), path[1..], raw).value;
      var after := Put(m, f, Sub(inner));
      GetInside(after, at);
      assert SubOf(after, f) == inner;
    }
  }

  /** How one text binds to one field, by its kind: bytes and a well-known type through the JSON decoder, any other message
      and every list or map of messages not at all, and everything else by scalar conversion, added to a list or
      replacing what was there. */
  lemma BindsByKind(s: Schema, c: Codec, t: string, m: Msg, name: string, raw: string)
    requires Resolve(s, t, name).Some?
    ensures
      var f := Resolve(s, t, name).value;
      var r := SetByPath(s, c, t, m, [name], raw);
      match f.kind {
        case BytesKind => (r.Some? <==> c.decode(f, raw).Some?) && (r.Some? ==> Get(r.value, [f]) == c.decode(f, raw))
        case Message(_, known) =>
          && (r.Some? <==> f.shape.Singular? && known && c.decode(f, raw).Some?)
          && (r.Some? ==> Get(r.value, [f]) == c.decode(f, raw))
        case Plain =>
          && (r.Some? <==> c.coerce(f, raw).Some?)
          && (r.Some? ==>
                if f.shape.Repeated? then
                  Get(r.value, [f]) == Some(List(ItemsOf(Get(m, [f])) + [c.coerce(f, raw).value]))
                else Get(r.value, [f]) == c.coerce(f, raw))
      }
  {
    hide Resolve, Put;
    AcceptedIff(s, c, t, m, [name], raw);
    if SetByPath(s, c, t, m, [name], raw).Some? {
      GetSet(s, c, t, m, [name], raw);
    }
  }

  /** Set leaves everything apart from it alone. */
  lemma {:induction false} SetFrame(s: Schema, c: Codec, t: string, m: Msg, path: seq<string>, raw: string, at: seq<Field>)
    requires path != [] && SetByPath(s, c, t, m, path, raw).Some?
    requires Address(s, t, path).Some? && at != [] && Apart(Address(s, t, path).value, at)
    ensures Get(SetByPath(s, c, t, m, path, raw).value, at) == Get(m, at)
    decreases |path|
  {
    hide Resolve, LeafValue, Written;
    var f := Resolve(s, t, path[0]).value;
    if f == at[0] && |path| > 1 {
      var rest := Address(s, f.kind.of, path[1..]).value;
      assert ([f] + rest)[1..] == rest;
      SetFrame(s, c, f.kind.of, SubOf(m, f), path[1..], raw, at[1..]);
      GetInside(m, at);
      var inner := SetByPath(s, c, f.kind.of, SubOf(m, f), path[1..], raw).value;
      var after := Put(m, f, Sub(inner));
      GetInside(after, at);
      assert SubOf(after, f) == inner;
    }
  }

  /** Set clears the other members of every oneof on its path. */
  lemma {:induction false} SetClearsRivals(s: Schema, c: Codec, t: string, m: Msg, path: seq<string>, raw: string, i: nat, g: Field)
    requires path != [] && SetByPath(s, c, t, m, path, raw).Some? && i < |path|
    requires Address(s, t, path).Some? && g.name in Address(s, t, path).value[i].rivals
    requires g.name != Address(s, t, path).value[i].name
    ensures Get(SetByPath(s, c, t, m, path, raw).value, Address(s, t, path).value[..i] + [g]) == None
    decreases |path|
  {
    hide Resolve, LeafValue, Written;
    var f := Resolve(s, t, path[0]).value;
    var at := Address(s, t, path).value;
    var there := at[..i] + [g];
    if i > 0 {
      var rest := Address(s, f.kind.of, path[1..]).value;
      assert at == [f] + rest;
      SetClearsRivals(s, c, f.kind.of, SubOf(m, f), path[1..], raw, i - 1, g);
      assert there[1..] == rest[..i - 1] + [g] && there[0] == f;
      var inner := SetByPath(s, c, f.kind.of, SubOf(m, f), path[1..], raw).value;
      GetInside(Put(m, f, Sub(inner)), there);
      assert SubOf(Put(m, f, Sub(inner)), f) == inner;
    } else {
      assert there[0] == g;
    }
  }

  /** A field is found by its proto name if any field has it, else by its JSON name if any field has that. */
  lemma {:induction false} ResolveSpec(fields: seq<Field>, name: string)
    ensures ByName(fields, name).Some? <==> exists f :: f in fields && f.name == name
    ensures ByName(fields, name).Some? ==> ByName(fields, name).value in fields && ByName(fields, name).value.name == name
    ensures ByJson(fields, name).Some? <==> exists f :: f in fields && f.json == name
    ensures ByJson(fields, name).Some? ==> ByJson(fields, name).value in fields && ByJson(fields, name).value.json == name
  {
    if fields != [] {
      ResolveSpec(fields[1..], name);
      assert forall f :: f in fields <==> f == fields[0] || f in fields[1..];
      assert fields[0] in fields;
    }
  }

  lemma ResolvesIff(s: Schema, t: string, name: string)
    ensures
      var fields := FieldsOf(s, t);
      var r := Resolve(s, t, name);
      && (r.Some? <==> exists f :: f in fields && (f.name == name || f.json == name))
      && (r.Some? ==> r.value in fields && (r.value.name == name || r.value.json == name))
      && (r.Some? && r.value.name != name ==> forall f :: f in fields ==> f.name != name)
  {
    ResolveSpec(FieldsOf(s, t), name);
  }

  // ----- the whole message -----

  /** Every entry either addresses `at` or stays apart from it. */
  predicate Clear(s: Schema, t: string, entries: seq<PathVar>, at: seq<Field>)
    requires Nonempty(entries)
  {
    forall e :: e in entries && Address(s, t, e.0).Some? ==>
      Address(s, t, e.0).value == at || Apart(Address(s, t, e.0).value, at)
  }

  /** The texts bound to `at`, in order. */
  function Bindings(s: Schema, t: string, entries: seq<PathVar>, at: seq<Field>): seq<string>
    requires Nonempty(entries)
    decreases |entries|
  {
    if entries == [] then []
    else
      assert entries[0] in entries;
      (if Address(s, t, entries[0].0) == Some(at) then [entries[0].1] else []) + Bindings(s, t, entries[1..], at)
  }

  /** A field's value after a series of texts is bound to it: all of them in order if it is repeated, else the last. */
  function After(c: Codec, f: Field, was: Option<Value>, raws: seq<string>): Option<Value> {
    if raws == [] then was
    else if f.kind.Plain? && f.shape.Repeated? then Some(List(ItemsOf(was) + Values(c, f, raws)))
    else LeafValue(c, f, raws[|raws| - 1])
  }

  function Values(c: Codec, f: Field, raws: seq<string>): seq<Value> {
    if raws == [] then []
    else
      var v := LeafValue(c, f, raws[0]);
      (if v.Some? then [v.value] else []) + Values(c, f, raws[1..])
  }

  lemma AfterCons(c: Codec, f: Field, was: Option<Value>, raw: string, raws: seq<string>)
    requires LeafValue(c, f, raw).Some?
    ensures After(c, f, was, [raw] + raws) == After(c, f, Written(c, f, was, raw), raws)
  {
    hide LeafValue;
    var all := [raw] + raws;
    var v := LeafValue(c, f, raw).value;
    assert all[1..] == raws;
    if raws != [] {
      assert all[|all| - 1] == raws[|raws| - 1];
      Assoc(ItemsOf(was), [v], Values(c, f, raws));
    } else {
      assert Values(c, f, []) == [];
      assert Values(c, f, all) == [v] + [] == [v];
    }
  }

  /** The value of a field depends on the body and on what is bound to that very field, and on nothing else. */
  lemma {:induction false} FieldValue(s: Schema, c: Codec, t: string, m: Msg, entries: seq<PathVar>, at: seq<Field>)
    requires Nonempty(entries) && ApplyAll(s, c, t, m, entries).Some? && at != [] && Clear(s, t, entries, at)
    ensures Get(ApplyAll(s, c, t, m, entries).value, at)
         == After(c, Last(at), Get(m, at), Bindings(s, t, entries, at))
    decreases |entries|
  {
    hide SetByPath, Apart, Get, Address, Written, LeafValue;
    if entries == [] {
      AfterNothing(c, Last(at), Get(m, at));
    } else {
      var e := entries[0];
      assert e in entries;
      var n := SetByPath(s, c, t, m, e.0, e.1).value;
      var raws := Bindings(s, t, entries[1..], at);
      AcceptedIff(s, c, t, m, e.0, e.1);
      FieldValue(s, c, t, n, entries[1..], at);
      if Address(s, t, e.0) == Some(at) {
        GetSet(s, c, t, m, e.0, e.1);
        AfterCons(c, Last(at), Get(m, at), e.1, raws);
      } else {
        SetFrame(s, c, t, m, e.0, e.1, at);
        assert [] + raws == raws;
      }
    }
  }

  lemma AfterNothing(c: Codec, f: Field, was: Option<Value>)
    ensures After(c, f, was, []) == was
  {
  }

  lemma BindingsCons(s: Schema, t: string, e: PathVar, later: seq<PathVar>, at: seq<Field>)
    requires Nonempty(later) && e.0 != []
    ensures Nonempty([e] + later)
    ensures Bindings(s, t, [e] + later, at) ==
            (if Address(s, t, e.0) == Some(at) then [e.1] else []) + Bindings(s, t, later, at)
  {
    hide Address;
    assert ([e] + later)[1..] == later && ([e] + later)[0] == e;
    assert forall x :: x in [e] + later ==> x == e || x in later;
  }

  lemma {:induction false} BindingsConcat(s: Schema, t: string, a: seq<PathVar>, b: seq<PathVar>, at: seq<Field>)
    requires Nonempty(a) && Nonempty(b)
    ensures Bindings(s, t, a + b, at) == Bindings(s, t, a, at) + Bindings(s, t, b, at)
    decreases |a|
  {
    hide Address, Bindings;
    if a == [] {
      assert a + b == b;
      NoBindings(s, t, at);
    } else {
      var e, rest := a[0], a[1..];
      assert e in a && a == [e] + rest && a + b == [e] + (rest + b);
      BindingsConcat(s, t, rest, b, at);
      BindingsCons(s, t, e, rest, at);
      BindingsCons(s, t, e, rest + b, at);
      Assoc(if Address(s, t, e.0) == Some(at) then [e.1] else [], Bindings(s, t, rest, at), Bindings(s, t, b, at));
    }
  }

  lemma NoBindings(s: Schema, t: string, at: seq<Field>)
    ensures Bindings(s, t, [], at) == []
  {
  }

  lemma {:induction false} BindingsNone(s: Schema, t: string, entries: seq<PathVar>, at: seq<Field>)
    requires Nonempty(entries)
    ensures Bindings(s, t, entries, at) == [] <==> forall e :: e in entries ==> Address(s, t, e.0) != Some(at)
    decreases |entries|
  {
    hide Address;
    if entries != [] {
      assert entries[0] in entries;
      BindingsNone(s, t, entries[1..], at);
      assert forall e :: e in entries <==> e == entries[0] || e in entries[1..];
    }
  }

  /** A query key that names the field but is not spelled like any path variable. */
  predicate OtherSpelling(s: Schema, t: string, rule: BodyRule, vars: seq<PathVar>, query: Option<string>, at: seq<Field>) {
    && !rule.Wildcard? && query.Some?
    && exists e :: e in ParseQuery(query.value) && e.0 != [] && Address(s, t, e.0) == Some(at) && NotSpelled(vars, e.0)
  }

  predicate NotSpelled(vars: seq<PathVar>, path: seq<string>) {
    forall v :: v in vars ==> v.0 != path
  }

  lemma SpelledOrNot(vars: seq<PathVar>, path: seq<string>)
    ensures NotSpelled(vars, path) <==> !BoundInPath(vars, path)
  {
  }

  lemma QueryBindsIff(s: Schema, t: string, rule: BodyRule, vars: seq<PathVar>, query: Option<string>, at: seq<Field>)
    ensures Bindings(s, t, QueryEntries(rule, vars, query), at) != [] <==> OtherSpelling(s, t, rule, vars, query, at)
  {
    hide Address, BoundInPath, NotSpelled, Unbound, ParseQuery;
    var entries := QueryEntries(rule, vars, query);
    BindingsNone(s, t, entries, at);
    if !rule.Wildcard? && query.Some? {
      var pairs := ParseQuery(query.value);
      forall e
        ensures e in entries <==> e in pairs && NotSpelled(vars, e.0)
      {
        UnboundIn(vars, pairs, e);
        SpelledOrNot(vars, e.0);
      }
    }
  }

  /** Every field of a built message. A singular field bound in the path has its last path variable's value, whatever the
      body holds, unless a query key names the same field by another spelling: then the last such key's value. A field
      that neither path nor query names keeps the body's value. A repeated field has the body's items, then the path's,
      then the query's. */
  lemma BuiltField(s: Schema, c: Codec, t: string, rule: BodyRule, vars: seq<PathVar>, query: Option<string>,
                   body: Bytes, at: seq<Field>)
    requires Nonempty(vars) && at != []
    requires Built(s, c, t, rule, vars, query, body).Some?
    requires Clear(s, t, vars, at) && Clear(s, t, QueryEntries(rule, vars, query), at)
    ensures
      var f := Last(at);
      var was := Get(BodyMessage(s, c, t, rule, body).value, at);
      var here := Get(Built(s, c, t, rule, vars, query, body).value, at);
      var inPath := Bindings(s, t, vars, at);
      var inQuery := Bindings(s, t, QueryEntries(rule, vars, query), at);
      && (inQuery != [] <==> OtherSpelling(s, t, rule, vars, query, at))
      && (inPath == [] && inQuery == [] ==> here == was)
      && (!(f.kind.Plain? && f.shape.Repeated?) ==>
            && (inPath != [] && inQuery == [] ==> here == LeafValue(c, f, inPath[|inPath| - 1]))
            && (inQuery != [] ==> here == LeafValue(c, f, inQuery[|inQuery| - 1])))
      && (f.kind.Plain? && f.shape.Repeated? && inPath + inQuery != [] ==>
            here == Some(List(ItemsOf(was) + Values(c, f, inPath) + Values(c, f, inQuery))))
  {
    hide ApplyAll, Bindings, LeafValue, Get, Address, BodyMessage, Apart, QueryEntries, OtherSpelling, Values;
    var m := BodyMessage(s, c, t, rule, body).value;
    var entries := QueryEntries(rule, vars, query);
    var all := vars + entries;
    FieldValue(s, c, t, m, all, at);
    BindingsConcat(s, t, vars, entries, at);
    QueryBindsIff(s, t, rule, vars, query, at);
    var inPath, inQuery := Bindings(s, t, vars, at), Bindings(s, t, entries, at);
    assert inPath + [] == inPath;
    ValuesConcat(c, Last(at), inPath, inQuery);
    var was := Get(m, at);
    Assoc(ItemsOf(was), Values(c, Last(at), inPath), Values(c, Last(at), inQuery));
  }

  /** The body's part, in the codec's own terms. A body that does not decode, or a body field that does not resolve or
      decode, refuses the request; and apart from that it is refused exactly when some assignment is. A field that neither
      path nor query names reads as the decoded body has it: the whole body under `*`, the one field under a field rule,
      and nothing at all without a body. */
  lemma BuiltBody(s: Schema, c: Codec, t: string, rule: BodyRule, vars: seq<PathVar>, query: Option<string>, body: Bytes,
                  at: seq<Field>)
    requires Nonempty(vars) && at != []
    requires Clear(s, t, vars, at) && Clear(s, t, QueryEntries(rule, vars, query), at)
    requires Bindings(s, t, vars, at) == [] && !OtherSpelling(s, t, rule, vars, query, at)
    ensures
      var built := Built(s, c, t, rule, vars, query, body);
      && (rule.Wildcard? && body != [] ==>
            && (c.body(t, body).None? ==> built.None?)
            && (built.Some? ==> Get(built.value, at) == Get(c.body(t, body).value, at)))
      && (rule.OneField? && body != [] ==>
            var f := Resolve(s, t, rule.name);
            && (f.None? || c.bodyField(f.value, body).None? ==> built.None?)
            && (built.Some? ==>
                  && (at == [f.value] ==> Get(built.value, at) == c.bodyField(f.value, body))
                  && (at[0].name == f.value.name && c.bodyField(f.value, body).Some? ==>
                        Get(built.value, at) == Get(map[f.value.name := c.bodyField(f.value, body).value], at))
                  && (at[0].name != f.value.name ==> Get(built.value, at).None?)))
      && (rule.NoBody? || body == [] ==> built.Some? ==> Get(built.value, at).None?)
  {
    hide ApplyAll, Bindings, Address, Apart, QueryEntries, OtherSpelling, Resolve;
    var built := Built(s, c, t, rule, vars, query, body);
    if built.Some? {
      BuiltField(s, c, t, rule, vars, query, body, at);
    }
  }

  /** Some assignment in the list does not resolve or does not convert. */
  predicate SomeRefused(s: Schema, c: Codec, t: string, entries: seq<PathVar>)
    requires Nonempty(entries)
  {
    exists e :: e in entries &&
      (Address(s, t, e.0).None? || LeafValue(c, Last(Address(s, t, e.0).value), e.1).None?)
  }

  lemma {:induction false} ApplyRefusedIff(s: Schema, c: Codec, t: string, m: Msg, entries: seq<PathVar>)
    requires Nonempty(entries)
    ensures ApplyAll(s, c, t, m, entries).None? <==> SomeRefused(s, c, t, entries)
    decreases |entries|
  {
    hide SetByPath, Address, LeafValue;
    if entries != [] {
      var e := entries[0];
      assert e in entries;
      assert forall x :: x in entries <==> x == e || x in entries[1..];
      AcceptedIff(s, c, t, m, e.0, e.1);
      var n := SetByPath(s, c, t, m, e.0, e.1);
      if n.Some? {
        ApplyRefusedIff(s, c, t, n.value, entries[1..]);
      }
    }
  }

  /** A request is refused exactly when its body is, or some path variable or query parameter is. */
  lemma BuiltRefusedIff(s: Schema, c: Codec, t: string, rule: BodyRule, vars: seq<PathVar>, query: Option<string>, body: Bytes)
    requires Nonempty(vars)
    ensures Built(s, c, t, rule, vars, query, body).None? <==>
      || (rule.Wildcard? && body != [] && c.body(t, body).None?)
      || (rule.OneField? && body != [] &&
            (Resolve(s, t, rule.name).None? || c.bodyField(Resolve(s, t, rule.name).value, body).None?))
      || SomeRefused(s, c, t, vars + QueryEntries(rule, vars, query))
  {
    hide ApplyAll, QueryEntries, SomeRefused, Resolve;
    var m := BodyMessage(s, c, t, rule, body);
    if m.Some? {
      ApplyRefusedIff(s, c, t, m.value, vars + QueryEntries(rule, vars, query));
    }
  }

  lemma {:induction false} ValuesConcat(c: Codec, f: Field, a: seq<string>, b: seq<string>)
    ensures Values(c, f, a + b) == Values(c, f, a) + Values(c, f, b)
  {
    hide LeafValue;
    if a == [] {
      assert a + b == b;
    } else {
      assert (a + b)[1..] == a[1..] + b;
      ValuesConcat(c, f, a[1..], b);
    }
  }

  /** The other spelling does win over the path: a variable under the proto name, a query key under the JSON name. */
  lemma OtherSpellingOverridesPath(c: Codec)
    requires forall f: Field, raw: string :: c.coerce(f, raw) == Some(Scalar(raw))
    ensures
      var f := Field("user_id", "userId", Plain, Singular, {});
      var s: Schema := map["Req" := [f]];
      var vars := [(["user_id"], "1")];
      && Nonempty(vars)
      && Built(s, c, "Req", NoBody, vars, Some("userId=2"), []) == Some(map["user_id" := Scalar("2")])
  {
    hide SetByPath, ParseQuery, LeafValue;
    var f := Field("user_id", "userId", Plain, Singular, {});
    var s: Schema := map["Req" := [f]];
    var vars: seq<PathVar> := [(["user_id"], "1")];
    var e: PathVar := (["userId"], "2");
    ParseSample();
    assert Unbound(vars, [e]) == [e] by {
      assert [e][1..] == [];
      assert !BoundInPath(vars, e.0);
      assert Unbound(vars, []) == [];
    }
    var one: Msg := map["user_id" := Scalar("1")];
    var two: Msg := map["user_id" := Scalar("2")];
    SetSample(c, map[], "user_id", "1");
    SetSample(c, one, "userId", "2");
    assert map[]["user_id" := Scalar("1")] == one && one["user_id" := Scalar("2")] == two;
    ApplyNone(s, c, "Req", two);
    assert ApplyAll(s, c, "Req", one, [e]) == Some(two) by { assert [e][1..] == []; }
    assert ApplyAll(s, c, "Req", map[], vars + [e]) == Some(two) by { assert (vars + [e])[1..] == [e]; }
  }

  lemma SetSample(c: Codec, m: Msg, name: string, raw: string)
    requires forall f: Field, raw: string :: c.coerce(f, raw) == Some(Scalar(raw))
    requires name == "user_id" || name == "userId"
    ensures
      var s: Schema := map["Req" := [Field("user_id", "userId", Plain, Singular, {})]];
      SetByPath(s, c, "Req", m, [name], raw) == Some(m["user_id" := Scalar(raw)])
  {
    var f := Field("user_id", "userId", Plain, Singular, {});
    var s: Schema := map["Req" := [f]];
    assert [f][1..] == [];
    assert ByName([], name) == None;
    assert Resolve(s, "Req", name) == Some(f) by {
      if name == "userId" {
        assert name[4] == 'I' && "user_id"[4] == '_';
        assert ByName([f], name) == None;
      }
    }
    assert m - {} == m;
  }

  // ----- reading a query string -----

  /** `e` spells `v`: character by character as it is, or as an escape; a percent sign only as an escape. */
  predicate Spelled(e: string, v: string) {
    if v == "" then e == ""
    else if Escaped(e) then HexPair(e[1], e[2]).value as char == v[0] && Spelled(e[3..], v[1..])
    else e != "" && e[0] == v[0] && v[0] != '%' && Spelled(e[1..], v[1..])
  }

  lemma {:induction false} SpelledDecodes(e: string, v: string)
    requires Spelled(e, v)
    ensures PercentDecode(e) == v
  {
    if v != "" {
      assert [v[0]] + v[1..] == v;
      if Escaped(e) {
        SpelledDecodes(e[3..], v[1..]);
      } else {
        SpelledDecodes(e[1..], v[1..]);
      }
    }
  }

  /** A query writes a value with plus signs for spaces, and without ampersands. */
  predicate QueryWord(e: string, v: string) {
    '&' !in e && Spelled(PlusToSpace(e), v)
  }

  /** `w` is a parameter for this field path and value; without an equals sign the value is empty. */
  ghost predicate Writes(w: string, path: seq<string>, value: string) {
    && path != [] && (forall f :: f in path ==> '.' !in f)
    && exists key, text ::
         && '=' !in key && QueryWord(key, Join(path, '.'))
         && QueryWord(text, value) && w == key + "=" + text
  }

  predicate WritesBare(w: string, path: seq<string>) {
    && path != [] && (forall f :: f in path ==> '.' !in f)
    && w != "" && '=' !in w && QueryWord(w, Join(path, '.'))
  }

  lemma DotsBack(path: seq<string>)
    requires path != [] && forall f :: f in path ==> '.' !in f
    ensures SplitOn(Join(path, '.'), '.') == path
  {
    hide Solid, EndDepth;
    forall f | f in path
      ensures Solid(f, '.', false, 0) && EndDepth(f, false, 0) == 0
    {
      SolidPlain(f, '.', false, 0);
    }
    SplitJoin(path, '.', false);
  }

  lemma PairBack(w: string, path: seq<string>, value: string)
    requires Writes(w, path, value) || (WritesBare(w, path) && value == "")
    ensures QueryPair(w) == (path, value) && w != "" && '&' !in w
  {
    hide Split, SplitOnce, PercentDecode, PlusToSpace, Spelled;
    DotsBack(path);
    if Writes(w, path, value) {
      var key, text :| '=' !in key && QueryWord(key, Join(path, '.')) && QueryWord(text, value) && w == key + "=" + text;
      SplitOnceAt(key, '=', text);
      assert key + ['='] + text == w;
      SpelledDecodes(PlusToSpace(key), Join(path, '.'));
      SpelledDecodes(PlusToSpace(text), value);
    } else {
      SplitOnceNone(w, '=');
      SpelledDecodes(PlusToSpace(w), Join(path, '.'));
      NothingDecodes();
    }
  }

  lemma NothingDecodes()
    ensures PercentDecode(PlusToSpace("")) == ""
  {
  }

  ghost predicate WritesAll(ws: seq<string>, pairs: seq<PathVar>) {
    && |ws| == |pairs|
    && forall i :: 0 <= i < |ws| ==>
         Writes(ws[i], pairs[i].0, pairs[i].1) || (WritesBare(ws[i], pairs[i].0) && pairs[i].1 == "")
  }

  lemma {:induction false} PairsBack(ws: seq<string>, pairs: seq<PathVar>)
    requires WritesAll(ws, pairs)
    ensures QueryPairs(ws) == pairs
    ensures forall w :: w in ws ==> '&' !in w
  {
    hide Writes, WritesBare, QueryPair;
    if ws != [] {
      assert Writes(ws[0], pairs[0].0, pairs[0].1) || (WritesBare(ws[0], pairs[0].0) && pairs[0].1 == "");
      PairBack(ws[0], pairs[0].0, pairs[0].1);
      forall i | 0 <= i < |ws| - 1
        ensures Writes(ws[1..][i], pairs[1..][i].0, pairs[1..][i].1)
             || (WritesBare(ws[1..][i], pairs[1..][i].0) && pairs[1..][i].1 == "")
      {
        assert ws[1..][i] == ws[i + 1] && pairs[1..][i] == pairs[i + 1];
      }
      PairsBack(ws[1..], pairs[1..]);
      assert [pairs[0]] + pairs[1..] == pairs;
    }
  }

  /** Any writing of any list of parameters, with ampersands to spare anywhere, reads back as that list. */
  lemma QueryRoundTrip(padded: seq<string>, pairs: seq<PathVar>)
    requires WritesAll(NonEmpty(padded), pairs)
    ensures ParseQuery(Join(padded, '&')) == pairs
  {
    hide Split, Solid, EndDepth, WritesAll, QueryPairs, NonEmpty;
    PairsBack(NonEmpty(padded), pairs);
    forall w | w in padded
      ensures Solid(w, '&', false, 0) && EndDepth(w, false, 0) == 0
    {
      InNonEmpty(padded, w);
      SolidPlain(w, '&', false, 0);
    }
    if padded == [] {
      NoParameters();
    } else {
      SplitJoin(padded, '&', false);
    }
  }

  lemma NoParameters()
    ensures NonEmpty(SplitOn(Join([], '&'), '&')) == [] == NonEmpty([])
  {
    assert [""][1..] == [];
  }

  lemma SplitNone(s: string, sep: char)
    requires sep !in s
    ensures SplitOn(s, sep) == [s]
  {
    if s != "" {
      SplitNone(s[1..], sep);
      assert [s[0]] + s[1..] == s;
    }
  }

  lemma DecodeNone(s: string)
    requires '%' !in s && '+' !in s
    ensures PercentDecode(PlusToSpace(s)) == s
  {
    if s != "" {
      DecodeNone(s[1..]);
      assert [s[0]] + s[1..] == s;
    }
  }

  lemma ParseSample()
    ensures ParseQuery("userId=2") == [(["userId"], "2")]
  {
    hide SplitOn, PercentDecode, PlusToSpace, SplitOnce;
    var q := "userId=2";
    SplitNone(q, '&');
    SplitOnceAt("userId", '=', "2");
    assert "userId" + ['='] + "2" == q;
    DecodeNone("userId");
    DecodeNone("2");
    SplitNone("userId", '.');
    assert [q][1..] == [];
    assert NonEmpty([q]) == [q];
    assert QueryPairs([q]) == [QueryPair(q)];
  }
}
