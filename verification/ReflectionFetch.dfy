/** The dependency-chasing walk over a reflection stream, and the descriptor set made of what it collects. */
module ReflectionFetch {
  import opened Common
  import opened FileOrder
  import FileSet

  datatype Request = BySymbol(symbol: string) | ByName(name: string)
  datatype Reply = FilesReply(raws: seq<Bytes>) | ErrorReply(message: string) | OtherReply

  /** A file's own name and its dependencies, if the bytes decode. */
  type Meta = Bytes -> Option<(string, seq<string>)>
  type Service = Request -> Reply

  /** The universe is finite: no reply names a dependency outside `names`. */
  ghost predicate Within(serve: Service, meta: Meta, names: set<string>) {
    forall q: Request, raw: Bytes, d: string ::
      serve(q).FilesReply? && raw in serve(q).raws && meta(raw).Some? && d in meta(raw).value.1 ==> d in names
  }

  /** A filename request is answered with that file, perhaps among others, or refused. */
  ghost predicate Answers(serve: Service, meta: Meta) {
    forall n: string ::
      || serve(ByName(n)).ErrorReply?
      || (serve(ByName(n)).FilesReply? && Holds(serve(ByName(n)).raws, meta, n))
  }

  predicate Holds(raws: seq<Bytes>, meta: Meta, n: string) {
    exists k :: 0 <= k < |raws| && meta(raws[k]).Some? && meta(raws[k]).value.0 == n
  }

  ghost predicate Closed(files: Files) {
    forall n, d :: DependsOn(files, n, d) ==> d in files
  }

  /** Each file is stored under its own name with its own dependencies. */
  ghost predicate Genuine(files: Files, meta: Meta) {
    forall n :: n in files ==> meta(files[n].bytes) == Some((n, files[n].deps))
  }

  /** Every dependency is collected or has been asked for. */
  ghost predicate Chased(files: Files, requested: set<string>) {
    forall n, d :: DependsOn(files, n, d) ==> d in files || d in requested
  }

  /** Everything asked for is collected, still unanswered, or has had its answer. */
  ghost predicate Tracked(files: Files, requested: set<string>, wire: seq<Request>, answered: set<string>) {
    forall d :: d in requested ==> d in files || ByName(d) in wire || d in answered
  }

  /** Ask for each dependency that is neither collected nor asked for yet. */
  method Ask(files: Files, deps: seq<string>, requested: set<string>, wire: seq<Request>, pending: nat,
             ghost answered: set<string>)
    returns (requested': set<string>, wire': seq<Request>, pending': nat)
    requires Tracked(files, requested, wire, answered)
    ensures Tracked(files, requested', wire', answered)
    ensures requested <= requested' <= requested + (set d | d in deps)
    ensures forall d :: d in deps ==> d in files || d in requested'
    ensures forall d :: d in requested' && d !in requested ==> d !in files
    ensures pending' - pending == |wire'| - |wire| == |requested'| - |requested|
  {
    requested', wire', pending' := requested, wire, pending;
    for i := 0 to |deps|
      invariant Tracked(files, requested', wire', answered)
      invariant requested <= requested' <= requested + (set d | d in deps)
      invariant forall k :: 0 <= k < i ==> deps[k] in files || deps[k] in requested'
      invariant forall d :: d in requested' && d !in requested ==> d !in files
      invariant pending' - pending == |wire'| - |wire| == |requested'| - |requested|
    {
      var dep := deps[i];
      if dep !in files && dep !in requested' {
        assert forall q :: q in wire' ==> q in wire' + [ByName(dep)];
        assert ByName(dep) in wire' + [ByName(dep)];
        requested' := requested' + {dep};
        wire' := wire' + [ByName(dep)];
        pending' := pending' + 1;
      }
    }
  }

  /** Read one reply's files. */
  method TakeFiles(raws: seq<Bytes>, meta: Meta, files: Files, requested: set<string>, wire: seq<Request>, pending: nat,
                   ghost answered: set<string>, ghost names: set<string>)
    returns (ok: bool, files': Files, requested': set<string>, wire': seq<Request>, pending': nat)
    requires Tracked(files, requested, wire, answered) && Chased(files, requested) && Genuine(files, meta)
    requires forall raw: Bytes, d :: raw in raws && meta(raw).Some? && d in meta(raw).value.1 ==> d in names
    requires requested <= names && pending == |wire|
    ensures Tracked(files', requested', wire', answered) && Chased(files', requested') && Genuine(files', meta)
    ensures requested' <= names && files.Keys <= files'.Keys
    ensures pending' == |wire'| && pending' - pending == |requested'| - |requested|
    ensures ok <==> forall k :: 0 <= k < |raws| ==> meta(raws[k]).Some?
    ensures ok ==> Collected(raws, meta, files')
    ensures forall n :: n in files' ==> n in files || Holds(raws, meta, n)
  {
    hide Tracked, Chased, Genuine;
    ok, files', requested', wire', pending' := true, files, requested, wire, pending;
    for i := 0 to |raws|
      invariant Tracked(files', requested', wire', answered) && Chased(files', requested') && Genuine(files', meta)
      invariant requested' <= names && files.Keys <= files'.Keys
      invariant pending' == |wire'| && pending' - pending == |requested'| - |requested|
      invariant forall k :: 0 <= k < i ==> meta(raws[k]).Some? && meta(raws[k]).value.0 in files'
      invariant forall n :: n in files' ==> n in files || Holds(raws, meta, n)
    {
      var m := meta(raws[i]);
      if m.None? {
        ok := false;
        return;
      }
      var name, deps := m.value.0, m.value.1;
      assert raws[i] in raws;
      ghost var asked := requested';
      requested', wire', pending' := Ask(files', deps, requested', wire', pending', answered);
      Insert(files', asked, requested', wire', answered, meta, name, RawFile(raws[i], deps));
      files' := files'[name := RawFile(raws[i], deps)];
    }
  }

  lemma Insert(files: Files, asked: set<string>, requested: set<string>, wire: seq<Request>, answered: set<string>, meta: Meta,
               name: string, f: RawFile)
    requires Tracked(files, requested, wire, answered) && Chased(files, asked) && Genuine(files, meta)
    requires asked <= requested && (forall d :: d in f.deps ==> d in files || d in requested)
    requires meta(f.bytes) == Some((name, f.deps))
    ensures
      var files' := files[name := f];
      Tracked(files', requested, wire, answered) && Chased(files', requested) && Genuine(files', meta)
  {
    var files' := files[name := f];
    forall n, d | DependsOn(files', n, d)
      ensures d in files' || d in requested
    {
      assert n != name ==> DependsOn(files, n, d);
    }
  }

  /** A reply the walk goes on after: no refusal, and every file in it decodes. */
  ghost predicate Good(serve: Service, meta: Meta, q: Request) {
    && !serve(q).ErrorReply?
    && (serve(q).FilesReply? ==> forall k :: 0 <= k < |serve(q).raws| ==> meta(serve(q).raws[k]).Some?)
  }

  /** A file of this name came with some answer. */
  ghost predicate Supplied(serve: Service, meta: Meta, answered: seq<Request>, n: string) {
    exists k :: 0 <= k < |answered| && serve(answered[k]).FilesReply? && Holds(serve(answered[k]).raws, meta, n)
  }

  /** The walk. The stream ends by itself after `lifetime` replies, if at all. `wire` is the requests still unanswered at the
      end, `left` their number, and `answered` the others, in the order of their replies.

      It fails exactly when the last answer was a refusal or held a file that does not decode, and every answer before
      was good. Otherwise it has collected what it was given and nothing else. Unless the stream ended first, nothing is
      left unanswered, and against a service that answers filename requests the collection is then closed; when the
      stream did end first, what it lacks is among the requests left. */
  method Fetch(symbol: string, serve: Service, meta: Meta, lifetime: Option<nat>, ghost names: set<string>)
    returns (r: Result<Files, string>, left: nat, wire: seq<Request>, ghost answered: seq<Request>)
    requires Within(serve, meta, names)
    ensures left == |wire|
    ensures answered == [] <==> lifetime == Some(0)
    ensures answered != [] ==> answered[0] == BySymbol(symbol)
    ensures lifetime.Some? ==> |answered| <= lifetime.value
    ensures forall k :: 0 <= k < |answered| - 1 ==> Good(serve, meta, answered[k])
    ensures r.Err? <==> answered != [] && !Good(serve, meta, answered[|answered| - 1])
    ensures r.Ok? ==> left == 0 || lifetime == Some(|answered|)
    ensures r.Ok? ==> Genuine(r.value, meta) && forall n :: n in r.value ==> Supplied(serve, meta, answered, n)
    ensures r.Ok? && Answers(serve, meta) ==> forall n, d :: DependsOn(r.value, n, d) && d !in r.value ==> ByName(d) in wire
    ensures r.Ok? && Answers(serve, meta) && left == 0 ==> Closed(r.value)
    ensures r.Ok? && lifetime != Some(0) && serve(BySymbol(symbol)).FilesReply? ==>
      Collected(serve(BySymbol(symbol)).raws, meta, r.value)
    ensures lifetime.None? && (forall q :: Good(serve, meta, q)) ==>
      r.Ok? && left == 0 && (Answers(serve, meta) ==> Closed(r.value))
  {
    hide Tracked, Chased, Genuine, Within, Answers, Collected, Good, Supplied;
    var files: Files, requested: set<string> := map[], {};
    wire := [BySymbol(symbol)];
    var pending: nat, count: nat := 1, 0;
    ghost var settled: set<string> := {};
    answered := [];
    StartsClean(meta, wire);
    while pending > 0
      invariant pending == |wire| && count + pending == |requested| + 1
      invariant requested <= names && Chased(files, requested) && Genuine(files, meta)
      invariant Tracked(files, requested, wire, settled)
      invariant Answers(serve, meta) ==> settled <= files.Keys
      invariant count == 0 ==> wire == [BySymbol(symbol)]
      invariant count > 0 && serve(BySymbol(symbol)).FilesReply? ==> Collected(serve(BySymbol(symbol)).raws, meta, files)
      invariant lifetime.Some? ==> count <= lifetime.value
      invariant |answered| == count && (answered != [] ==> answered[0] == BySymbol(symbol))
      invariant forall k :: 0 <= k < |answered| ==> Good(serve, meta, answered[k])
      invariant forall n :: n in files ==> Supplied(serve, meta, answered, n)
      decreases |names| + 1 - count
    {
      if lifetime == Some(count) {
        break;
      }
      Cardinal(requested, names);
      Pop(files, requested, wire, settled);
      var current := wire[0];
      if current.ByName? {
        settled := settled + {current.name};
      }
      wire, pending, count := wire[1..], pending - 1, count + 1;
      GoodReply(serve, meta, current);
      SuppliedGrows(serve, meta, answered, current);
      answered := answered + [current];
      match serve(current) {
        case FilesReply(raws) =>
          WithinReply(serve, meta, names, current);
          ghost var was := files;
          var ok;
          ok, files, requested, wire, pending := TakeFiles(raws, meta, files, requested, wire, pending, settled, names);
          if !ok {
            return Err("bad descriptor"), pending, wire, answered;
          }
          AfterReply(serve, meta, current, was, files);
          CollectedGrows(serve, symbol, meta, was, files);
        case ErrorReply(message) =>
          return Err(message), pending, wire, answered;
        case OtherReply =>
          NotOther(serve, meta, current);
      }
    }
    Finish(files, requested, wire, settled);
    return Ok(files), pending, wire, answered;
  }

  lemma GoodReply(serve: Service, meta: Meta, q: Request)
    ensures serve(q).ErrorReply? ==> !Good(serve, meta, q)
    ensures serve(q).OtherReply? ==> Good(serve, meta, q)
    ensures serve(q).FilesReply? ==>
      (Good(serve, meta, q) <==> forall k :: 0 <= k < |serve(q).raws| ==> meta(serve(q).raws[k]).Some?)
  {
  }

  lemma SuppliedGrows(serve: Service, meta: Meta, answered: seq<Request>, q: Request)
    ensures forall n :: Supplied(serve, meta, answered, n) ==> Supplied(serve, meta, answered + [q], n)
    ensures serve(q).FilesReply? ==> forall n :: Holds(serve(q).raws, meta, n) ==> Supplied(serve, meta, answered + [q], n)
  {
    var all := answered + [q];
    assert all[|answered|] == q;
    forall n | Supplied(serve, meta, answered, n)
      ensures Supplied(serve, meta, all, n)
    {
      var k :| 0 <= k < |answered| && serve(answered[k]).FilesReply? && Holds(serve(answered[k]).raws, meta, n);
      assert all[k] == answered[k];
    }
  }

  // A service of two files: `a`, which the symbol is in, and `b`, which `a` depends on.

  function SampleMeta(raw: Bytes): Option<(string, seq<string>)> {
    if raw == [1] then Some(("a", ["b"])) else if raw == [2] then Some(("b", [])) else None
  }

  function SampleServe(q: Request): Reply {
    if q.BySymbol? then FilesReply([[1]]) else if q.name == "b" then FilesReply([[2]]) else ErrorReply("not found")
  }

  lemma SampleIsHonest()
    ensures Within(SampleServe, SampleMeta, {"b"}) && Answers(SampleServe, SampleMeta)
  {
    assert [[2]][0] == [2] && Holds([[2]], SampleMeta, "b");
  }

  lemma SampleFirst(symbol: string)
    ensures Good(SampleServe, SampleMeta, BySymbol(symbol))
    ensures forall files :: Collected(SampleServe(BySymbol(symbol)).raws, SampleMeta, files) ==> "a" in files
    ensures !Supplied(SampleServe, SampleMeta, [BySymbol(symbol)], "b")
  {
    assert [[1]][0] == [1];
  }

  lemma SampleDepends(files: Files)
    requires Genuine(files, SampleMeta) && "a" in files
    ensures DependsOn(files, "a", "b")
  {
    assert SampleMeta(files["a"].bytes) == Some(("a", files["a"].deps));
  }

  /** A stream that ends after one reply: the walk succeeds without a file its one file depends on. */
  method EarlyEnd() returns (r: Result<Files, string>, left: nat)
    ensures r.Ok? && left > 0 && DependsOn(r.value, "a", "b") && "b" !in r.value
  {
    hide Within, Answers, Good, Collected, Supplied, Genuine, Closed;
    var wire;
    ghost var answered;
    SampleIsHonest();
    r, left, wire, answered := Fetch("s", SampleServe, SampleMeta, Some(1), {"b"});
    assert answered == [BySymbol("s")];
    SampleFirst("s");
    SampleDepends(r.value);
    assert ByName("b") in wire;
  }

  ghost predicate Collected(raws: seq<Bytes>, meta: Meta, files: Files) {
    forall k :: 0 <= k < |raws| ==> meta(raws[k]).Some? && meta(raws[k]).value.0 in files
  }

  lemma StartsClean(meta: Meta, wire: seq<Request>)
    ensures Chased(map[], {}) && Genuine(map[], meta) && Tracked(map[], {}, wire, {})
  {
  }

  lemma Pop(files: Files, requested: set<string>, wire: seq<Request>, answered: set<string>)
    requires Tracked(files, requested, wire, answered) && wire != []
    ensures
      var now := if wire[0].ByName? then answered + {wire[0].name} else answered;
      Tracked(files, requested, wire[1..], now)
  {
    assert forall q :: q in wire ==> q == wire[0] || q in wire[1..];
  }

  lemma WithinReply(serve: Service, meta: Meta, names: set<string>, q: Request)
    requires Within(serve, meta, names) && serve(q).FilesReply?
    ensures forall raw: Bytes, d :: raw in serve(q).raws && meta(raw).Some? && d in meta(raw).value.1 ==> d in names
  {
  }

  lemma AfterReply(serve: Service, meta: Meta, q: Request, was: Files, files: Files)
    requires serve(q).FilesReply? && Collected(serve(q).raws, meta, files) && was.Keys <= files.Keys
    ensures Answers(serve, meta) && q.ByName? ==> q.name in files
  {
  }

  lemma CollectedGrows(serve: Service, symbol: string, meta: Meta, was: Files, files: Files)
    requires was.Keys <= files.Keys
    ensures serve(BySymbol(symbol)).FilesReply? && Collected(serve(BySymbol(symbol)).raws, meta, was) ==>
      Collected(serve(BySymbol(symbol)).raws, meta, files)
  {
  }

  lemma NotOther(serve: Service, meta: Meta, q: Request)
    requires serve(q).OtherReply?
    ensures Answers(serve, meta) ==> !q.ByName?
  {
  }

  lemma Finish(files: Files, requested: set<string>, wire: seq<Request>, answered: set<string>)
    requires Chased(files, requested) && Tracked(files, requested, wire, answered)
    ensures answered <= files.Keys ==> forall n, d :: DependsOn(files, n, d) && d !in files ==> ByName(d) in wire
  {
  }

  // ----- what closure gives -----

  /** A closed collection holds everything its files lead to. */
  lemma {:induction false} ClosedUnderWalks(files: Files, p: seq<string>)
    requires Closed(files) && p != [] && Walk(files, p) && p[0] in files
    ensures p[|p| - 1] in files
  {
    if |p| > 1 {
      var q := p[..|p| - 1];
      forall i | 0 <= i < |q| - 1
        ensures DependsOn(files, q[i], q[i + 1])
      {
        assert q[i] == p[i] && q[i + 1] == p[i + 1];
      }
      ClosedUnderWalks(files, q);
      assert DependsOn(files, p[|p| - 2], p[|p| - 2 + 1]);
    }
  }

  lemma ClosedReaches(files: Files, a: string, b: string)
    requires Closed(files) && a in files && Reaches(files, a, b)
    ensures b in files
  {
    var p: seq<string> :| p != [] && p[0] == a && p[|p| - 1] == b && Walk(files, p);
    ClosedUnderWalks(files, p);
  }

  /** Adding one service's files to another's keeps closure. */
  lemma ClosedUnion(a: Files, b: Files)
    requires Closed(a) && Closed(b)
    ensures Closed(a + b)
  {
    forall n, d | DependsOn(a + b, n, d)
      ensures d in a + b
    {
      assert if n in b then DependsOn(b, n, d) else DependsOn(a, n, d);
    }
  }

  /** Sort, then frame: a reader of the set gets back every collected file's own bytes, in a sorting of the files. */
  method FrameSorted(files: Files, names: seq<string>) returns (bytes: Bytes)
    requires forall n :: n in names <==> n in files
    requires forall n :: n in files ==> |files[n].bytes| < FileSet.Word
    ensures exists order :: Sorting(files, order) && FileSet.FilesFrom(bytes, 0) == Some(BytesOf(files, order))
  {
    hide FileSet.FilesFrom, Ordered, Distinct, DependenciesFirst, Acyclic;
    var out := TopoSort(files, names);
    ghost var order :| Sorting(files, order) && out == BytesOf(files, order);
    bytes := FileSet.FrameAll(out);
    BytesAreSmall(files, order);
    FileSet.FramedRoundTrip(out);
  }

  lemma {:induction false} BytesAreSmall(files: Files, order: seq<string>)
    requires Listed(files, order) && forall n :: n in files ==> |files[n].bytes| < FileSet.Word
    ensures forall f :: f in BytesOf(files, order) ==> |f| < FileSet.Word
  {
    if order != [] {
      assert order[|order| - 1] in order;
      assert Listed(files, order[..|order| - 1]);
      BytesAreSmall(files, order[..|order| - 1]);
    }
  }
}
