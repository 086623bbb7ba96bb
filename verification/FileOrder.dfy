/** Dependency ordering of the files a reflection walk collected. */
module FileOrder {
  import opened Common

  datatype RawFile = RawFile(bytes: Bytes, deps: seq<string>)
  type Files = map<string, RawFile>

  // ----- the dependency graph -----

  predicate DependsOn(files: Files, n: string, d: string) {
    n in files && d in files[n].deps
  }

  predicate Walk(files: Files, p: seq<string>) {
    forall i :: 0 <= i < |p| - 1 ==> DependsOn(files, p[i], p[i + 1])
  }

  /** A walk of dependencies, possibly empty, leads from `a` to `b`. */
  ghost predicate Reaches(files: Files, a: string, b: string) {
    exists p: seq<string> :: p != [] && p[0] == a && p[|p| - 1] == b && Walk(files, p)
  }

  /** No file depends on one that leads back to it. */
  ghost predicate Acyclic(files: Files) {
    forall n, d :: DependsOn(files, n, d) ==> !Reaches(files, d, n)
  }

  lemma ReachesSelf(files: Files, a: string)
    ensures Reaches(files, a, a)
  {
    assert Walk(files, [a]);
    assert [a] != [] && [a][0] == a && [a][|[a]| - 1] == a;
  }

  lemma ReachesStep(files: Files, a: string, b: string, c: string)
    requires Reaches(files, a, b) && DependsOn(files, b, c)
    ensures Reaches(files, a, c)
  {
    var p: seq<string> :| p != [] && p[0] == a && p[|p| - 1] == b && Walk(files, p);
    var q := p + [c];
    assert q[0] == a && q[|q| - 1] == c;
    forall i | 0 <= i < |q| - 1
      ensures DependsOn(files, q[i], q[i + 1])
    {
      if i < |p| - 1 {
        assert q[i] == p[i] && q[i + 1] == p[i + 1];
      }
    }
    assert Walk(files, q);
  }

  // ----- the order -----

  predicate Listed(files: Files, order: seq<string>) {
    forall n :: n in order ==> n in files
  }

  function BytesOf(files: Files, order: seq<string>): (out: seq<Bytes>)
    requires Listed(files, order)
    ensures |out| == |order|
  {
    if order == [] then [] else BytesOf(files, order[..|order| - 1]) + [files[order[|order| - 1]].bytes]
  }

  predicate Distinct(s: seq<string>) {
    forall i, j :: 0 <= i < j < |s| ==> s[i] != s[j]
  }

  predicate Before(order: seq<string>, d: string, n: string) {
    exists i, j :: 0 <= i < j < |order| && order[i] == d && order[j] == n
  }

  /** Every listed file comes after each present dependency, unless that dependency leads back to it. */
  ghost predicate Ordered(files: Files, order: seq<string>) {
    forall n, d :: n in order && DependsOn(files, n, d) && d in files ==> Before(order, d, n) || Reaches(files, d, n)
  }

  /** `order` lists exactly the files seen, apart from the open ones, each once and in order. */
  ghost predicate Sorted(files: Files, seen: set<string>, grey: set<string>, order: seq<string>) {
    && Distinct(order)
    && (forall n :: n in order ==> n in seen && n !in grey)
    && (forall n :: n in seen && n in files ==> n in order || n in grey)
    && Ordered(files, order)
  }

  lemma BeforeSnoc(order: seq<string>, x: string, d: string, n: string)
    requires Before(order, d, n)
    ensures Before(order + [x], d, n)
  {
    var i, j :| 0 <= i < j < |order| && order[i] == d && order[j] == n;
    assert (order + [x])[i] == d && (order + [x])[j] == n;
  }

  /** Closing a file whose dependencies have all been seen. */
  lemma CloseFile(files: Files, seen: set<string>, grey: set<string>, order: seq<string>, name: string)
    requires Sorted(files, seen, grey + {name}, order) && name in files && name in seen && name !in grey
    requires forall d :: d in files[name].deps ==> d in seen
    requires forall g :: g in grey ==> Reaches(files, g, name)
    ensures Sorted(files, seen, grey, order + [name])
  {
    hide Reaches;
    var next := order + [name];
    assert name !in order;
    forall n, d | n in next && DependsOn(files, n, d) && d in files
      ensures Before(next, d, n) || Reaches(files, d, n)
    {
      if n in order {
        if Before(order, d, n) {
          BeforeSnoc(order, name, d, n);
        }
      } else {
        assert n == name && d in seen;
        if d in order {
          var i :| 0 <= i < |order| && order[i] == d;
          assert next[i] == d && next[|order|] == n;
        } else if d == name {
          ReachesSelf(files, d);
        }
      }
    }
    forall n | n in seen && n in files
      ensures n in next || n in grey
    {
      assert n in order || n in grey + {name};
      assert next[|order|] == name;
    }
  }

  /** Depth-first visit. `grey` is the chain of open files above this call. */
  method Visit(name: string, files: Files, seen: set<string>, out: seq<Bytes>, ghost grey: set<string>, ghost order: seq<string>)
    returns (seen': set<string>, out': seq<Bytes>, ghost order': seq<string>)
    requires Sorted(files, seen, grey, order) && Listed(files, order) && out == BytesOf(files, order)
    requires grey <= seen && forall g :: g in grey ==> Reaches(files, g, name)
    ensures seen + {name} <= seen'
    ensures Sorted(files, seen', grey, order') && Listed(files, order') && out' == BytesOf(files, order')
    ensures grey <= seen'
    decreases |files.Keys - seen|
  {
    hide Reaches, Sorted, Listed, BytesOf;
    if name in seen {
      return seen, out, order;
    }
    seen', out', order' := seen + {name}, out, order;
    if name in files {
      var f := files[name];
      ghost var open' := grey + {name};
      OpenFile(files, seen, grey, order, name);
      SmallerRest(files, seen, seen', name);
      for i := 0 to |f.deps|
        invariant seen + {name} <= seen' && open' <= seen'
        invariant Sorted(files, seen', open', order') && Listed(files, order') && out' == BytesOf(files, order')
        invariant forall k :: 0 <= k < i ==> f.deps[k] in seen'
        invariant |files.Keys - seen'| < |files.Keys - seen|
      {
        forall g | g in open'
          ensures Reaches(files, g, f.deps[i])
        {
          if g == name {
            ReachesSelf(files, name);
          }
          ReachesStep(files, g, name, f.deps[i]);
        }
        ghost var was := seen';
        seen', out', order' := Visit(f.deps[i], files, seen', out', open', order');
        FewerLeft(files, was, seen');
      }
      CloseFile(files, seen', grey, order', name);
      BytesOfSnoc(files, order', name);
      out' := out' + [f.bytes];
      order' := order' + [name];
    } else {
      AbsentFile(files, seen, grey, order, name);
    }
  }

  lemma OpenFile(files: Files, seen: set<string>, grey: set<string>, order: seq<string>, name: string)
    requires Sorted(files, seen, grey, order) && name !in seen
    ensures Sorted(files, seen + {name}, grey + {name}, order)
  {
  }

  lemma AbsentFile(files: Files, seen: set<string>, grey: set<string>, order: seq<string>, name: string)
    requires Sorted(files, seen, grey, order) && name !in files
    ensures Sorted(files, seen + {name}, grey, order)
  {
  }

  lemma FewerLeft(files: Files, a: set<string>, b: set<string>)
    requires a <= b
    ensures |files.Keys - b| <= |files.Keys - a|
  {
    Cardinal(files.Keys - b, files.Keys - a);
  }

  lemma SmallerRest(files: Files, a: set<string>, b: set<string>, name: string)
    requires a <= b && name in files && name !in a && name in b
    ensures |files.Keys - b| < |files.Keys - a|
  {
    Cardinal(files.Keys - b, files.Keys - a - {name});
  }

  lemma {:induction false} Cardinal(a: set<string>, b: set<string>)
    requires a <= b
    ensures |a| <= |b|
  {
    if a != {} {
      var x :| x in a;
      Cardinal(a - {x}, b - {x});
    }
  }

  lemma BytesOfSnoc(files: Files, order: seq<string>, name: string)
    requires name in files && Listed(files, order)
    ensures Listed(files, order + [name])
    ensures BytesOf(files, order + [name]) == BytesOf(files, order) + [files[name].bytes]
  {
    assert (order + [name])[..|order|] == order;
  }

  /** `order` lists every file exactly once, each after those of its present dependencies that do not lead back to it;
      that puts all dependencies first exactly when the graph is acyclic. */
  ghost predicate Sorting(files: Files, order: seq<string>) {
    && Listed(files, order) && Distinct(order) && (forall n :: n in files ==> n in order)
    && Ordered(files, order)
    && (DependenciesFirst(files, order) <==> Acyclic(files))
  }

  /** On every graph, cyclic or with dependencies missing, the bytes of a sorting of the files. `names` lists the keys in
      the order they are tried. */
  method TopoSort(files: Files, names: seq<string>) returns (out: seq<Bytes>)
    requires forall n :: n in names <==> n in files
    ensures exists order :: Sorting(files, order) && out == BytesOf(files, order)
  {
    hide Reaches, Ordered, DependenciesFirst, Acyclic, Distinct;
    var seen: set<string> := {};
    ghost var order := [];
    out := [];
    SortedNothing(files);
    for i := 0 to |names|
      invariant Sorted(files, seen, {}, order) && Listed(files, order) && out == BytesOf(files, order)
      invariant forall k :: 0 <= k < i ==> names[k] in seen
    {
      seen, out, order := Visit(names[i], files, seen, out, {}, order);
    }
    forall n | n in files
      ensures n in order
    {
      assert n in names;
    }
    FirstIffAcyclic(files, order);
  }

  lemma SortedNothing(files: Files)
    ensures Sorted(files, {}, {}, [])
  {
  }

  // ----- when any order at all puts dependencies first -----

  ghost predicate DependenciesFirst(files: Files, order: seq<string>) {
    forall n, d :: DependsOn(files, n, d) && d in files ==> Before(order, d, n)
  }

  ghost function Pos(order: seq<string>, n: string): (i: nat)
    requires n in order
    ensures i < |order| && order[i] == n
  {
    var i :| 0 <= i < |order| && order[i] == n;
    i
  }

  lemma BeforePos(order: seq<string>, d: string, n: string)
    requires Distinct(order) && Before(order, d, n)
    ensures d in order && n in order && Pos(order, d) < Pos(order, n)
  {
    var i, j :| 0 <= i < j < |order| && order[i] == d && order[j] == n;
  }

  /** Along a walk of dependencies positions never grow. */
  lemma {:induction false} WalkGoesBack(files: Files, order: seq<string>, p: seq<string>)
    requires Distinct(order) && (forall n :: n in files ==> n in order) && DependenciesFirst(files, order)
    requires p != [] && Walk(files, p) && p[|p| - 1] in files
    ensures p[0] in files && Pos(order, p[|p| - 1]) <= Pos(order, p[0])
    decreases |p|
  {
    if |p| > 1 {
      var q := p[1..];
      forall i | 0 <= i < |q| - 1
        ensures DependsOn(files, q[i], q[i + 1])
      {
        assert q[i] == p[i + 1] && q[i + 1] == p[i + 2];
        assert DependsOn(files, p[i + 1], p[i + 2]);
      }
      WalkGoesBack(files, order, q);
      assert DependsOn(files, p[0], p[0 + 1]);
      BeforePos(order, p[1], p[0]);
    }
  }

  /** A listing in which a dependency is misplaced only when it leads back has its dependencies first exactly when the
      graph is acyclic. */
  lemma FirstIffAcyclic(files: Files, order: seq<string>)
    requires Distinct(order) && (forall n :: n in files ==> n in order) && Ordered(files, order)
    ensures DependenciesFirst(files, order) <==> Acyclic(files)
  {
    if DependenciesFirst(files, order) {
      forall n, d | DependsOn(files, n, d)
        ensures !Reaches(files, d, n)
      {
        if Reaches(files, d, n) {
          var p: seq<string> :| p != [] && p[0] == d && p[|p| - 1] == n && Walk(files, p);
          WalkGoesBack(files, order, p);
          BeforePos(order, d, n);
          assert false;
        }
      }
    }
  }
}
