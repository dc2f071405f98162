/**
 The Abseil dependency resolver of tools/python/resolve_absl_deps_dynamic.py: a recursive
 depth-first search with a set of libraries being visited and a set of finished ones.
 */
module DependencyResolver {

  type Graph = map<string, seq<string>>

  /** graph.get(lib, []) */
  function Deps(g: Graph, lib: string): seq<string> {
    if lib in g then g[lib] else []
  }

  /** Every name that occurs in the graph. */
  ghost function Nodes(g: Graph): set<string> {
    g.Keys + set k, d | k in g && d in g[k] :: d
  }

  datatype Search = Search(order: seq<string>, visiting: set<string>, visited: set<string>)

  /** A search step either finishes or raises, naming the library at which a cycle closed. */
  datatype Outcome = Done(s: Search) | Circular(at: string, s: Search)

  /** Names neither being visited nor finished: what the search has left to enter. */
  ghost function Open(g: Graph, s: Search): set<string> {
    Nodes(g) - s.visiting - s.visited
  }

  function Enter(lib: string, s: Search): Search {
    s.(visiting := s.visiting + {lib})
  }

  lemma EnterShrinks(g: Graph, lib: string, s: Search)
    requires lib !in s.visiting && lib !in s.visited
    ensures lib in Nodes(g) ==> Open(g, Enter(lib, s)) < Open(g, s)
    ensures lib !in Nodes(g) ==> Open(g, Enter(lib, s)) == Open(g, s) && Deps(g, lib) == []
  {
    if lib in Nodes(g) { assert lib in Open(g, s) && lib !in Open(g, Enter(lib, s)); }
  }

  function Visit(g: Graph, lib: string, s: Search): (o: Outcome)
    ensures o.Done? ==> o.s.visiting == s.visiting && s.visited <= o.s.visited
    decreases Open(g, s), 1
  {
    if lib in s.visited then Done(s)
    else if lib in s.visiting then Circular(lib, s)
    else
      EnterShrinks(g, lib, s);
      match VisitAll(g, Deps(g, lib), Enter(lib, s))
      case Circular(at, t) => Circular(at, t)
      case Done(t) => Done(Finish(lib, t))
  }

  function Finish(lib: string, t: Search): Search {
    Search(t.order + [lib], t.visiting - {lib}, t.visited + {lib})
  }

  function VisitAll(g: Graph, libs: seq<string>, s: Search): (o: Outcome)
    ensures o.Done? ==> o.s.visiting == s.visiting && s.visited <= o.s.visited
    decreases Open(g, s), 2 * |libs|
  {
    if libs == [] then Done(s)
    else
      match Visit(g, libs[0], s)
      case Circular(at, t) => Circular(at, t)
      case Done(t) => VisitAll(g, libs[1..], t)
  }

  function Reversed(s: seq<string>): (r: seq<string>)
    ensures |r| == |s| && forall i :: 0 <= i < |s| ==> r[i] == s[|s| - 1 - i]
  {
    if s == [] then [] else Reversed(s[1..]) + [s[0]]
  }

  datatype Resolution = Resolved(libs: seq<string>) | CircularAt(lib: string)

  const Fresh := Search([], {}, {})

  function Answer(o: Outcome): Resolution {
    match o
    case Done(s) => Resolved(Reversed(s.order))
    case Circular(at, _) => CircularAt(at)
  }

  /** What `resolve` answers: a function of the graph and the starting libraries alone. */
  function Resolve(g: Graph, initial: seq<string>): Resolution {
    Answer(VisitAll(g, initial, Fresh))
  }

  // ---------------------------------------------------------------- the resolver object

  class AbslDependencyResolver {
    const graph: Graph
    var resolvedOrder: seq<string>
    var visiting: set<string>
    var visited: set<string>

    constructor (dependencyGraph: Graph)
      ensures graph == dependencyGraph && Now() == Fresh
    {
      graph := dependencyGraph;
      resolvedOrder, visiting, visited := [], {}, {};
    }

    function Now(): Search
      reads this
    {
      Search(resolvedOrder, visiting, visited)
    }

    method VisitLibrary(lib: string) returns (raised: bool, at: string)
      modifies this
      ensures var o := Visit(graph, lib, old(Now()));
              raised == o.Circular? && Now() == o.s && (raised ==> at == o.at)
      decreases Open(graph, Now()), 1
    {
      at := lib;
      if lib in visited {
        return false, lib;
      }
      if lib in visiting {
        return true, lib;
      }
      EnterShrinks(graph, lib, Now());
      visiting := visiting + {lib};
      ghost var entered := Now();
      var deps := if lib in graph then graph[lib] else [];
      for i := 0 to |deps|
        invariant visiting == entered.visiting && entered.visited <= visited
        invariant VisitAll(graph, deps, entered) == VisitAll(graph, deps[i..], Now())
      {
        assert deps[i..][1..] == deps[i + 1..];
        assert Open(graph, Now()) <= Open(graph, entered);
        raised, at := VisitLibrary(deps[i]);
        if raised {
          return;
        }
      }
      visiting := visiting - {lib};
      visited := visited + {lib};
      resolvedOrder := resolvedOrder + [lib];
      return false, lib;
    }

    /** The answer does not depend on what earlier calls, finished or raised, left in the fields. */
    method ResolveLibraries(initial: seq<string>) returns (answer: Resolution)
      modifies this
      ensures answer == Resolve(graph, initial)
    {
      resolvedOrder, visiting, visited := [], {}, {};
      for i := 0 to |initial|
        invariant visiting == {}
        invariant VisitAll(graph, initial, Fresh) == VisitAll(graph, initial[i..], Now())
      {
        assert initial[i..][1..] == initial[i + 1..];
        var raised, at := VisitLibrary(initial[i]);
        if raised {
          return CircularAt(at);
        }
      }
      return Resolved(Reversed(resolvedOrder));
    }
  }

  // ---------------------------------------------------------------- paths

  ghost predicate IsPath(g: Graph, p: seq<string>) {
    p != [] && forall i :: 0 <= i < |p| - 1 ==> p[i + 1] in Deps(g, p[i])
  }

  ghost predicate Reachable(g: Graph, initial: seq<string>, lib: string) {
    exists p :: IsPath(g, p) && p[0] in initial && p[|p| - 1] == lib
  }

  /** A path from one of the starting libraries that comes back to a library on it. */
  ghost predicate ReachesCycleAt(g: Graph, initial: seq<string>, lib: string) {
    exists p :: IsPath(g, p) && p[0] in initial && p[|p| - 1] == lib && lib in p[..|p| - 1]
  }

  ghost predicate NoDuplicates(s: seq<string>) {
    forall i, j :: 0 <= i < j < |s| ==> s[i] != s[j]
  }

  /** Each library comes after everything it depends on. */
  ghost predicate DepsBefore(g: Graph, order: seq<string>) {
    forall i, d :: 0 <= i < |order| && d in Deps(g, order[i]) ==> d in order[..i]
  }

  // ---------------------------------------------------------------- what every step keeps

  ghost predicate Valid(g: Graph, s: Search) {
    && NoDuplicates(s.order)
    && DepsBefore(g, s.order)
    && (forall x :: x in s.order <==> x in s.visited)
    && s.visiting !! s.visited
  }

  lemma {:induction false} VisitKeeps(g: Graph, lib: string, s: Search)
    requires Valid(g, s) && Visit(g, lib, s).Done?
    ensures var t := Visit(g, lib, s).s; Valid(g, t) && lib in t.visited
    decreases Open(g, s), 1
  {
    if lib !in s.visited && lib !in s.visiting {
      var entered := Enter(lib, s);
      EnterShrinks(g, lib, s);
      VisitAllKeeps(g, Deps(g, lib), entered);
      var t := VisitAll(g, Deps(g, lib), entered).s;
      FinishKeeps(g, lib, t);
    }
  }

  lemma FinishKeeps(g: Graph, lib: string, t: Search)
    requires Valid(g, t) && lib in t.visiting && forall d :: d in Deps(g, lib) ==> d in t.visited
    ensures Valid(g, Finish(lib, t))
  {
    var order := t.order + [lib];
    forall i, d | 0 <= i < |order| && d in Deps(g, order[i])
      ensures d in order[..i]
    {
      if i < |t.order| {
        assert d in t.order[..i];
        assert order[..i] == t.order[..i];
      } else {
        assert order[..i] == t.order;
      }
    }
  }

  lemma {:induction false} VisitAllKeeps(g: Graph, libs: seq<string>, s: Search)
    requires Valid(g, s) && VisitAll(g, libs, s).Done?
    ensures var t := VisitAll(g, libs, s).s; Valid(g, t) && forall l :: l in libs ==> l in t.visited
    decreases Open(g, s), 2 * |libs|
  {
    if libs == [] {
    } else {
      VisitKeeps(g, libs[0], s);
      VisitAllKeeps(g, libs[1..], Visit(g, libs[0], s).s);
    }
  }

  /** Whatever a visit adds is reachable from where it starts. */
  lemma {:induction false} VisitReaches(g: Graph, lib: string, s: Search, x: string)
    requires Visit(g, lib, s).Done? && x in Visit(g, lib, s).s.visited && x !in s.visited
    ensures Reachable(g, [lib], x)
    decreases Open(g, s), 1
  {
    var entered := Enter(lib, s);
    EnterShrinks(g, lib, s);
    if x == lib {
      assert IsPath(g, [lib]) && [lib][0] in [lib];
    } else {
      VisitAllReaches(g, Deps(g, lib), entered, x);
      var p :| IsPath(g, p) && p[0] in Deps(g, lib) && p[|p| - 1] == x;
      var q := [lib] + p;
      assert IsPath(g, q) && q[0] in [lib] && q[|q| - 1] == x;
    }
  }

  lemma {:induction false} VisitAllReaches(g: Graph, libs: seq<string>, s: Search, x: string)
    requires VisitAll(g, libs, s).Done? && x in VisitAll(g, libs, s).s.visited && x !in s.visited
    ensures Reachable(g, libs, x)
    decreases Open(g, s), 2 * |libs|
  {
    if libs == [] {
    } else {
      var t := Visit(g, libs[0], s).s;
      if x in t.visited {
        VisitReaches(g, libs[0], s, x);
        var p :| IsPath(g, p) && p[0] in [libs[0]] && p[|p| - 1] == x;
        assert p[0] in libs;
      } else {
        VisitAllReaches(g, libs[1..], t, x);
        var p :| IsPath(g, p) && p[0] in libs[1..] && p[|p| - 1] == x;
        assert p[0] in libs;
      }
    }
  }

  /** In a valid order, a path leads strictly backwards. */
  lemma {:induction false} PathGoesBack(g: Graph, order: seq<string>, p: seq<string>, i: nat)
    requires DepsBefore(g, order) && IsPath(g, p) && i < |order| && order[i] == p[0]
    ensures forall k :: 0 < k < |p| ==> p[k] in order[..i]
    decreases |p|
  {
    if |p| > 1 {
      assert p[1] in Deps(g, order[i]);
      var j :| 0 <= j < i && order[..i][j] == p[1];
      PathGoesBack(g, order, p[1..], j);
      forall k | 0 < k < |p| ensures p[k] in order[..i] {
        if k > 1 {
          assert p[1..][k - 1] in order[..j];
          assert order[..j] <= order[..i];
        }
      }
    }
  }

  lemma NoReturn(g: Graph, order: seq<string>, p: seq<string>)
    requires NoDuplicates(order) && DepsBefore(g, order) && IsPath(g, p) && p[0] in order
    ensures p[|p| - 1] !in p[..|p| - 1]
  {
    var i :| 0 <= i < |order| && order[i] == p[0];
    PathGoesBack(g, order, p, i);
    forall k | 0 <= k < |p| - 1 ensures p[k] != p[|p| - 1] {
      assert p[k] in order;
      var j :| 0 <= j < |order| && order[j] == p[k];
      assert IsPath(g, p[k..]);
      PathGoesBack(g, order, p[k..], j);
      assert p[k..][|p| - 1 - k] in order[..j];
    }
  }

  // ---------------------------------------------------------------- raising

  ghost predicate Stack(g: Graph, stack: seq<string>, lib: string, s: Search) {
    IsPath(g, stack + [lib]) && forall x :: x in s.visiting <==> x in stack
  }

  /** A raise comes with a path that extends the stack of open visits and closes on itself. */
  lemma {:induction false} VisitRaises(g: Graph, lib: string, s: Search, stack: seq<string>) returns (p: seq<string>)
    requires Stack(g, stack, lib, s) && Visit(g, lib, s).Circular?
    ensures var at := Visit(g, lib, s).at;
            IsPath(g, p) && p[0] == (stack + [lib])[0] && p[|p| - 1] == at && at in p[..|p| - 1]
    decreases Open(g, s), 1
  {
    if lib in s.visiting {
      p := stack + [lib];
      assert p[..|p| - 1] == stack;
    } else {
      var entered := Enter(lib, s);
      EnterShrinks(g, lib, s);
      p := VisitAllRaises(g, Deps(g, lib), entered, stack + [lib]);
    }
  }

  lemma {:induction false} VisitAllRaises(g: Graph, libs: seq<string>, s: Search, stack: seq<string>) returns (p: seq<string>)
    requires forall l :: l in libs ==> IsPath(g, stack + [l])
    requires forall x :: x in s.visiting <==> x in stack
    requires VisitAll(g, libs, s).Circular?
    ensures var at := VisitAll(g, libs, s).at;
            && IsPath(g, p) && p[|p| - 1] == at && at in p[..|p| - 1]
            && (if stack == [] then p[0] in libs else p[0] == stack[0])
    decreases Open(g, s), 2 * |libs|
  {
    match Visit(g, libs[0], s) {
      case Circular(at, t) =>
        p := VisitRaises(g, libs[0], s, stack);
      case Done(t) =>
        p := VisitAllRaises(g, libs[1..], t, stack);
    }
  }

  // ---------------------------------------------------------------- main results

  /** Success lists exactly the reachable libraries, each once and before everything it depends on. */
  lemma ResolvedIsTopologicalOrder(g: Graph, initial: seq<string>)
    requires Resolve(g, initial).Resolved?
    ensures var libs := Resolve(g, initial).libs;
            && NoDuplicates(libs)
            && (forall x :: x in libs <==> Reachable(g, initial, x))
            && (forall i, d :: 0 <= i < |libs| && d in Deps(g, libs[i]) ==> d in libs[i + 1..])
  {
    var libs, order := Resolve(g, initial).libs, VisitAll(g, initial, Fresh).s.order;
    VisitAllKeeps(g, initial, Fresh);
    assert libs == Reversed(order);
    forall x
      ensures x in libs <==> Reachable(g, initial, x)
    {
      ReversedMember(order, x);
      FoundExactlyReachable(g, initial, x);
    }
    ReversedOrder(g, order, libs);
  }

  lemma ReversedMember(s: seq<string>, x: string)
    ensures x in Reversed(s) <==> x in s
  {
    var r := Reversed(s);
    if x in r {
      var i :| 0 <= i < |r| && r[i] == x;
      assert s[|s| - 1 - i] == x;
    }
    if x in s {
      var i :| 0 <= i < |s| && s[i] == x;
      assert r[|s| - 1 - i] == x;
    }
  }

  lemma ReversedOrder(g: Graph, order: seq<string>, libs: seq<string>)
    requires NoDuplicates(order) && DepsBefore(g, order) && libs == Reversed(order)
    ensures NoDuplicates(libs)
    ensures forall i, d :: 0 <= i < |libs| && d in Deps(g, libs[i]) ==> d in libs[i + 1..]
  {
    var n := |order|;
    forall i, d | 0 <= i < |libs| && d in Deps(g, libs[i])
      ensures d in libs[i + 1..]
    {
      var k := n - 1 - i;
      assert d in order[..k];
      var j :| 0 <= j < k && order[j] == d;
      assert libs[n - 1 - j] == d;
      assert libs[i + 1..][n - 1 - j - (i + 1)] == d;
    }
  }

  lemma FoundExactlyReachable(g: Graph, initial: seq<string>, x: string)
    requires VisitAll(g, initial, Fresh).Done?
    ensures x in VisitAll(g, initial, Fresh).s.order <==> Reachable(g, initial, x)
  {
    VisitAllKeeps(g, initial, Fresh);
    var order := VisitAll(g, initial, Fresh).s.order;
    if x in order { VisitAllReaches(g, initial, Fresh, x); }
    if Reachable(g, initial, x) {
      var p :| IsPath(g, p) && p[0] in initial && p[|p| - 1] == x;
      assert p[0] in order;
      var i :| 0 <= i < |order| && order[i] == p[0];
      PathGoesBack(g, order, p, i);
      assert |p| > 1 ==> x in order[..i];
    }
  }

  /** Resolution raises exactly when a cycle is reachable from the starting libraries, and names a library on one. */
  lemma RaisesExactlyOnCycle(g: Graph, initial: seq<string>)
    ensures Resolve(g, initial).CircularAt? <==> exists lib :: ReachesCycleAt(g, initial, lib)
    ensures Resolve(g, initial).CircularAt? ==> ReachesCycleAt(g, initial, Resolve(g, initial).lib)
  {
    if Resolve(g, initial).CircularAt? {
      forall l | l in initial ensures IsPath(g, [] + [l]) { }
      var p := VisitAllRaises(g, initial, Fresh, []);
      assert ReachesCycleAt(g, initial, Resolve(g, initial).lib);
    } else {
      VisitAllKeeps(g, initial, Fresh);
      forall lib ensures !ReachesCycleAt(g, initial, lib) {
        forall p | IsPath(g, p) && p[0] in initial ensures p[|p| - 1] !in p[..|p| - 1] {
          NoReturn(g, VisitAll(g, initial, Fresh).s.order, p);
        }
      }
    }
  }
}
