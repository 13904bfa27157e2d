/**
 internal/backup/deps.go: the order in which the services of a stack are
 started, and its reverse, in which they are stopped.

 `AfterVisit` and `AfterVisits` are the specification of the recursive closure inside
 `topologicalSort`; class `DepthFirstSort` is that closure over its captured
 variables, proved to compute exactly them.
 */
module ServiceOrder {
  import opened Strings
  import opened DependencyGraph

  /** The variables captured by the closure, and the services it warned about. */
  datatype Marks = Marks(visited: set<string>, temp: set<string>, result: seq<string>, warned: seq<string>)

  const UNMARKED := Marks({}, {}, [], [])

  ghost predicate InGraph(g: Graph, nodes: seq<string>) {
    forall n :: n in nodes ==> n in Services(g)
  }

  lemma DepsInGraph(g: Graph, n: string)
    ensures InGraph(g, Deps(g, n))
  {
  }

  ghost function AfterVisit(g: Graph, m: Marks, n: string): (r: Marks)
    requires n in Services(g)
    ensures r.temp == m.temp && m.visited <= r.visited
    decreases Services(g) - m.visited - m.temp, 0
  {
    if n in m.visited then m
    else if n in m.temp then m.(warned := m.warned + [n])
    else
      DepsInGraph(g, n);
      var inner := AfterVisits(g, m.(temp := m.temp + {n}), Deps(g, n));
      inner.(temp := inner.temp - {n}, visited := inner.visited + {n}, result := inner.result + [n])
  }

  ghost function AfterVisits(g: Graph, m: Marks, nodes: seq<string>): (r: Marks)
    requires InGraph(g, nodes)
    ensures r.temp == m.temp && m.visited <= r.visited
    decreases Services(g) - m.visited - m.temp, |nodes|
  {
    if nodes == [] then m
    else
      var first := AfterVisit(g, m, nodes[0]);
      AfterVisits(g, first, nodes[1..])
  }

  lemma {:induction false} VisitAllAppend(g: Graph, m: Marks, nodes: seq<string>, n: string)
    requires InGraph(g, nodes) && n in Services(g)
    ensures InGraph(g, nodes + [n])
    ensures AfterVisits(g, m, nodes + [n]) == AfterVisit(g, AfterVisits(g, m, nodes), n)
    decreases |nodes|
  {
    var all := nodes + [n];
    if nodes != [] {
      assert all[1..] == nodes[1..] + [n];
      VisitAllAppend(g, AfterVisit(g, m, nodes[0]), nodes[1..], n);
    } else {
      assert all[1..] == [];
    }
  }

  // ----- what every step of the search keeps

  /** Each dependency of a finished service is placed before it, unless it leads back to it. */
  ghost predicate Placed(g: Graph, m: Marks) {
    forall u, v :: u in m.visited && Edge(g, u, v) ==>
      (Before(m.result, v, u) || (Reaches(g, v, u) && m.warned != []))
  }

  /** A service that is on no cycle has everything below it placed before it, however indirect. */
  ghost predicate DeepPlaced(g: Graph, m: Marks) {
    forall u, v :: u in m.visited && Reaches(g, u, v) && !Reaches(g, u, u) ==> Before(m.result, v, u)
  }

  /** The dependencies of a finished service are finished or on the stack. */
  ghost predicate Entered(g: Graph, m: Marks) {
    forall u, v :: u in m.visited && Edge(g, u, v) ==> v in m.visited || v in m.temp
  }

  ghost predicate Sound(g: Graph, m: Marks) {
    && NoDuplicates(m.result)
    && (forall n :: n in m.result <==> n in m.visited)
    && m.visited !! m.temp
    && m.visited <= Services(g)
    && Placed(g, m)
    && DeepPlaced(g, m)
    && Entered(g, m)
    && (forall w :: w in m.warned ==> Reaches(g, w, w))
  }

  /** Every service on the stack leads to n. */
  ghost predicate StackReaches(g: Graph, m: Marks, n: string) {
    forall t :: t in m.temp ==> Reaches(g, t, n)
  }

  /** n has been placed, or it is on the stack and was warned about. */
  ghost predicate Handled(m: Marks, n: string) {
    n in m.visited || (n in m.temp && m.warned != [])
  }

  lemma {:induction false} VisitSound(g: Graph, m: Marks, n: string)
    requires n in Services(g) && Sound(g, m) && StackReaches(g, m, n)
    ensures var r := AfterVisit(g, m, n);
            Sound(g, r) && Handled(r, n) && m.warned <= r.warned
    decreases Services(g) - m.visited - m.temp, 0
  {
    if n !in m.visited && n !in m.temp {
      var ds := Deps(g, n);
      var entered := m.(temp := m.temp + {n});
      DepsInGraph(g, n);
      forall d | d in ds ensures StackReaches(g, entered, d) {
        EdgeReaches(g, n, d);
        forall t | t in m.temp ensures Reaches(g, t, d) { ReachesTransitive(g, t, n, d); }
      }
      VisitAllSound(g, entered, ds);
      FinishSound(g, AfterVisits(g, entered, ds), n);
    }
  }

  lemma {:induction false} VisitAllSound(g: Graph, m: Marks, nodes: seq<string>)
    requires InGraph(g, nodes) && Sound(g, m)
    requires forall d :: d in nodes ==> StackReaches(g, m, d)
    ensures var r := AfterVisits(g, m, nodes);
            Sound(g, r) && (forall d :: d in nodes ==> Handled(r, d)) && m.warned <= r.warned
    decreases Services(g) - m.visited - m.temp, |nodes|
  {
    if nodes != [] {
      var first := AfterVisit(g, m, nodes[0]);
      VisitSound(g, m, nodes[0]);
      forall d | d in nodes ensures StackReaches(g, first, d) {
        assert StackReaches(g, m, d);
      }
      VisitAllSound(g, first, nodes[1..]);
    }
  }

  /** Leaving a service whose dependencies are all handled. */
  lemma FinishSound(g: Graph, m: Marks, n: string)
    requires n in Services(g) && Sound(g, m) && n in m.temp
    requires forall d :: d in Deps(g, n) ==> Handled(m, d)
    requires forall t :: t in m.temp && t != n ==> Reaches(g, t, n)
    ensures Sound(g, m.(temp := m.temp - {n}, visited := m.visited + {n}, result := m.result + [n]))
  {
    var after := m.(temp := m.temp - {n}, visited := m.visited + {n}, result := m.result + [n]);
    FinishPlaced(g, m, n);
    FinishDeepPlaced(g, m, n);
    assert Entered(g, after);
  }

  lemma BeforeAppend(order: seq<string>, n: string)
    ensures forall a, b :: Before(order, a, b) ==> Before(order + [n], a, b)
    ensures forall a :: a in order ==> Before(order + [n], a, n)
  {
    var longer := order + [n];
    forall a, b | Before(order, a, b) ensures Before(longer, a, b) {
      var i, j :| 0 <= i < j < |order| && order[i] == a && order[j] == b;
      assert longer[i] == a && longer[j] == b;
    }
    forall a | a in order ensures Before(longer, a, n) {
      var i :| 0 <= i < |order| && order[i] == a;
      assert longer[i] == a && longer[|order|] == n;
    }
  }

  lemma FinishPlaced(g: Graph, m: Marks, n: string)
    requires Sound(g, m) && n in m.temp
    requires forall d :: d in Deps(g, n) ==> Handled(m, d)
    requires forall t :: t in m.temp && t != n ==> Reaches(g, t, n)
    ensures Placed(g, m.(temp := m.temp - {n}, visited := m.visited + {n}, result := m.result + [n]))
  {
    BeforeAppend(m.result, n);
    forall u, v | u in m.visited + {n} && Edge(g, u, v)
      ensures Before(m.result + [n], v, u) || (Reaches(g, v, u) && m.warned != [])
    {
      if u == n == v { EdgeReaches(g, n, n); }
    }
  }

  lemma FinishDeepPlaced(g: Graph, m: Marks, n: string)
    requires Sound(g, m) && n in m.temp
    requires forall d :: d in Deps(g, n) ==> Handled(m, d)
    requires forall t :: t in m.temp && t != n ==> Reaches(g, t, n)
    ensures DeepPlaced(g, m.(temp := m.temp - {n}, visited := m.visited + {n}, result := m.result + [n]))
  {
    BeforeAppend(m.result, n);
    forall v | Reaches(g, n, v) && !Reaches(g, n, n) ensures v in m.result {
      var p :| WalkBetween(g, p, n, v);
      BelowIsVisited(g, m, n, p);
    }
  }

  /** When a service that is on no cycle is finished, a walk from it meets finished services only. */
  lemma {:induction false} BelowIsVisited(g: Graph, m: Marks, n: string, p: seq<string>)
    requires Sound(g, m) && !Reaches(g, n, n) && IsWalk(g, p) && p[0] == n
    requires forall d :: d in Deps(g, n) ==> Handled(m, d)
    requires forall t :: t in m.temp && t != n ==> Reaches(g, t, n)
    ensures p[|p| - 1] in m.visited
    decreases |p|
  {
    var k := |p| - 1;
    var v := p[k];
    assert Edge(g, p[k - 1], v);
    if k > 1 {
      var q := p[..k];
      assert forall i :: 0 <= i < |q| - 1 ==> Edge(g, q[i], q[i + 1]) by {
        forall i | 0 <= i < |q| - 1 ensures Edge(g, q[i], q[i + 1]) { assert Edge(g, p[i], p[i + 1]); }
      }
      BelowIsVisited(g, m, n, q);
    }
    assert WalkBetween(g, p, n, v);
    if v in m.temp && v != n { ReachesTransitive(g, n, v, n); }
  }

  // ----- the order

  /** The sorted list of all services. */
  ghost function SortedServices(g: Graph): seq<string> {
    Sort(Enumerate(Services(g)))
  }

  /** Some duplicate-free list of a set's members. */
  ghost function Enumerate(s: set<string>): (r: seq<string>)
    ensures NoDuplicates(r) && forall x :: x in r <==> x in s
  {
    if s == {} then [] else
      var x :| x in s;
      [x] + Enumerate(s - {x})
  }

  lemma SortedServicesMembers(g: Graph)
    ensures forall n :: n in SortedServices(g) <==> n in Services(g)
    ensures InGraph(g, SortedServices(g))
  {
    MultisetMembers(SortedServices(g), Enumerate(Services(g)));
  }

  /** Whatever order the services were collected in, sorting gives the same list. */
  lemma SortOfAnyEnumeration(g: Graph, all: seq<string>)
    requires NoDuplicates(all) && forall n :: n in all <==> n in Services(g)
    ensures Sort(all) == SortedServices(g)
  {
    SameMembersSameMultiset(all, Enumerate(Services(g)));
    SortIgnoresArrivalOrder(all, Enumerate(Services(g)));
  }

  /** The whole search: the start order and the warnings, as functions of the graph alone. */
  ghost function Search(g: Graph): Marks {
    SortedServicesMembers(g);
    AfterVisits(g, UNMARKED, SortedServices(g))
  }

  ghost function StartOrder(g: Graph): seq<string> {
    Search(g).result
  }

  lemma SearchSound(g: Graph)
    ensures Sound(g, Search(g))
    ensures Search(g).visited == Services(g)
  {
    SortedServicesMembers(g);
    VisitAllSound(g, UNMARKED, SortedServices(g));
  }

  /** Each service of the graph appears exactly once: what has an entry or is named as a dependency. */
  lemma StartOrderIsEnumeration(g: Graph)
    ensures NoDuplicates(StartOrder(g))
    ensures forall n :: n in StartOrder(g) <==> n in Services(g)
    ensures forall n :: n in StartOrder(g) <==> n in g || exists u :: Edge(g, u, n)
  {
    SearchSound(g);
    forall n | n in Services(g) && n !in g ensures exists u :: Edge(g, u, n) {
      var u :| u in g && n in g[u];
      assert Edge(g, u, n);
    }
    forall u, n | Edge(g, u, n) ensures n in Services(g) { EdgeEndsAreServices(g, u, n); }
  }

  /** For each edge, the dependency comes first unless it depends on its dependent in turn. */
  lemma StartOrderRespectsEdges(g: Graph, u: string, v: string)
    requires Edge(g, u, v) && !Reaches(g, v, u)
    ensures Before(StartOrder(g), v, u)
  {
    SearchSound(g);
    EdgeEndsAreServices(g, u, v);
  }

  /**
   Everything below a service comes before it, however indirect, exactly if the
   service is on no cycle itself; cycles elsewhere do not matter.
   */
  lemma IndirectOrderExactlyWhen(g: Graph, u: string)
    ensures (forall v :: Reaches(g, u, v) ==> Before(StartOrder(g), v, u)) <==> !Reaches(g, u, u)
  {
    SearchSound(g);
    forall v | Reaches(g, u, v) ensures u in Services(g) {
      var p :| WalkBetween(g, p, u, v);
      EdgeEndsAreServices(g, p[0], p[1]);
    }
  }

  /** u depends on v, and neither a way back nor a cycle through u blurs their order. */
  ghost predicate DependsInOrder(g: Graph, u: string, v: string) {
    (Edge(g, u, v) && !Reaches(g, v, u)) || (Reaches(g, u, v) && !Reaches(g, u, u))
  }

  lemma StartOrderRespects(g: Graph, u: string, v: string)
    requires DependsInOrder(g, u, v)
    ensures Before(StartOrder(g), v, u) && Reaches(g, u, v)
  {
    if Reaches(g, u, v) && !Reaches(g, u, u) {
      IndirectOrderExactlyWhen(g, u);
    } else {
      StartOrderRespectsEdges(g, u, v);
      EdgeReaches(g, u, v);
    }
  }

  /** A warning is issued if and only if there is a cycle, and only for services on one. */
  lemma WarnsExactlyOnCycles(g: Graph)
    ensures Search(g).warned != [] <==> Cyclic(g)
    ensures forall w :: w in Search(g).warned ==> Reaches(g, w, w)
  {
    SearchSound(g);
    if Search(g).warned == [] {
      NoWarningPlacesAll(g);
      DependenciesFirstIsTransitive(g, StartOrder(g));
    } else {
      assert Search(g).warned[0] in Search(g).warned;
    }
  }

  lemma NoWarningPlacesAll(g: Graph)
    requires Search(g).warned == []
    ensures DependenciesFirst(g, StartOrder(g))
  {
    SearchSound(g);
    forall u, v | Edge(g, u, v) ensures Before(StartOrder(g), v, u) {
      EdgeEndsAreServices(g, u, v);
    }
  }

  /**
   The order is a topological order exactly for acyclic graphs; on those,
   indirect dependencies come first as well.
   */
  lemma TopologicalExactlyWhenAcyclic(g: Graph)
    ensures DependenciesFirst(g, StartOrder(g)) <==> !Cyclic(g)
    ensures !Cyclic(g) ==> forall u, v :: Reaches(g, u, v) ==> Before(StartOrder(g), v, u)
  {
    StartOrderIsEnumeration(g);
    WarnsExactlyOnCycles(g);
    if !Cyclic(g) { NoWarningPlacesAll(g); }
    if DependenciesFirst(g, StartOrder(g)) { DependenciesFirstIsTransitive(g, StartOrder(g)); }
  }

  /** Services a, b and c: a depends on b and c, b depends on a. */
  ghost predicate IsLoop(g: Graph, a: string, b: string, c: string) {
    && a != b && b != c && a != c
    && Leq(a, b) && Leq(b, c)
    && g == map[a := [b, c], b := [a]]
  }

  /**
   The same claim about indirect dependencies fails on cyclic graphs: b reaches
   c, c does not reach b, and yet b is started first.
   */
  lemma IndirectOrderFailsOnCycles(g: Graph, a: string, b: string, c: string)
    requires IsLoop(g, a, b, c)
    ensures Reaches(g, b, c) && !Reaches(g, c, b)
    ensures StartOrder(g) == [b, c, a]
  {
    assert Edge(g, b, a) && Edge(g, a, b) && Edge(g, a, c);
    EdgeReaches(g, b, a);
    EdgeReaches(g, a, c);
    ReachesTransitive(g, b, a, c);
    if Reaches(g, c, b) { ReachesStarts(g, c, b); }
    LoopServices(g, a, b, c);
    var afterA := LoopFromA(g, a, b, c);
    VisitsSplit(g, UNMARKED, [a, b, c]);
    assert [a, b, c][1..] == [b, c] && [b, c][1..] == [c];
    LoopRest(g, afterA, b, c);
  }

  lemma LoopServices(g: Graph, a: string, b: string, c: string)
    requires IsLoop(g, a, b, c)
    ensures Services(g) == {a, b, c} && SortedServices(g) == [a, b, c]
  {
    LoopServiceSet(g, a, b, c);
    LeqTransitive(a, b, c);
    SortedEnumeration(g, [a, b, c]);
  }

  lemma SortedEnumeration(g: Graph, all: seq<string>)
    requires Sorted(all) && NoDuplicates(all) && forall n :: n in all <==> n in Services(g)
    ensures SortedServices(g) == all
  {
    SortOfAnyEnumeration(g, all);
    SortOfSorted(all);
  }

  lemma LoopServiceSet(g: Graph, a: string, b: string, c: string)
    requires IsLoop(g, a, b, c)
    ensures Services(g) == {a, b, c}
  {
    assert g.Keys == {a, b} && g[a] == [b, c] && g[b] == [a];
    assert Edge(g, a, c);
    EdgeEndsAreServices(g, a, c);
  }

  lemma LoopRest(g: Graph, m: Marks, b: string, c: string)
    requires InGraph(g, [b, c]) && b in m.visited && c in m.visited
    ensures AfterVisits(g, m, [b, c]) == m
  {
    assert [b, c][1..] == [c];
    VisitsSplit(g, m, [b, c]);
    VisitsSplit(g, m, [c]);
  }

  lemma VisitsSplit(g: Graph, m: Marks, nodes: seq<string>)
    requires nodes != [] && InGraph(g, nodes)
    ensures AfterVisits(g, m, nodes) == AfterVisits(g, AfterVisit(g, m, nodes[0]), nodes[1..])
    ensures nodes[1..] == [] ==> AfterVisits(g, m, nodes) == AfterVisit(g, m, nodes[0])
  {
  }

  lemma LoopFromA(g: Graph, a: string, b: string, c: string) returns (after: Marks)
    requires IsLoop(g, a, b, c) && Services(g) == {a, b, c}
    ensures after == Marks({a, b, c}, {}, [b, c, a], [a])
    ensures AfterVisit(g, UNMARKED, a) == after
  {
    var onA := UNMARKED.(temp := {} + {a});
    var onB := onA.(temp := onA.temp + {b});
    VisitsSplit(g, onB, [a]);
    var afterB := AfterVisit(g, onA, b);
    assert afterB == Marks({b}, {a}, [b], [a]);
    var onC := afterB.(temp := afterB.temp + {c});
    assert Deps(g, c) == [] && AfterVisits(g, onC, []) == onC;
    var afterC := AfterVisit(g, afterB, c);
    assert afterC.temp == {a} && afterC.visited == {b, c};
    assert afterC == Marks({b, c}, {a}, [b, c], [a]);
    VisitsSplit(g, onA, [b, c]);
    assert [b, c][1..] == [c];
    VisitsSplit(g, afterB, [c]);
    after := AfterVisit(g, UNMARKED, a);
  }

  // ----- the code

  /** The closure `visit` over `visited`, `temp` and `result`; `warned` records the calls of `warn`. */
  class DepthFirstSort {
    const deps: Graph
    var visited: set<string>
    var temp: set<string>
    var result: seq<string>
    var warned: seq<string>

    constructor (deps: Graph)
      ensures this.deps == deps && State() == UNMARKED
    {
      this.deps := deps;
      visited, temp, result, warned := {}, {}, [], [];
    }

    ghost function State(): Marks
      reads this
    {
      Marks(visited, temp, result, warned)
    }

    method Visit(node: string)
      requires node in Services(deps)
      modifies this
      ensures State() == AfterVisit(deps, old(State()), node)
      decreases Services(deps) - visited - temp
    {
      if node in visited {
        return;
      }
      if node in temp {
        warned := warned + [node];
        return;
      }
      temp := temp + {node};
      var ds := Deps(deps, node);
      ghost var entered := State();
      for i := 0 to |ds|
        invariant temp == old(temp) + {node} && old(visited) <= visited
        invariant InGraph(deps, ds[..i]) && State() == AfterVisits(deps, entered, ds[..i])
      {
        assert Edge(deps, node, ds[i]);
        VisitAllAppend(deps, entered, ds[..i], ds[i]);
        assert ds[..i + 1] == ds[..i] + [ds[i]];
        Visit(ds[i]);
      }
      assert ds[..|ds|] == ds;
      temp := temp - {node};
      visited := visited + {node};
      result := result + [node];
    }

    /** The loop over the sorted services. */
    method VisitEach(all: seq<string>)
      requires InGraph(deps, all) && temp == {}
      modifies this
      ensures State() == AfterVisits(deps, old(State()), all)
    {
      for i := 0 to |all|
        invariant temp == {} && InGraph(deps, all[..i])
        invariant State() == AfterVisits(deps, old(State()), all[..i])
      {
        VisitAllAppend(deps, old(State()), all[..i], all[i]);
        assert all[..i + 1] == all[..i] + [all[i]];
        if all[i] !in visited {
          Visit(all[i]);
        }
      }
      assert all[..|all|] == all;
    }
  }

  /** `seen` and `result` of allServices agree, and hold services only. */
  ghost predicate Collected(g: Graph, seen: set<string>, result: seq<string>) {
    NoDuplicates(result) && seen <= Services(g) && forall n :: n in result <==> n in seen
  }

  /** Adds the names that are new. */
  method CollectNew(ghost g: Graph, names: seq<string>, seen0: set<string>, result0: seq<string>)
    returns (seen: set<string>, result: seq<string>)
    requires Collected(g, seen0, result0) && InGraph(g, names)
    ensures Collected(g, seen, result)
    ensures seen == seen0 + set n | n in names
  {
    seen, result := seen0, result0;
    for i := 0 to |names|
      invariant Collected(g, seen, result)
      invariant seen == seen0 + set n | n in names[..i]
    {
      assert names[i] in names && names[..i + 1] == names[..i] + [names[i]];
      if names[i] !in seen {
        seen := seen + {names[i]};
        result := result + [names[i]];
      }
    }
    assert names[..|names|] == names;
  }

  /** Collects the services in whatever order the map is iterated. */
  method AllServices(deps: Graph) returns (result: seq<string>)
    ensures NoDuplicates(result) && forall n :: n in result <==> n in Services(deps)
  {
    result := [];
    var seen: set<string> := {};
    var keys := deps.Keys;
    while keys != {}
      invariant keys <= deps.Keys && seen == deps.Keys - keys && Collected(deps, seen, result)
      decreases keys
    {
      var svc :| svc in keys;
      seen, result := CollectNew(deps, [svc], seen, result);
      keys := keys - {svc};
    }
    keys := deps.Keys;
    while keys != {}
      invariant keys <= deps.Keys <= seen && Collected(deps, seen, result)
      invariant forall u, v :: u in deps.Keys - keys && v in deps[u] ==> v in seen
      decreases keys
    {
      var svc :| svc in keys;
      DepsInGraph(deps, svc);
      seen, result := CollectNew(deps, deps[svc], seen, result);
      keys := keys - {svc};
    }
  }

  method TopologicalSort(deps: Graph) returns (order: seq<string>, warned: seq<string>)
    ensures order == StartOrder(deps) && warned == Search(deps).warned
  {
    var all := AllServices(deps);
    var search := new DepthFirstSort(deps);
    SortOfAnyEnumeration(deps, all);
    SortedServicesMembers(deps);
    search.VisitEach(Sort(all));
    order, warned := search.result, search.warned;
  }

  /** The names in a list of dependencies. */
  function Names(infos: seq<DepInfo>): (names: seq<string>)
    ensures |names| == |infos| && forall i :: 0 <= i < |infos| ==> names[i] == infos[i].name
  {
    seq(|infos|, i requires 0 <= i < |infos| => infos[i].name)
  }

  /** The graph that a dependency map stands for; entries without dependencies are dropped. */
  ghost function GraphOf(deps: DepMap): Graph {
    map svc | svc in deps && deps[svc] != [] :: Names(deps[svc])
  }

  /** A service's dependencies are the names listed for it, in that order; without any it has no entry. */
  lemma GraphOfMeans(deps: DepMap, svc: string)
    ensures svc in GraphOf(deps) <==> svc in deps && deps[svc] != []
    ensures var infos := if svc in deps then deps[svc] else [];
            && |Deps(GraphOf(deps), svc)| == |infos|
            && forall i :: 0 <= i < |infos| ==> Deps(GraphOf(deps), svc)[i] == infos[i].name
  {
  }

  method Topological(deps: DepMap) returns (order: seq<string>, warned: seq<string>)
    ensures order == StartOrder(GraphOf(deps)) && warned == Search(GraphOf(deps)).warned
  {
    var depNames: Graph := map[];
    var keys := deps.Keys;
    while keys != {}
      invariant keys <= deps.Keys
      invariant depNames.Keys == set svc | svc in deps.Keys - keys && deps[svc] != []
      invariant forall svc :: svc in depNames ==> depNames[svc] == Names(deps[svc])
      decreases keys
    {
      var svc :| svc in keys;
      var infos := deps[svc];
      ghost var before := depNames;
      for i := 0 to |infos|
        invariant i == 0 ==> depNames == before
        invariant i > 0 ==> depNames == before[svc := Names(infos)[..i]]
      {
        var sofar := if svc in depNames then depNames[svc] else [];
        depNames := depNames[svc := sofar + [infos[i].name]];
        assert Names(infos)[..i + 1] == Names(infos)[..i] + [infos[i].name];
      }
      assert Names(infos)[..|infos|] == Names(infos);
      keys := keys - {svc};
    }
    assert depNames == GraphOf(deps);
    order, warned := TopologicalSort(depNames);
  }

  function Reverse(s: seq<string>): (r: seq<string>)
    ensures |r| == |s| && forall i :: 0 <= i < |s| ==> r[i] == s[|s| - 1 - i]
  {
    seq(|s|, i requires 0 <= i < |s| => s[|s| - 1 - i])
  }

  ghost function StopOrder(g: Graph): seq<string> {
    Reverse(StartOrder(g))
  }

  method ReverseInPlace(order: array<string>)
    modifies order
    ensures order[..] == Reverse(old(order[..]))
  {
    var i, j := 0, order.Length - 1;
    while i < j
      invariant 0 <= i <= order.Length && j == order.Length - 1 - i
      invariant forall k :: 0 <= k < i || j < k < order.Length ==> order[k] == old(order[order.Length - 1 - k])
      invariant forall k :: i <= k <= j ==> order[k] == old(order[k])
    {
      order[i], order[j] := order[j], order[i];
      i, j := i + 1, j - 1;
    }
  }

  /** Reverses the topological order in place. */
  method ReverseTopological(deps: DepMap) returns (order: array<string>, warned: seq<string>)
    ensures fresh(order)
    ensures order[..] == StopOrder(GraphOf(deps)) && warned == Search(GraphOf(deps)).warned
  {
    var sorted, warnings := Topological(deps);
    order := new string[|sorted|](i requires 0 <= i < |sorted| => sorted[i]);
    assert order[..] == sorted;
    ReverseInPlace(order);
    warned := warnings;
  }

  lemma ReverseSwapsBefore(order: seq<string>, a: string, b: string)
    requires Before(order, a, b)
    ensures Before(Reverse(order), b, a)
  {
    var i, j :| 0 <= i < j < |order| && order[i] == a && order[j] == b;
    var r, n := Reverse(order), |order|;
    assert r[n - 1 - j] == b && r[n - 1 - i] == a;
  }

  lemma ReverseKeepsMembers(order: seq<string>)
    ensures forall n :: n in Reverse(order) <==> n in order
    ensures NoDuplicates(order) ==> NoDuplicates(Reverse(order))
  {
    var r := Reverse(order);
    forall n | n in order ensures n in r {
      var i :| 0 <= i < |order| && order[i] == n;
      assert r[|order| - 1 - i] == n;
    }
  }

  /** Stopping runs the start order backwards, so dependents come before what they depend on. */
  lemma StopOrderRespectsEdges(g: Graph, u: string, v: string)
    requires Edge(g, u, v) && !Reaches(g, v, u)
    ensures Before(StopOrder(g), u, v)
  {
    StartOrderRespectsEdges(g, u, v);
    ReverseSwapsBefore(StartOrder(g), v, u);
  }

  lemma StopOrderRespects(g: Graph, u: string, v: string)
    requires DependsInOrder(g, u, v)
    ensures Before(StopOrder(g), u, v) && Reaches(g, u, v)
  {
    StartOrderRespects(g, u, v);
    ReverseSwapsBefore(StartOrder(g), v, u);
  }

  lemma StopOrderIsEnumeration(g: Graph)
    ensures NoDuplicates(StopOrder(g))
    ensures forall n :: n in StopOrder(g) <==> n in Services(g)
  {
    StartOrderIsEnumeration(g);
    ReverseKeepsMembers(StartOrder(g));
  }
}
