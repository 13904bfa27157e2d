/**
 Compose `depends_on` graphs: an edge from u to v says that service u depends
 on service v. Graphs may be cyclic and may name services that have no entry
 of their own.
 */
module DependencyGraph {
  import opened Strings

  /** `depInfo`: the condition is only ever read by the dependency wait. */
  datatype DepInfo = DepInfo(name: string, condition: string)

  type DepMap = map<string, seq<DepInfo>>

  /** The `map[string][]string` that the sort works on. */
  type Graph = map<string, seq<string>>

  function Deps(g: Graph, n: string): seq<string> {
    if n in g then g[n] else []
  }

  ghost predicate Edge(g: Graph, u: string, v: string) {
    v in Deps(g, u)
  }

  /** Every service that has an entry or is named as a dependency. */
  ghost function Services(g: Graph): set<string> {
    g.Keys + set u, v | u in g.Keys && v in g[u] :: v
  }

  /** A walk along at least one edge. */
  ghost predicate IsWalk(g: Graph, p: seq<string>) {
    |p| >= 2 && forall i :: 0 <= i < |p| - 1 ==> Edge(g, p[i], p[i + 1])
  }

  ghost predicate WalkBetween(g: Graph, p: seq<string>, a: string, b: string) {
    IsWalk(g, p) && p[0] == a && p[|p| - 1] == b
  }

  /** a depends on b, directly or through other services. */
  ghost predicate Reaches(g: Graph, a: string, b: string) {
    exists p :: WalkBetween(g, p, a, b)
  }

  ghost predicate Cyclic(g: Graph) {
    exists n :: Reaches(g, n, n)
  }

  lemma EdgeReaches(g: Graph, a: string, b: string)
    requires Edge(g, a, b)
    ensures Reaches(g, a, b)
  {
    assert WalkBetween(g, [a, b], a, b);
  }

  lemma ReachesTransitive(g: Graph, a: string, b: string, c: string)
    requires Reaches(g, a, b) && Reaches(g, b, c)
    ensures Reaches(g, a, c)
  {
    var p :| WalkBetween(g, p, a, b);
    var q :| WalkBetween(g, q, b, c);
    var r := p + q[1..];
    forall i | 0 <= i < |r| - 1 ensures Edge(g, r[i], r[i + 1]) {
      if i < |p| - 1 {
        assert r[i] == p[i] && r[i + 1] == p[i + 1];
      } else {
        assert r[i] == q[i - (|p| - 1)] && r[i + 1] == q[i + 1 - (|p| - 1)];
      }
    }
    assert WalkBetween(g, r, a, c);
  }

  lemma ReachesStarts(g: Graph, a: string, b: string)
    requires Reaches(g, a, b)
    ensures Deps(g, a) != []
  {
    var p :| WalkBetween(g, p, a, b);
    assert Edge(g, p[0], p[1]);
  }

  lemma EdgeEndsAreServices(g: Graph, u: string, v: string)
    requires Edge(g, u, v)
    ensures u in Services(g) && v in Services(g)
  {
  }

  /** a stands somewhere before b in the list. */
  ghost predicate Before(order: seq<string>, a: string, b: string) {
    exists i, j :: 0 <= i < j < |order| && order[i] == a && order[j] == b
  }

  lemma BeforeIsStrict(order: seq<string>, a: string, b: string, c: string)
    requires NoDuplicates(order) && Before(order, a, b) && Before(order, b, c)
    ensures Before(order, a, c) && a != c
  {
    var i, j :| 0 <= i < j < |order| && order[i] == a && order[j] == b;
    var k, l :| 0 <= k < l < |order| && order[k] == b && order[l] == c;
    assert j == k;
    assert order[i] == a && order[l] == c && i < l;
  }

  /** Every dependency stands before the services that depend on it. */
  ghost predicate DependenciesFirst(g: Graph, order: seq<string>) {
    forall u, v :: Edge(g, u, v) ==> Before(order, v, u)
  }

  lemma {:induction false} WalkGoesBackwards(g: Graph, order: seq<string>, p: seq<string>)
    requires NoDuplicates(order) && DependenciesFirst(g, order) && IsWalk(g, p)
    ensures Before(order, p[|p| - 1], p[0]) && p[0] != p[|p| - 1]
    decreases |p|
  {
    assert Edge(g, p[0], p[1]);
    if |p| == 2 {
      assert Before(order, p[1], p[0]);
    } else {
      var q := p[1..];
      forall i | 0 <= i < |q| - 1 ensures Edge(g, q[i], q[i + 1]) {
        assert Edge(g, p[i + 1], p[i + 2]);
      }
      WalkGoesBackwards(g, order, q);
      BeforeIsStrict(order, p[|p| - 1], p[1], p[0]);
    }
  }

  /** Placing direct dependencies first places indirect ones first, and needs an acyclic graph. */
  lemma DependenciesFirstIsTransitive(g: Graph, order: seq<string>)
    requires NoDuplicates(order) && DependenciesFirst(g, order)
    ensures forall u, v :: Reaches(g, u, v) ==> Before(order, v, u)
    ensures !Cyclic(g)
  {
    forall u, v | Reaches(g, u, v) ensures Before(order, v, u) && u != v {
      var p :| WalkBetween(g, p, u, v);
      WalkGoesBackwards(g, order, p);
    }
  }
}
