/**
 internal/backup/deps.go: which services a stack backup has to stop. The
 search walks the reversed graph from every service that asks to be stopped;
 what it returns is the least set that contains those services and every
 service depending on a member.
 */
module StopSet {
  import opened Containers
  import opened DependencyGraph
  import opened ServiceOrder

  ghost predicate Closed(g: Graph, s: set<string>) {
    forall u, v :: Edge(g, u, v) && v in s ==> u in s
  }

  ghost predicate IsStopSet(g: Graph, seeds: set<string>, stop: set<string>) {
    && seeds <= stop
    && Closed(g, stop)
    && forall s :: Closed(g, s) && seeds <= s ==> stop <= s
  }

  lemma {:induction false} ClosedUnderWalks(g: Graph, stop: set<string>, p: seq<string>)
    requires Closed(g, stop) && IsWalk(g, p) && p[|p| - 1] in stop
    ensures p[0] in stop
    decreases |p|
  {
    assert Edge(g, p[0], p[1]);
    if |p| > 2 {
      var q := p[1..];
      forall i | 0 <= i < |q| - 1 ensures Edge(g, q[i], q[i + 1]) {
        assert Edge(g, p[i + 1], p[i + 2]);
      }
      ClosedUnderWalks(g, stop, q);
    }
  }

  lemma ClosedUnderReaching(g: Graph, stop: set<string>, u: string, v: string)
    requires Closed(g, stop) && Reaches(g, u, v) && v in stop
    ensures u in stop
  {
    var p :| WalkBetween(g, p, u, v);
    ClosedUnderWalks(g, stop, p);
  }

  /** The stop set is the seeds and whatever depends on one, directly or indirectly. */
  lemma StopSetIsReachability(g: Graph, seeds: set<string>, stop: set<string>)
    requires IsStopSet(g, seeds, stop)
    ensures forall x :: x in stop <==> x in seeds || exists s :: s in seeds && Reaches(g, x, s)
  {
    var reached := set x | x in stop && (x in seeds || exists s :: s in seeds && Reaches(g, x, s));
    forall u, v | Edge(g, u, v) && v in reached ensures u in reached {
      EdgeReaches(g, u, v);
      if v !in seeds {
        var s :| s in seeds && Reaches(g, v, s);
        ReachesTransitive(g, u, v, s);
      }
    }
    assert Closed(g, reached);
    forall x, s | s in seeds && Reaches(g, x, s) ensures x in stop {
      ClosedUnderReaching(g, stop, x, s);
    }
  }

  /** The dependents map is the graph with its edges turned around. */
  ghost predicate IsReverse(g: Graph, dependents: Graph) {
    forall u, v :: Edge(dependents, v, u) <==> Edge(g, u, v)
  }

  /** Maps are iterated in any order, so only the members of each list are determined. */
  method BuildDependents(deps: DepMap) returns (dependents: Graph)
    ensures IsReverse(GraphOf(deps), dependents)
  {
    dependents := map[];
    var keys := deps.Keys;
    while keys != {}
      invariant keys <= deps.Keys
      invariant forall u, v :: Edge(dependents, v, u) <==> u !in keys && Edge(GraphOf(deps), u, v)
      decreases keys
    {
      var svc :| svc in keys;
      var infos := deps[svc];
      for i := 0 to |infos|
        invariant forall u, v :: Edge(dependents, v, u) <==>
          (u !in keys && Edge(GraphOf(deps), u, v)) || (u == svc && v in Names(infos)[..i])
      {
        var name := infos[i].name;
        ghost var before := dependents;
        dependents := dependents[name := Deps(dependents, name) + [svc]];
        assert Names(infos)[..i + 1] == Names(infos)[..i] + [name];
        assert forall u, v :: Edge(dependents, v, u) <==> Edge(before, v, u) || (u == svc && v == name);
      }
      assert Names(infos)[..|infos|] == Names(infos);
      assert forall v :: Edge(GraphOf(deps), svc, v) <==> v in Names(infos);
      keys := keys - {svc};
    }
  }

  /** The `stop` map being filled, next to the dependents map it is filled from. */
  class Collector {
    const dependents: Graph
    ghost const graph: Graph
    var stop: set<string>

    constructor (ghost graph: Graph, dependents: Graph)
      requires IsReverse(graph, dependents)
      ensures this.graph == graph && this.dependents == dependents && stop == {}
    {
      this.graph := graph;
      this.dependents := dependents;
      stop := {};
    }

    method AddDependents(svc: string)
      requires IsReverse(graph, dependents)
      modifies this
      ensures old(stop) + {svc} <= stop
      ensures forall u, v :: Edge(graph, u, v) && v in stop && (v !in old(stop) || v == svc) ==> u in stop
      ensures forall s :: Closed(graph, s) && old(stop) + {svc} <= s ==> stop <= s
      decreases Services(graph) - stop - {svc}
    {
      stop := stop + {svc};
      var ds := Deps(dependents, svc);
      for i := 0 to |ds|
        invariant old(stop) + {svc} <= stop
        invariant forall j :: 0 <= j < i ==> ds[j] in stop
        invariant forall u, v :: Edge(graph, u, v) && v in stop && v !in old(stop) && v != svc ==> u in stop
        invariant forall s :: Closed(graph, s) && old(stop) + {svc} <= s ==> stop <= s
      {
        assert Edge(dependents, svc, ds[i]);
        if ds[i] !in stop {
          EdgeEndsAreServices(graph, ds[i], svc);
          AddDependents(ds[i]);
        }
      }
      assert forall u :: Edge(graph, u, svc) ==> Edge(dependents, svc, u);
    }
  }

  ghost function Seeds(batch: seq<Container>): set<string> {
    set c | c in batch && c.stopBefore && c.service != "" :: c.service
  }

  /** A container of the batch asks to be stopped, and the service is its own or depends on it, however indirectly. */
  ghost predicate MustStop(g: Graph, batch: seq<Container>, svc: string) {
    exists c :: c in batch && c.stopBefore && c.service != "" && (svc == c.service || Reaches(g, svc, c.service))
  }

  /** Whatever depends on a service that must stop has to stop too. */
  lemma DependentsMustStop(g: Graph, batch: seq<Container>, u: string, v: string)
    requires MustStop(g, batch, v) && Reaches(g, u, v)
    ensures MustStop(g, batch, u)
  {
    var c :| c in batch && c.stopBefore && c.service != "" && (v == c.service || Reaches(g, v, c.service));
    if v != c.service { ReachesTransitive(g, u, v, c.service); }
  }

  lemma StopSetMeans(g: Graph, batch: seq<Container>, stop: set<string>)
    requires IsStopSet(g, Seeds(batch), stop)
    ensures forall svc :: svc in stop <==> MustStop(g, batch, svc)
  {
    StopSetIsReachability(g, Seeds(batch), stop);
    forall c | c in batch && c.stopBefore && c.service != "" ensures c.service in Seeds(batch) {
    }
    forall svc | svc in stop ensures MustStop(g, batch, svc) {
      var s := svc;
      if svc !in Seeds(batch) { s :| s in Seeds(batch) && Reaches(g, svc, s); }
      var c :| c in batch && c.stopBefore && c.service != "" && c.service == s;
    }
  }

  method StopServices(batch: seq<Container>, deps: DepMap) returns (stop: set<string>)
    ensures IsStopSet(GraphOf(deps), Seeds(batch), stop)
    ensures forall svc :: svc in stop <==> MustStop(GraphOf(deps), batch, svc)
  {
    var dependents := BuildDependents(deps);
    ghost var g := GraphOf(deps);
    var collector := new Collector(g, dependents);
    for i := 0 to |batch|
      invariant Seeds(batch[..i]) <= collector.stop && Closed(g, collector.stop)
      invariant forall s :: Closed(g, s) && Seeds(batch[..i]) <= s ==> collector.stop <= s
    {
      var ctr := batch[i];
      assert batch[..i + 1] == batch[..i] + [ctr];
      assert Seeds(batch[..i + 1]) == Seeds(batch[..i]) +
        (if ctr.stopBefore && ctr.service != "" then {ctr.service} else {});
      if !ctr.stopBefore {
        continue;
      }
      var svc := ctr.service;
      if svc == "" {
        continue;
      }
      collector.AddDependents(svc);
    }
    assert batch[..|batch|] == batch;
    stop := collector.stop;
    StopSetMeans(g, batch, stop);
  }
}
