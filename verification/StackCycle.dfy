/**
 internal/backup/stack.go: one backup cycle of a Compose stack, as the runner
 drives it: stop the stop set, back up the batch, start what was stopped.

 Docker and restic are an `Outcomes` value chosen freely: whether each stop,
 start and backup succeeds. A cycle stops and starts a container at most once,
 so its id determines the outcome; a container without a service can be a
 member of the batch several times, and each of its backups has an outcome of
 its own, determined by the member's position in the batch.
 What the runner does is recorded as a trace of calls; StackTheorems proves
 what holds at every point of every trace.
 */
module StackCycle {
  import opened Strings
  import opened Selections
  import opened Containers
  import opened DependencyGraph
  import opened ServiceOrder
  import opened StopSet

  /** A failed stop may leave the container running or not (internal/backup/lifecycle.go). */
  datatype StopResult = Stopped | StopFailed(leftRunning: bool)

  datatype Outcomes = Outcomes(stop: string -> StopResult, start: string -> bool, backup: nat -> bool)

  /** `at` is the position in the batch of the member that the call is made for. */
  datatype Call =
    | StopCall(id: string, ok: bool)
    | BackupCall(at: nat, id: string, ok: bool)
    | StartCall(id: string)
    | RetentionCall(at: nat, id: string)

  // ----- selecting containers, in the order the loops meet them

  /** `serviceContainers`: the containers of one service, in listing order. */
  function InService(all: seq<Container>, svc: string): seq<Container> {
    if all == [] then []
    else
      var c := all[|all| - 1];
      InService(all[..|all| - 1], svc) + (if c.service == svc then [c] else [])
  }

  function Filter(ctrs: seq<Container>, pick: set<Container>): seq<Container> {
    if ctrs == [] then []
    else
      var c := ctrs[|ctrs| - 1];
      Filter(ctrs[..|ctrs| - 1], pick) + (if c in pick then [c] else [])
  }

  /** The picked containers, service by service. */
  function Sweep(svcs: seq<string>, all: seq<Container>, pick: set<Container>): seq<Container> {
    if svcs == [] then []
    else
      var svc := svcs[|svcs| - 1];
      Sweep(svcs[..|svcs| - 1], all, pick) + Filter(InService(all, svc), pick)
  }

  lemma {:induction false} InServiceMembers(all: seq<Container>, svc: string)
    ensures forall c :: c in InService(all, svc) <==> c in all && c.service == svc
  {
    if all != [] {
      InServiceMembers(all[..|all| - 1], svc);
      assert all == all[..|all| - 1] + [all[|all| - 1]];
    }
  }

  lemma {:induction false} FilterMembers(ctrs: seq<Container>, pick: set<Container>)
    ensures forall c :: c in Filter(ctrs, pick) <==> c in ctrs && c in pick
  {
    if ctrs != [] {
      FilterMembers(ctrs[..|ctrs| - 1], pick);
      assert ctrs == ctrs[..|ctrs| - 1] + [ctrs[|ctrs| - 1]];
    }
  }

  ghost function OfService(all: seq<Container>, svc: string): nat -> bool {
    (i: nat) => i < |all| && all[i].service == svc
  }

  ghost function Picked(ctrs: seq<Container>, pick: set<Container>): nat -> bool {
    (i: nat) => i < |ctrs| && ctrs[i] in pick
  }

  /** Grouping takes the containers of the service in listing order. */
  lemma {:induction false} InServiceInOrder(all: seq<Container>, svc: string)
    ensures Selects(all, OfService(all, svc), InService(all, svc))
  {
    var keep := OfService(all, svc);
    if all == [] {
      SelectsNothing(all, keep);
    } else {
      var n := |all| - 1;
      InServiceInOrder(all[..n], svc);
      SelectsNext(all, OfService(all[..n], svc), keep, InService(all[..n], svc));
      assert InService(all[..n], svc) + [] == InService(all[..n], svc);
    }
  }

  lemma {:induction false} FilterInOrder(ctrs: seq<Container>, pick: set<Container>)
    ensures Selects(ctrs, Picked(ctrs, pick), Filter(ctrs, pick))
  {
    var keep := Picked(ctrs, pick);
    if ctrs == [] {
      SelectsNothing(ctrs, keep);
    } else {
      var n := |ctrs| - 1;
      FilterInOrder(ctrs[..n], pick);
      SelectsNext(ctrs, Picked(ctrs[..n], pick), keep, Filter(ctrs[..n], pick));
      assert Filter(ctrs[..n], pick) + [] == Filter(ctrs[..n], pick);
    }
  }

  lemma PickedInListingOrder(all: seq<Container>, svc: string, pick: set<Container>, i: nat, j: nat)
    returns (a: nat, b: nat)
    requires i < j < |all| && all[i].service == all[j].service == svc && all[i] in pick && all[j] in pick
    ensures var picked := Filter(InService(all, svc), pick);
            a < b < |picked| && picked[a] == all[i] && picked[b] == all[j]
  {
    var group := InService(all, svc);
    InServiceInOrder(all, svc);
    a, b := SelectedInOrder(all, OfService(all, svc), group, i, j);
    FilterInOrder(group, pick);
    a, b := SelectedInOrder(group, Picked(group, pick), Filter(group, pick), a, b);
  }

  /** Containers of one service are met in listing order. */
  lemma {:induction false} SweepInListingOrder(
    svcs: seq<string>, all: seq<Container>, pick: set<Container>, i: nat, j: nat) returns (a: nat, b: nat)
    requires NoDuplicates(svcs) && i < j < |all| && all[i].service == all[j].service && all[i].service in svcs
    requires all[i] in pick && all[j] in pick
    ensures a < b < |Sweep(svcs, all, pick)|
    ensures Sweep(svcs, all, pick)[a] == all[i] && Sweep(svcs, all, pick)[b] == all[j]
  {
    var n := |svcs| - 1;
    var svc := svcs[n];
    var met := Sweep(svcs[..n], all, pick);
    if all[i].service == svc {
      a, b := PickedInListingOrder(all, svc, pick, i, j);
      a, b := |met| + a, |met| + b;
    } else {
      assert svcs == svcs[..n] + [svc];
      a, b := SweepInListingOrder(svcs[..n], all, pick, i, j);
    }
  }

  /** Every picked container of a listed service is met, and no other. */
  lemma {:induction false} SweepMembers(svcs: seq<string>, all: seq<Container>, pick: set<Container>)
    ensures forall c :: c in Sweep(svcs, all, pick) <==> c in all && c in pick && c.service in svcs
  {
    if svcs != [] {
      var n := |svcs| - 1;
      SweepMembers(svcs[..n], all, pick);
      InServiceMembers(all, svcs[n]);
      FilterMembers(InService(all, svcs[n]), pick);
      assert svcs == svcs[..n] + [svcs[n]];
    }
  }

  lemma FilterSnoc(ctrs: seq<Container>, i: nat, pick: set<Container>)
    requires i < |ctrs|
    ensures Filter(ctrs[..i + 1], pick) ==
            if ctrs[i] in pick then Filter(ctrs[..i], pick) + [ctrs[i]] else Filter(ctrs[..i], pick)
  {
    assert ctrs[..i + 1][..i] == ctrs[..i];
  }

  lemma SweepSnoc(svcs: seq<string>, i: nat, all: seq<Container>, pick: set<Container>)
    requires i < |svcs|
    ensures Sweep(svcs[..i + 1], all, pick) == Sweep(svcs[..i], all, pick) + Filter(InService(all, svcs[i]), pick)
  {
    assert svcs[..i + 1][..i] == svcs[..i];
  }

  lemma FilterDistinct(ctrs: seq<Container>, pick: set<Container>)
    requires DistinctIds(ctrs)
    ensures DistinctIds(Filter(ctrs, pick))
  {
    if ctrs != [] {
      var rest := ctrs[..|ctrs| - 1];
      FilterDistinct(rest, pick);
      FilterMembers(rest, pick);
      forall i | 0 <= i < |Filter(rest, pick)|
        ensures Filter(rest, pick)[i] in rest && Filter(rest, pick)[i].id != ctrs[|ctrs| - 1].id
      {
        assert Filter(rest, pick)[i] in Filter(rest, pick);
      }
    }
  }

  lemma InServiceDistinct(all: seq<Container>, svc: string)
    requires DistinctIds(all)
    ensures DistinctIds(InService(all, svc))
  {
    if all != [] {
      var rest := all[..|all| - 1];
      InServiceDistinct(rest, svc);
      InServiceMembers(rest, svc);
      forall i | 0 <= i < |InService(rest, svc)|
        ensures InService(rest, svc)[i] in rest && InService(rest, svc)[i].id != all[|all| - 1].id
      {
        assert InService(rest, svc)[i] in InService(rest, svc);
      }
    }
  }

  /** A container of the next service has not been met yet. */
  lemma NextServiceIsNew(svcs: seq<string>, i: nat, all: seq<Container>, pick: set<Container>)
    requires DistinctIds(all) && NoDuplicates(svcs) && i < |svcs|
    ensures Ids(Sweep(svcs[..i], all, pick)) !! Ids(Filter(InService(all, svcs[i]), pick))
  {
    SweepMembers(svcs[..i], all, pick);
    FilterMembers(InService(all, svcs[i]), pick);
    InServiceMembers(all, svcs[i]);
    forall c, d | c in Sweep(svcs[..i], all, pick) && d in Filter(InService(all, svcs[i]), pick)
      ensures c.id != d.id
    {
      assert c.service in svcs[..i] && d.service == svcs[i];
      if c.id == d.id { SameIdSameContainer(all, c, d); }
    }
  }

  /** Each container is met once. */
  lemma {:induction false} SweepDistinct(svcs: seq<string>, all: seq<Container>, pick: set<Container>)
    requires DistinctIds(all) && NoDuplicates(svcs)
    ensures DistinctIds(Sweep(svcs, all, pick))
  {
    if svcs != [] {
      var n := |svcs| - 1;
      var met, next := Sweep(svcs[..n], all, pick), Filter(InService(all, svcs[n]), pick);
      SweepDistinct(svcs[..n], all, pick);
      InServiceDistinct(all, svcs[n]);
      FilterDistinct(InService(all, svcs[n]), pick);
      NextServiceIsNew(svcs, n, all, pick);
      DistinctConcat(met, next);
    }
  }

  lemma DistinctConcat(a: seq<Container>, b: seq<Container>)
    requires DistinctIds(a) && DistinctIds(b) && Ids(a) !! Ids(b)
    ensures DistinctIds(a + b)
  {
    forall i, j | 0 <= i < |a| && 0 <= j < |b| ensures a[i].id != b[j].id {
      assert a[i].id in Ids(a) && b[j].id in Ids(b);
    }
  }

  // ----- the batch

  /** `byID`. */
  function ById(all: seq<Container>): map<string, Container> {
    if all == [] then map[]
    else
      var c := all[|all| - 1];
      ById(all[..|all| - 1])[c.id := c]
  }

  lemma {:induction false} ByIdMembers(all: seq<Container>)
    ensures forall id :: id in ById(all) ==> ById(all)[id] in all && ById(all)[id].id == id
    ensures forall c :: c in all ==> c.id in ById(all)
  {
    if all != [] {
      var rest := all[..|all| - 1];
      ByIdMembers(rest);
      assert all == rest + [all[|all| - 1]];
    }
  }

  /** The batch as freshly inspected; containers that are gone are dropped. */
  function Inspected(batch: seq<Container>, byID: map<string, Container>): seq<Container> {
    if batch == [] then []
    else
      var id := batch[|batch| - 1].id;
      Inspected(batch[..|batch| - 1], byID) + (if id in byID then [byID[id]] else [])
  }

  /** What is backed up: the batch members still listed, one per service. */
  function Members(batch: seq<Container>, all: seq<Container>): seq<Container> {
    Deduplicated(Inspected(batch, ById(all)))
  }

  lemma {:induction false} InspectedAreListed(batch: seq<Container>, all: seq<Container>)
    ensures forall c :: c in Inspected(batch, ById(all)) ==> c in all && exists b :: b in batch && b.id == c.id
    ensures forall b :: b in batch && b.id in Ids(all) ==> exists c :: c in Inspected(batch, ById(all)) && c.id == b.id
  {
    if batch != [] {
      InspectedAreListed(batch[..|batch| - 1], all);
      ByIdMembers(all);
      assert batch == batch[..|batch| - 1] + [batch[|batch| - 1]];
    }
  }

  lemma MembersAreListed(batch: seq<Container>, all: seq<Container>)
    ensures OnePerService(Members(batch, all))
    ensures forall c :: c in Members(batch, all) ==> c in all
  {
    InspectedAreListed(batch, all);
    DeduplicatedOnePerService(Inspected(batch, ById(all)));
    DeduplicatedKeepsFirsts(Inspected(batch, ById(all)));
  }

  /** c is what the listing says about the container at position i of the batch. */
  ghost predicate ListedAt(batch: seq<Container>, all: seq<Container>, i: nat, c: Container) {
    i < |batch| && c in all && c.id == batch[i].id
  }

  /** No earlier container of the batch is listed with this service. */
  ghost predicate NewService(batch: seq<Container>, all: seq<Container>, i: nat, svc: string) {
    forall j, d :: 0 <= j < i && ListedAt(batch, all, j, d) ==> d.service != svc
  }

  /** Position i of the batch is listed, without a service or as the first of its service. */
  ghost predicate BacksUpAt(batch: seq<Container>, all: seq<Container>, i: nat) {
    exists c :: ListedAt(batch, all, i, c) && (c.service == "" || NewService(batch, all, i, c.service))
  }

  /** The members are those of these batch positions, in order, as the listing describes them. */
  ghost predicate MembersAt(batch: seq<Container>, all: seq<Container>, ps: seq<nat>, members: seq<Container>) {
    && |ps| == |members|
    && (forall k :: 0 <= k < |ps| ==> ListedAt(batch, all, ps[k], members[k]))
    && (forall k, l :: 0 <= k < l < |ps| ==> ps[k] < ps[l])
    && (forall i: nat :: i in ps <==> BacksUpAt(batch, all, i))
  }

  /**
   What is backed up, from the batch and the listing alone: each container
   without a service as often as the batch names it, and of each service the
   first of the batch that is listed with it, in batch order.
   */
  lemma {:induction false} MembersAreFirstInBatch(batch: seq<Container>, all: seq<Container>) returns (ps: seq<nat>)
    requires DistinctIds(all)
    ensures MembersAt(batch, all, ps, Members(batch, all))
  {
    if batch == [] {
      ps := [];
    } else {
      var n := |batch| - 1;
      var before := batch[..n];
      ps := MembersAreFirstInBatch(before, all);
      ByIdMembers(all);
      assert batch == before + [batch[n]];
      if batch[n].id in ById(all) {
        var c := ById(all)[batch[n].id];
        NextMember(before, all, batch[n], c);
        BacksUpExactlyWhen(batch, all, c);
        if BacksUpAt(batch, all, n) {
          ps := NextPosition(batch, all, ps, Members(before, all), c);
        } else {
          NoMember(batch, all, ps, Members(before, all));
        }
      } else {
        NoMember(batch, all, ps, Members(before, all));
        assert Inspected(before, ById(all)) + [] == Inspected(before, ById(all));
      }
    }
  }

  /** Whether the last position of the batch, which is listed as c, is backed up. */
  lemma BacksUpExactlyWhen(batch: seq<Container>, all: seq<Container>, c: Container)
    requires batch != [] && DistinctIds(all) && ListedAt(batch, all, |batch| - 1, c)
    ensures var n := |batch| - 1;
            BacksUpAt(batch, all, n) <==> c.service == "" || NewService(batch[..n], all, n, c.service)
  {
    var n := |batch| - 1;
    EarlierPositions(batch, all);
    if BacksUpAt(batch, all, n) {
      var d :| ListedAt(batch, all, n, d) && (d.service == "" || NewService(batch, all, n, d.service));
      SameIdSameContainer(all, c, d);
    }
  }

  lemma NextPosition(batch: seq<Container>, all: seq<Container>, ps: seq<nat>, members: seq<Container>, c: Container)
    returns (qs: seq<nat>)
    requires batch != [] && MembersAt(batch[..|batch| - 1], all, ps, members)
    requires BacksUpAt(batch, all, |batch| - 1) && ListedAt(batch, all, |batch| - 1, c)
    ensures MembersAt(batch, all, qs, members + [c])
  {
    var n := |batch| - 1;
    EarlierPositions(batch, all);
    PositionsBelow(batch[..n], all, ps, members);
    qs := ps + [n];
    assert forall i: nat :: i in qs <==> i in ps || i == n;
    assert forall i: nat :: i > n ==> !BacksUpAt(batch, all, i);
  }

  /** The last position of the batch is not backed up. */
  lemma NoMember(batch: seq<Container>, all: seq<Container>, ps: seq<nat>, members: seq<Container>)
    requires batch != [] && MembersAt(batch[..|batch| - 1], all, ps, members) && !BacksUpAt(batch, all, |batch| - 1)
    ensures MembersAt(batch, all, ps, members)
  {
    EarlierPositions(batch, all);
    PositionsBelow(batch[..|batch| - 1], all, ps, members);
    assert forall i: nat :: i >= |batch| - 1 ==> !BacksUpAt(batch, all, i);
  }

  lemma PositionsBelow(batch: seq<Container>, all: seq<Container>, ps: seq<nat>, members: seq<Container>)
    requires MembersAt(batch, all, ps, members)
    ensures forall i :: i in ps ==> i < |batch|
  {
    forall i | i in ps ensures i < |batch| {
      var k :| 0 <= k < |ps| && ps[k] == i;
      assert ListedAt(batch, all, ps[k], members[k]);
    }
  }

  /** Earlier positions mean the same in the longer batch. */
  lemma EarlierPositions(batch: seq<Container>, all: seq<Container>)
    requires batch != []
    ensures var n := |batch| - 1;
            && (forall i: nat, c :: i < n ==> (ListedAt(batch, all, i, c) <==> ListedAt(batch[..n], all, i, c)))
            && (forall i: nat :: i < n ==> (BacksUpAt(batch, all, i) <==> BacksUpAt(batch[..n], all, i)))
            && (forall svc :: NewService(batch, all, n, svc) <==> NewService(batch[..n], all, n, svc))
  {
    var n := |batch| - 1;
    var before := batch[..n];
    assert forall i: nat, c :: i < n ==> (ListedAt(batch, all, i, c) <==> ListedAt(before, all, i, c));
    forall i: nat, svc | i <= n ensures NewService(batch, all, i, svc) <==> NewService(before, all, i, svc) {
    }
    forall i: nat | i < n ensures BacksUpAt(batch, all, i) <==> BacksUpAt(before, all, i) {
      if BacksUpAt(batch, all, i) {
        var c :| ListedAt(batch, all, i, c) && (c.service == "" || NewService(batch, all, i, c.service));
        assert ListedAt(before, all, i, c);
      }
      if BacksUpAt(before, all, i) {
        var c :| ListedAt(before, all, i, c) && (c.service == "" || NewService(before, all, i, c.service));
        assert ListedAt(batch, all, i, c);
      }
    }
  }

  /** What one more listed container adds. */
  lemma NextMember(before: seq<Container>, all: seq<Container>, b: Container, c: Container)
    requires DistinctIds(all) && b.id in ById(all) && c == ById(all)[b.id]
    ensures Members(before + [b], all) ==
            if c.service == "" || NewService(before, all, |before|, c.service) then Members(before, all) + [c]
            else Members(before, all)
  {
    var found := Inspected(before, ById(all));
    assert (before + [b])[..|before|] == before;
    assert Inspected(before + [b], ById(all)) == found + [c];
    assert (found + [c])[..|found|] == found;
    DeduplicatedServices(found);
    InspectedAreListed(before, all);
    ByIdMembers(all);
    if c.service in ServiceNames(found) {
      var d :| d in found && d.service == c.service;
      var e :| e in before && e.id == d.id;
      var j :| 0 <= j < |before| && before[j] == e;
      assert ListedAt(before, all, j, d);
    }
    forall j, d | 0 <= j < |before| && ListedAt(before, all, j, d) && d.service == c.service
      ensures c.service in ServiceNames(found)
    {
      assert before[j].id in Ids(all);
      var e :| e in found && e.id == before[j].id;
      SameIdSameContainer(all, d, e);
    }
  }

  function ServiceNames(ctrs: seq<Container>): set<string> {
    set c | c in ctrs :: c.service
  }

  /** `deduplicateByService`. */
  function Deduplicated(ctrs: seq<Container>): seq<Container> {
    if ctrs == [] then []
    else
      var c := ctrs[|ctrs| - 1];
      var r := Deduplicated(ctrs[..|ctrs| - 1]);
      if c.service == "" || c.service !in ServiceNames(r) then r + [c] else r
  }

  /** A service is represented at most once; the nameless one is not deduplicated. */
  ghost predicate OnePerService(ctrs: seq<Container>) {
    forall i, j :: 0 <= i < j < |ctrs| && ctrs[i].service == ctrs[j].service ==> ctrs[i].service == ""
  }

  /** ctrs[i] has no service, or is the first container of its service. */
  ghost predicate FirstOfService(ctrs: seq<Container>, i: nat)
    requires i < |ctrs|
  {
    ctrs[i].service == "" || ctrs[i].service !in ServiceNames(ctrs[..i])
  }

  lemma ServiceNamesAppend(ctrs: seq<Container>, c: Container)
    ensures ServiceNames(ctrs + [c]) == ServiceNames(ctrs) + {c.service}
  {
  }

  lemma {:induction false} DeduplicatedServices(ctrs: seq<Container>)
    ensures ServiceNames(Deduplicated(ctrs)) == ServiceNames(ctrs)
  {
    if ctrs != [] {
      var n := |ctrs| - 1;
      DeduplicatedServices(ctrs[..n]);
      assert ctrs == ctrs[..n] + [ctrs[n]];
      ServiceNamesAppend(ctrs[..n], ctrs[n]);
      ServiceNamesAppend(Deduplicated(ctrs[..n]), ctrs[n]);
    }
  }

  lemma {:induction false} DeduplicatedOnePerService(ctrs: seq<Container>)
    ensures OnePerService(Deduplicated(ctrs))
  {
    if ctrs != [] {
      var n := |ctrs| - 1;
      var r := Deduplicated(ctrs[..n]);
      DeduplicatedOnePerService(ctrs[..n]);
      forall i | 0 <= i < |r| ensures r[i].service in ServiceNames(r) { assert r[i] in r; }
    }
  }

  ghost predicate IsFirst(ctrs: seq<Container>, c: Container) {
    exists i :: 0 <= i < |ctrs| && FirstOfService(ctrs, i) && ctrs[i] == c
  }

  lemma IsFirstAppend(ctrs: seq<Container>, c: Container, d: Container)
    ensures IsFirst(ctrs + [c], d) <==>
            IsFirst(ctrs, d) || (d == c && (c.service == "" || c.service !in ServiceNames(ctrs)))
  {
    var longer := ctrs + [c];
    assert longer[..|ctrs|] == ctrs;
    forall i | 0 <= i < |ctrs| ensures FirstOfService(longer, i) == FirstOfService(ctrs, i) && longer[i] == ctrs[i] {
      assert longer[..i] == ctrs[..i];
    }
    if IsFirst(ctrs, d) {
      var i :| 0 <= i < |ctrs| && FirstOfService(ctrs, i) && ctrs[i] == d;
      assert FirstOfService(longer, i) && longer[i] == d;
    }
    if IsFirst(longer, d) {
      var i :| 0 <= i < |longer| && FirstOfService(longer, i) && longer[i] == d;
      if i < |ctrs| { assert FirstOfService(ctrs, i) && ctrs[i] == d; }
    }
    assert FirstOfService(longer, |ctrs|) == (c.service == "" || c.service !in ServiceNames(ctrs));
    assert longer[|ctrs|] == c;
  }

  /** What is kept is the first container of each service and every nameless one. */
  lemma {:induction false} DeduplicatedKeepsFirsts(ctrs: seq<Container>)
    ensures forall c :: c in Deduplicated(ctrs) <==> IsFirst(ctrs, c)
  {
    if ctrs != [] {
      var n := |ctrs| - 1;
      DeduplicatedKeepsFirsts(ctrs[..n]);
      DeduplicatedServices(ctrs[..n]);
      assert ctrs == ctrs[..n] + [ctrs[n]];
      forall c { IsFirstAppend(ctrs[..n], ctrs[n], c); }
    }
  }

  // ----- the phases

  ghost function StoppedIds(targets: seq<Container>, o: Outcomes): set<string> {
    set c | c in targets && o.stop(c.id).Stopped? :: c.id
  }

  ghost function FailedIds(targets: seq<Container>, o: Outcomes): set<string> {
    set c | c in targets && o.stop(c.id).StopFailed? :: c.id
  }

  ghost function LeftRunning(targets: seq<Container>, o: Outcomes): set<string> {
    set c | c in targets && o.stop(c.id) == StopFailed(true) :: c.id
  }

  /** What the stop loop makes of the set of running containers. */
  ghost function RunningAfterStops(running: set<string>, targets: seq<Container>, o: Outcomes): set<string> {
    running - Ids(targets) + LeftRunning(targets, o)
  }

  ghost function RunningAfterStarts(running: set<string>, started: seq<Container>, o: Outcomes): set<string> {
    running + set c | c in started && o.start(c.id) :: c.id
  }

  function StopTrace(targets: seq<Container>, o: Outcomes): seq<Call> {
    if targets == [] then []
    else
      var c := targets[|targets| - 1];
      StopTrace(targets[..|targets| - 1], o) + [StopCall(c.id, o.stop(c.id).Stopped?)]
  }

  function StartTrace(started: seq<Container>): seq<Call> {
    if started == [] then []
    else StartTrace(started[..|started| - 1]) + [StartCall(started[|started| - 1].id)]
  }

  /** Containers whose stop failed are skipped. */
  function BackupTrace(members: seq<Container>, stopFailed: set<string>, o: Outcomes): seq<Call> {
    if members == [] then []
    else
      var n := |members| - 1;
      var t := BackupTrace(members[..n], stopFailed, o);
      if members[n].id in stopFailed then t else t + [BackupCall(n, members[n].id, o.backup(n))]
  }

  /** Member i was not backed up, or its backup failed. */
  predicate Failed(members: seq<Container>, i: nat, stopFailed: set<string>, o: Outcomes)
    requires i < |members|
  {
    members[i].id in stopFailed || !o.backup(i)
  }

  function FailedOf(members: seq<Container>, stopFailed: set<string>, o: Outcomes): seq<Container> {
    if members == [] then []
    else
      var n := |members| - 1;
      var f := FailedOf(members[..n], stopFailed, o);
      if Failed(members, n, stopFailed, o) then f + [members[n]] else f
  }

  /** The keys of `backupErrors`: services, not containers. */
  ghost function FailedServices(members: seq<Container>, stopFailed: set<string>, o: Outcomes): set<string> {
    set i: nat | i < |members| && Failed(members, i, stopFailed, o) :: members[i].service
  }

  datatype BackupError = StopFailure | MountFailure

  function ErrorOf(c: Container, stopFailed: set<string>): BackupError {
    if c.id in stopFailed then StopFailure else MountFailure
  }

  /** `backupErrors`: the last failure of each service. */
  function ErrorMap(members: seq<Container>, stopFailed: set<string>, o: Outcomes): map<string, BackupError> {
    if members == [] then map[]
    else
      var n := |members| - 1;
      var m, c := ErrorMap(members[..n], stopFailed, o), members[n];
      if Failed(members, n, stopFailed, o) then m[c.service := ErrorOf(c, stopFailed)] else m
  }

  /** `allIssues` before retention: one for each failed member. */
  function IssuesOf(failed: seq<Container>, stopFailed: set<string>): seq<(string, BackupError)> {
    if failed == [] then []
    else
      var c := failed[|failed| - 1];
      IssuesOf(failed[..|failed| - 1], stopFailed) + [(c.service, ErrorOf(c, stopFailed))]
  }

  lemma FailedServicesSnoc(members: seq<Container>, n: nat, stopFailed: set<string>, o: Outcomes)
    requires n < |members|
    ensures Failed(members[..n + 1], n, stopFailed, o) == Failed(members, n, stopFailed, o)
    ensures FailedServices(members[..n + 1], stopFailed, o) ==
            FailedServices(members[..n], stopFailed, o) +
            if Failed(members, n, stopFailed, o) then {members[n].service} else {}
  {
    var longer, shorter := members[..n + 1], members[..n];
    forall i: nat | i < n
      ensures longer[i] == shorter[i] && Failed(longer, i, stopFailed, o) == Failed(shorter, i, stopFailed, o)
    {
    }
    forall svc | svc in FailedServices(shorter, stopFailed, o) ensures svc in FailedServices(longer, stopFailed, o) {
      var i: nat :| i < |shorter| && Failed(shorter, i, stopFailed, o) && shorter[i].service == svc;
      assert Failed(longer, i, stopFailed, o) && longer[i].service == svc;
    }
    forall svc | svc in FailedServices(longer, stopFailed, o) && svc !in FailedServices(shorter, stopFailed, o)
      ensures Failed(members, n, stopFailed, o) && svc == members[n].service
    {
      var i: nat :| i < |longer| && Failed(longer, i, stopFailed, o) && longer[i].service == svc;
    }
    assert longer[n] == members[n];
  }

  lemma {:induction false} ErrorMapKeys(members: seq<Container>, stopFailed: set<string>, o: Outcomes)
    ensures ErrorMap(members, stopFailed, o).Keys == FailedServices(members, stopFailed, o)
  {
    if members != [] {
      var n := |members| - 1;
      ErrorMapKeys(members[..n], stopFailed, o);
      FailedServicesSnoc(members, n, stopFailed, o);
      assert members[..n + 1] == members;
    }
  }

  /** The failed member i is the last one of its service that failed. */
  ghost predicate LastFailure(members: seq<Container>, stopFailed: set<string>, o: Outcomes, i: nat) {
    && i < |members| && Failed(members, i, stopFailed, o)
    && forall j :: i < j < |members| && members[j].service == members[i].service ==> !Failed(members, j, stopFailed, o)
  }

  /**
   A service is recorded with the error of its last failed member, for a named
   service the only one: the failed stop if it was skipped, else its backup's error.
   */
  lemma {:induction false} ErrorMapValue(members: seq<Container>, stopFailed: set<string>, o: Outcomes, i: nat)
    requires i < |members| && Failed(members, i, stopFailed, o)
    ensures var m := ErrorMap(members, stopFailed, o);
            && members[i].service in m
            && (LastFailure(members, stopFailed, o, i) ||
                (OnePerService(members) && members[i].service != "") ==>
                  (m[members[i].service] == StopFailure <==> members[i].id in stopFailed))
  {
    var n := |members| - 1;
    if i < n {
      assert Failed(members[..n], i, stopFailed, o);
      if LastFailure(members, stopFailed, o, i) {
        forall j | i < j < n && members[..n][j].service == members[i].service
          ensures !Failed(members[..n], j, stopFailed, o)
        {
          assert !Failed(members, j, stopFailed, o);
        }
        assert LastFailure(members[..n], stopFailed, o, i);
      }
      ErrorMapValue(members[..n], stopFailed, o, i);
    }
  }

  ghost function FailedAt(members: seq<Container>, stopFailed: set<string>, o: Outcomes): nat -> bool {
    (i: nat) => i < |members| && Failed(members, i, stopFailed, o)
  }

  /** The failed members in batch order. */
  lemma {:induction false} FailedInOrder(members: seq<Container>, stopFailed: set<string>, o: Outcomes)
    ensures Selects(members, FailedAt(members, stopFailed, o), FailedOf(members, stopFailed, o))
  {
    var keep := FailedAt(members, stopFailed, o);
    if members == [] {
      SelectsNothing(members, keep);
    } else {
      var n := |members| - 1;
      FailedInOrder(members[..n], stopFailed, o);
      SelectsNext(members, FailedAt(members[..n], stopFailed, o), keep, FailedOf(members[..n], stopFailed, o));
    }
  }

  /** There is one issue for each failed member, naming its service and what failed. */
  lemma {:induction false} IssuesAt(failed: seq<Container>, stopFailed: set<string>)
    ensures |IssuesOf(failed, stopFailed)| == |failed|
    ensures forall k :: 0 <= k < |failed| ==>
      && IssuesOf(failed, stopFailed)[k].0 == failed[k].service
      && (IssuesOf(failed, stopFailed)[k].1 == StopFailure <==> failed[k].id in stopFailed)
  {
    if failed != [] { IssuesAt(failed[..|failed| - 1], stopFailed); }
  }

  function RetentionTrace(members: seq<Container>, failedServices: set<string>): seq<Call> {
    if members == [] then []
    else
      var n := |members| - 1;
      var t := RetentionTrace(members[..n], failedServices);
      if members[n].service in failedServices then t else t + [RetentionCall(n, members[n].id)]
  }

  // ----- a whole cycle

  /**
   Everything a cycle decides before its first stop. `stopSvcs` and `startSvcs`
   are the service lists the two loops run over; services outside the
   dependency graph come last, in whatever order a map yields them.
   */
  datatype Plan = Plan(
    all: seq<Container>, members: seq<Container>, graph: Graph, stop: set<string>,
    stopSvcs: seq<string>, startSvcs: seq<string>)
  {
    ghost predicate Valid() {
      && DistinctIds(all)
      && (forall c :: c in members ==> c in all)
      && OnePerService(members)
      && (forall svc :: svc in stop <==> MustStop(graph, members, svc))
      && Extends(StopOrder(graph), stop, stopSvcs)
      && Extends(StartOrder(graph), ServiceNames(all), startSvcs)
    }

    ghost function StopPick(): set<Container> {
      set c | c in all && c.service in stop
    }

    /** The containers the stop loop calls stop on, in order. */
    ghost function Targets(): seq<Container> {
      Sweep(stopSvcs, all, StopPick())
    }

    ghost function StartPick(o: Outcomes): set<Container> {
      set c | c in all && c.id in StoppedIds(Targets(), o)
    }

    /** The containers the start loop calls start on, in order. */
    ghost function Startees(o: Outcomes): seq<Container> {
      Sweep(startSvcs, all, StartPick(o))
    }

    ghost function Skipped(o: Outcomes): set<string> {
      FailedIds(Targets(), o)
    }

    ghost function Errors(o: Outcomes): set<string> {
      FailedServices(members, Skipped(o), o)
    }

    ghost function Trace(o: Outcomes): seq<Call> {
      StopTrace(Targets(), o) + BackupTrace(members, Skipped(o), o) +
      StartTrace(Startees(o)) + RetentionTrace(members, Errors(o))
    }

    ghost function FinalRunning(running: set<string>, o: Outcomes): set<string> {
      RunningAfterStarts(RunningAfterStops(running, Targets(), o), Startees(o), o)
    }
  }

  /** `order` with the missing members of `services` appended in some order. */
  ghost predicate Extends(order: seq<string>, services: set<string>, svcs: seq<string>) {
    && order <= svcs
    && NoDuplicates(svcs)
    && forall s :: s in svcs <==> s in order || s in services
  }

  method AppendUnordered(order: seq<string>, services: set<string>) returns (svcs: seq<string>)
    requires NoDuplicates(order)
    ensures Extends(order, services, svcs)
  {
    svcs := order;
    var left := services;
    while left != {}
      invariant left <= services && order <= svcs && NoDuplicates(svcs)
      invariant forall s :: s in svcs <==> s in order || s in services - left
      decreases left
    {
      var svc :| svc in left;
      left := left - {svc};
      if svc !in order {
        svcs := svcs + [svc];
      }
    }
  }

  /** Reading a Go map of slices: a missing key reads as the empty slice. */
  function Group(groups: map<string, seq<Container>>, svc: string): seq<Container> {
    if svc in groups then groups[svc] else []
  }

  ghost predicate IsGrouping(groups: map<string, seq<Container>>, ctrs: seq<Container>) {
    && groups.Keys == ServiceNames(ctrs)
    && forall svc :: Group(groups, svc) == InService(ctrs, svc)
  }

  lemma ServiceNamesSnoc(ctrs: seq<Container>, i: nat)
    requires i < |ctrs|
    ensures ServiceNames(ctrs[..i + 1]) == ServiceNames(ctrs[..i]) + {ctrs[i].service}
  {
    assert ctrs[..i + 1] == ctrs[..i] + [ctrs[i]];
  }

  lemma InServiceSnoc(ctrs: seq<Container>, i: nat, svc: string)
    requires i < |ctrs|
    ensures InService(ctrs[..i + 1], svc) ==
            InService(ctrs[..i], svc) + (if ctrs[i].service == svc then [ctrs[i]] else [])
  {
    assert ctrs[..i + 1][..i] == ctrs[..i];
  }

  lemma GroupingSnoc(groups: map<string, seq<Container>>, ctrs: seq<Container>, i: nat)
    requires i < |ctrs| && IsGrouping(groups, ctrs[..i])
    ensures var svc := ctrs[i].service;
            IsGrouping(groups[svc := Group(groups, svc) + [ctrs[i]]], ctrs[..i + 1])
  {
    var s := ctrs[i].service;
    var after := groups[s := Group(groups, s) + [ctrs[i]]];
    ServiceNamesSnoc(ctrs, i);
    forall svc ensures Group(after, svc) == InService(ctrs[..i + 1], svc) {
      InServiceSnoc(ctrs, i, svc);
      assert Group(groups, svc) == InService(ctrs[..i], svc);
    }
  }

  method ServiceContainers(ctrs: seq<Container>) returns (groups: map<string, seq<Container>>)
    ensures IsGrouping(groups, ctrs)
  {
    groups := map[];
    for i := 0 to |ctrs|
      invariant IsGrouping(groups, ctrs[..i])
    {
      GroupingSnoc(groups, ctrs, i);
      groups := groups[ctrs[i].service := Group(groups, ctrs[i].service) + [ctrs[i]]];
    }
    assert ctrs[..|ctrs|] == ctrs;
  }

  method DeduplicateByService(ctrs: seq<Container>) returns (out: seq<Container>)
    ensures out == Deduplicated(ctrs)
  {
    var seen: set<string> := {};
    out := [];
    for i := 0 to |ctrs|
      invariant out == Deduplicated(ctrs[..i])
      invariant seen == ServiceNames(out) - {""}
    {
      var c := ctrs[i];
      assert ctrs[..i + 1][..i] == ctrs[..i];
      assert ServiceNames(out + [c]) == ServiceNames(out) + {c.service};
      if c.service == "" {
        out := out + [c];
        continue;
      }
      if c.service in seen {
        continue;
      }
      seen := seen + {c.service};
      out := out + [c];
    }
    assert ctrs[..|ctrs|] == ctrs;
  }
}
