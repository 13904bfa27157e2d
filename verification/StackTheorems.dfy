/**
 What holds at every point of a stack cycle's trace, whatever fails: the order
 of stops and starts, which containers are touched, and how failures are
 accounted for.
 */
module StackTheorems {
  import opened Strings
  import opened Containers
  import opened DependencyGraph
  import opened ServiceOrder
  import opened StopSet
  import opened StackCycle

  // ----- positions in the trace

  lemma {:induction false} StopTraceAt(targets: seq<Container>, o: Outcomes)
    ensures |StopTrace(targets, o)| == |targets|
    ensures forall i :: 0 <= i < |targets| ==>
      StopTrace(targets, o)[i] == StopCall(targets[i].id, o.stop(targets[i].id).Stopped?)
  {
    if targets != [] { StopTraceAt(targets[..|targets| - 1], o); }
  }

  lemma {:induction false} StartTraceAt(started: seq<Container>)
    ensures |StartTrace(started)| == |started|
    ensures forall i :: 0 <= i < |started| ==> StartTrace(started)[i] == StartCall(started[i].id)
  {
    if started != [] { StartTraceAt(started[..|started| - 1]); }
  }

  /** Calls made for members, whose positions increase. */
  ghost predicate InBatchOrder(calls: seq<Call>) {
    && (forall k :: 0 <= k < |calls| ==> calls[k].BackupCall? || calls[k].RetentionCall?)
    && (forall k, l :: 0 <= k < l < |calls| ==> calls[k].at < calls[l].at)
  }

  /** e backs up the member at its position, whose stop did not fail. */
  ghost predicate IsBackupOf(e: Call, members: seq<Container>, stopFailed: set<string>, o: Outcomes) {
    && e.BackupCall? && e.at < |members| && e.id == members[e.at].id
    && e.id !in stopFailed && e.ok == o.backup(e.at)
  }

  /** The backup calls are those, each made once, in batch order. */
  lemma {:induction false} BackupTraceMembers(members: seq<Container>, stopFailed: set<string>, o: Outcomes)
    ensures forall e :: e in BackupTrace(members, stopFailed, o) <==> IsBackupOf(e, members, stopFailed, o)
    ensures InBatchOrder(BackupTrace(members, stopFailed, o))
  {
    if members != [] {
      var n := |members| - 1;
      var t := BackupTrace(members[..n], stopFailed, o);
      BackupTraceMembers(members[..n], stopFailed, o);
      forall e ensures IsBackupOf(e, members, stopFailed, o) <==>
        IsBackupOf(e, members[..n], stopFailed, o) ||
        (members[n].id !in stopFailed && e == BackupCall(n, members[n].id, o.backup(n)))
      {
      }
      forall i | 0 <= i < |t| ensures t[i].BackupCall? && t[i].at < n { assert t[i] in t; }
    }
  }

  ghost predicate IsRetentionOf(e: Call, members: seq<Container>, failedServices: set<string>) {
    && e.RetentionCall? && e.at < |members| && e.id == members[e.at].id
    && members[e.at].service !in failedServices
  }

  lemma {:induction false} RetentionTraceMembers(members: seq<Container>, failedServices: set<string>)
    ensures forall e :: e in RetentionTrace(members, failedServices) <==> IsRetentionOf(e, members, failedServices)
    ensures InBatchOrder(RetentionTrace(members, failedServices))
  {
    if members != [] {
      var n := |members| - 1;
      var t := RetentionTrace(members[..n], failedServices);
      RetentionTraceMembers(members[..n], failedServices);
      forall i | 0 <= i < |t| ensures t[i].RetentionCall? && t[i].at < n { assert t[i] in t; }
      forall e ensures IsRetentionOf(e, members, failedServices) <==>
        IsRetentionOf(e, members[..n], failedServices) ||
        (members[n].service !in failedServices && e == RetentionCall(n, members[n].id))
      {
      }
    }
  }

  lemma FourPartsAt<T>(s: seq<T>, b: seq<T>, t: seq<T>, r: seq<T>, i: nat)
    requires i < |s| + |b| + |t| + |r|
    ensures (s + b + t + r)[i] ==
            if i < |s| then s[i]
            else if i < |s| + |b| then b[i - |s|]
            else if i < |s| + |b| + |t| then t[i - |s| - |b|]
            else r[i - |s| - |b| - |t|]
  {
  }

  lemma BackupTraceAt(p: Plan, o: Outcomes, k: nat)
    requires k < |BackupTrace(p.members, p.Skipped(o), o)|
    ensures var e := BackupTrace(p.members, p.Skipped(o), o)[k]; e.BackupCall? && e.id !in p.Skipped(o)
  {
    BackupTraceMembers(p.members, p.Skipped(o), o);
    assert BackupTrace(p.members, p.Skipped(o), o)[k] in BackupTrace(p.members, p.Skipped(o), o);
  }

  lemma RetentionTraceAt(p: Plan, o: Outcomes, k: nat)
    requires k < |RetentionTrace(p.members, p.Errors(o))|
    ensures RetentionTrace(p.members, p.Errors(o))[k].RetentionCall?
  {
    RetentionTraceMembers(p.members, p.Errors(o));
    assert RetentionTrace(p.members, p.Errors(o))[k] in RetentionTrace(p.members, p.Errors(o));
  }

  /** The phase a call stands in, by its position. */
  lemma PhaseAt(p: Plan, o: Outcomes, i: nat)
    requires i < |p.Trace(o)|
    ensures var s, b := |p.Targets()|, |BackupTrace(p.members, p.Skipped(o), o)|;
            var e := p.Trace(o)[i];
            if i < s then e == StopCall(p.Targets()[i].id, o.stop(p.Targets()[i].id).Stopped?)
            else if i < s + b then e.BackupCall? && e.id !in p.Skipped(o)
            else if i < s + b + |p.Startees(o)| then e == StartCall(p.Startees(o)[i - s - b].id)
            else e.RetentionCall?
  {
    var s, b := StopTrace(p.Targets(), o), BackupTrace(p.members, p.Skipped(o), o);
    var t, r := StartTrace(p.Startees(o)), RetentionTrace(p.members, p.Errors(o));
    StopTraceAt(p.Targets(), o);
    StartTraceAt(p.Startees(o));
    FourPartsAt(s, b, t, r, i);
    if i < |s| {
    } else if i < |s| + |b| {
      BackupTraceAt(p, o, i - |s|);
    } else if i < |s| + |b| + |t| {
    } else {
      RetentionTraceAt(p, o, i - |s| - |b| - |t|);
    }
  }

  lemma TraceLength(p: Plan, o: Outcomes)
    ensures |p.Targets()| + |BackupTrace(p.members, p.Skipped(o), o)| + |p.Startees(o)| <= |p.Trace(o)|
  {
    StopTraceAt(p.Targets(), o);
    StartTraceAt(p.Startees(o));
  }

  lemma BeforeInInit(svcs: seq<string>, a: string, b: string)
    requires NoDuplicates(svcs) && svcs != [] && Before(svcs, a, b)
    ensures a in svcs[..|svcs| - 1]
    ensures b in svcs[..|svcs| - 1] ==> Before(svcs[..|svcs| - 1], a, b)
    ensures b !in svcs[..|svcs| - 1] ==> b == svcs[|svcs| - 1]
  {
    var n := |svcs| - 1;
    var i, j :| 0 <= i < j < |svcs| && svcs[i] == a && svcs[j] == b;
    assert svcs[..n][i] == a;
    assert forall k :: 0 <= k < n ==> svcs[..n][k] == svcs[k];
    if j < n { assert svcs[..n][j] == b; }
  }

  /** A container whose service is listed earlier is met earlier. */
  lemma {:induction false} SweepOrder(
    svcs: seq<string>, all: seq<Container>, pick: set<Container>, k: nat, d: Container)
    requires NoDuplicates(svcs) && k < |Sweep(svcs, all, pick)|
    requires d in all && d in pick && Before(svcs, d.service, Sweep(svcs, all, pick)[k].service)
    ensures d in Sweep(svcs, all, pick)[..k]
  {
    var init := svcs[..|svcs| - 1];
    var met, next := Sweep(init, all, pick), Filter(InService(all, svcs[|svcs| - 1]), pick);
    var c := Sweep(svcs, all, pick)[k];
    SplitAt(met, next, k);
    BeforeInInit(svcs, d.service, c.service);
    if k < |met| {
      MetServices(init, all, pick, k);
      SweepOrder(init, all, pick, k, d);
    } else {
      SweepMembers(init, all, pick);
    }
  }

  /** The elements before position k of a concatenation, and the one at k. */
  lemma SplitAt(a: seq<Container>, b: seq<Container>, k: nat)
    requires k < |a + b|
    ensures k < |a| ==> (a + b)[..k] == a[..k] && (a + b)[k] == a[k]
    ensures k >= |a| ==> forall x :: x in a ==> x in (a + b)[..k]
  {
    if k >= |a| { assert (a + b)[..k] == a + b[..k - |a|]; }
  }

  lemma MetServices(svcs: seq<string>, all: seq<Container>, pick: set<Container>, k: nat)
    requires k < |Sweep(svcs, all, pick)|
    ensures Sweep(svcs, all, pick)[k].service in svcs
  {
    SweepMembers(svcs, all, pick);
    assert Sweep(svcs, all, pick)[k] in Sweep(svcs, all, pick);
  }

  lemma BeforeInExtension(order: seq<string>, svcs: seq<string>, a: string, b: string)
    requires order <= svcs && Before(order, a, b)
    ensures Before(svcs, a, b)
  {
    var i, j :| 0 <= i < j < |order| && order[i] == a && order[j] == b;
    assert svcs[i] == a && svcs[j] == b;
  }

  // ----- order

  /** Before position i of the trace, call e has been made. */
  ghost predicate CalledBefore(p: Plan, o: Outcomes, i: nat, e: Call) {
    exists j :: 0 <= j < i && j < |p.Trace(o)| && p.Trace(o)[j] == e
  }

  /**
   c's service depends on d's: directly, and not the other way round; or
   however indirectly, and c's service is on no cycle.
   */
  ghost predicate DependsOn(p: Plan, c: Container, d: Container) {
    c in p.all && d in p.all && DependsInOrder(p.graph, c.service, d.service)
  }

  ghost predicate IsStopOf(p: Plan, o: Outcomes, i: nat, c: Container) {
    i < |p.Trace(o)| && p.Trace(o)[i].StopCall? && p.Trace(o)[i].id == c.id
  }

  ghost predicate IsStartOf(p: Plan, o: Outcomes, i: nat, c: Container) {
    i < |p.Trace(o)| && p.Trace(o)[i] == StartCall(c.id)
  }

  /**
   When a container is stopped, each container that depends on it has already
   had its stop call: directly unless the two services form a cycle, indirectly
   unless the dependent one is on a cycle.
   */
  lemma DependentsAreStoppedFirst(p: Plan, o: Outcomes, i: nat, c: Container, d: Container)
    requires p.Valid()
    ensures IsStopOf(p, o, i, c) && DependsOn(p, d, c) ==>
              CalledBefore(p, o, i, StopCall(d.id, o.stop(d.id).Stopped?))
  {
    if IsStopOf(p, o, i, c) && DependsOn(p, d, c) {
      PhaseAt(p, o, i);
      DependentStoppedBefore(p, i, c, d);
      var j :| 0 <= j < i && p.Targets()[j] == d;
      TraceLength(p, o);
      PhaseAt(p, o, j);
    }
  }

  lemma DependentStoppedBefore(p: Plan, i: nat, c: Container, d: Container)
    requires p.Valid() && DependsOn(p, d, c)
    requires i < |p.Targets()| && p.Targets()[i].id == c.id
    ensures d in p.Targets()[..i]
  {
    SweepMembers(p.stopSvcs, p.all, p.StopPick());
    assert p.Targets()[i] in p.Targets();
    SameIdSameContainer(p.all, c, p.Targets()[i]);
    StopOrderRespects(p.graph, d.service, c.service);
    DependentsMustStop(p.graph, p.members, d.service, c.service);
    BeforeInExtension(StopOrder(p.graph), p.stopSvcs, d.service, c.service);
    SweepOrder(p.stopSvcs, p.all, p.StopPick(), i, d);
  }

  /**
   When a container is started, each stopped container that it depends on has
   already had its start call: directly unless the two services form a cycle,
   indirectly unless the started one is on a cycle.
   */
  lemma DependenciesAreStartedFirst(p: Plan, o: Outcomes, i: nat, c: Container, d: Container)
    requires p.Valid()
    ensures IsStartOf(p, o, i, c) && DependsOn(p, c, d) && d.id in StoppedIds(p.Targets(), o) ==>
              CalledBefore(p, o, i, StartCall(d.id))
  {
    if IsStartOf(p, o, i, c) && DependsOn(p, c, d) && d.id in StoppedIds(p.Targets(), o) {
      var k := StartPosition(p, o, i, c);
      DependencyStartedBefore(p, o, k, c, d);
      StartedIsCalled(p, o, k, d);
    }
  }

  /** Where the start phase begins. */
  ghost function StartPhase(p: Plan, o: Outcomes): nat {
    |p.Targets()| + |BackupTrace(p.members, p.Skipped(o), o)|
  }

  lemma StartPosition(p: Plan, o: Outcomes, i: nat, c: Container) returns (k: nat)
    requires IsStartOf(p, o, i, c)
    ensures k < |p.Startees(o)| && p.Startees(o)[k].id == c.id && i == StartPhase(p, o) + k
  {
    PhaseAt(p, o, i);
    k := i - StartPhase(p, o);
  }

  lemma StartedIsCalled(p: Plan, o: Outcomes, k: nat, d: Container)
    requires k < |p.Startees(o)| && d in p.Startees(o)[..k]
    ensures CalledBefore(p, o, StartPhase(p, o) + k, StartCall(d.id))
  {
    var j :| 0 <= j < k && p.Startees(o)[j] == d;
    StartAt(p, o, j);
  }

  lemma IsStartedAt(p: Plan, o: Outcomes, k: nat, c: Container) returns (i: nat)
    requires k < |p.Startees(o)| && p.Startees(o)[k] == c
    ensures IsStartOf(p, o, i, c) && i == StartPhase(p, o) + k
  {
    StartAt(p, o, k);
    i := StartPhase(p, o) + k;
  }

  lemma StartAt(p: Plan, o: Outcomes, k: nat)
    requires k < |p.Startees(o)|
    ensures StartPhase(p, o) + k < |p.Trace(o)|
    ensures p.Trace(o)[StartPhase(p, o) + k] == StartCall(p.Startees(o)[k].id)
  {
    TraceLength(p, o);
    PhaseAt(p, o, StartPhase(p, o) + k);
  }

  lemma DependencyStartedBefore(p: Plan, o: Outcomes, k: nat, c: Container, d: Container)
    requires p.Valid() && DependsOn(p, c, d) && d.id in StoppedIds(p.Targets(), o)
    requires k < |p.Startees(o)| && p.Startees(o)[k].id == c.id
    ensures d in p.Startees(o)[..k]
  {
    SweepMembers(p.startSvcs, p.all, p.StartPick(o));
    assert p.Startees(o)[k] in p.Startees(o);
    SameIdSameContainer(p.all, c, p.Startees(o)[k]);
    StartOrderRespects(p.graph, c.service, d.service);
    BeforeInExtension(StartOrder(p.graph), p.startSvcs, d.service, c.service);
    SweepOrder(p.startSvcs, p.all, p.StartPick(o), k, d);
  }

  // ----- conservation

  lemma TargetsAreStopServices(p: Plan)
    requires p.Valid()
    ensures DistinctIds(p.Targets())
    ensures forall c :: c in p.Targets() <==> c in p.all && c.service in p.stop
  {
    SweepMembers(p.stopSvcs, p.all, p.StopPick());
    SweepDistinct(p.stopSvcs, p.all, p.StopPick());
  }

  lemma StarteesAreStopped(p: Plan, o: Outcomes)
    requires p.Valid()
    ensures DistinctIds(p.Startees(o))
    ensures Ids(p.Startees(o)) == StoppedIds(p.Targets(), o)
  {
    TargetsAreStopServices(p);
    SweepMembers(p.startSvcs, p.all, p.StartPick(o));
    SweepDistinct(p.startSvcs, p.all, p.StartPick(o));
    forall c | c in p.all && c.id in StoppedIds(p.Targets(), o) ensures c in p.Startees(o) {
      assert c.service in ServiceNames(p.all);
    }
  }

  /** Stopped and stop-failed containers are exactly those of the stop set's services. */
  lemma StopOutcomesPartition(p: Plan, o: Outcomes)
    requires p.Valid()
    ensures StoppedIds(p.Targets(), o) !! FailedIds(p.Targets(), o)
    ensures StoppedIds(p.Targets(), o) + FailedIds(p.Targets(), o) == set c | c in p.all && c.service in p.stop :: c.id
  {
    TargetsAreStopServices(p);
  }

  lemma MultisetSnoc<T>(a: seq<T>, x: T, y: T)
    ensures multiset(a + [x])[y] == multiset(a)[y] + if x == y then 1 else 0
  {
  }

  /** With distinct ids an id occurs once: at the end or before. */
  lemma LastId(ctrs: seq<Container>)
    requires DistinctIds(ctrs) && ctrs != []
    ensures var rest, last := ctrs[..|ctrs| - 1], ctrs[|ctrs| - 1];
            DistinctIds(rest) && Ids(ctrs) == Ids(rest) + {last.id} && last.id !in Ids(rest)
  {
    assert ctrs == ctrs[..|ctrs| - 1] + [ctrs[|ctrs| - 1]];
  }

  lemma {:induction false} StopCallCount(targets: seq<Container>, o: Outcomes, id: string, ok: bool)
    requires DistinctIds(targets)
    ensures multiset(StopTrace(targets, o))[StopCall(id, ok)] ==
            if id in Ids(targets) && o.stop(id).Stopped? == ok then 1 else 0
  {
    if targets != [] {
      var rest, last := targets[..|targets| - 1], targets[|targets| - 1];
      LastId(targets);
      StopCallCount(rest, o, id, ok);
      MultisetSnoc(StopTrace(rest, o), StopCall(last.id, o.stop(last.id).Stopped?), StopCall(id, ok));
    }
  }

  lemma {:induction false} StartCallCount(started: seq<Container>, id: string)
    requires DistinctIds(started)
    ensures multiset(StartTrace(started))[StartCall(id)] == if id in Ids(started) then 1 else 0
  {
    if started != [] {
      var rest, last := started[..|started| - 1], started[|started| - 1];
      LastId(started);
      StartCallCount(rest, id);
      MultisetSnoc(StartTrace(rest), StartCall(last.id), StartCall(id));
    }
  }

  lemma TraceCounts(p: Plan, o: Outcomes, e: Call)
    ensures multiset(p.Trace(o))[e] ==
            match e
            case StopCall(_, _) => multiset(StopTrace(p.Targets(), o))[e]
            case BackupCall(_, _, _) => multiset(BackupTrace(p.members, p.Skipped(o), o))[e]
            case StartCall(_) => multiset(StartTrace(p.Startees(o)))[e]
            case RetentionCall(_, _) => multiset(RetentionTrace(p.members, p.Errors(o)))[e]
  {
    var s, b := StopTrace(p.Targets(), o), BackupTrace(p.members, p.Skipped(o), o);
    var t, r := StartTrace(p.Startees(o)), RetentionTrace(p.members, p.Errors(o));
    StopTraceAt(p.Targets(), o);
    StartTraceAt(p.Startees(o));
    BackupTraceMembers(p.members, p.Skipped(o), o);
    RetentionTraceMembers(p.members, p.Errors(o));
    FourPartsCount(s, b, t, r, e);
  }

  lemma FourPartsCount(s: seq<Call>, b: seq<Call>, t: seq<Call>, r: seq<Call>, e: Call)
    ensures multiset(s + b + t + r)[e] == multiset(s)[e] + multiset(b)[e] + multiset(t)[e] + multiset(r)[e]
    ensures (e in s <==> multiset(s)[e] > 0) && (e in b <==> multiset(b)[e] > 0)
    ensures (e in t <==> multiset(t)[e] > 0) && (e in r <==> multiset(r)[e] > 0)
  {
    assert (e in s <==> e in multiset(s)) && (e in b <==> e in multiset(b));
    assert (e in t <==> e in multiset(t)) && (e in r <==> e in multiset(r));
  }

  /**
   Every container of a stop-set service gets one stop call, every container
   that was stopped gets one start call, and no other container gets either.
   */
  lemma StopsAndStartsBalance(p: Plan, o: Outcomes, id: string)
    requires p.Valid()
    ensures var calls := multiset(p.Trace(o));
            && calls[StopCall(id, true)] == calls[StartCall(id)] == (if id in StoppedIds(p.Targets(), o) then 1 else 0)
            && calls[StopCall(id, false)] == (if id in FailedIds(p.Targets(), o) then 1 else 0)
  {
    TargetsAreStopServices(p);
    StarteesAreStopped(p, o);
    StopCallCount(p.Targets(), o, id, true);
    StopCallCount(p.Targets(), o, id, false);
    StartCallCount(p.Startees(o), id);
    TraceCounts(p, o, StopCall(id, true));
    TraceCounts(p, o, StopCall(id, false));
    TraceCounts(p, o, StartCall(id));
  }

  /** A container gets a stop call exactly if a member asks for it: for its own service or for one below. */
  lemma StopCallExactlyWhen(p: Plan, o: Outcomes, c: Container)
    requires p.Valid() && c in p.all
    ensures (exists i: nat :: IsStopOf(p, o, i, c)) <==> MustStop(p.graph, p.members, c.service)
  {
    TargetsAreStopServices(p);
    if c.service in p.stop {
      var j: nat :| j < |p.Targets()| && p.Targets()[j] == c;
      TraceLength(p, o);
      PhaseAt(p, o, j);
      assert IsStopOf(p, o, j, c);
    }
    if i: nat :| IsStopOf(p, o, i, c) {
      PhaseAt(p, o, i);
      assert p.Targets()[i] in p.Targets();
      SameIdSameContainer(p.all, c, p.Targets()[i]);
    }
  }

  /** The replicas of a service are stopped in listing order. */
  lemma ReplicasStopInListingOrder(p: Plan, o: Outcomes, i: nat, j: nat) returns (a: nat, b: nat)
    requires p.Valid() && i < j < |p.all| && p.all[i].service == p.all[j].service
    requires MustStop(p.graph, p.members, p.all[i].service)
    ensures a < b && IsStopOf(p, o, a, p.all[i]) && IsStopOf(p, o, b, p.all[j])
  {
    a, b := SweepInListingOrder(p.stopSvcs, p.all, p.StopPick(), i, j);
    TraceLength(p, o);
    PhaseAt(p, o, a);
    PhaseAt(p, o, b);
  }

  lemma StarteesInListingOrder(p: Plan, o: Outcomes, i: nat, j: nat) returns (a: nat, b: nat)
    requires p.Valid() && i < j < |p.all| && p.all[i].service == p.all[j].service
    requires p.all[i].id in StoppedIds(p.Targets(), o) && p.all[j].id in StoppedIds(p.Targets(), o)
    ensures a < b < |p.Startees(o)| && p.Startees(o)[a] == p.all[i] && p.Startees(o)[b] == p.all[j]
  {
    assert p.all[i] in p.all && p.all[i].service in ServiceNames(p.all);
    assert p.all[i] in p.StartPick(o) && p.all[j] in p.StartPick(o);
    a, b := SweepInListingOrder(p.startSvcs, p.all, p.StartPick(o), i, j);
  }

  /** Those that were stopped are started in listing order. */
  lemma ReplicasStartInListingOrder(p: Plan, o: Outcomes, i: nat, j: nat) returns (a: nat, b: nat)
    requires p.Valid() && i < j < |p.all| && p.all[i].service == p.all[j].service
    requires p.all[i].id in StoppedIds(p.Targets(), o) && p.all[j].id in StoppedIds(p.Targets(), o)
    ensures a < b && IsStartOf(p, o, a, p.all[i]) && IsStartOf(p, o, b, p.all[j])
  {
    var k, l := StarteesInListingOrder(p, o, i, j);
    a := IsStartedAt(p, o, k, p.all[i]);
    b := IsStartedAt(p, o, l, p.all[j]);
  }

  // ----- what is running

  /**
   What runs in the end: what ran and was not to be stopped, what a failed stop
   left running, and what was stopped and started again.
   */
  lemma RunningInTheEnd(p: Plan, running: set<string>, o: Outcomes, c: Container)
    requires p.Valid() && c in p.all
    ensures c.id in p.FinalRunning(running, o) <==>
            if !MustStop(p.graph, p.members, c.service) then c.id in running
            else match o.stop(c.id)
                 case Stopped => o.start(c.id)
                 case StopFailed(leftRunning) => leftRunning
  {
    var stopped := RunningAfterStops(running, p.Targets(), o);
    var started := set d | d in p.Startees(o) && o.start(d.id) :: d.id;
    assert p.FinalRunning(running, o) == stopped + started;
    StoppedOrNot(p, running, o, c);
    StartedOrNot(p, o, c);
  }

  /** Whether a container runs after the stop loop. */
  lemma StoppedOrNot(p: Plan, running: set<string>, o: Outcomes, c: Container)
    requires p.Valid() && c in p.all
    ensures c.id in RunningAfterStops(running, p.Targets(), o) <==>
            if c.service in p.stop then o.stop(c.id) == StopFailed(true) else c.id in running
    ensures c.id in StoppedIds(p.Targets(), o) <==> c.service in p.stop && o.stop(c.id).Stopped?
  {
    TargetsAreStopServices(p);
    forall d | d in p.Targets() && d.id == c.id ensures d == c { SameIdSameContainer(p.all, c, d); }
    assert c.service in p.stop ==> c in p.Targets();
  }

  /** Whether the start loop gets it to run. */
  lemma StartedOrNot(p: Plan, o: Outcomes, c: Container)
    requires p.Valid() && c in p.all
    ensures (exists d :: d in p.Startees(o) && o.start(d.id) && d.id == c.id) <==>
            c.service in p.stop && o.stop(c.id).Stopped? && o.start(c.id)
  {
    StoppedOrNot(p, {}, o, c);
    StarteesAreStopped(p, o);
    assert c.id in Ids(p.Startees(o)) <==> c.id in StoppedIds(p.Targets(), o);
  }

  /** Failed stops change nothing and every start succeeds. */
  ghost predicate Benign(p: Plan, running: set<string>, o: Outcomes) {
    forall c :: c in p.Targets() ==>
      (o.stop(c.id).StopFailed? ==> o.stop(c.id).leftRunning == (c.id in running)) && o.start(c.id)
  }

  lemma BenignOutcomeRestarts(p: Plan, running: set<string>, o: Outcomes)
    requires p.Valid() && Benign(p, running, o)
    ensures p.FinalRunning(running, o) == running + StoppedIds(p.Targets(), o)
  {
    var t, w, f := p.Targets(), StoppedIds(p.Targets(), o), FailedIds(p.Targets(), o);
    var ok := set c | c in p.Startees(o) && o.start(c.id) :: c.id;
    assert ok == w by {
      StarteesAreStopped(p, o);
      forall c | c in p.Startees(o) ensures o.start(c.id) {
        assert c.id in Ids(p.Startees(o));
        var d :| d in t && d.id == c.id;
      }
    }
    BenignStops(t, running, o);
  }

  lemma BenignStops(t: seq<Container>, running: set<string>, o: Outcomes)
    requires forall c :: c in t && o.stop(c.id).StopFailed? ==> o.stop(c.id).leftRunning == (c.id in running)
    ensures RunningAfterStops(running, t, o) + StoppedIds(t, o) == running + StoppedIds(t, o)
  {
    assert LeftRunning(t, o) == FailedIds(t, o) * running;
    assert Ids(t) == StoppedIds(t, o) + FailedIds(t, o);
  }

  ghost predicate RunningBefore(p: Plan, running: set<string>) {
    forall c :: c in p.all && c.service in p.stop ==> c.id in running
  }

  ghost predicate AlwaysRestored(p: Plan, running: set<string>) {
    forall o :: Benign(p, running, o) ==> p.FinalRunning(running, o) == running
  }

  const ALL_GOOD := Outcomes(_ => Stopped, _ => true, _ => true)

  lemma RestoredNeedsRunning(p: Plan, running: set<string>)
    requires p.Valid() && AlwaysRestored(p, running)
    ensures RunningBefore(p, running)
  {
    TargetsAreStopServices(p);
    assert Benign(p, running, ALL_GOOD);
    BenignOutcomeRestarts(p, running, ALL_GOOD);
    forall c | c in p.all && c.service in p.stop ensures c.id in running {
      assert c in p.Targets() && ALL_GOOD.stop(c.id).Stopped?;
      assert c.id in StoppedIds(p.Targets(), ALL_GOOD);
    }
  }

  /** An already exited container is started too: what runs is restored exactly if all targets ran before. */
  lemma RunningIsRestoredExactlyWhen(p: Plan, running: set<string>)
    requires p.Valid()
    ensures AlwaysRestored(p, running) <==> RunningBefore(p, running)
  {
    if RunningBefore(p, running) {
      forall o | Benign(p, running, o) ensures p.FinalRunning(running, o) == running {
        BenignOutcomeRestarts(p, running, o);
        TargetsAreStopServices(p);
        assert StoppedIds(p.Targets(), o) <= running;
      }
    }
    if AlwaysRestored(p, running) { RestoredNeedsRunning(p, running); }
  }

  // ----- backups

  /**
   When a member is backed up it is stopped and not yet restarted, exactly if
   its service is in the stop set. A member that asks to be stopped is in it
   exactly if it has a service, or if containers without one depend on a
   service that asks to be stopped; labels never say that they do.
   */
  lemma BackedUpWhileStoppedExactlyWhen(p: Plan, o: Outcomes, i: nat, c: Container)
    requires p.Valid() && c in p.members
    requires i < |p.Trace(o)| && p.Trace(o)[i].BackupCall? && p.Trace(o)[i].id == c.id
    ensures c.service in p.stop <==> exists j :: 0 <= j < i && p.Trace(o)[j] == StopCall(c.id, true)
    ensures forall k :: 0 <= k < i ==> p.Trace(o)[k] != StartCall(c.id)
    ensures c.stopBefore ==>
      (c.service in p.stop <==> c.service != "" || MustStop(p.graph, p.members, ""))
    ensures c.stopBefore && "" !in p.graph ==> (c.service in p.stop <==> c.service != "")
  {
    if c.service in p.stop {
      var j := StopBeforeBackup(p, o, i, c);
    }
    forall j | 0 <= j < i && p.Trace(o)[j] == StopCall(c.id, true) ensures c.service in p.stop {
      StoppedIsInStopSet(p, o, j, c);
    }
    forall k | 0 <= k < i ensures p.Trace(o)[k] != StartCall(c.id) {
      PhaseAt(p, o, i);
      PhaseAt(p, o, k);
    }
    if c.stopBefore { SeedsAreStopped(p, c); }
  }

  lemma StopBeforeBackup(p: Plan, o: Outcomes, i: nat, c: Container) returns (j: nat)
    requires p.Valid() && c in p.members && c.service in p.stop
    requires i < |p.Trace(o)| && p.Trace(o)[i].BackupCall? && p.Trace(o)[i].id == c.id
    ensures j < i && p.Trace(o)[j] == StopCall(c.id, true)
  {
    TargetsAreStopServices(p);
    j :| 0 <= j < |p.Targets()| && p.Targets()[j] == c;
    BackupIsAfterStops(p, o, i);
    StopAt(p, o, j);
    assert c.id in p.Skipped(o) <==> !o.stop(c.id).Stopped?;
  }

  lemma BackupIsAfterStops(p: Plan, o: Outcomes, i: nat)
    requires i < |p.Trace(o)| && p.Trace(o)[i].BackupCall?
    ensures |p.Targets()| <= i && p.Trace(o)[i].id !in p.Skipped(o)
  {
    PhaseAt(p, o, i);
  }

  lemma StopAt(p: Plan, o: Outcomes, j: nat)
    requires j < |p.Targets()|
    ensures j < |p.Trace(o)|
    ensures p.Trace(o)[j] == StopCall(p.Targets()[j].id, o.stop(p.Targets()[j].id).Stopped?)
  {
    TraceLength(p, o);
    PhaseAt(p, o, j);
  }

  lemma StoppedIsInStopSet(p: Plan, o: Outcomes, j: nat, c: Container)
    requires p.Valid() && c in p.members && j < |p.Trace(o)| && p.Trace(o)[j] == StopCall(c.id, true)
    ensures c.service in p.stop
  {
    TargetsAreStopServices(p);
    PhaseAt(p, o, j);
    assert p.Targets()[j] in p.Targets();
    SameIdSameContainer(p.all, c, p.Targets()[j]);
  }

  /** Whether a member that asks to be stopped is in the stop set. */
  lemma SeedsAreStopped(p: Plan, c: Container)
    requires p.Valid() && c in p.members && c.stopBefore
    ensures c.service in p.stop <==> c.service != "" || MustStop(p.graph, p.members, "")
    ensures "" !in p.graph ==> (c.service in p.stop <==> c.service != "")
  {
    forall s | Reaches(p.graph, "", s) ensures "" in p.graph { ReachesStarts(p.graph, "", s); }
  }

  /**
   The backup calls of a trace: one for each member whose stop did not fail,
   with that backup's result, and no other. So a named service is backed up at
   most once, whatever the results.
   */
  lemma BackedUpAtMostOnce(p: Plan, o: Outcomes, e: Call)
    requires p.Valid() && e.BackupCall?
    ensures multiset(p.Trace(o))[e] == if IsBackupOf(e, p.members, p.Skipped(o), o) then 1 else 0
    ensures forall f :: e in p.Trace(o) && f in p.Trace(o) && f.BackupCall? ==>
      && e.at < |p.members| && f.at < |p.members|
      && (p.members[e.at].service == p.members[f.at].service != "" ==> e == f)
  {
    BackupCount(p, o, e);
    forall f: Call | f in p.Trace(o) && f.BackupCall? ensures IsBackupOf(f, p.members, p.Skipped(o), o) {
      BackupCount(p, o, f);
      assert f in multiset(p.Trace(o));
    }
  }

  lemma BackupCount(p: Plan, o: Outcomes, e: Call)
    requires e.BackupCall?
    ensures multiset(p.Trace(o))[e] == if IsBackupOf(e, p.members, p.Skipped(o), o) then 1 else 0
  {
    var t := BackupTrace(p.members, p.Skipped(o), o);
    BackupTraceMembers(p.members, p.Skipped(o), o);
    assert NoDuplicates(t);
    NoDuplicatesCounts(t);
    TraceCounts(p, o, e);
    assert e in t <==> e in multiset(t);
  }

  // ----- accounting

  ghost predicate DistinctServices(ctrs: seq<Container>) {
    forall i, j :: 0 <= i < j < |ctrs| ==> ctrs[i].service != ctrs[j].service
  }

  lemma DistinctServicesSnoc(rest: seq<Container>, c: Container)
    ensures DistinctServices(rest + [c]) <==> DistinctServices(rest) && c.service !in ServiceNames(rest)
  {
    var all := rest + [c];
    assert forall i :: 0 <= i < |rest| ==> all[i] == rest[i] && rest[i].service in ServiceNames(rest);
    if c.service in ServiceNames(rest) {
      var i :| 0 <= i < |rest| && rest[i].service == c.service;
      assert all[i].service == all[|rest|].service;
    }
  }

  lemma {:induction false} ServiceNamesSize(ctrs: seq<Container>)
    ensures |ServiceNames(ctrs)| <= |ctrs|
    ensures |ServiceNames(ctrs)| == |ctrs| <==> DistinctServices(ctrs)
  {
    if ctrs != [] {
      var rest, c := ctrs[..|ctrs| - 1], ctrs[|ctrs| - 1];
      ServiceNamesSize(rest);
      assert ctrs == rest + [c];
      ServiceNamesAppend(rest, c);
      DistinctServicesSnoc(rest, c);
      if c.service in ServiceNames(rest) { assert ServiceNames(ctrs) == ServiceNames(rest); }
    }
  }

  lemma {:induction false} FailedOfServices(members: seq<Container>, stopFailed: set<string>, o: Outcomes)
    ensures ServiceNames(FailedOf(members, stopFailed, o)) == FailedServices(members, stopFailed, o)
  {
    if members != [] {
      var n := |members| - 1;
      FailedOfServices(members[..n], stopFailed, o);
      FailedServicesSnoc(members, n, stopFailed, o);
      assert members[..n + 1] == members;
      ServiceNamesAppend(FailedOf(members[..n], stopFailed, o), members[n]);
    }
  }

  lemma {:induction false} FailedOfDistinct(members: seq<Container>, stopFailed: set<string>, o: Outcomes)
    requires DistinctServices(members)
    ensures DistinctServices(FailedOf(members, stopFailed, o))
  {
    if members != [] {
      var n := |members| - 1;
      FailedOfDistinct(members[..n], stopFailed, o);
      FailedOfServices(members[..n], stopFailed, o);
      DistinctServicesSnoc(FailedOf(members[..n], stopFailed, o), members[n]);
    }
  }

  lemma {:induction false} FailedOfAll(members: seq<Container>, stopFailed: set<string>, o: Outcomes)
    requires forall i: nat :: i < |members| ==> Failed(members, i, stopFailed, o)
    ensures FailedOf(members, stopFailed, o) == members
  {
    if members != [] {
      var n := |members| - 1;
      assert members == members[..n] + [members[n]];
      forall i: nat | i < n ensures Failed(members[..n], i, stopFailed, o) {
        assert Failed(members, i, stopFailed, o);
      }
      FailedOfAll(members[..n], stopFailed, o);
    }
  }

  ghost predicate CountsFailures(p: Plan, o: Outcomes) {
    |p.Errors(o)| == |FailedOf(p.members, p.Skipped(o), o)|
  }

  lemma ErrorsAreFailedServices(p: Plan, o: Outcomes)
    ensures p.Errors(o) == ServiceNames(FailedOf(p.members, p.Skipped(o), o))
    ensures CountsFailures(p, o) <==> DistinctServices(FailedOf(p.members, p.Skipped(o), o))
  {
    FailedOfServices(p.members, p.Skipped(o), o);
    ServiceNamesSize(FailedOf(p.members, p.Skipped(o), o));
  }

  ghost predicate AtMostOneNameless(ctrs: seq<Container>) {
    forall i, j :: 0 <= i < j < |ctrs| ==> ctrs[i].service != "" || ctrs[j].service != ""
  }

  lemma AllFail(p: Plan, o: Outcomes)
    requires forall i :: !o.backup(i)
    ensures CountsFailures(p, o) <==> DistinctServices(p.members)
  {
    FailedOfAll(p.members, p.Skipped(o), o);
    ErrorsAreFailedServices(p, o);
  }

  /**
   `len(backupErrors)` is keyed by service. It is the number of failed members
   in every outcome exactly if at most one member has no service.
   */
  lemma ErrorsCountFailuresExactlyWhen(p: Plan)
    requires p.Valid()
    ensures (forall o :: CountsFailures(p, o)) <==> AtMostOneNameless(p.members)
  {
    OnePerServiceDistinct(p.members);
    if AtMostOneNameless(p.members) {
      forall o ensures CountsFailures(p, o) { DistinctCountsFailures(p, o); }
    } else {
      var o := OutcomeThatFailsAll(p);
    }
  }

  lemma OutcomeThatFailsAll(p: Plan) returns (o: Outcomes)
    requires !DistinctServices(p.members)
    ensures !CountsFailures(p, o)
  {
    o := Outcomes(_ => Stopped, _ => true, _ => false);
    AllFail(p, o);
  }

  lemma OnePerServiceDistinct(ctrs: seq<Container>)
    requires OnePerService(ctrs)
    ensures DistinctServices(ctrs) <==> AtMostOneNameless(ctrs)
  {
  }

  lemma DistinctCountsFailures(p: Plan, o: Outcomes)
    requires DistinctServices(p.members)
    ensures CountsFailures(p, o)
  {
    FailedOfDistinct(p.members, p.Skipped(o), o);
    ErrorsAreFailedServices(p, o);
  }

  /** In this outcome, retention runs for exactly the members that did not fail. */
  ghost predicate RetentionSparesFailures(p: Plan, o: Outcomes) {
    forall i: nat :: i < |p.members| ==>
      (RetentionCall(i, p.members[i].id) in p.Trace(o) <==> !Failed(p.members, i, p.Skipped(o), o))
  }

  /**
   Retention runs for exactly the members that did not fail, in every outcome,
   if and only if at most one member has no service.
   */
  lemma RetentionSparesFailuresExactlyWhen(p: Plan)
    requires p.Valid()
    ensures (forall o :: RetentionSparesFailures(p, o)) <==> AtMostOneNameless(p.members)
  {
    if AtMostOneNameless(p.members) {
      forall o ensures RetentionSparesFailures(p, o) { OneNamelessSpares(p, o); }
    } else {
      var o := OutcomeThatFailsOne(p);
    }
  }

  lemma OutcomeThatFailsOne(p: Plan) returns (o: Outcomes)
    requires p.Valid() && !AtMostOneNameless(p.members)
    ensures !RetentionSparesFailures(p, o)
  {
    var i: nat, j: nat :| i < j < |p.members| && p.members[i].service == p.members[j].service == "";
    o := Outcomes(_ => Stopped, _ => true, k => k != i);
    NothingSkipped(p, o);
    RetentionRunsUnlessServiceFailed(p, o, j);
    assert Failed(p.members, i, p.Skipped(o), o) && !Failed(p.members, j, p.Skipped(o), o);
    assert p.members[i].service in p.Errors(o);
  }

  lemma OneNamelessSpares(p: Plan, o: Outcomes)
    requires p.Valid() && AtMostOneNameless(p.members)
    ensures RetentionSparesFailures(p, o)
  {
    OnePerServiceDistinct(p.members);
    forall i: nat | i < |p.members|
      ensures RetentionCall(i, p.members[i].id) in p.Trace(o) <==> !Failed(p.members, i, p.Skipped(o), o)
    {
      RetentionRunsUnlessServiceFailed(p, o, i);
      if p.members[i].service in p.Errors(o) {
        var j: nat :| j < |p.members| && Failed(p.members, j, p.Skipped(o), o) &&
          p.members[j].service == p.members[i].service;
        assert i == j;
      }
    }
  }

  lemma NothingSkipped(p: Plan, o: Outcomes)
    requires forall id :: o.stop(id) == Stopped
    ensures p.Skipped(o) == {}
  {
  }

  lemma RetentionRunsUnlessServiceFailed(p: Plan, o: Outcomes, i: nat)
    requires p.Valid() && i < |p.members|
    ensures RetentionCall(i, p.members[i].id) in p.Trace(o) <==> p.members[i].service !in p.Errors(o)
  {
    var e, r := RetentionCall(i, p.members[i].id), RetentionTrace(p.members, p.Errors(o));
    TraceCounts(p, o, e);
    RetentionTraceMembers(p.members, p.Errors(o));
    assert (e in p.Trace(o) <==> e in multiset(p.Trace(o))) && (e in r <==> e in multiset(r));
  }
}
