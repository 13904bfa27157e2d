/**
 internal/backup/stack.go: the runner's methods over the state they change.
 Each is proved to extend the trace and to change the running and ignored
 containers as the functions of StackCycle say.
 */
module StackRunner {
  import opened Strings
  import opened Containers
  import opened DependencyGraph
  import opened ServiceOrder
  import opened StopSet
  import opened StackCycle

  // ----- the stop loop, one container at a time

  /** The variables of the stop loop. */
  datatype StopState = StopState(
    wasStopped: set<string>, stopFailed: set<string>, ignored: set<string>,
    ignoredIDs: set<string>, running: set<string>, trace: seq<Call>)

  ghost function AfterStop(s: StopState, c: Container, o: Outcomes): StopState {
    var ignoring := s.(ignored := s.ignored + {c.id}, ignoredIDs := s.ignoredIDs + {c.id});
    match o.stop(c.id)
    case Stopped =>
      ignoring.(
        wasStopped := s.wasStopped + {c.id}, running := s.running - {c.id},
        trace := s.trace + [StopCall(c.id, true)])
    case StopFailed(left) =>
      ignoring.(
        stopFailed := s.stopFailed + {c.id},
        ignored := ignoring.ignored - {c.id}, ignoredIDs := ignoring.ignoredIDs - {c.id},
        running := if left then s.running + {c.id} else s.running - {c.id},
        trace := s.trace + [StopCall(c.id, false)])
  }

  ghost function AfterStops(s: StopState, targets: seq<Container>, o: Outcomes): StopState {
    if targets == [] then s
    else AfterStop(AfterStops(s, targets[..|targets| - 1], o), targets[|targets| - 1], o)
  }

  lemma {:induction false} AfterStopsConcat(s: StopState, a: seq<Container>, b: seq<Container>, o: Outcomes)
    ensures AfterStops(s, a + b, o) == AfterStops(AfterStops(s, a, o), b, o)
  {
    if b == [] {
      assert a + b == a;
    } else {
      AfterStopsConcat(s, a, b[..|b| - 1], o);
      assert (a + b)[..|a + b| - 1] == a + b[..|b| - 1];
    }
  }

  lemma AfterStopsFilter(s: StopState, ctrs: seq<Container>, i: nat, pick: set<Container>, o: Outcomes)
    requires i < |ctrs|
    ensures var before := AfterStops(s, Filter(ctrs[..i], pick), o);
            AfterStops(s, Filter(ctrs[..i + 1], pick), o) ==
            if ctrs[i] in pick then AfterStop(before, ctrs[i], o) else before
  {
    FilterSnoc(ctrs, i, pick);
    var before := Filter(ctrs[..i], pick);
    assert (before + [ctrs[i]])[..|before|] == before;
  }

  lemma AfterStopsSweep(s: StopState, svcs: seq<string>, i: nat, all: seq<Container>, pick: set<Container>, o: Outcomes)
    requires i < |svcs|
    ensures AfterStops(s, Sweep(svcs[..i + 1], all, pick), o) ==
            AfterStops(AfterStops(s, Sweep(svcs[..i], all, pick), o), Filter(InService(all, svcs[i]), pick), o)
  {
    SweepSnoc(svcs, i, all, pick);
    AfterStopsConcat(s, Sweep(svcs[..i], all, pick), Filter(InService(all, svcs[i]), pick), o);
  }

  /** What the loop has done when it is over, for every pattern of failures. */
  lemma AfterStopsInClosedForm(s: StopState, targets: seq<Container>, o: Outcomes)
    requires DistinctIds(targets)
    requires s.wasStopped == s.stopFailed == s.ignored == {}
    ensures var r := AfterStops(s, targets, o);
            && r.wasStopped == StoppedIds(targets, o) == r.ignored
            && r.stopFailed == FailedIds(targets, o)
            && r.ignoredIDs == s.ignoredIDs + StoppedIds(targets, o) - FailedIds(targets, o)
            && r.running == RunningAfterStops(s.running, targets, o)
            && r.trace == s.trace + StopTrace(targets, o)
  {
    AfterStopsOutcome(s, targets, o);
    AfterStopsIgnored(s, targets, o);
    AfterStopsTrace(s, targets, o);
    assert {} + StoppedIds(targets, o) - FailedIds(targets, o) == StoppedIds(targets, o) by {
      DistinctOutcomes(targets, o);
    }
  }

  lemma DistinctOutcomes(targets: seq<Container>, o: Outcomes)
    ensures StoppedIds(targets, o) !! FailedIds(targets, o)
  {
  }

  lemma LastTarget(targets: seq<Container>)
    requires DistinctIds(targets) && targets != []
    ensures targets == targets[..|targets| - 1] + [targets[|targets| - 1]]
    ensures targets[|targets| - 1].id !in Ids(targets[..|targets| - 1])
    ensures DistinctIds(targets[..|targets| - 1])
  {
  }

  lemma {:induction false} AfterStopsOutcome(s: StopState, targets: seq<Container>, o: Outcomes)
    requires DistinctIds(targets) && s.wasStopped == s.stopFailed == {}
    ensures var r := AfterStops(s, targets, o);
            && r.wasStopped == StoppedIds(targets, o)
            && r.stopFailed == FailedIds(targets, o)
            && r.running == RunningAfterStops(s.running, targets, o)
  {
    if targets != [] {
      var done, c := targets[..|targets| - 1], targets[|targets| - 1];
      LastTarget(targets);
      AfterStopsOutcome(s, done, o);
      StopSnoc(done, c, o, s.running);
    }
  }

  lemma {:induction false} AfterStopsIgnored(s: StopState, targets: seq<Container>, o: Outcomes)
    requires DistinctIds(targets)
    ensures var r := AfterStops(s, targets, o);
            && r.ignored == s.ignored + StoppedIds(targets, o) - FailedIds(targets, o)
            && r.ignoredIDs == s.ignoredIDs + StoppedIds(targets, o) - FailedIds(targets, o)
  {
    if targets != [] {
      var done, c := targets[..|targets| - 1], targets[|targets| - 1];
      LastTarget(targets);
      AfterStopsIgnored(s, done, o);
      IgnoredSnoc(s.ignored, done, c, o);
      IgnoredSnoc(s.ignoredIDs, done, c, o);
    }
  }

  lemma IgnoredSnoc(ids: set<string>, done: seq<Container>, c: Container, o: Outcomes)
    requires c.id !in Ids(done)
    ensures c.id !in StoppedIds(done, o) && c.id !in FailedIds(done, o)
    ensures var before := ids + StoppedIds(done, o) - FailedIds(done, o);
            ids + StoppedIds(done + [c], o) - FailedIds(done + [c], o) ==
            if o.stop(c.id).Stopped? then before + {c.id} else before + {c.id} - {c.id}
  {
    StopSnoc(done, c, o, {});
    assert StoppedIds(done, o) <= Ids(done) && FailedIds(done, o) <= Ids(done);
  }

  lemma {:induction false} AfterStopsTrace(s: StopState, targets: seq<Container>, o: Outcomes)
    ensures AfterStops(s, targets, o).trace == s.trace + StopTrace(targets, o)
  {
    if targets != [] {
      var done, c := targets[..|targets| - 1], targets[|targets| - 1];
      AfterStopsTrace(s, done, o);
      Associative(s.trace, StopTrace(done, o), [StopCall(c.id, o.stop(c.id).Stopped?)]);
    } else {
      assert s.trace + [] == s.trace;
    }
  }

  lemma StopSnoc(done: seq<Container>, c: Container, o: Outcomes, running: set<string>)
    requires c.id !in Ids(done)
    ensures StoppedIds(done + [c], o) ==
            if o.stop(c.id).Stopped? then StoppedIds(done, o) + {c.id} else StoppedIds(done, o)
    ensures FailedIds(done + [c], o) ==
            if o.stop(c.id).Stopped? then FailedIds(done, o) else FailedIds(done, o) + {c.id}
    ensures var before := RunningAfterStops(running, done, o);
            RunningAfterStops(running, done + [c], o) ==
            if o.stop(c.id) == StopFailed(true) then before + {c.id} else before - {c.id}
  {
    var after := done + [c];
    assert Ids(after) == Ids(done) + {c.id};
    assert LeftRunning(after, o) ==
           if o.stop(c.id) == StopFailed(true) then LeftRunning(done, o) + {c.id} else LeftRunning(done, o);
    assert LeftRunning(done, o) <= Ids(done);
  }

  // ----- the start loop, one container at a time

  datatype StartState = StartState(running: set<string>, trace: seq<Call>)

  ghost function AfterStart(s: StartState, c: Container, o: Outcomes): StartState {
    StartState(if o.start(c.id) then s.running + {c.id} else s.running, s.trace + [StartCall(c.id)])
  }

  ghost function AfterStarts(s: StartState, started: seq<Container>, o: Outcomes): StartState {
    if started == [] then s
    else AfterStart(AfterStarts(s, started[..|started| - 1], o), started[|started| - 1], o)
  }

  lemma {:induction false} AfterStartsConcat(s: StartState, a: seq<Container>, b: seq<Container>, o: Outcomes)
    ensures AfterStarts(s, a + b, o) == AfterStarts(AfterStarts(s, a, o), b, o)
  {
    if b == [] {
      assert a + b == a;
    } else {
      AfterStartsConcat(s, a, b[..|b| - 1], o);
      assert (a + b)[..|a + b| - 1] == a + b[..|b| - 1];
    }
  }

  lemma AfterStartsFilter(s: StartState, ctrs: seq<Container>, i: nat, pick: set<Container>, o: Outcomes)
    requires i < |ctrs|
    ensures var before := AfterStarts(s, Filter(ctrs[..i], pick), o);
            AfterStarts(s, Filter(ctrs[..i + 1], pick), o) ==
            if ctrs[i] in pick then AfterStart(before, ctrs[i], o) else before
  {
    FilterSnoc(ctrs, i, pick);
    var before := Filter(ctrs[..i], pick);
    assert (before + [ctrs[i]])[..|before|] == before;
  }

  lemma AfterStartsSweep(
    s: StartState, svcs: seq<string>, i: nat, all: seq<Container>, pick: set<Container>, o: Outcomes)
    requires i < |svcs|
    ensures AfterStarts(s, Sweep(svcs[..i + 1], all, pick), o) ==
            AfterStarts(AfterStarts(s, Sweep(svcs[..i], all, pick), o), Filter(InService(all, svcs[i]), pick), o)
  {
    SweepSnoc(svcs, i, all, pick);
    AfterStartsConcat(s, Sweep(svcs[..i], all, pick), Filter(InService(all, svcs[i]), pick), o);
  }

  lemma {:induction false} AfterStartsInClosedForm(s: StartState, started: seq<Container>, o: Outcomes)
    ensures AfterStarts(s, started, o) ==
            StartState(RunningAfterStarts(s.running, started, o), s.trace + StartTrace(started))
  {
    if started != [] {
      var done, c := started[..|started| - 1], started[|started| - 1];
      AfterStartsInClosedForm(s, done, o);
      assert started == done + [c];
    }
  }

  class Runner {
    /** `ignoredIDs`: containers whose events the watcher disregards. */
    var ignoredIDs: set<string>
    /** Docker's side: the ids of the running containers. */
    var running: set<string>
    /** The calls made so far. */
    var trace: seq<Call>

    constructor (running: set<string>)
      ensures ignoredIDs == {} && this.running == running && trace == []
    {
      ignoredIDs, this.running, trace := {}, running, [];
    }

    method StopContainer(ctr: Container, o: Outcomes) returns (ok: bool)
      modifies this`running, this`trace
      ensures ok == o.stop(ctr.id).Stopped?
      ensures running == if o.stop(ctr.id) == StopFailed(true) then old(running) + {ctr.id} else old(running) - {ctr.id}
      ensures trace == old(trace) + [StopCall(ctr.id, ok)]
    {
      match o.stop(ctr.id) {
        case Stopped =>
          ok, running := true, running - {ctr.id};
        case StopFailed(left) =>
          ok, running := false, if left then running + {ctr.id} else running - {ctr.id};
      }
      trace := trace + [StopCall(ctr.id, ok)];
    }

    method StartContainer(ctr: Container, o: Outcomes)
      modifies this`running, this`trace
      ensures running == if o.start(ctr.id) then old(running) + {ctr.id} else old(running)
      ensures trace == old(trace) + [StartCall(ctr.id)]
    {
      trace := trace + [StartCall(ctr.id)];
      if o.start(ctr.id) {
        running := running + {ctr.id};
      }
    }

    ghost function Stopping(wasStopped: set<string>, stopFailed: set<string>, ignored: set<string>): StopState
      reads this
    {
      StopState(wasStopped, stopFailed, ignored, ignoredIDs, running, trace)
    }

    ghost function Starting(): StartState
      reads this
    {
      StartState(running, trace)
    }

    /** The inner loop of `stopStackServices`, over the three maps that the outer loop fills. */
    method StopService(
        svc: string, ctrs: seq<Container>, stopSvc: set<string>, o: Outcomes,
        wasStopped0: set<string>, stopFailed0: set<string>, ignored0: set<string>, ghost pick: set<Container>)
      returns (wasStopped: set<string>, stopFailed: set<string>, ignored: set<string>)
      requires forall c :: c in ctrs ==> (c in pick <==> svc in stopSvc)
      modifies this
      ensures Stopping(wasStopped, stopFailed, ignored) ==
              AfterStops(old(Stopping(wasStopped0, stopFailed0, ignored0)), Filter(ctrs, pick), o)
    {
      wasStopped, stopFailed, ignored := wasStopped0, stopFailed0, ignored0;
      ghost var s := Stopping(wasStopped0, stopFailed0, ignored0);
      for j := 0 to |ctrs|
        invariant Stopping(wasStopped, stopFailed, ignored) == AfterStops(s, Filter(ctrs[..j], pick), o)
      {
        var ctr := ctrs[j];
        AfterStopsFilter(s, ctrs, j, pick, o);
        if svc !in stopSvc {
          continue;
        }
        ignoredIDs := ignoredIDs + {ctr.id};
        ignored := ignored + {ctr.id};
        var ok := StopContainer(ctr, o);
        if !ok {
          stopFailed := stopFailed + {ctr.id};
          ignoredIDs := ignoredIDs - {ctr.id};
          ignored := ignored - {ctr.id};
          continue;
        }
        wasStopped := wasStopped + {ctr.id};
      }
      assert ctrs[..|ctrs|] == ctrs;
    }

    /** The outer loop of `stopStackServices`. */
    method StopInOrder(
        list: seq<string>, services: map<string, seq<Container>>, stopSvc: set<string>, o: Outcomes,
        ghost all: seq<Container>, ghost pick: set<Container>)
      returns (wasStopped: set<string>, stopFailed: set<string>, ignored: set<string>)
      requires IsGrouping(services, all)
      requires pick == set c | c in all && c.service in stopSvc
      modifies this
      ensures Stopping(wasStopped, stopFailed, ignored) ==
              AfterStops(old(Stopping({}, {}, {})), Sweep(list, all, pick), o)
    {
      wasStopped, stopFailed, ignored := {}, {}, {};
      for i := 0 to |list|
        invariant Stopping(wasStopped, stopFailed, ignored) ==
                  AfterStops(old(Stopping({}, {}, {})), Sweep(list[..i], all, pick), o)
      {
        var svc := list[i];
        var ctrs := Group(services, svc);
        InServiceMembers(all, svc);
        AfterStopsSweep(old(Stopping({}, {}, {})), list, i, all, pick, o);
        wasStopped, stopFailed, ignored := StopService(svc, ctrs, stopSvc, o, wasStopped, stopFailed, ignored, pick);
      }
      assert list[..|list|] == list;
    }

    method StopStackServices(
        services: map<string, seq<Container>>, stopSvc: set<string>, deps: DepMap, o: Outcomes,
        ghost all: seq<Container>, ghost pick: set<Container>)
      returns (wasStopped: set<string>, stopFailed: set<string>, ignored: set<string>, ghost svcs: seq<string>)
      requires DistinctIds(all) && IsGrouping(services, all)
      requires pick == set c | c in all && c.service in stopSvc
      modifies this
      ensures Extends(StopOrder(GraphOf(deps)), stopSvc, svcs)
      ensures wasStopped == StoppedIds(Sweep(svcs, all, pick), o) == ignored
      ensures stopFailed == FailedIds(Sweep(svcs, all, pick), o)
      ensures ignoredIDs == old(ignoredIDs) + wasStopped - stopFailed
      ensures running == RunningAfterStops(old(running), Sweep(svcs, all, pick), o)
      ensures trace == old(trace) + StopTrace(Sweep(svcs, all, pick), o)
    {
      var stopOrder, _ := ReverseTopological(deps);
      StopOrderIsEnumeration(GraphOf(deps));
      var list := AppendUnordered(stopOrder[..], stopSvc);
      svcs := list;
      wasStopped, stopFailed, ignored := StopInOrder(list, services, stopSvc, o, all, pick);
      SweepDistinct(svcs, all, pick);
      AfterStopsInClosedForm(old(Stopping({}, {}, {})), Sweep(svcs, all, pick), o);
    }

    method BackupStackServices(members: seq<Container>, stopFailed: set<string>, o: Outcomes)
      returns (backupErrors: map<string, BackupError>, issues: seq<(string, BackupError)>)
      modifies this`trace
      ensures backupErrors == ErrorMap(members, stopFailed, o)
      ensures issues == IssuesOf(FailedOf(members, stopFailed, o), stopFailed)
      ensures trace == old(trace) + BackupTrace(members, stopFailed, o)
    {
      backupErrors, issues := map[], [];
      for i := 0 to |members|
        invariant backupErrors == ErrorMap(members[..i], stopFailed, o)
        invariant issues == IssuesOf(FailedOf(members[..i], stopFailed, o), stopFailed)
        invariant trace == old(trace) + BackupTrace(members[..i], stopFailed, o)
      {
        var ctr := members[i];
        FailedSnoc(members, i, stopFailed, o);
        if ctr.id in stopFailed {
          backupErrors := backupErrors[ctr.service := StopFailure];
          issues := issues + [(ctr.service, StopFailure)];
          continue;
        }
        trace := trace + [BackupCall(i, ctr.id, o.backup(i))];
        if !o.backup(i) {
          backupErrors := backupErrors[ctr.service := MountFailure];
          issues := issues + [(ctr.service, MountFailure)];
        }
      }
      assert members[..|members|] == members;
    }

    static lemma FailedSnoc(members: seq<Container>, i: nat, stopFailed: set<string>, o: Outcomes)
      requires i < |members|
      ensures var c, before, after := members[i], members[..i], members[..i + 1];
              var failed, fails := FailedOf(before, stopFailed, o), Failed(members, i, stopFailed, o);
              && ErrorMap(after, stopFailed, o) ==
                 (if fails then ErrorMap(before, stopFailed, o)[c.service := ErrorOf(c, stopFailed)]
                  else ErrorMap(before, stopFailed, o))
              && IssuesOf(FailedOf(after, stopFailed, o), stopFailed) ==
                 (if fails then IssuesOf(failed, stopFailed) + [(c.service, ErrorOf(c, stopFailed))]
                  else IssuesOf(failed, stopFailed))
              && BackupTrace(after, stopFailed, o) ==
                 (if c.id in stopFailed then BackupTrace(before, stopFailed, o)
                  else BackupTrace(before, stopFailed, o) + [BackupCall(i, c.id, o.backup(i))])
    {
      var failed := FailedOf(members[..i], stopFailed, o);
      assert members[..i + 1][..i] == members[..i];
      assert (failed + [members[i]])[..|failed|] == failed;
    }

    /** The inner loop of `startStackServices`. */
    method StartService(ctrs: seq<Container>, wasStopped: set<string>, o: Outcomes, ghost pick: set<Container>)
      requires forall c :: c in ctrs ==> (c in pick <==> c.id in wasStopped)
      modifies this`running, this`trace
      ensures Starting() == AfterStarts(old(Starting()), Filter(ctrs, pick), o)
    {
      for j := 0 to |ctrs|
        invariant Starting() == AfterStarts(old(Starting()), Filter(ctrs[..j], pick), o)
      {
        var ctr := ctrs[j];
        AfterStartsFilter(old(Starting()), ctrs, j, pick, o);
        if ctr.id !in wasStopped {
          continue;
        }
        StartContainer(ctr, o);
      }
      assert ctrs[..|ctrs|] == ctrs;
    }

    /** The outer loop of `startStackServices`. */
    method StartInOrder(
        list: seq<string>, services: map<string, seq<Container>>, wasStopped: set<string>, o: Outcomes,
        ghost all: seq<Container>, ghost pick: set<Container>)
      requires IsGrouping(services, all)
      requires pick == set c | c in all && c.id in wasStopped
      modifies this`running, this`trace
      ensures Starting() == AfterStarts(old(Starting()), Sweep(list, all, pick), o)
    {
      for i := 0 to |list|
        invariant Starting() == AfterStarts(old(Starting()), Sweep(list[..i], all, pick), o)
      {
        var ctrs := Group(services, list[i]);
        InServiceMembers(all, list[i]);
        AfterStartsSweep(old(Starting()), list, i, all, pick, o);
        StartService(ctrs, wasStopped, o, pick);
      }
      assert list[..|list|] == list;
    }

    method StartStackServices(
        services: map<string, seq<Container>>, deps: DepMap, wasStopped: set<string>, o: Outcomes,
        ghost all: seq<Container>, ghost pick: set<Container>)
      returns (ghost svcs: seq<string>)
      requires IsGrouping(services, all)
      requires pick == set c | c in all && c.id in wasStopped
      modifies this`running, this`trace
      ensures Extends(StartOrder(GraphOf(deps)), ServiceNames(all), svcs)
      ensures running == RunningAfterStarts(old(running), Sweep(svcs, all, pick), o)
      ensures trace == old(trace) + StartTrace(Sweep(svcs, all, pick))
    {
      var startOrder, _ := Topological(deps);
      StartOrderIsEnumeration(GraphOf(deps));
      var list := AppendUnordered(startOrder, services.Keys);
      svcs := list;
      StartInOrder(list, services, wasStopped, o, all, pick);
      AfterStartsInClosedForm(old(Starting()), Sweep(svcs, all, pick), o);
    }

    method RunRetention(members: seq<Container>, backupErrors: map<string, BackupError>)
      modifies this`trace
      ensures trace == old(trace) + RetentionTrace(members, backupErrors.Keys)
    {
      for i := 0 to |members|
        invariant trace == old(trace) + RetentionTrace(members[..i], backupErrors.Keys)
      {
        var ctr := members[i];
        assert members[..i + 1][..i] == members[..i];
        if ctr.service !in backupErrors {
          trace := trace + [RetentionCall(i, ctr.id)];
        }
      }
      assert members[..|members|] == members;
    }

    method ReleaseBatch(ignored: set<string>)
      modifies this`ignoredIDs
      ensures ignoredIDs == old(ignoredIDs) - ignored
    {
      var left := ignored;
      while left != {}
        invariant left <= ignored && ignoredIDs == old(ignoredIDs) - (ignored - left)
        decreases left
      {
        var id :| id in left;
        ignoredIDs := ignoredIDs - {id};
        left := left - {id};
      }
    }

    static method IndexById(all: seq<Container>) returns (byID: map<string, Container>)
      ensures byID == ById(all)
    {
      byID := map[];
      for i := 0 to |all|
        invariant byID == ById(all[..i])
      {
        assert all[..i + 1][..i] == all[..i];
        byID := byID[all[i].id := all[i]];
      }
      assert all[..|all|] == all;
    }

    static method Inspect(batch: seq<Container>, byID: map<string, Container>) returns (found: seq<Container>)
      ensures found == Inspected(batch, byID)
    {
      found := [];
      for i := 0 to |batch|
        invariant found == Inspected(batch[..i], byID)
      {
        assert batch[..i + 1][..i] == batch[..i];
        if batch[i].id !in byID {
          continue;
        }
        found := found + [byID[batch[i].id]];
      }
      assert batch[..|batch|] == batch;
    }

    /** Stopping, backing up, starting and cleaning up, in this order. */
    method RunPhases(members: seq<Container>, all: seq<Container>, stop: set<string>, deps: DepMap, o: Outcomes)
      returns (ghost stopSvcs: seq<string>, ghost startSvcs: seq<string>)
      requires DistinctIds(all)
      modifies this
      ensures Extends(StopOrder(GraphOf(deps)), stop, stopSvcs)
      ensures Extends(StartOrder(GraphOf(deps)), ServiceNames(all), startSvcs)
      ensures var plan := Plan(all, members, GraphOf(deps), stop, stopSvcs, startSvcs);
              && trace == old(trace) + plan.Trace(o)
              && running == plan.FinalRunning(old(running), o)
              && ignoredIDs == old(ignoredIDs) - Ids(plan.Targets())
    {
      var services := ServiceContainers(all);
      ghost var stopPick := set c | c in all && c.service in stop;
      var wasStopped, stopFailed, ignored, svcs := StopStackServices(services, stop, deps, o, all, stopPick);
      stopSvcs := svcs;
      var backupErrors, issues := BackupStackServices(members, stopFailed, o);
      ghost var startPick := set c | c in all && c.id in wasStopped;
      startSvcs := StartStackServices(services, deps, wasStopped, o, all, startPick);
      RunRetention(members, backupErrors);
      ErrorMapKeys(members, stopFailed, o);
      ReleaseBatch(ignored);
      PhasesFollowPlan(Plan(all, members, GraphOf(deps), stop, stopSvcs, startSvcs), o, stopPick, startPick,
        old(trace), old(running), old(ignoredIDs));
    }

    /** The phases, one after the other, add up to the plan. */
    static lemma PhasesFollowPlan(
        plan: Plan, o: Outcomes, stopPick: set<Container>, startPick: set<Container>,
        trace: seq<Call>, running: set<string>, ids: set<string>)
      requires stopPick == plan.StopPick() && startPick == plan.StartPick(o)
      ensures var targets := Sweep(plan.stopSvcs, plan.all, stopPick);
              var startees := Sweep(plan.startSvcs, plan.all, startPick);
              var failed := FailedIds(targets, o);
              && targets == plan.Targets()
              && trace + StopTrace(targets, o) + BackupTrace(plan.members, failed, o) + StartTrace(startees) +
                 RetentionTrace(plan.members, FailedServices(plan.members, failed, o)) == trace + plan.Trace(o)
              && RunningAfterStarts(RunningAfterStops(running, targets, o), startees, o) ==
                 plan.FinalRunning(running, o)
              && ids + StoppedIds(targets, o) - failed - StoppedIds(targets, o) == ids - Ids(targets)
    {
      ReleasedIds(ids, plan.Targets(), o);
      FourParts(trace, StopTrace(plan.Targets(), o), BackupTrace(plan.members, plan.Skipped(o), o),
        StartTrace(plan.Startees(o)), RetentionTrace(plan.members, plan.Errors(o)));
    }

    static lemma ReleasedIds(ids: set<string>, targets: seq<Container>, o: Outcomes)
      ensures ids + StoppedIds(targets, o) - FailedIds(targets, o) - StoppedIds(targets, o) == ids - Ids(targets)
    {
      assert Ids(targets) == StoppedIds(targets, o) + FailedIds(targets, o);
    }

    static lemma FourParts(t: seq<Call>, a: seq<Call>, b: seq<Call>, c: seq<Call>, d: seq<Call>)
      ensures t + a + b + c + d == t + (a + b + c + d)
    {
    }

    /**
     `all` is what listing and inspecting the stack's containers gave (nothing
     when the listing failed), `deps` the dependencies read from their labels.
     */
    method RunStackBatch(batch: seq<Container>, all: seq<Container>, deps: DepMap, o: Outcomes)
      returns (ghost plan: Plan)
      requires DistinctIds(all)
      modifies this
      ensures plan.Valid() && plan.all == all && plan.graph == GraphOf(deps)
      ensures plan.members == Members(batch, all) && exists ps :: MembersAt(batch, all, ps, plan.members)
      ensures trace == old(trace) + plan.Trace(o)
      ensures running == plan.FinalRunning(old(running), o)
      ensures ignoredIDs == old(ignoredIDs) - Ids(plan.Targets())
    {
      var byID := IndexById(all);
      var found := Inspect(batch, byID);
      var members := DeduplicateByService(found);
      MembersAreListed(batch, all);
      ghost var ps := MembersAreFirstInBatch(batch, all);
      var stop := StopServices(members, deps);
      ghost var stopSvcs, startSvcs := RunPhases(members, all, stop, deps, o);
      plan := Plan(all, members, GraphOf(deps), stop, stopSvcs, startSvcs);
    }
  }
}
