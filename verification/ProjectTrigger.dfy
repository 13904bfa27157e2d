/**
 internal/scheduler/scheduler.go: the jobs that requests and cron's ticks hand
 to the scheduler. TriggerProjectBackup filters the slice it got in place,
 writing behind its own read position.
 */
module ProjectTrigger {
  import opened Containers
  import opened ContainerRegistry
  import opened SchedulerProtocol
  import opened Selections

  function Kept(ctrs: seq<Container>, wanted: set<string>): seq<Container> {
    if ctrs == [] then []
    else
      var rest, c := Kept(ctrs[..|ctrs| - 1], wanted), ctrs[|ctrs| - 1];
      if c.service in wanted then rest + [c] else rest
  }

  lemma {:induction false} KeptMembers(ctrs: seq<Container>, wanted: set<string>)
    ensures forall c :: c in Kept(ctrs, wanted) <==> c in ctrs && c.service in wanted
    ensures |Kept(ctrs, wanted)| <= |ctrs|
  {
    if ctrs != [] {
      var n := |ctrs| - 1;
      KeptMembers(ctrs[..n], wanted);
      assert ctrs == ctrs[..n] + [ctrs[n]];
    }
  }

  ghost function InServices(ctrs: seq<Container>, wanted: set<string>): nat -> bool {
    (i: nat) => i < |ctrs| && ctrs[i].service in wanted
  }

  /** Filtering keeps the containers in the wanted services, in their order. */
  lemma {:induction false} KeptInOrder(ctrs: seq<Container>, wanted: set<string>)
    ensures Selects(ctrs, InServices(ctrs, wanted), Kept(ctrs, wanted))
  {
    var keep := InServices(ctrs, wanted);
    if ctrs == [] {
      SelectsNothing(ctrs, keep);
    } else {
      var n := |ctrs| - 1;
      KeptInOrder(ctrs[..n], wanted);
      SelectsNext(ctrs, InServices(ctrs[..n], wanted), keep, Kept(ctrs[..n], wanted));
    }
  }

  lemma {:induction false} KeptDistinct(ctrs: seq<Container>, wanted: set<string>)
    requires DistinctIds(ctrs)
    ensures DistinctIds(Kept(ctrs, wanted))
  {
    if ctrs != [] {
      var n := |ctrs| - 1;
      var k := Kept(ctrs[..n], wanted);
      KeptDistinct(ctrs[..n], wanted);
      KeptMembers(ctrs[..n], wanted);
      forall i | 0 <= i < |k| ensures k[i].id != ctrs[n].id {
        assert k[i] in k;
        var j :| 0 <= j < n && ctrs[..n][j] == k[i];
        assert ctrs[j] == k[i];
      }
    }
  }

  /** `filtered := batch[:0]` and the appends to it: no element is overwritten before it has been read. */
  method FilterInPlace(batch: array<Container>, wanted: set<string>) returns (kept: nat)
    modifies batch
    ensures kept <= batch.Length
    ensures batch[..kept] == Kept(old(batch[..]), wanted)
    ensures Selects(old(batch[..]), InServices(old(batch[..]), wanted), batch[..kept])
  {
    kept := 0;
    for i := 0 to batch.Length
      invariant 0 <= kept <= i
      invariant batch[..kept] == Kept(old(batch[..i]), wanted)
      invariant forall k :: i <= k < batch.Length ==> batch[k] == old(batch[k])
    {
      assert old(batch[..i + 1])[..i] == old(batch[..i]);
      if batch[i].service in wanted {
        batch[kept] := batch[i];
        kept := kept + 1;
      }
    }
    assert old(batch[..batch.Length]) == old(batch[..]);
    KeptInOrder(old(batch[..]), wanted);
  }

  /** A batch for the queue of its project. */
  function StackJob(project: string, batch: seq<Container>): Job {
    Job(Stack(project, batch, 0, []), Arriving)
  }

  /** What a tick of a group's cron entry starts; `project` is the one its function was closed over. */
  method RunScheduleGroup(reg: Registry, key: string, project: string) returns (arrivals: seq<Job>)
    requires reg.Valid()
    ensures arrivals == [] <==> forall r :: r in reg.regs ==> r.key != key
    ensures arrivals != [] && project != "" ==> arrivals == [StackJob(project, GroupOf(reg.regs, key))]
    ensures arrivals != [] && project == "" ==> arrivals == [Job(Group(GroupOf(reg.regs, key)), Counting)]
    ensures forall s, j :: j in arrivals ==> MayArrive(s, j)
  {
    var ctrs := reg.GetGroup(key);
    GroupMembers(reg.regs, key);
    assert key in KeysOf(reg.regs) <==> exists r :: r in reg.regs && r.key == key;
    if |ctrs| == 0 {
      return [];
    }
    if project == "" {
      return [Job(Group(ctrs), Counting)];
    }
    return [StackJob(project, ctrs)];
  }

  /** A scheduled container of that name goes to its project's queue, or is backed up alone. */
  method TriggerBackup(reg: Registry, identifier: string) returns (arrivals: seq<Job>)
    requires reg.Valid()
    ensures arrivals == [] <==> forall c :: Scheduled(reg.regs, c) ==> c.name != identifier
    ensures arrivals != [] ==> exists c ::
      Scheduled(reg.regs, c) && c.name == identifier &&
      arrivals == [if c.project != "" then StackJob(c.project, [c]) else Job(Single(c), Counting)]
    ensures forall s, j :: j in arrivals ==> MayArrive(s, j)
  {
    var found := reg.Find(identifier);
    if |found| == 0 {
      return [];
    }
    var ctr := found[0];
    if ctr.project != "" {
      return [StackJob(ctr.project, [ctr])];
    }
    return [Job(Single(ctr), Counting)];
  }

  datatype Trigger = ProjectNotFound | NoMatchingServices | Enqueue(batch: seq<Container>)

  /** A scheduled container of the project, in one of the services if any are named. */
  ghost predicate Wanted(regs: seq<Registration>, project: string, services: seq<string>, c: Container) {
    c.project == project && Scheduled(regs, c) && (services == [] || c.service in services)
  }

  /** The batch is every wanted container, once; without one, the error says what was missing. */
  method TriggerProjectBackup(reg: Registry, project: string, services: seq<string>) returns (r: Trigger)
    requires reg.Valid()
    ensures r == ProjectNotFound <==> forall c :: !Wanted(reg.regs, project, [], c)
    ensures r == NoMatchingServices <==>
      (exists c :: Wanted(reg.regs, project, [], c)) && forall c :: !Wanted(reg.regs, project, services, c)
    ensures r.Enqueue? ==> DistinctIds(r.batch) && forall c :: c in r.batch <==> Wanted(reg.regs, project, services, c)
  {
    var found := reg.FindByProject(project);
    assert forall c :: c in found <==> Wanted(reg.regs, project, [], c);
    if |found| == 0 {
      return ProjectNotFound;
    }
    assert Wanted(reg.regs, project, [], found[0]) by { assert found[0] in found; }
    if |services| > 0 {
      var wanted := set s | s in services;
      var batch := new Container[|found|](i requires 0 <= i < |found| => found[i]);
      assert batch[..] == found;
      var kept := FilterInPlace(batch, wanted);
      KeptMembers(found, wanted);
      KeptDistinct(found, wanted);
      if kept == 0 {
        assert batch[..kept] == [];
        return NoMatchingServices;
      }
      assert batch[..kept][0] in batch[..kept];
      assert Wanted(reg.regs, project, services, batch[..kept][0]);
      return Enqueue(batch[..kept]);
    }
    return Enqueue(found);
  }
}
