/** What every reachable scheduler state satisfies, and that every step keeps it. */
module SchedulerInvariant {
  import opened Containers
  import opened SchedulerProtocol

  // ----- sums over the jobs

  datatype Measure = HeldTokens | CountedActive | Executing

  function Weigh(m: Measure, j: Job, cap: nat): nat {
    match m
    case HeldTokens => Held(j, cap)
    case CountedActive => if j.pc.Acquiring? || j.pc in {Draining, Spawning, Running, Leaving} then 1 else 0
    case Executing => if j.pc == Running then 1 else 0
  }

  function Held(j: Job, cap: nat): nat {
    match j.pc
    case Acquiring(got) => got
    case Draining => Need(j.kind, cap)
    case Spawning => Need(j.kind, cap)
    case Running => Need(j.kind, cap)
    case Leaving => Need(j.kind, cap)
    case Releasing(left) => left
    case _ => 0
  }

  function Total(m: Measure, jobs: seq<Job>, cap: nat): nat {
    if jobs == [] then 0
    else Total(m, jobs[..|jobs| - 1], cap) + Weigh(m, jobs[|jobs| - 1], cap)
  }

  lemma TotalAppend(m: Measure, jobs: seq<Job>, j: Job, cap: nat)
    ensures Total(m, jobs + [j], cap) == Total(m, jobs, cap) + Weigh(m, j, cap)
  {
    assert (jobs + [j])[..|jobs|] == jobs;
  }

  lemma {:induction false} TotalUpdate(m: Measure, jobs: seq<Job>, i: nat, j: Job, cap: nat)
    requires i < |jobs|
    ensures Total(m, jobs[i := j], cap) == Total(m, jobs, cap) - Weigh(m, jobs[i], cap) + Weigh(m, j, cap)
  {
    var n := |jobs| - 1;
    if i < n {
      assert jobs[i := j][..n] == jobs[..n][i := j];
      TotalUpdate(m, jobs[..n], i, j, cap);
    } else {
      assert jobs[i := j][..n] == jobs[..n];
    }
  }

  lemma {:induction false} TotalAtLeast(m: Measure, jobs: seq<Job>, i: nat, cap: nat)
    requires i < |jobs|
    ensures Total(m, jobs, cap) >= Weigh(m, jobs[i], cap)
  {
    var n := |jobs| - 1;
    if i < n { TotalAtLeast(m, jobs[..n], i, cap); }
  }

  lemma {:induction false} TotalAtLeastTwo(m: Measure, jobs: seq<Job>, i: nat, j: nat, cap: nat)
    requires i < j < |jobs|
    ensures Total(m, jobs, cap) >= Weigh(m, jobs[i], cap) + Weigh(m, jobs[j], cap)
  {
    var n := |jobs| - 1;
    if j < n { TotalAtLeastTwo(m, jobs[..n], i, j, cap); } else { TotalAtLeast(m, jobs[..n], i, cap); }
  }

  lemma {:induction false} TotalOfOne(m: Measure, jobs: seq<Job>, i: nat, cap: nat)
    requires i < |jobs| && forall k :: 0 <= k < |jobs| && k != i ==> Weigh(m, jobs[k], cap) == 0
    ensures Total(m, jobs, cap) == Weigh(m, jobs[i], cap)
  {
    var n := |jobs| - 1;
    if i < n { TotalOfOne(m, jobs[..n], i, cap); } else { TotalOfNone(m, jobs[..n], cap); }
  }

  lemma {:induction false} TotalOfNone(m: Measure, jobs: seq<Job>, cap: nat)
    requires forall k :: 0 <= k < |jobs| ==> Weigh(m, jobs[k], cap) == 0
    ensures Total(m, jobs, cap) == 0
  {
    if jobs != [] { TotalOfNone(m, jobs[..|jobs| - 1], cap); }
  }

  /** Whatever executes holds at least one token. */
  lemma {:induction false} ExecutingHolds(jobs: seq<Job>, cap: nat)
    requires cap >= 1
    ensures Total(Executing, jobs, cap) <= Total(HeldTokens, jobs, cap)
  {
    if jobs != [] { ExecutingHolds(jobs[..|jobs| - 1], cap); }
  }

  // ----- the invariant

  /** The goroutine that owns a project's queue. */
  predicate IsWorker(j: Job, project: string) {
    && j.kind.Stack?
    && j.kind.project == project
    && (j.pc == Counting || j.pc.Acquiring? || j.pc == Draining || j.pc == Running)
  }

  /** The batch of a caller that is past the first locked section lies in the history at its slot. */
  ghost predicate Placed(j: Job, q: Queue) {
    j.kind.Stack? && j.pc != Arriving && j.pc != Enqueuing ==>
      && j.kind.slot + |j.kind.batch| <= |q.enqueued|
      && q.enqueued[j.kind.slot..j.kind.slot + |j.kind.batch|] == j.kind.batch
      && (j.pc == Leaving || j.pc.Releasing? || j.pc == Finished ==> j.kind.slot + |j.kind.batch| <= |q.finished|)
  }

  ghost predicate JobsOk(s: State) {
    && (forall i :: 0 <= i < |s.jobs| ==> WellFormed(s.jobs[i], s.cap, s.entries))
    && (forall i, j :: 0 <= i < j < |s.jobs| && s.jobs[i].kind.Maintenance? && s.jobs[i].kind == s.jobs[j].kind ==>
          Ended(s.jobs[i]) || Ended(s.jobs[j]))
  }

  ghost predicate CountersOk(s: State) {
    && s.cap >= 1
    && s.tokens == Total(HeldTokens, s.jobs, s.cap) <= s.cap
    && s.active == Total(CountedActive, s.jobs, s.cap)
  }

  ghost predicate HasWorker(s: State, project: string) {
    exists i :: 0 <= i < |s.jobs| && IsWorker(s.jobs[i], project)
  }

  ghost predicate OneWorker(s: State) {
    && (forall i, j, p | 0 <= i < |s.jobs| && 0 <= j < |s.jobs| &&
         IsWorker(s.jobs[i], p) && IsWorker(s.jobs[j], p) :: i == j)
    && (forall p :: QueueOf(s, p).active <==> HasWorker(s, p))
  }

  /** A worker's project: what it has finished, holds and has pending is what was enqueued. */
  ghost predicate Conserved(q: Queue, hand: seq<Container>) {
    q.finished + hand + q.pending == q.enqueued
  }

  /** Nothing is lost, duplicated or reordered. */
  ghost predicate QueuesOk(s: State) {
    && (forall p :: !QueueOf(s, p).active ==>
         QueueOf(s, p).pending == [] && QueueOf(s, p).finished == QueueOf(s, p).enqueued)
    && (forall i, p :: 0 <= i < |s.jobs| && IsWorker(s.jobs[i], p) ==> Conserved(QueueOf(s, p), s.jobs[i].kind.hand))
    && (forall i :: 0 <= i < |s.jobs| && s.jobs[i].kind.Stack? ==>
         Placed(s.jobs[i], QueueOf(s, s.jobs[i].kind.project)))
  }

  ghost predicate Inv(s: State) {
    JobsOk(s) && CountersOk(s) && OneWorker(s) && QueuesOk(s)
  }

  lemma InitialInv(concurrency: int, entries: nat)
    ensures Inv(Initial(concurrency, entries))
  {
  }

  // ----- every step keeps it: what a step does to its own job and queue

  lemma JobAfterWellFormed(j: Job, q: Queue, cap: nat, entries: nat)
    requires cap >= 1 && WellFormed(j, cap, entries) && !Ended(j)
    ensures WellFormed(JobAfter(j, q, cap), cap, entries)
    ensures j.kind.Maintenance? ==> JobAfter(j, q, cap).kind == j.kind
    ensures JobAfter(j, q, cap).kind.Maintenance? ==> j.kind.Maintenance?
  {
  }

  lemma JobAfterWeight(m: Measure, j: Job, q: Queue, cap: nat, entries: nat)
    requires cap >= 1 && WellFormed(j, cap, entries) && !Ended(j)
    ensures var change := match m
              case HeldTokens => TokenChange(j) case CountedActive => ActiveChange(j) case Executing => 0;
            m != Executing ==>
              Weigh(m, JobAfter(j, q, cap), cap) + Total(m, SpawnedBy(j), cap) == Weigh(m, j, cap) + change
  {
    if j.pc == Spawning {
      var spawned := Job(Single(j.kind.todo[0]), Running);
      TotalAppend(m, [], spawned, cap);
      assert [] + [spawned] == [spawned];
    }
  }

  lemma StackJobAfter(j: Job, q: Queue, cap: nat, entries: nat)
    requires j.kind.Stack? && WellFormed(j, cap, entries) && !Ended(j)
    ensures var j' := JobAfter(j, q, cap);
            j'.kind.Stack? && j'.kind.project == j.kind.project && j'.kind.batch == j.kind.batch
  {
  }

  /** A queue changes hands only in its locked sections. */
  lemma WorkerAfter(j: Job, q: Queue, cap: nat, entries: nat)
    requires j.kind.Stack? && WellFormed(j, cap, entries) && !Ended(j)
    ensures var j', q', p := JobAfter(j, q, cap), QueueAfter(j, q), j.kind.project;
            && (IsWorker(j', p) && !IsWorker(j, p) ==> !q.active && q'.active)
            && (!IsWorker(j', p) && IsWorker(j, p) ==> !q'.active)
            && ((IsWorker(j', p) <==> IsWorker(j, p)) ==> q'.active == q.active)
  {
  }

  lemma HistoryGrows(j: Job, q: Queue)
    requires j.kind.Stack?
    ensures q.enqueued <= QueueAfter(j, q).enqueued && q.finished <= QueueAfter(j, q).finished
  {
  }

  lemma PlacedGrows(j: Job, q: Queue, q': Queue)
    requires Placed(j, q) && q.enqueued <= q'.enqueued && q.finished <= q'.finished
    ensures Placed(j, q')
  {
    if j.kind.Stack? && j.pc != Arriving && j.pc != Enqueuing {
      var a, b := j.kind.slot, j.kind.slot + |j.kind.batch|;
      assert q'.enqueued[a..b] == q.enqueued[a..b];
    }
  }

  // ----- every step keeps it: the whole state

  lemma SameKindElsewhere(s: State, i: nat)
    requires Inv(s) && Enabled(s, i)
    ensures JobsOk(Advance(s, i))
  {
    var j, s' := s.jobs[i], Advance(s, i);
    JobAfterWellFormed(j, ProjectQueue(s, j), s.cap, s.entries);
    forall a, b | 0 <= a < b < |s'.jobs| && s'.jobs[a].kind.Maintenance? && s'.jobs[a].kind == s'.jobs[b].kind
      ensures Ended(s'.jobs[a]) || Ended(s'.jobs[b])
    {
      assert b < |s.jobs|;
    }
  }

  lemma AdvanceCounters(s: State, i: nat)
    requires Inv(s) && Enabled(s, i)
    ensures CountersOk(Advance(s, i))
  {
    var j, q := s.jobs[i], ProjectQueue(s, s.jobs[i]);
    AdvanceTotal(HeldTokens, s, i);
    AdvanceTotal(CountedActive, s, i);
    JobAfterWeight(HeldTokens, j, q, s.cap, s.entries);
    JobAfterWeight(CountedActive, j, q, s.cap, s.entries);
  }

  lemma AdvanceTotal(m: Measure, s: State, i: nat)
    requires Enabled(s, i)
    ensures var j := s.jobs[i];
            Total(m, Advance(s, i).jobs, s.cap) ==
            Total(m, s.jobs, s.cap) - Weigh(m, j, s.cap) +
            Weigh(m, JobAfter(j, ProjectQueue(s, j), s.cap), s.cap) + Total(m, SpawnedBy(j), s.cap)
  {
    var j := s.jobs[i];
    var j' := JobAfter(j, ProjectQueue(s, j), s.cap);
    var updated := s.jobs[i := j'];
    TotalUpdate(m, s.jobs, i, j', s.cap);
    if j.pc == Spawning {
      var spawned := Job(Single(j.kind.todo[0]), Running);
      TotalAppend(m, updated, spawned, s.cap);
      TotalAppend(m, [], spawned, s.cap);
      assert [] + [spawned] == [spawned];
    } else {
      assert updated + [] == updated;
    }
  }

  /** Advancing job i leaves every other job, and every other project's queue, as it was. */
  lemma Elsewhere(s: State, i: nat, p: string)
    requires Enabled(s, i)
    ensures var s' := Advance(s, i);
            && |s.jobs| <= |s'.jobs|
            && s'.jobs[i] == JobAfter(s.jobs[i], ProjectQueue(s, s.jobs[i]), s.cap)
            && (forall k :: 0 <= k < |s.jobs| && k != i ==> s'.jobs[k] == s.jobs[k])
            && (forall k :: |s.jobs| <= k < |s'.jobs| ==> s'.jobs[k].kind.Single?)
            && QueueOf(s', p) == if s.jobs[i].kind.Stack? && s.jobs[i].kind.project == p
                                 then QueueAfter(s.jobs[i], QueueOf(s, p)) else QueueOf(s, p)
  {
  }

  lemma AdvanceWorkers(s: State, i: nat)
    requires Inv(s) && Enabled(s, i)
    ensures OneWorker(Advance(s, i))
  {
    var s', j := Advance(s, i), s.jobs[i];
    forall p
      ensures QueueOf(s', p).active <==> HasWorker(s', p)
      ensures forall a, b | 0 <= a < |s'.jobs| && 0 <= b < |s'.jobs| &&
        IsWorker(s'.jobs[a], p) && IsWorker(s'.jobs[b], p) :: a == b
    {
      Elsewhere(s, i, p);
      WorkersOf(s, i, p);
    }
  }

  lemma WorkersOf(s: State, i: nat, p: string)
    requires Inv(s) && Enabled(s, i)
    ensures var s' := Advance(s, i);
            && (QueueOf(s', p).active <==> HasWorker(s', p))
            && forall a, b | 0 <= a < |s'.jobs| && 0 <= b < |s'.jobs| &&
                 IsWorker(s'.jobs[a], p) && IsWorker(s'.jobs[b], p) :: a == b
  {
    var s', j := Advance(s, i), s.jobs[i];
    Elsewhere(s, i, p);
    if j.kind.Stack? {
      StackJobAfter(j, ProjectQueue(s, j), s.cap, s.entries);
      WorkerAfter(j, ProjectQueue(s, j), s.cap, s.entries);
    } else {
      NotStackAfter(j, s.cap, s.entries);
    }
    if HasWorker(s, p) {
      var k :| 0 <= k < |s.jobs| && IsWorker(s.jobs[k], p);
      assert k != i ==> IsWorker(s'.jobs[k], p);
    }
    assert IsWorker(s'.jobs[i], p) ==> HasWorker(s', p);
    assert IsWorker(j, p) ==> HasWorker(s, p);
    if HasWorker(s', p) && !IsWorker(s'.jobs[i], p) {
      var k :| 0 <= k < |s'.jobs| && IsWorker(s'.jobs[k], p);
      assert IsWorker(s.jobs[k], p);
    }
  }

  lemma NotStackAfter(j: Job, cap: nat, entries: nat)
    requires !j.kind.Stack? && WellFormed(j, cap, entries) && !Ended(j)
    ensures !JobAfter(j, NEW_QUEUE, cap).kind.Stack?
  {
  }

  /** The worker's own step, and any other job's, conserve what was enqueued. */
  lemma ConservedAfter(j: Job, q: Queue, cap: nat, entries: nat)
    requires j.kind.Stack? && WellFormed(j, cap, entries) && !Ended(j)
    requires IsWorker(j, j.kind.project) ==> Conserved(q, j.kind.hand)
    requires !q.active ==> q.pending == [] && q.finished == q.enqueued
    ensures var j', q' := JobAfter(j, q, cap), QueueAfter(j, q);
            && (IsWorker(j', j.kind.project) ==> Conserved(q', j'.kind.hand))
            && (!q'.active ==> q'.pending == [] && q'.finished == q'.enqueued)
            && (!IsWorker(j, j.kind.project) ==> forall h :: Conserved(q, h) ==> Conserved(q', h))
  {
    if j.pc == Enqueuing {
      forall h | Conserved(q, h) ensures Conserved(q.Offer(j.kind.batch), h) {
        assert q.finished + h + (q.pending + j.kind.batch) == q.finished + h + q.pending + j.kind.batch;
      }
    }
  }

  lemma PlacedAfter(j: Job, q: Queue, cap: nat, entries: nat)
    requires j.kind.Stack? && WellFormed(j, cap, entries) && !Ended(j)
    requires Placed(j, q) && (IsWorker(j, j.kind.project) ==> Conserved(q, j.kind.hand))
    ensures Placed(JobAfter(j, q, cap), QueueAfter(j, q))
  {
    HistoryGrows(j, q);
    PlacedGrows(j, q, QueueAfter(j, q));
    if j.pc == Draining && q.pending == [] {
      assert q.finished + [] + [] == q.finished;
    }
  }

  lemma AdvanceQueues(s: State, i: nat)
    requires Inv(s) && Enabled(s, i)
    ensures QueuesOk(Advance(s, i))
  {
    var s', j := Advance(s, i), s.jobs[i];
    forall p { Elsewhere(s, i, p); }
    if j.kind.Stack? {
      var q := ProjectQueue(s, j);
      StackJobAfter(j, q, s.cap, s.entries);
      ConservedAfter(j, q, s.cap, s.entries);
      PlacedAfter(j, q, s.cap, s.entries);
      HistoryGrows(j, q);
      forall k | 0 <= k < |s.jobs| && s.jobs[k].kind.Stack? && s.jobs[k].kind.project == j.kind.project
        ensures Placed(s.jobs[k], QueueAfter(j, q))
      {
        PlacedGrows(s.jobs[k], q, QueueAfter(j, q));
      }
    } else {
      NotStackAfter(j, s.cap, s.entries);
    }
  }

  lemma ArrivalKeepsWorkers(s: State, j: Job, p: string)
    requires MayArrive(s, j)
    ensures var s' := Step(s, Arrives(j));
            QueueOf(s', p) == QueueOf(s, p) && (HasWorker(s', p) <==> HasWorker(s, p))
  {
    var s' := Step(s, Arrives(j));
    if HasWorker(s, p) {
      var k :| 0 <= k < |s.jobs| && IsWorker(s.jobs[k], p);
      assert IsWorker(s'.jobs[k], p);
    }
    if HasWorker(s', p) {
      var k :| 0 <= k < |s'.jobs| && IsWorker(s'.jobs[k], p);
      assert k < |s.jobs| && s.jobs[k] == s'.jobs[k];
    }
  }

  lemma ArrivalWorkers(s: State, j: Job)
    requires OneWorker(s) && MayArrive(s, j)
    ensures OneWorker(Step(s, Arrives(j)))
  {
    forall p { ArrivalKeepsWorkers(s, j, p); }
  }

  lemma ArrivalQueues(s: State, j: Job)
    requires QueuesOk(s) && MayArrive(s, j)
    ensures QueuesOk(Step(s, Arrives(j)))
  {
    var s' := Step(s, Arrives(j));
    forall p { ArrivalKeepsWorkers(s, j, p); }
    forall i | 0 <= i < |s'.jobs| && s'.jobs[i].kind.Stack?
      ensures Placed(s'.jobs[i], QueueOf(s', s'.jobs[i].kind.project))
    {
      if i < |s.jobs| { assert Placed(s.jobs[i], QueueOf(s, s.jobs[i].kind.project)); }
    }
  }

  lemma ArrivalJobs(s: State, j: Job)
    requires JobsOk(s) && MayArrive(s, j)
    ensures JobsOk(Step(s, Arrives(j)))
  {
    var s' := Step(s, Arrives(j));
    forall a, b | 0 <= a < b < |s'.jobs| && s'.jobs[a].kind.Maintenance? && s'.jobs[a].kind == s'.jobs[b].kind
      ensures Ended(s'.jobs[a]) || Ended(s'.jobs[b])
    {
      assert s'.jobs[a] == s.jobs[a];
      if b < |s.jobs| { assert s'.jobs[b] == s.jobs[b]; }
    }
  }

  /** Who arrives holds nothing and is not counted. */
  lemma ArrivesIdle(s: State, j: Job, m: Measure)
    requires MayArrive(s, j)
    ensures Weigh(m, j, s.cap) == 0
    ensures Total(m, s.jobs + [j], s.cap) == Total(m, s.jobs, s.cap)
  {
    assert j.pc == Arriving || j.pc == Counting;
    TotalAppend(m, s.jobs, j, s.cap);
  }

  lemma ArrivalCounters(s: State, j: Job)
    requires CountersOk(s) && MayArrive(s, j)
    ensures CountersOk(Step(s, Arrives(j)))
  {
    ArrivesIdle(s, j, HeldTokens);
    ArrivesIdle(s, j, CountedActive);
  }

  lemma AdvanceInv(s: State, i: nat)
    requires Inv(s) && Enabled(s, i)
    ensures Inv(Advance(s, i))
  {
    SameKindElsewhere(s, i);
    AdvanceCounters(s, i);
    AdvanceWorkers(s, i);
    AdvanceQueues(s, i);
  }

  lemma ArrivalInv(s: State, j: Job)
    requires Inv(s) && MayArrive(s, j)
    ensures Inv(Step(s, Arrives(j)))
  {
    ArrivalJobs(s, j);
    ArrivalCounters(s, j);
    ArrivalWorkers(s, j);
    ArrivalQueues(s, j);
  }

  lemma StepInv(s: State, a: Action)
    requires Inv(s) && Allowed(s, a)
    ensures Inv(Step(s, a))
  {
    match a {
      case Advances(i) => AdvanceInv(s, i);
      case Arrives(j) => ArrivalInv(s, j);
    }
  }

  lemma {:induction false} RunInv(s: State, run: seq<Action>)
    requires Inv(s) && IsRun(s, run)
    ensures Inv(After(s, run))
    decreases |run|
  {
    if run != [] {
      RunInv(s, run[..|run| - 1]);
      StepInv(After(s, run[..|run| - 1]), run[|run| - 1]);
    }
  }

  /** The invariant holds in every interleaving. */
  lemma ReachableInv(concurrency: int, entries: nat, s: State)
    requires Reachable(concurrency, entries, s)
    ensures Inv(s)
  {
    var init := Initial(concurrency, entries);
    var run :| IsRun(init, run) && After(init, run) == s;
    InitialInv(concurrency, entries);
    RunInv(init, run);
  }
}
