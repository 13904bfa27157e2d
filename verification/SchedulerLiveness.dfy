/**
 Without new arrivals the scheduler comes to rest: each step uses up potential,
 and where there is no deadlock, a state without steps has everything done.
 */
module SchedulerLiveness {
  import opened SchedulerProtocol
  import opened SchedulerInvariant
  import opened SchedulerTheorems

  /** A bound on the steps a job has left; `busy` says that its queue has containers pending. */
  function StepsLeft(j: Job, busy: bool, cap: nat): int {
    var extra := if busy then 2 else 0;
    match j.pc
    case Queued => 0
    case Finished => 0
    case Releasing(left) => left
    case Leaving => Need(j.kind, cap) + 1
    case Arriving => 9
    case Enqueuing => 8
    case Draining => 3 + extra
    case Running => if j.kind.Stack? then 4 + extra else Need(j.kind, cap) + 2
    case Spawning => if j.kind.Group? then 6 * |j.kind.todo| - 2 else 0
    case Acquiring(got) =>
      if j.kind.Stack? then 4 + extra
      else if j.kind.Group? then 6 * |j.kind.todo| - 1
      else 2 * Need(j.kind, cap) + 2 - got
    case Counting =>
      if j.kind.Stack? then 5 + extra
      else if j.kind.Group? then 6 * |j.kind.todo|
      else 2 * Need(j.kind, cap) + 3
  }

  ghost function Weight(s: State, k: nat): int
    requires k < |s.jobs|
  {
    StepsLeft(s.jobs[k], ProjectQueue(s, s.jobs[k]).pending != [], s.cap)
  }

  ghost function Potential(s: State, n: nat): int
    requires n <= |s.jobs|
  {
    if n == 0 then 0 else Potential(s, n - 1) + Weight(s, n - 1)
  }

  lemma {:induction false} PotentialIsNatural(s: State, n: nat)
    requires n <= |s.jobs| && JobsOk(s)
    ensures Potential(s, n) >= 0
  {
    if n > 0 {
      PotentialIsNatural(s, n - 1);
      assert WellFormed(s.jobs[n - 1], s.cap, s.entries);
    }
  }

  /** A job's own step uses up more than the containers it enqueues can cost another worker. */
  lemma OwnStep(j: Job, q: Queue, cap: nat, entries: nat)
    requires cap >= 1 && WellFormed(j, cap, entries) && !Ended(j) && (!q.active ==> q.pending == [])
    ensures var q' := if j.kind.Stack? then QueueAfter(j, q) else q;
            var spawned := if j.pc == Spawning then 3 else 0;
            var handedOver := if j.pc == Enqueuing && q.active then 2 else 0;
            StepsLeft(JobAfter(j, q, cap), q'.pending != [], cap) + spawned + handedOver <
            StepsLeft(j, q.pending != [], cap)
  {
  }

  /** w is the worker, if any, that job i hands its batch to. */
  ghost predicate HandsTo(s: State, i: nat, w: int)
    requires i < |s.jobs|
  {
    var j := s.jobs[i];
    forall k :: 0 <= k < |s.jobs| && k != i && k != w && j.pc == Enqueuing && j.kind.Stack? ==>
      !IsWorker(s.jobs[k], j.kind.project)
  }

  lemma OtherWeight(s: State, i: nat, k: nat, w: int)
    requires Inv(s) && Enabled(s, i) && k < |s.jobs| && k != i && HandsTo(s, i, w)
    ensures Weight(Advance(s, i), k) <= Weight(s, k) + if k == w then 2 else 0
  {
    var j, other := s.jobs[i], s.jobs[k];
    if other.kind.Stack? {
      Elsewhere(s, i, other.kind.project);
      if j.kind.Stack? && j.kind.project == other.kind.project && j.pc == Enqueuing && k != w {
        assert !IsWorker(other, j.kind.project);
      }
    } else {
      Elsewhere(s, i, "");
    }
  }

  lemma {:induction false} PotentialBound(s: State, s': State, i: nat, w: int, n: nat)
    requires i < |s.jobs| && n <= |s.jobs| <= |s'.jobs|
    requires forall k :: 0 <= k < n && k != i ==> Weight(s', k) <= Weight(s, k) + if k == w then 2 else 0
    ensures Potential(s', n) <= Potential(s, n) +
            (if i < n then Weight(s', i) - Weight(s, i) else 0) + (if 0 <= w < n then 2 else 0)
  {
    if n > 0 { PotentialBound(s, s', i, w, n - 1); }
  }

  /** What job i's step costs in total if it may hand its batch to w. */
  lemma OwnWeight(s: State, i: nat)
    requires Inv(s) && Enabled(s, i)
    ensures var s', j := Advance(s, i), s.jobs[i];
            && |s.jobs| <= |s'.jobs|
            && Weight(s', i) + (if j.pc == Enqueuing && ProjectQueue(s, j).active then 2 else 0) +
               (if |s'.jobs| > |s.jobs| then Weight(s', |s.jobs|) else 0) < Weight(s, i)
            && |s'.jobs| <= |s.jobs| + 1
  {
    var s', j := Advance(s, i), s.jobs[i];
    var q := ProjectQueue(s, j);
    Elsewhere(s, i, if j.kind.Stack? then j.kind.project else "");
    OwnStep(j, q, s.cap, s.entries);
    if j.kind.Stack? { StackJobAfter(j, q, s.cap, s.entries); } else { NotStackAfter(j, s.cap, s.entries); }
  }

  /** Every step of a job uses up potential. */
  lemma StepUsesPotential(s: State, i: nat)
    requires Inv(s) && Enabled(s, i)
    ensures Potential(Advance(s, i), |Advance(s, i).jobs|) < Potential(s, |s.jobs|)
  {
    var s', j, n := Advance(s, i), s.jobs[i], |s.jobs|;
    OwnWeight(s, i);
    var w := HandedTo(s, i);
    forall k | 0 <= k < n && k != i ensures Weight(s', k) <= Weight(s, k) + if k == w then 2 else 0 {
      OtherWeight(s, i, k, w);
    }
    PotentialBound(s, s', i, w, n);
    if |s'.jobs| > n {
      assert Potential(s', n + 1) == Potential(s', n) + Weight(s', n);
    }
  }

  lemma HandedTo(s: State, i: nat) returns (w: int)
    requires Inv(s) && Enabled(s, i)
    ensures HandsTo(s, i, w)
    ensures w >= 0 ==> s.jobs[i].pc == Enqueuing && ProjectQueue(s, s.jobs[i]).active
  {
    var j := s.jobs[i];
    w := -1;
    if j.pc == Enqueuing && j.kind.Stack? {
      var p := j.kind.project;
      assert QueueOf(s, p).active <==> HasWorker(s, p);
      if k :| 0 <= k < |s.jobs| && IsWorker(s.jobs[k], p) {
        w := k;
      }
    }
  }

  /** A run of steps without arrivals is no longer than the potential it starts with. */
  lemma {:induction false} RunsAreBounded(s: State, run: seq<Action>)
    requires Inv(s) && IsRun(s, run) && forall a :: a in run ==> a.Advances?
    ensures |run| + Potential(After(s, run), |After(s, run).jobs|) <= Potential(s, |s.jobs|)
    ensures |run| <= Potential(s, |s.jobs|)
    decreases |run|
  {
    RunInv(s, run);
    PotentialIsNatural(After(s, run), |After(s, run).jobs|);
    if run != [] {
      var before, a := run[..|run| - 1], run[|run| - 1];
      assert a in run;
      RunsAreBounded(s, before);
      RunInv(s, before);
      StepUsesPotential(After(s, before), a.i);
    }
  }

  /** No job is left, no token is taken, and everything enqueued has been run. */
  ghost predicate AtRest(s: State) {
    && (forall i :: 0 <= i < |s.jobs| ==> Ended(s.jobs[i]))
    && s.tokens == 0 && s.active == 0
    && (forall p :: !QueueOf(s, p).active && QueueOf(s, p).pending == [] &&
         QueueOf(s, p).finished == QueueOf(s, p).enqueued)
  }

  /** Where deadlock is excluded, a state without steps is at rest. */
  lemma NoStepMeansAtRest(s: State)
    requires Inv(s) && (s.cap == 1 || s.entries <= 1) && !CanStep(s)
    ensures AtRest(s)
  {
    if Unfinished(s) { NoDeadlock(s); }
    TotalOfNone(HeldTokens, s.jobs, s.cap);
    TotalOfNone(CountedActive, s.jobs, s.cap);
    forall p ensures !QueueOf(s, p).active {
      assert QueueOf(s, p).active <==> HasWorker(s, p);
    }
  }

  /** Hence every reachable state leads to rest: each maximal run of steps ends there, after boundedly many. */
  lemma WorkGetsDone(concurrency: int, entries: nat, s: State, run: seq<Action>)
    requires Reachable(concurrency, entries, s) && (concurrency <= 1 || entries <= 1)
    requires IsRun(s, run) && forall a :: a in run ==> a.Advances?
    ensures |run| <= Potential(s, |s.jobs|)
    ensures CanStep(After(s, run)) || AtRest(After(s, run))
  {
    ReachableInv(concurrency, entries, s);
    CapacityStays(concurrency, entries, s);
    RunKeepsCapacity(s, run);
    RunsAreBounded(s, run);
    RunInv(s, run);
    if !CanStep(After(s, run)) { NoStepMeansAtRest(After(s, run)); }
  }
}
