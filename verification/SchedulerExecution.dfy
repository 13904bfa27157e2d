/**
 What the scheduler's jobs execute over a whole run: every backup and every
 maintenance function once before its job ends, every batch that a queue counts
 as finished, and every container of a group.
 */
module SchedulerExecution {
  import opened Strings
  import opened Containers
  import opened SchedulerProtocol
  import opened SchedulerInvariant

  // ----- histories, read off the states of a run

  /** The action is the end of what job i was executing. */
  ghost predicate EndsExecution(s: State, a: Action, i: nat) {
    a == Advances(i) && i < |s.jobs| && s.jobs[i].pc == Running
  }

  /** How often job i has executed to the end. */
  ghost function Executions(s: State, run: seq<Action>, i: nat): nat
    requires IsRun(s, run)
  {
    if run == [] then 0
    else
      var n := |run| - 1;
      Executions(s, run[..n], i) + if EndsExecution(After(s, run[..n]), run[n], i) then 1 else 0
  }

  /** The batch whose execution for this project the action ends. */
  ghost function ExecutedBy(s: State, a: Action, p: string): seq<Container> {
    if a.Advances? && EndsExecution(s, a, a.i) && s.jobs[a.i].kind.Stack? && s.jobs[a.i].kind.project == p
    then s.jobs[a.i].kind.hand else []
  }

  /** The batches that jobs of a project have executed to the end. */
  ghost function Executed(s: State, run: seq<Action>, p: string): seq<Container>
    requires IsRun(s, run)
  {
    if run == [] then []
    else Executed(s, run[..|run| - 1], p) + ExecutedBy(After(s, run[..|run| - 1]), run[|run| - 1], p)
  }

  function Range(lo: nat, hi: nat): seq<nat> {
    if lo < hi then Range(lo, hi - 1) + [hi - 1] else []
  }

  /** The jobs that steps of job i have started. */
  ghost function Started(s: State, run: seq<Action>, i: nat): seq<nat>
    requires IsRun(s, run)
  {
    if run == [] then []
    else
      var n := |run| - 1;
      var sofar := Started(s, run[..n], i);
      if run[n] == Advances(i) then sofar + Range(|After(s, run[..n]).jobs|, |After(s, run).jobs|) else sofar
  }

  // ----- every job executes

  predicate IsBackupOrMaintenance(j: Job) {
    j.kind.Single? || j.kind.Maintenance?
  }

  /** The job is past its execution. */
  predicate PastExecution(j: Job) {
    j.pc == Leaving || j.pc.Releasing? || j.pc == Finished
  }

  function Past(jobs: seq<Job>, i: nat): nat {
    if i < |jobs| && PastExecution(jobs[i]) then 1 else 0
  }

  /** A job gets past its execution by ending it, in that one step. */
  lemma OwnExecution(j: Job, q: Queue, cap: nat, entries: nat)
    requires cap >= 1 && WellFormed(j, cap, entries) && !Ended(j)
    ensures IsBackupOrMaintenance(JobAfter(j, q, cap)) <==> IsBackupOrMaintenance(j)
    ensures IsBackupOrMaintenance(j) ==>
      && JobAfter(j, q, cap).kind == j.kind
      && (PastExecution(JobAfter(j, q, cap)) <==> PastExecution(j) || j.pc == Running)
      && (j.pc == Running ==> !PastExecution(j))
  {
  }

  /**
   A backup of a single container, or a maintenance function, is executed once
   on the way to its job's end: not before the job is past it, and not again.
   */
  lemma {:induction false} ExecutesOnce(s: State, run: seq<Action>, i: nat)
    requires Inv(s) && IsRun(s, run)
    ensures |s.jobs| <= |After(s, run).jobs|
    ensures i >= |After(s, run).jobs| ==> Executions(s, run, i) == 0
    ensures i < |After(s, run).jobs| && IsBackupOrMaintenance(After(s, run).jobs[i]) ==>
      && Executions(s, run, i) == Past(After(s, run).jobs, i) - Past(s.jobs, i)
      && (i < |s.jobs| ==> After(s, run).jobs[i].kind == s.jobs[i].kind)
    decreases |run|
  {
    if run != [] {
      var n := |run| - 1;
      var before := After(s, run[..n]);
      ExecutesOnce(s, run[..n], i);
      RunInv(s, run[..n]);
      ExecutionStep(before, run[n], i);
    }
  }

  lemma ExecutionStep(s: State, a: Action, i: nat)
    requires Inv(s) && Allowed(s, a)
    ensures |s.jobs| <= |Step(s, a).jobs|
    ensures i >= |s.jobs| ==> !EndsExecution(s, a, i)
    ensures i < |Step(s, a).jobs| && IsBackupOrMaintenance(Step(s, a).jobs[i]) ==>
      && Past(Step(s, a).jobs, i) == Past(s.jobs, i) + (if EndsExecution(s, a, i) then 1 else 0)
      && (i < |s.jobs| ==> Step(s, a).jobs[i].kind == s.jobs[i].kind)
  {
    if a.Advances? {
      Elsewhere(s, a.i, "");
      OwnExecution(s.jobs[a.i], ProjectQueue(s, s.jobs[a.i]), s.cap, s.entries);
      NewJobsExecute(s, a.i);
    }
  }

  /** Only a group starts jobs; what it starts is a backup that executes at once. */
  lemma NewJobsExecute(s: State, i: nat)
    requires Inv(s) && Enabled(s, i)
    ensures !s.jobs[i].kind.Group? ==> |Advance(s, i).jobs| == |s.jobs|
    ensures forall k :: |s.jobs| <= k < |Advance(s, i).jobs| ==>
      Advance(s, i).jobs[k].kind.Single? && Advance(s, i).jobs[k].pc == Running
  {
  }

  /** From the start of the scheduler: who is past its execution has executed, exactly once. */
  lemma NoJobEndsUnexecuted(concurrency: int, entries: nat, run: seq<Action>, i: nat)
    requires IsRun(Initial(concurrency, entries), run) && i < |After(Initial(concurrency, entries), run).jobs|
    requires IsBackupOrMaintenance(After(Initial(concurrency, entries), run).jobs[i])
    ensures var s := Initial(concurrency, entries);
            if PastExecution(After(s, run).jobs[i])
            then Executions(s, run, i) == 1 && exists n :: 0 <= n < |run| && WasRunning(s, run, n, i)
            else Executions(s, run, i) == 0
  {
    var s := Initial(concurrency, entries);
    InitialInv(concurrency, entries);
    ExecutesOnce(s, run, i);
    ExecutionHappened(s, run, i);
  }

  /** After n actions, job i was executing. */
  ghost predicate WasRunning(s: State, run: seq<Action>, n: nat, i: nat)
    requires IsRun(s, run) && n <= |run|
  {
    IsRun(s, run[..n]) && i < |After(s, run[..n]).jobs| && After(s, run[..n]).jobs[i].pc == Running
  }

  lemma {:induction false} ExecutionHappened(s: State, run: seq<Action>, i: nat)
    requires IsRun(s, run)
    ensures Executions(s, run, i) > 0 ==> exists n :: 0 <= n < |run| && WasRunning(s, run, n, i)
    decreases |run|
  {
    if run != [] {
      var n := |run| - 1;
      ExecutionHappened(s, run[..n], i);
      if k :| 0 <= k < n && WasRunning(s, run[..n], k, i) {
        assert run[..n][..k] == run[..k];
        assert WasRunning(s, run, k, i);
      } else if EndsExecution(After(s, run[..n]), run[n], i) {
        assert WasRunning(s, run, n, i);
      }
    }
  }

  // ----- every finished batch was executed

  lemma FinishedStep(s: State, a: Action, p: string)
    requires Inv(s) && Allowed(s, a)
    ensures QueueOf(Step(s, a), p).finished == QueueOf(s, p).finished + ExecutedBy(s, a, p)
  {
    if a.Advances? { Elsewhere(s, a.i, p); }
  }

  /** A queue's record of finished batches grows by what its workers have executed, in that order. */
  lemma {:induction false} FinishedWasExecuted(s: State, run: seq<Action>, p: string)
    requires Inv(s) && IsRun(s, run)
    ensures QueueOf(After(s, run), p).finished == QueueOf(s, p).finished + Executed(s, run, p)
    decreases |run|
  {
    if run != [] {
      var n := |run| - 1;
      var before := After(s, run[..n]);
      FinishedWasExecuted(s, run[..n], p);
      RunInv(s, run[..n]);
      FinishedStep(before, run[n], p);
      Associative(QueueOf(s, p).finished, Executed(s, run[..n], p), ExecutedBy(before, run[n], p));
    }
  }

  // ----- a group's containers

  lemma RangeOfOne(lo: nat)
    ensures Range(lo, lo) == [] && Range(lo, lo + 1) == [lo]
  {
    assert Range(lo, lo) == [];
  }

  /** The step of a group: nothing but the counters changes, or the next container's backup is started. */
  lemma GroupStep(s: State, i: nat)
    requires Inv(s) && Enabled(s, i) && s.jobs[i].kind.Group?
    ensures var s', todo := Advance(s, i), s.jobs[i].kind.todo;
            && todo != [] && s'.jobs[i].kind.Group?
            && if s'.jobs[i].kind.todo == todo then |s'.jobs| == |s.jobs|
               else
                 && s'.jobs[i].kind.todo == todo[1..]
                 && |s'.jobs| == |s.jobs| + 1 && s'.jobs[|s.jobs|].kind == Single(todo[0])
  {
  }

  /** These jobs back up these containers, one each. */
  ghost predicate BackUp(s: State, started: seq<nat>, ctrs: seq<Container>) {
    && |started| == |ctrs|
    && (forall k :: 0 <= k < |started| ==> started[k] < |s.jobs| && s.jobs[started[k]].kind == Single(ctrs[k]))
    && (forall k, l :: 0 <= k < l < |started| ==> started[k] < started[l])
  }

  lemma BackUpStays(s: State, a: Action, started: seq<nat>, ctrs: seq<Container>)
    requires Inv(s) && Allowed(s, a) && BackUp(s, started, ctrs)
    ensures BackUp(Step(s, a), started, ctrs)
  {
    if a.Advances? {
      Elsewhere(s, a.i, "");
      OwnExecution(s.jobs[a.i], ProjectQueue(s, s.jobs[a.i]), s.cap, s.entries);
    }
  }

  /** Where a group is: these jobs are started, the rest of the containers is to be started. */
  ghost predicate GroupIsAt(s: State, i: nat, started: seq<nat>, todo: seq<Container>) {
    && i < |s.jobs| && s.jobs[i].kind.Group?
    && |started| <= |todo| && s.jobs[i].kind.todo == todo[|started|..]
    && BackUp(s, started, todo[..|started|])
  }

  /** The group's own step. */
  lemma GroupGoesOn(s: State, i: nat, started: seq<nat>, todo: seq<Container>)
    requires Inv(s) && Enabled(s, i) && GroupIsAt(s, i, started, todo)
    ensures GroupIsAt(Advance(s, i), i, started + Range(|s.jobs|, |Advance(s, i).jobs|), todo)
  {
    GroupStep(s, i);
    RangeOfOne(|s.jobs|);
    BackUpStays(s, Advances(i), started, todo[..|started|]);
    if |Advance(s, i).jobs| == |s.jobs| {
      assert started + [] == started;
    } else {
      assert todo[..|started|] + [todo[|started|]] == todo[..|started| + 1];
      assert todo[|started|..][1..] == todo[|started| + 1..];
    }
  }

  /** Another job's step, or an arrival. */
  lemma GroupStays(s: State, a: Action, i: nat, started: seq<nat>, todo: seq<Container>)
    requires Inv(s) && Allowed(s, a) && a != Advances(i) && GroupIsAt(s, i, started, todo)
    ensures GroupIsAt(Step(s, a), i, started, todo)
  {
    BackUpStays(s, a, started, todo[..|started|]);
    if a.Advances? { Elsewhere(s, a.i, ""); }
  }

  /**
   The jobs that a group has started back up its first containers, in order and
   one each; a finished group has started one for every container.
   */
  lemma {:induction false} GroupStartsAll(s: State, run: seq<Action>, i: nat)
    requires Inv(s) && IsRun(s, run) && i < |s.jobs| && s.jobs[i].kind.Group?
    ensures var after, started, todo := After(s, run), Started(s, run, i), s.jobs[i].kind.todo;
            && GroupIsAt(after, i, started, todo)
            && (after.jobs[i].pc == Finished <==> |started| == |todo|)
    decreases |run|
  {
    var todo := s.jobs[i].kind.todo;
    RunInv(s, run);
    if run == [] {
      assert todo[0..] == todo;
    } else {
      var n := |run| - 1;
      var before, started := After(s, run[..n]), Started(s, run[..n], i);
      GroupStartsAll(s, run[..n], i);
      RunInv(s, run[..n]);
      if run[n] == Advances(i) {
        GroupGoesOn(before, i, started, todo);
      } else {
        GroupStays(before, run[n], i, started, todo);
      }
    }
    assert WellFormed(After(s, run).jobs[i], After(s, run).cap, After(s, run).entries);
  }

  /** A job that a step starts is a new one. */
  lemma {:induction false} StartedAreNew(s: State, run: seq<Action>, i: nat)
    requires Inv(s) && IsRun(s, run)
    ensures forall k :: k in Started(s, run, i) ==> |s.jobs| <= k
    decreases |run|
  {
    if run != [] {
      var n := |run| - 1;
      StartedAreNew(s, run[..n], i);
      ExecutesOnce(s, run[..n], i);
      RangeMembers(|After(s, run[..n]).jobs|, |After(s, run).jobs|);
    }
  }

  lemma {:induction false} RangeMembers(lo: nat, hi: nat)
    ensures forall k :: k in Range(lo, hi) <==> lo <= k < hi
    decreases hi
  {
    if lo < hi { RangeMembers(lo, hi - 1); }
  }

  /** When a group and all the jobs it started have ended, each of its containers was backed up exactly once by them. */
  lemma GroupIsBackedUp(s: State, run: seq<Action>, i: nat)
    requires Inv(s) && IsRun(s, run) && i < |s.jobs| && s.jobs[i].kind.Group?
    requires i < |After(s, run).jobs| && After(s, run).jobs[i].pc == Finished
    requires forall k :: k in Started(s, run, i) ==> k < |After(s, run).jobs| && Ended(After(s, run).jobs[k])
    ensures var started, todo := Started(s, run, i), s.jobs[i].kind.todo;
            && BackUp(After(s, run), started, todo)
            && forall k :: 0 <= k < |todo| ==> Executions(s, run, started[k]) == 1
  {
    var after, started, todo := After(s, run), Started(s, run, i), s.jobs[i].kind.todo;
    GroupStartsAll(s, run, i);
    StartedAreNew(s, run, i);
    RunInv(s, run);
    assert todo[..|todo|] == todo;
    forall k | 0 <= k < |todo| ensures Executions(s, run, started[k]) == 1 {
      ExecutesOnce(s, run, started[k]);
      assert started[k] in started;
      assert WellFormed(after.jobs[started[k]], after.cap, after.entries);
    }
  }
}
