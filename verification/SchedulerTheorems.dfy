/**
 What the scheduler guarantees in every interleaving: mutual exclusion,
 conservation of queued containers, and when work can and cannot get stuck.
 */
module SchedulerTheorems {
  import opened SchedulerProtocol
  import opened SchedulerInvariant

  // ----- exclusion

  /** At most max(1, Concurrency) backups execute at once, and each is visible in `active`. */
  lemma BackupsAreBounded(concurrency: int, entries: nat, s: State)
    requires Reachable(concurrency, entries, s)
    ensures Total(Executing, s.jobs, s.cap) <= Total(HeldTokens, s.jobs, s.cap) == s.tokens <= s.cap
    ensures s.cap == (if concurrency < 1 then 1 else concurrency)
    ensures (exists i :: 0 <= i < |s.jobs| && s.jobs[i].pc == Running) ==> s.active > 0
  {
    ReachableInv(concurrency, entries, s);
    CapacityStays(concurrency, entries, s);
    ExecutingHolds(s.jobs, s.cap);
    if i :| 0 <= i < |s.jobs| && s.jobs[i].pc == Running {
      TotalAtLeast(CountedActive, s.jobs, i, s.cap);
    }
  }

  lemma CapacityStays(concurrency: int, entries: nat, s: State)
    requires Reachable(concurrency, entries, s)
    ensures s.cap == Capacity(concurrency) && s.entries == entries
  {
    var run :| IsRun(Initial(concurrency, entries), run) && After(Initial(concurrency, entries), run) == s;
    RunKeepsCapacity(Initial(concurrency, entries), run);
  }

  lemma {:induction false} RunKeepsCapacity(s: State, run: seq<Action>)
    requires IsRun(s, run)
    ensures After(s, run).cap == s.cap && After(s, run).entries == s.entries
    decreases |run|
  {
    if run != [] { RunKeepsCapacity(s, run[..|run| - 1]); }
  }

  /** While a maintenance function executes, no other job holds a token, so nothing else executes. */
  lemma MaintenanceIsAlone(concurrency: int, entries: nat, s: State, i: nat, j: nat)
    requires Reachable(concurrency, entries, s)
    requires i < |s.jobs| && s.jobs[i].kind.Maintenance? && s.jobs[i].pc == Running
    requires j < |s.jobs| && j != i
    ensures Held(s.jobs[j], s.cap) == 0 && s.jobs[j].pc != Running
  {
    ReachableInv(concurrency, entries, s);
    TotalAtLeastTwo(HeldTokens, s.jobs, if i < j then i else j, if i < j then j else i, s.cap);
  }

  // ----- queues

  /**
   A project has at most one worker; pending containers have one. What it has
   finished, holds and has pending is everything enqueued, in lock order.
   */
  lemma QueuesConserve(concurrency: int, entries: nat, s: State, p: string)
    requires Reachable(concurrency, entries, s)
    ensures forall i, j | 0 <= i < |s.jobs| && 0 <= j < |s.jobs| &&
      IsWorker(s.jobs[i], p) && IsWorker(s.jobs[j], p) :: i == j
    ensures var q := QueueOf(s, p);
            if q.active
            then exists i :: 0 <= i < |s.jobs| && IsWorker(s.jobs[i], p) &&
                   q.finished + s.jobs[i].kind.hand + q.pending == q.enqueued
            else q.pending == [] && q.finished == q.enqueued
  {
    ReachableInv(concurrency, entries, s);
    if QueueOf(s, p).active {
      var i :| 0 <= i < |s.jobs| && IsWorker(s.jobs[i], p);
      assert Conserved(QueueOf(s, p), s.jobs[i].kind.hand);
    }
  }

  lemma FinishedWithinEnqueued(s: State, p: string)
    requires Inv(s)
    ensures QueueOf(s, p).finished <= QueueOf(s, p).enqueued
  {
    var q := QueueOf(s, p);
    if q.active {
      assert HasWorker(s, p);
      var i :| 0 <= i < |s.jobs| && IsWorker(s.jobs[i], p);
      assert Conserved(q, s.jobs[i].kind.hand);
    }
  }

  /** A caller that got `false` has had its own batch run to the end. */
  lemma FalseMeansDone(concurrency: int, entries: nat, s: State, i: nat)
    requires Reachable(concurrency, entries, s)
    requires i < |s.jobs| && s.jobs[i].kind.Stack? && s.jobs[i].pc == Finished
    ensures var k := s.jobs[i].kind;
            var done := QueueOf(s, k.project).finished;
            k.slot + |k.batch| <= |done| && done[k.slot..k.slot + |k.batch|] == k.batch
  {
    ReachableInv(concurrency, entries, s);
    var k := s.jobs[i].kind;
    var q := QueueOf(s, k.project);
    assert Placed(s.jobs[i], q);
    FinishedWithinEnqueued(s, k.project);
  }

  /** At the moment a caller gets `true`, its batch is the end of `pending` and another job is the worker. */
  lemma TrueMeansPending(concurrency: int, entries: nat, s: State, i: nat)
    requires Reachable(concurrency, entries, s) && Enabled(s, i) && s.jobs[i].pc == Enqueuing
    requires Advance(s, i).jobs[i].pc == Queued
    ensures var s', k := Advance(s, i), s.jobs[i].kind;
            var q := QueueOf(s', k.project);
            && |k.batch| <= |q.pending| && q.pending[|q.pending| - |k.batch|..] == k.batch
            && exists w :: 0 <= w < |s'.jobs| && w != i && IsWorker(s'.jobs[w], k.project)
  {
    ReachableInv(concurrency, entries, s);
    var s', k := Advance(s, i), s.jobs[i].kind;
    Elsewhere(s, i, k.project);
    assert HasWorker(s, k.project);
    var w :| 0 <= w < |s.jobs| && IsWorker(s.jobs[w], k.project);
    assert s'.jobs[w] == s.jobs[w];
  }

  /** From then on it stays in place: run already, or ahead of a worker that will run it. */
  lemma QueuedIsNotLost(concurrency: int, entries: nat, s: State, i: nat)
    requires Reachable(concurrency, entries, s)
    requires i < |s.jobs| && s.jobs[i].kind.Stack? && s.jobs[i].pc == Queued
    ensures var k := s.jobs[i].kind;
            var q := QueueOf(s, k.project);
            && k.slot + |k.batch| <= |q.enqueued| && q.enqueued[k.slot..k.slot + |k.batch|] == k.batch
            && (k.slot + |k.batch| <= |q.finished| || HasWorker(s, k.project))
  {
    ReachableInv(concurrency, entries, s);
    assert Placed(s.jobs[i], QueueOf(s, s.jobs[i].kind.project));
  }

  /** The record of what was enqueued and finished is only ever extended. */
  lemma HistoryIsExtended(s: State, a: Action, p: string)
    requires Allowed(s, a)
    ensures QueueOf(s, p).enqueued <= QueueOf(Step(s, a), p).enqueued
    ensures QueueOf(s, p).finished <= QueueOf(Step(s, a), p).finished
  {
    if a.Advances? {
      Elsewhere(s, a.i, p);
      if s.jobs[a.i].kind.Stack? { HistoryGrows(s.jobs[a.i], QueueOf(s, p)); }
    }
  }

  /** Over any run, what was enqueued and finished before stays so, in place. */
  lemma {:induction false} RunExtendsHistory(s: State, run: seq<Action>, p: string)
    requires IsRun(s, run)
    ensures QueueOf(s, p).enqueued <= QueueOf(After(s, run), p).enqueued
    ensures QueueOf(s, p).finished <= QueueOf(After(s, run), p).finished
    decreases |run|
  {
    if run != [] {
      RunExtendsHistory(s, run[..|run| - 1], p);
      HistoryIsExtended(After(s, run[..|run| - 1]), run[|run| - 1], p);
    }
  }

  // ----- deadlock

  ghost predicate Unfinished(s: State) {
    exists i :: 0 <= i < |s.jobs| && !Ended(s.jobs[i])
  }

  ghost predicate CanStep(s: State) {
    exists i :: Enabled(s, i)
  }

  /** A state where every unfinished job waits for a token. */
  ghost predicate AllBlocked(s: State) {
    forall i :: 0 <= i < |s.jobs| && !Ended(s.jobs[i]) ==> s.jobs[i].pc.Acquiring?
  }

  /** Only a job that waits for a token can be blocked. */
  lemma BlockedMeansAcquiring(s: State)
    requires Inv(s) && !CanStep(s)
    ensures AllBlocked(s) && (Unfinished(s) ==> s.tokens == s.cap)
  {
    forall i | 0 <= i < |s.jobs| && !Ended(s.jobs[i])
      ensures s.jobs[i].pc.Acquiring? && s.tokens == s.cap
    {
      assert !Enabled(s, i);
      TotalAtLeast(HeldTokens, s.jobs, i, s.cap);
    }
  }

  /** With one maintenance entry, or a single token, whoever waits can go on. */
  lemma NoDeadlock(s: State)
    requires Inv(s) && Unfinished(s) && (s.cap == 1 || s.entries <= 1)
    ensures CanStep(s)
  {
    if !CanStep(s) {
      BlockedMeansAcquiring(s);
      if m :| 0 <= m < |s.jobs| && s.jobs[m].pc.Acquiring? && s.jobs[m].pc.got > 0 {
        assert WellFormed(s.jobs[m], s.cap, s.entries);
        forall k | 0 <= k < |s.jobs| && k != m ensures Weigh(HeldTokens, s.jobs[k], s.cap) == 0 {
          assert WellFormed(s.jobs[k], s.cap, s.entries);
        }
        TotalOfOne(HeldTokens, s.jobs, m, s.cap);
      } else {
        TotalOfNone(HeldTokens, s.jobs, s.cap);
      }
    }
  }

  /** Two maintenance jobs sharing out the whole semaphore. */
  ghost predicate Stuck(s: State) {
    && s.cap >= 2 && |s.jobs| >= 2
    && s.jobs[0] == Job(Maintenance(0), Acquiring(1))
    && s.jobs[1] == Job(Maintenance(1), Acquiring(s.cap - 1))
  }

  function TwoMaintenance(cap: nat, entries: nat, tokens: int, active: int, a: Pc, b: Pc): State {
    State(cap, entries, tokens, active, map[], [Job(Maintenance(0), a), Job(Maintenance(1), b)])
  }

  lemma BothArrive(concurrency: int, entries: nat)
    requires concurrency >= 2 && entries >= 2
    ensures Reachable(concurrency, entries, TwoMaintenance(concurrency, entries, 0, 0, Counting, Counting))
  {
    var s := Initial(concurrency, entries);
    assert IsRun(s, []) && After(s, []) == s;
    ReachableStep(concurrency, entries, s, Arrives(Job(Maintenance(0), Counting)));
    var one := Step(s, Arrives(Job(Maintenance(0), Counting)));
    ReachableStep(concurrency, entries, one, Arrives(Job(Maintenance(1), Counting)));
    assert one.jobs + [Job(Maintenance(1), Counting)] == [Job(Maintenance(0), Counting), Job(Maintenance(1), Counting)];
  }

  /** The step of one of the two jobs. */
  lemma OneAdvances(s: State, i: nat, pc: Pc)
    requires |s.jobs| == 2 && s.jobs == [Job(Maintenance(0), s.jobs[0].pc), Job(Maintenance(1), s.jobs[1].pc)]
    requires i < 2 && Enabled(s, i) && pc == JobAfter(s.jobs[i], NEW_QUEUE, s.cap).pc
    ensures var p0, p1 := if i == 0 then pc else s.jobs[0].pc, if i == 1 then pc else s.jobs[1].pc;
            Advance(s, i) ==
              State(s.cap, s.entries, s.tokens + TokenChange(s.jobs[i]), s.active + ActiveChange(s.jobs[i]),
              s.queues, [Job(Maintenance(0), p0), Job(Maintenance(1), p1)])
  {
  }

  lemma BothCounted(concurrency: int, entries: nat)
    requires concurrency >= 2 && entries >= 2
    ensures Reachable(concurrency, entries, TwoMaintenance(concurrency, entries, 0, 2, Acquiring(0), Acquiring(0)))
  {
    BothArrive(concurrency, entries);
    var s := TwoMaintenance(concurrency, entries, 0, 0, Counting, Counting);
    OneAdvances(s, 0, Acquiring(0));
    ReachableStep(concurrency, entries, s, Advances(0));
    var t := Advance(s, 0);
    OneAdvances(t, 1, Acquiring(0));
    ReachableStep(concurrency, entries, t, Advances(1));
  }

  lemma {:induction false} StuckIsReachable(concurrency: int, entries: nat, n: nat)
    requires concurrency >= 2 && entries >= 2 && n < concurrency
    ensures var s := TwoMaintenance(concurrency, entries, n + 1, 2, Acquiring(1), Acquiring(n));
            Reachable(concurrency, entries, s) && (n == concurrency - 1 ==> Stuck(s))
  {
    if n == 0 {
      BothCounted(concurrency, entries);
      var s := TwoMaintenance(concurrency, entries, 0, 2, Acquiring(0), Acquiring(0));
      OneAdvances(s, 0, Acquiring(1));
      ReachableStep(concurrency, entries, s, Advances(0));
    } else {
      StuckIsReachable(concurrency, entries, n - 1);
      var s := TwoMaintenance(concurrency, entries, n, 2, Acquiring(1), Acquiring(n - 1));
      OneAdvances(s, 1, Acquiring(n));
      ReachableStep(concurrency, entries, s, Advances(1));
    }
  }

  lemma StuckCannotStep(s: State)
    requires Inv(s) && Stuck(s)
    ensures s.tokens == s.cap && forall i :: 2 <= i < |s.jobs| ==> Held(s.jobs[i], s.cap) == 0
  {
    TotalAtLeastTwo(HeldTokens, s.jobs, 0, 1, s.cap);
    forall i | 2 <= i < |s.jobs| ensures Held(s.jobs[i], s.cap) == 0 {
      var others := s.jobs[..i];
      TotalAtLeastTwo(HeldTokens, others, 0, 1, s.cap);
      TotalPrefix(s.jobs, i, s.cap);
    }
  }

  lemma {:induction false} TotalPrefix(jobs: seq<Job>, i: nat, cap: nat)
    requires i < |jobs|
    ensures Total(HeldTokens, jobs, cap) >= Total(HeldTokens, jobs[..i], cap) + Held(jobs[i], cap)
  {
    var n := |jobs| - 1;
    if i < n {
      assert jobs[..n][..i] == jobs[..i];
      TotalPrefix(jobs[..n], i, cap);
    }
  }

  /** Once stuck, the two jobs wait forever and no backup ever executes again, whatever else arrives. */
  lemma {:induction false} StuckForever(s: State, run: seq<Action>)
    requires Inv(s) && Stuck(s) && IsRun(s, run)
    ensures Stuck(After(s, run))
    ensures forall i :: 0 <= i < |After(s, run).jobs| ==> After(s, run).jobs[i].pc != Running
    decreases |run|
  {
    RunInv(s, run);
    if run != [] {
      var before, a := After(s, run[..|run| - 1]), run[|run| - 1];
      StuckForever(s, run[..|run| - 1]);
      RunInv(s, run[..|run| - 1]);
      StuckCannotStep(before);
    }
    StuckCannotStep(After(s, run));
  }

  /**
   Every reachable state with unfinished work has an enabled step exactly if
   there is a single token or at most one maintenance entry.
   */
  lemma DeadlockFreeExactlyWhen(concurrency: int, entries: nat)
    ensures (forall s :: Reachable(concurrency, entries, s) && Unfinished(s) ==> CanStep(s)) <==>
            (concurrency <= 1 || entries <= 1)
  {
    if concurrency <= 1 || entries <= 1 {
      forall s | Reachable(concurrency, entries, s) && Unfinished(s) ensures CanStep(s) {
        ReachableInv(concurrency, entries, s);
        CapacityStays(concurrency, entries, s);
        NoDeadlock(s);
      }
    } else {
      StuckIsReachable(concurrency, entries, concurrency - 1);
      var s := TwoMaintenance(concurrency, entries, concurrency, 2, Acquiring(1), Acquiring(concurrency - 1));
      assert !Ended(s.jobs[0]);
      assert Unfinished(s) && !CanStep(s);
    }
  }
}
