/**
 internal/scheduler/scheduler.go: every goroutine that runs backups or
 maintenance, as a transition system. A job is one goroutine; its program
 counter stands before its next access to shared state: a queue's locked
 section, the semaphore channel, the `active` counter, or the end of the work
 it is executing. Any job may take the next step.
 */
module SchedulerProtocol {
  import opened Containers

  // ----- the queue of a project

  /**
   `stackQueue`. `enqueued` and `finished` are history: what was appended under
   the lock, and what RunStackBatch has returned from, since the start.
   */
  datatype Queue = Queue(pending: seq<Container>, active: bool, enqueued: seq<Container>, finished: seq<Container>)
  {
    /** The first locked section of `enqueueBatch`; the caller is done if the queue was active. */
    function Offer(batch: seq<Container>): Queue {
      Queue(pending + batch, true, enqueued + batch, finished)
    }

    /** The locked section at the top of the drain loop: take all, or retire. */
    function Take(): Queue {
      if pending == [] then this.(active := false) else this.(pending := [])
    }
  }

  const NEW_QUEUE := Queue([], false, [], [])

  // ----- jobs

  datatype Kind =
    // enqueueBatch: `slot` is where its batch starts in `enqueued`, `hand` the batch being run
    | Stack(project: string, batch: seq<Container>, slot: nat, hand: seq<Container>)
    // TriggerBackup of a standalone container, or the goroutine of one in a group
    | Single(ctr: Container)
    // runScheduleGroup over standalone containers, with those still to be spawned
    | Group(todo: seq<Container>)
    // scheduleMaintenance: the cron entry it belongs to
    | Maintenance(entry: nat)

  datatype Pc =
    | Arriving          // before getStackQueue
    | Enqueuing         // before the first locked section
    | Queued            // returned true: another worker will run the batch
    | Counting          // before active.Add(1)
    | Acquiring(got: nat)
    | Draining          // before the locked section of the drain loop
    | Spawning          // before `go`
    | Running           // executing Run, RunStackBatch or a maintenance function
    | Leaving           // before active.Add(-1)
    | Releasing(left: nat)
    | Finished          // returned (false)

  datatype Job = Job(kind: Kind, pc: Pc)

  datatype State = State(cap: nat, entries: nat, tokens: int, active: int, queues: map<string, Queue>, jobs: seq<Job>)

  function QueueOf(s: State, project: string): Queue {
    if project in s.queues then s.queues[project] else NEW_QUEUE
  }

  /** Tokens a job holds while it works: maintenance takes the whole semaphore. */
  function Need(k: Kind, cap: nat): nat {
    if k.Maintenance? then cap else 1
  }

  predicate Ended(j: Job) {
    j.pc == Queued || j.pc == Finished
  }

  /** The program counters that each kind of job can be at. */
  predicate WellFormed(j: Job, cap: nat, entries: nat) {
    && (j.pc.Acquiring? ==> j.pc.got < Need(j.kind, cap))
    && (j.pc.Releasing? ==> 1 <= j.pc.left <= Need(j.kind, cap))
    && match j.kind
       case Stack(_, _, _, hand) => j.pc != Spawning && (j.pc != Running ==> hand == [])
       case Single(_) => j.pc !in {Arriving, Enqueuing, Queued, Draining, Spawning}
       case Group(todo) =>
         (j.pc == Counting || j.pc == Acquiring(0) || j.pc == Spawning || j.pc == Finished) &&
         (j.pc == Finished <==> todo == [])
       case Maintenance(entry) => j.pc !in {Arriving, Enqueuing, Queued, Draining, Spawning} && entry < entries
  }

  // ----- steps

  /** Sends block on a full channel and receives on an empty one; nothing else blocks. */
  predicate Enabled(s: State, i: nat) {
    && i < |s.jobs|
    && WellFormed(s.jobs[i], s.cap, s.entries)
    && !Ended(s.jobs[i])
    && (s.jobs[i].pc.Acquiring? ==> s.tokens < s.cap)
    && (s.jobs[i].pc.Releasing? ==> s.tokens > 0)
  }

  /** Where a job goes with its tokens in hand. */
  function AfterAcquiring(k: Kind): Pc {
    match k
    case Stack(_, _, _, _) => Draining
    case Group(_) => Spawning
    case _ => Running
  }

  /** A job after its step, given the queue of its project (read by stack jobs only). */
  function JobAfter(j: Job, q: Queue, cap: nat): Job
    requires !Ended(j)
  {
    match j.pc
    case Arriving => j.(pc := Enqueuing)
    case Enqueuing =>
      if j.kind.Stack? then Job(j.kind.(slot := |q.enqueued|), if q.active then Queued else Counting) else j
    case Counting => j.(pc := Acquiring(0))
    case Acquiring(got) =>
      j.(pc := if got + 1 < Need(j.kind, cap) then Acquiring(got + 1) else AfterAcquiring(j.kind))
    case Draining =>
      if j.kind.Stack? && q.pending != [] then Job(j.kind.(hand := q.pending), Running) else j.(pc := Leaving)
    case Spawning =>
      if j.kind.Group? && |j.kind.todo| > 1 then Job(Group(j.kind.todo[1..]), Counting) else Job(Group([]), Finished)
    case Running =>
      if j.kind.Stack? then Job(j.kind.(hand := []), Draining) else j.(pc := Leaving)
    case Leaving => j.(pc := Releasing(Need(j.kind, cap)))
    case Releasing(left) => j.(pc := if left > 1 then Releasing(left - 1) else Finished)
  }

  /** The queue after a step of a stack job; RunStackBatch returning is recorded in the history. */
  function QueueAfter(j: Job, q: Queue): Queue
    requires j.kind.Stack?
  {
    match j.pc
    case Enqueuing => q.Offer(j.kind.batch)
    case Draining => q.Take()
    case Running => q.(finished := q.finished + j.kind.hand)
    case _ => q
  }

  /** `go`: the new goroutine starts with the token its parent acquired. */
  function SpawnedBy(j: Job): seq<Job> {
    if j.pc == Spawning && j.kind.Group? && j.kind.todo != [] then [Job(Single(j.kind.todo[0]), Running)] else []
  }

  function TokenChange(j: Job): int {
    if j.pc.Acquiring? then 1 else if j.pc.Releasing? then -1 else 0
  }

  function ActiveChange(j: Job): int {
    if j.pc == Counting then 1 else if j.pc == Leaving then -1 else 0
  }

  function ProjectQueue(s: State, j: Job): Queue {
    if j.kind.Stack? then QueueOf(s, j.kind.project) else NEW_QUEUE
  }

  /** One step of job i. `getStackQueue` creates the queue that later steps find. */
  function Advance(s: State, i: nat): State
    requires Enabled(s, i)
  {
    var j := s.jobs[i];
    State(s.cap, s.entries, s.tokens + TokenChange(j), s.active + ActiveChange(j),
      if j.kind.Stack? then s.queues[j.kind.project := QueueAfter(j, ProjectQueue(s, j))] else s.queues,
      s.jobs[i := JobAfter(j, ProjectQueue(s, j), s.cap)] + SpawnedBy(j))
  }

  // ----- runs

  datatype Action = Advances(i: nat) | Arrives(job: Job)

  /** Cron's SkipIfStillRunning: an entry has at most one unfinished maintenance job. */
  predicate MayArrive(s: State, j: Job) {
    match j.kind
    case Stack(_, _, slot, hand) => j.pc == Arriving && slot == 0 && hand == []
    case Single(_) => j.pc == Counting
    case Group(todo) => j.pc == Counting && todo != []
    case Maintenance(entry) =>
      j.pc == Counting && entry < s.entries &&
      forall i :: 0 <= i < |s.jobs| && s.jobs[i].kind == j.kind ==> Ended(s.jobs[i])
  }

  predicate Allowed(s: State, a: Action) {
    match a
    case Advances(i) => Enabled(s, i)
    case Arrives(j) => MayArrive(s, j)
  }

  function Step(s: State, a: Action): State
    requires Allowed(s, a)
  {
    match a
    case Advances(i) => Advance(s, i)
    case Arrives(j) => s.(jobs := s.jobs + [j])
  }

  /** `New`: a concurrency below one is raised to one. */
  function Capacity(concurrency: int): nat {
    if concurrency < 1 then 1 else concurrency
  }

  function Initial(concurrency: int, entries: nat): State {
    State(Capacity(concurrency), entries, 0, 0, map[], [])
  }

  /** The actions can be taken one after the other, from s. */
  ghost predicate IsRun(s: State, run: seq<Action>)
    decreases |run|, 0
  {
    run == [] ||
    (IsRun(s, run[..|run| - 1]) && Allowed(After(s, run[..|run| - 1]), run[|run| - 1]))
  }

  ghost function After(s: State, run: seq<Action>): State
    requires IsRun(s, run)
    decreases |run|, 1
  {
    if run == [] then s
    else Step(After(s, run[..|run| - 1]), run[|run| - 1])
  }

  /** s can come about in some interleaving of some arrivals. */
  ghost predicate Reachable(concurrency: int, entries: nat, s: State) {
    exists run :: IsRun(Initial(concurrency, entries), run) && After(Initial(concurrency, entries), run) == s
  }

  lemma ReachableStep(concurrency: int, entries: nat, s: State, a: Action)
    requires Reachable(concurrency, entries, s) && Allowed(s, a)
    ensures Reachable(concurrency, entries, Step(s, a))
  {
    var init := Initial(concurrency, entries);
    var run :| IsRun(init, run) && After(init, run) == s;
    var longer := run + [a];
    assert longer[..|longer| - 1] == run;
    assert IsRun(init, longer) && After(init, longer) == Step(s, a);
  }

  // ----- the queue as the object the code locks

  class StackQueue {
    var pending: seq<Container>
    var active: bool
    ghost var enqueued: seq<Container>
    ghost var finished: seq<Container>

    constructor ()
      ensures Value() == NEW_QUEUE
    {
      pending, active, enqueued, finished := [], false, [], [];
    }

    ghost function Value(): Queue
      reads this
    {
      Queue(pending, active, enqueued, finished)
    }

    /** Holding the lock: append, and claim the queue unless it is taken. */
    method Offer(batch: seq<Container>) returns (queued: bool)
      modifies this
      ensures queued == old(active)
      ensures Value() == old(Value()).Offer(batch)
    {
      pending := pending + batch;
      enqueued := enqueued + batch;
      if active {
        return true;
      }
      active := true;
      return false;
    }

    /** Holding the lock: take what is pending, or give the queue up. */
    method Take() returns (batch: seq<Container>)
      modifies this
      ensures batch == old(pending)
      ensures Value() == old(Value()).Take()
    {
      batch := pending;
      if |batch| == 0 {
        active := false;
        return;
      }
      pending := [];
    }
  }
}
