/**
 internal/scheduler/scheduler.go: bringing the schedule in line with a fresh
 listing of containers, and the updates that this makes to the repository store.
 What they do to the store is proved in ResyncedStore.
 */
module Resync {
  import opened Strings
  import opened Containers
  import opened ContainerRegistry
  import RepoStore

  /** Which repositories a container resolves to, if that succeeds. */
  type Resolver = Container -> RepoStore.Option<seq<RepoStore.RepoRef>>

  /** Containers that `AddContainer` tries to schedule. */
  predicate Eligible(c: Container) {
    c.enabled && c.schedule != ""
  }

  function KeyOf(c: Container): string {
    GroupKey(c.project, c.schedule)
  }

  /** `AddContainer`, on the registrations. */
  ghost function Added(regs: seq<Registration>, c: Container, accepts: string -> bool): seq<Registration> {
    if Eligible(c) then Registered(regs, c, KeyOf(c), accepts(c.schedule)) else regs
  }

  /** The first loop of `Resync`: listed containers that are not scheduled yet. */
  ghost function AddedAll(
    regs: seq<Registration>, listing: seq<Container>, accepts: string -> bool): seq<Registration>
  {
    if listing == [] then regs
    else
      var before := AddedAll(regs, listing[..|listing| - 1], accepts);
      var c := listing[|listing| - 1];
      if c.id in IdsOf(before) then before else Added(before, c, accepts)
  }

  ghost function Resynced(
    regs: seq<Registration>, listing: seq<Container>, accepts: string -> bool): seq<Registration>
  {
    var added := AddedAll(regs, listing, accepts);
    Without(added, IdsOf(added) - Ids(listing))
  }

  /** The repository update that `AddContainer` makes. */
  ghost function SyncOps(c: Container, resolve: Resolver, now: int): seq<RepoStore.Op> {
    if Eligible(c) && resolve(c).Some? then [RepoStore.Sync(c, resolve(c).value, now)] else []
  }

  /** The updates that the first loop of `Resync` makes. */
  ghost function SyncsOf(
    regs: seq<Registration>, listing: seq<Container>, accepts: string -> bool, resolve: Resolver, now: int)
    : seq<RepoStore.Op>
  {
    if listing == [] then []
    else
      var n := |listing| - 1;
      var known := listing[n].id in IdsOf(AddedAll(regs, listing[..n], accepts));
      SyncsOf(regs, listing[..n], accepts, resolve, now) + (if known then [] else SyncOps(listing[n], resolve, now))
  }

  // ----- what every registration keeps

  /** Cron accepted a schedule for this key, of one of the projects seen so far. */
  ghost predicate Founded(key: string, accepts: string -> bool, seen: set<string>) {
    exists p, s :: p in seen && key == GroupKey(p, s) && accepts(s)
  }

  /** Every registration came about through `AddContainer`, in a group that cron accepted. */
  ghost predicate WellScheduled(regs: seq<Registration>, accepts: string -> bool, seen: set<string>) {
    && Unique(regs)
    && forall r :: r in regs ==>
         r.key == KeyOf(r.ctr) && Eligible(r.ctr) && r.ctr.project in seen && Founded(r.key, accepts, seen)
  }

  /** A group's entry carries the project and the schedule that make its key. */
  ghost predicate RunsOwnGroups(entries: map<nat, CronEntry>, seen: set<string>) {
    forall id :: id in entries && entries[id].job.GroupRun? ==>
      entries[id].job.key == GroupKey(entries[id].job.project, entries[id].schedule) && entries[id].job.project in seen
  }

  lemma SeeingMore(regs: seq<Registration>, accepts: string -> bool, seen: set<string>, more: set<string>)
    requires WellScheduled(regs, accepts, seen) && seen <= more
    ensures WellScheduled(regs, accepts, more)
  {
    forall r | r in regs ensures Founded(r.key, accepts, more) {
      var p, s :| p in seen && r.key == GroupKey(p, s) && accepts(s);
    }
  }

  /**
   Adding keeps registrations well scheduled, also when a container changes
   groups. An eligible container is then in the group of its own key or in none.
   */
  lemma AddedKeepsWellScheduled(regs: seq<Registration>, c: Container, accepts: string -> bool, seen: set<string>)
    requires WellScheduled(regs, accepts, seen)
    ensures WellScheduled(Added(regs, c, accepts), accepts, seen + {c.project})
    ensures Eligible(c) && c.id in IdsOf(Added(regs, c, accepts)) ==> HasKey(Added(regs, c, accepts), c.id, KeyOf(c))
    ensures Eligible(c) && accepts(c.schedule) ==> c.id in IdsOf(Added(regs, c, accepts))
  {
    var after, key := Added(regs, c, accepts), KeyOf(c);
    SeeingMore(regs, accepts, seen, seen + {c.project});
    if Eligible(c) && !HasKey(regs, c.id, key) {
      RegisteredMembers(regs, c, key, accepts(c.schedule));
      var rest := Without(regs, {c.id});
      WithoutMembers(regs, {c.id});
      assert accepts(c.schedule) ==> Founded(key, accepts, seen + {c.project});
      assert key in KeysOf(rest) ==> Founded(key, accepts, seen + {c.project}) by {
        if key in KeysOf(rest) { var r :| r in rest && r.key == key; }
      }
      assert after == rest || after == rest + [Registration(c, key)];
      if accepts(c.schedule) { JoinedIsIn(rest, Registration(c, key)); }
    }
  }

  /** What is scheduled is enabled and has a schedule. */
  lemma ScheduledAreEnabled(regs: seq<Registration>, accepts: string -> bool, seen: set<string>)
    requires WellScheduled(regs, accepts, seen)
    ensures forall r :: r in regs ==> r.ctr.enabled && r.ctr.schedule != ""
  {
  }

  lemma WithoutKeepsWellScheduled(
    regs: seq<Registration>, ids: set<string>, accepts: string -> bool, seen: set<string>)
    requires WellScheduled(regs, accepts, seen)
    ensures WellScheduled(Without(regs, ids), accepts, seen)
  {
    WithoutMembers(regs, ids);
  }

  /** While no project name has a colon, only containers that cron accepts fit a live group. */
  lemma LiveKeyMeansAccepted(
    regs: seq<Registration>, accepts: string -> bool, seen: set<string>, c: Container)
    requires WellScheduled(regs, accepts, seen) && (forall p :: p in seen ==> ColonFree(p))
    requires ColonFree(c.project) && KeyOf(c) in KeysOf(regs)
    ensures accepts(c.schedule)
  {
    var r :| r in regs && r.key == KeyOf(c);
    var p, s :| p in seen && r.key == GroupKey(p, s) && accepts(s);
    GroupKeyIsInjective(p, s, c.project, c.schedule);
  }

  // ----- what cron runs

  /**
   Each registration is run by exactly one live cron entry, on a schedule that
   cron accepted. While no project name has a colon, that is the container's own
   schedule, and the entry runs the container's own project.
   */
  lemma EntryOfRegistration(
    regs: seq<Registration>, index: map<string, string>, groups: map<string, seq<Container>>,
    cronIDs: map<string, nat>, entries: map<nat, CronEntry>, seen: set<string>, r: Registration) returns (id: nat)
    requires Consistent(regs, index, groups, cronIDs, entries) && RunsOwnGroups(entries, seen)
    requires r in regs && r.key == KeyOf(r.ctr)
    ensures RunsGroup(entries, id, r.key) && forall other :: RunsGroup(entries, other, r.key) ==> other == id
    ensures KeyOf(r.ctr) == GroupKey(entries[id].job.project, entries[id].schedule)
    ensures ColonFree(r.ctr.project) && (forall p :: p in seen ==> ColonFree(p)) ==>
      entries[id].job.project == r.ctr.project && entries[id].schedule == r.ctr.schedule
  {
    assert r.key in KeysOf(regs);
    id := cronIDs[r.key];
    if ColonFree(r.ctr.project) && ColonFree(entries[id].job.project) {
      GroupKeyIsInjective(entries[id].job.project, entries[id].schedule, r.ctr.project, r.ctr.schedule);
    }
  }

  /** The entry of a container's group runs the group's own project. */
  lemma OwnGroupsStay(entries: map<nat, CronEntry>, seen: set<string>, c: Container)
    requires RunsOwnGroups(entries, seen)
    ensures RunsOwnGroups(entries, seen + {c.project})
    ensures forall after :: OnlyAdds(entries, after, {CronEntry(c.schedule, GroupRun(KeyOf(c), c.project))}) ==>
      RunsOwnGroups(after, seen + {c.project})
  {
  }

  /** With colon-free project names, all containers that an entry runs are of its project and its schedule. */
  lemma EntryRunsOneProject(
    regs: seq<Registration>, accepts: string -> bool, seen: set<string>, e: CronEntry, c: Container)
    requires WellScheduled(regs, accepts, seen) && (forall p :: p in seen ==> ColonFree(p))
    requires e.job.GroupRun? && e.job.project in seen && e.job.key == GroupKey(e.job.project, e.schedule)
    requires c in GroupOf(regs, e.job.key)
    ensures c.project == e.job.project && c.schedule == e.schedule
  {
    GroupMembers(regs, e.job.key);
    GroupKeyIsInjective(c.project, c.schedule, e.job.project, e.schedule);
  }

  /** Conversely, every group's entry has a container to run. */
  lemma EntryHasContainers(
    regs: seq<Registration>, index: map<string, string>, groups: map<string, seq<Container>>,
    cronIDs: map<string, nat>, entries: map<nat, CronEntry>, id: nat)
    requires Consistent(regs, index, groups, cronIDs, entries) && id in entries && entries[id].job.GroupRun?
    ensures GroupOf(regs, entries[id].job.key) != []
  {
    assert RunsGroup(entries, id, entries[id].job.key);
    GroupMembers(regs, entries[id].job.key);
  }

  // ----- what is scheduled afterwards

  ghost predicate Schedulable(c: Container, accepts: string -> bool) {
    Eligible(c) && accepts(c.schedule)
  }

  ghost function SchedulableIds(listing: seq<Container>, accepts: string -> bool): set<string> {
    set c | c in listing && Schedulable(c, accepts) :: c.id
  }

  /** Cron accepts the schedule, or is not asked because the group is live. */
  ghost predicate Admitted(regs: seq<Registration>, c: Container, accepts: string -> bool) {
    Eligible(c) && (accepts(c.schedule) || KeyOf(c) in KeysOf(regs))
  }

  lemma AddedUnknown(regs: seq<Registration>, c: Container, accepts: string -> bool)
    requires c.id !in IdsOf(regs)
    ensures Added(regs, c, accepts) == if Admitted(regs, c, accepts) then regs + [Registration(c, KeyOf(c))] else regs
  {
    WithoutNone(regs, {c.id});
    assert !HasKey(regs, c.id, KeyOf(c));
  }

  lemma JoinFacts(regs: seq<Registration>, r: Registration)
    ensures IdsOf(regs + [r]) == IdsOf(regs) + {r.ctr.id}
    ensures KeysOf(regs + [r]) == KeysOf(regs) + {r.key}
  {
  }

  /** The groups that are live after the first containers of a listing have had their turn. */
  ghost function LiveKeys(
    regs: seq<Registration>, earlier: seq<Container>, accepts: string -> bool): set<string>
  {
    KeysOf(regs) + set c | c in earlier && c.id !in IdsOf(regs) && Schedulable(c, accepts) :: KeyOf(c)
  }

  /** The container at position i is new and gets scheduled. */
  ghost predicate Joins(regs: seq<Registration>, listing: seq<Container>, i: nat, accepts: string -> bool)
    requires i < |listing|
  {
    && listing[i].id !in IdsOf(regs) && Eligible(listing[i])
    && (accepts(listing[i].schedule) || KeyOf(listing[i]) in LiveKeys(regs, listing[..i], accepts))
  }

  ghost function JoinedIds(
    regs: seq<Registration>, listing: seq<Container>, accepts: string -> bool): set<string>
  {
    set i: nat | i < |listing| && Joins(regs, listing, i, accepts) :: listing[i].id
  }

  lemma LiveKeysSnoc(regs: seq<Registration>, listing: seq<Container>, n: nat, accepts: string -> bool)
    requires n + 1 == |listing|
    ensures LiveKeys(regs, listing, accepts) == LiveKeys(regs, listing[..n], accepts) +
            if listing[n].id !in IdsOf(regs) && Schedulable(listing[n], accepts) then {KeyOf(listing[n])} else {}
  {
    assert listing == listing[..n] + [listing[n]];
  }

  lemma JoinedIdsSnoc(regs: seq<Registration>, listing: seq<Container>, n: nat, accepts: string -> bool)
    requires n + 1 == |listing|
    ensures JoinedIds(regs, listing, accepts) == JoinedIds(regs, listing[..n], accepts) +
            if Joins(regs, listing, n, accepts) then {listing[n].id} else {}
  {
    var before := listing[..n];
    forall i: nat | i < n
      ensures before[i] == listing[i] && Joins(regs, before, i, accepts) == Joins(regs, listing, i, accepts)
    {
      assert before[..i] == listing[..i];
    }
    forall id | id in JoinedIds(regs, before, accepts) ensures id in JoinedIds(regs, listing, accepts) {
      var i: nat :| i < n && Joins(regs, before, i, accepts) && before[i].id == id;
      assert Joins(regs, listing, i, accepts) && listing[i].id == id;
    }
    forall id | id in JoinedIds(regs, listing, accepts) && id !in JoinedIds(regs, before, accepts)
      ensures Joins(regs, listing, n, accepts) && id == listing[n].id
    {
      var i: nat :| i <= n && Joins(regs, listing, i, accepts) && listing[i].id == id;
    }
  }

  lemma {:induction false} AddedAllFacts(
    regs: seq<Registration>, listing: seq<Container>, accepts: string -> bool)
    requires DistinctIds(listing)
    ensures KeysOf(AddedAll(regs, listing, accepts)) == LiveKeys(regs, listing, accepts)
    ensures IdsOf(AddedAll(regs, listing, accepts)) == IdsOf(regs) + JoinedIds(regs, listing, accepts)
  {
    if listing == [] {
      assert JoinedIds(regs, listing, accepts) == {};
    } else {
      var n := |listing| - 1;
      AddedAllFacts(regs, listing[..n], accepts);
      JoinedIdsSnoc(regs, listing, n, accepts);
      LiveKeysSnoc(regs, listing, n, accepts);
      AddedOne(regs, AddedAll(regs, listing[..n], accepts), listing, n, accepts);
    }
  }

  /** One turn of the loop. */
  lemma AddedOne(
    regs: seq<Registration>, before: seq<Registration>, listing: seq<Container>, n: nat, accepts: string -> bool)
    requires DistinctIds(listing) && n < |listing|
    requires KeysOf(before) == LiveKeys(regs, listing[..n], accepts)
    requires IdsOf(before) == IdsOf(regs) + JoinedIds(regs, listing[..n], accepts)
    ensures var c := listing[n];
            var after := if c.id in IdsOf(before) then before else Added(before, c, accepts);
            && IdsOf(after) == IdsOf(before) + (if Joins(regs, listing, n, accepts) then {c.id} else {})
            && KeysOf(after) == KeysOf(before) +
               (if c.id !in IdsOf(regs) && Schedulable(c, accepts) then {KeyOf(c)} else {})
  {
    var c := listing[n];
    assert c.id in IdsOf(before) <==> c.id in IdsOf(regs);
    if c.id !in IdsOf(before) {
      AddedUnknown(before, c, accepts);
      JoinFacts(before, Registration(c, KeyOf(c)));
      assert Joins(regs, listing, n, accepts) <==> Admitted(before, c, accepts);
    }
  }

  lemma WithoutIds(regs: seq<Registration>, ids: set<string>)
    ensures IdsOf(Without(regs, ids)) == IdsOf(regs) - ids
  {
    WithoutMembers(regs, ids);
    forall id | id in IdsOf(regs) - ids ensures id in IdsOf(Without(regs, ids)) {
      var r :| r in regs && r.ctr.id == id;
      assert r in Without(regs, ids);
    }
  }

  /** Scheduled are the listed containers that were scheduled before, and those that join. */
  lemma ResyncedIds(regs: seq<Registration>, listing: seq<Container>, accepts: string -> bool)
    requires DistinctIds(listing)
    ensures IdsOf(Resynced(regs, listing, accepts)) ==
            IdsOf(regs) * Ids(listing) + JoinedIds(regs, listing, accepts)
  {
    AddedAllFacts(regs, listing, accepts);
    var added := AddedAll(regs, listing, accepts);
    WithoutIds(added, IdsOf(added) - Ids(listing));
    assert JoinedIds(regs, listing, accepts) <= Ids(listing);
  }

  /** What a resync is meant to leave scheduled. */
  ghost predicate SchedulesAsPromised(regs: seq<Registration>, listing: seq<Container>, accepts: string -> bool) {
    IdsOf(Resynced(regs, listing, accepts)) == IdsOf(regs) * Ids(listing) + SchedulableIds(listing, accepts)
  }

  /**
   Scheduled are the listed containers that were scheduled before or that can be
   scheduled now, exactly if no container that cron rejects fits a live group.
   */
  lemma ResyncSchedulesExactlyWhen(regs: seq<Registration>, listing: seq<Container>, accepts: string -> bool)
    requires DistinctIds(listing)
    ensures SchedulesAsPromised(regs, listing, accepts) <==>
            forall i: nat :: i < |listing| && Joins(regs, listing, i, accepts) ==> accepts(listing[i].schedule)
  {
    ResyncedIds(regs, listing, accepts);
    var joined, promised := JoinedIds(regs, listing, accepts), SchedulableIds(listing, accepts);
    forall c | c in listing && Schedulable(c, accepts) && c.id !in IdsOf(regs) ensures c.id in joined {
      var i: nat :| i < |listing| && listing[i] == c;
      assert Joins(regs, listing, i, accepts);
    }
    assert promised - IdsOf(regs) <= joined && promised <= Ids(listing);
    forall i: nat | i < |listing| && Joins(regs, listing, i, accepts)
      ensures listing[i].id in joined && (listing[i].id in promised <==> accepts(listing[i].schedule))
    {
      if listing[i].id in promised {
        var c :| c in listing && Schedulable(c, accepts) && c.id == listing[i].id;
        var j :| 0 <= j < |listing| && listing[j] == c;
        assert i == j;
      }
    }
  }

  /**
   A colon in a project's name lets a container in whose schedule cron rejects:
   it shares its key with a container of another project.
   */
  lemma ColonSlipsIn(regs: seq<Registration>, c: Container, d: Container, a: string, b: string, accepts: string -> bool)
    requires c.project == a + "::" + b && d.project == a && d.schedule == b + "::" + c.schedule
    requires c.id != d.id && c.id !in IdsOf(regs) && d.id !in IdsOf(regs)
    requires Schedulable(c, accepts) && Eligible(d) && !accepts(d.schedule)
    ensures !SchedulesAsPromised(regs, [c, d], accepts)
    ensures d.id in IdsOf(Resynced(regs, [c, d], accepts))
  {
    var listing := [c, d];
    assert KeyOf(c) == KeyOf(d) by {
      Associative(a, "::", b + "::" + c.schedule);
      assert KeyOf(c) == a + "::" + b + "::" + c.schedule == a + "::" + (b + "::" + c.schedule) == KeyOf(d);
    }
    assert c in listing[..1] && listing[..1] == [c];
    assert Joins(regs, listing, 1, accepts) && !accepts(listing[1].schedule);
    ResyncSchedulesExactlyWhen(regs, listing, accepts);
    ResyncedIds(regs, listing, accepts);
  }

  ghost predicate ColonFreeProjects(listing: seq<Container>) {
    forall c :: c in listing ==> ColonFree(c.project)
  }

  /** In every state of the scheduler, for Compose's colon-free project names. */
  lemma ColonFreeResync(regs: seq<Registration>, listing: seq<Container>, accepts: string -> bool, seen: set<string>)
    requires WellScheduled(regs, accepts, seen) && (forall p :: p in seen ==> ColonFree(p))
    requires DistinctIds(listing) && ColonFreeProjects(listing)
    ensures SchedulesAsPromised(regs, listing, accepts)
    ensures var once := Resynced(regs, listing, accepts); Resynced(once, listing, accepts) == once
  {
    forall i: nat | i < |listing| && Joins(regs, listing, i, accepts) ensures accepts(listing[i].schedule) {
      var c := listing[i];
      if KeyOf(c) in KeysOf(regs) {
        LiveKeyMeansAccepted(regs, accepts, seen, c);
      } else if !accepts(c.schedule) {
        var d :| d in listing[..i] && d.id !in IdsOf(regs) && Schedulable(d, accepts) && KeyOf(d) == KeyOf(c);
        GroupKeyIsInjective(d.project, d.schedule, c.project, c.schedule);
      }
    }
    ResyncSchedulesExactlyWhen(regs, listing, accepts);
    var once := Resynced(regs, listing, accepts);
    var all := seen + set c | c in listing :: c.project;
    ResyncedWellScheduled(regs, listing, accepts, seen);
    forall c | c in listing && c.id !in IdsOf(once) && Eligible(c) ensures KeyOf(c) !in KeysOf(once) {
      if KeyOf(c) in KeysOf(once) { LiveKeyMeansAccepted(once, accepts, all, c); }
    }
    SecondResyncExactlyWhen(regs, listing, accepts);
  }

  lemma {:induction false} AddedAllWellScheduled(
    regs: seq<Registration>, listing: seq<Container>, accepts: string -> bool, seen: set<string>)
    requires WellScheduled(regs, accepts, seen)
    ensures WellScheduled(AddedAll(regs, listing, accepts), accepts, seen + set c | c in listing :: c.project)
  {
    if listing == [] {
      SeeingMore(regs, accepts, seen, seen + set c | c in listing :: c.project);
    } else {
      var n := |listing| - 1;
      var before, c := AddedAll(regs, listing[..n], accepts), listing[n];
      var sofar := seen + set d | d in listing[..n] :: d.project;
      assert listing == listing[..n] + [c];
      assert seen + (set d | d in listing :: d.project) == sofar + {c.project};
      AddedAllWellScheduled(regs, listing[..n], accepts, seen);
      SeeingMore(before, accepts, sofar, sofar + {c.project});
      AddedKeepsWellScheduled(before, c, accepts, sofar);
    }
  }

  lemma ResyncedWellScheduled(
    regs: seq<Registration>, listing: seq<Container>, accepts: string -> bool, seen: set<string>)
    requires WellScheduled(regs, accepts, seen)
    ensures WellScheduled(Resynced(regs, listing, accepts), accepts, seen + set c | c in listing :: c.project)
  {
    AddedAllWellScheduled(regs, listing, accepts, seen);
    var added := AddedAll(regs, listing, accepts);
    WithoutKeepsWellScheduled(added, IdsOf(added) - Ids(listing), accepts, seen + set c | c in listing :: c.project);
  }

  // ----- when a resync changes nothing

  lemma {:induction false} AddedAllGrows(
    regs: seq<Registration>, listing: seq<Container>, accepts: string -> bool)
    ensures IdsOf(regs) <= IdsOf(AddedAll(regs, listing, accepts)) <= IdsOf(regs) + Ids(listing)
    ensures KeysOf(regs) <= KeysOf(AddedAll(regs, listing, accepts))
    ensures forall c :: c in listing && Admitted(regs, c, accepts) ==> c.id in IdsOf(AddedAll(regs, listing, accepts))
  {
    if listing != [] {
      var n := |listing| - 1;
      var before, c := AddedAll(regs, listing[..n], accepts), listing[n];
      AddedAllGrows(regs, listing[..n], accepts);
      assert listing == listing[..n] + [c];
      if c.id !in IdsOf(before) {
        AddedUnknown(before, c, accepts);
        JoinFacts(before, Registration(c, KeyOf(c)));
      }
    }
  }

  /** What is dropped was scheduled before: nothing is added and removed in the same resync. */
  lemma DroppedWereScheduled(regs: seq<Registration>, listing: seq<Container>, accepts: string -> bool)
    ensures IdsOf(AddedAll(regs, listing, accepts)) - Ids(listing) == IdsOf(regs) - Ids(listing)
  {
    AddedAllGrows(regs, listing, accepts);
  }

  lemma {:induction false} AddedAllNothing(regs: seq<Registration>, listing: seq<Container>, accepts: string -> bool)
    requires forall c :: c in listing && c.id !in IdsOf(regs) ==> !Admitted(regs, c, accepts)
    ensures AddedAll(regs, listing, accepts) == regs
  {
    if listing != [] {
      var n := |listing| - 1;
      assert listing == listing[..n] + [listing[n]];
      AddedAllNothing(regs, listing[..n], accepts);
      if listing[n].id !in IdsOf(regs) { AddedUnknown(regs, listing[n], accepts); }
    }
  }

  /** Nothing changes exactly if all that is scheduled is listed and no other listed container is admitted. */
  lemma ResyncChangesNothingExactlyWhen(regs: seq<Registration>, listing: seq<Container>, accepts: string -> bool)
    ensures Resynced(regs, listing, accepts) == regs <==>
            && IdsOf(regs) <= Ids(listing)
            && forall c :: c in listing && c.id !in IdsOf(regs) ==> !Admitted(regs, c, accepts)
  {
    var added := AddedAll(regs, listing, accepts);
    AddedAllGrows(regs, listing, accepts);
    WithoutIds(added, IdsOf(added) - Ids(listing));
    if forall c :: c in listing && c.id !in IdsOf(regs) ==> !Admitted(regs, c, accepts) {
      AddedAllNothing(regs, listing, accepts);
      if IdsOf(regs) <= Ids(listing) { WithoutNone(regs, IdsOf(added) - Ids(listing)); }
    }
  }

  /**
   A second resync with the same listing changes nothing exactly if the first
   one left out no container whose group is live now: cron refused the container
   before a later one, which it accepts, opened the group.
   */
  lemma SecondResyncExactlyWhen(regs: seq<Registration>, listing: seq<Container>, accepts: string -> bool)
    requires DistinctIds(listing)
    ensures var once := Resynced(regs, listing, accepts);
            Resynced(once, listing, accepts) == once <==>
            forall c :: c in listing && c.id !in IdsOf(once) && Eligible(c) ==> KeyOf(c) !in KeysOf(once)
  {
    var once := Resynced(regs, listing, accepts);
    ResyncedIds(regs, listing, accepts);
    ResyncChangesNothingExactlyWhen(once, listing, accepts);
    assert JoinedIds(regs, listing, accepts) <= Ids(listing);
    forall c | c in listing && Schedulable(c, accepts) ensures c.id in IdsOf(once) {
      var i: nat :| i < |listing| && listing[i] == c;
      if c.id !in IdsOf(regs) { assert Joins(regs, listing, i, accepts); }
    }
  }

  /** Of two new containers with different keys, cron refuses the first and accepts the second. */
  lemma RefusedIsLeftOut(refused: Container, scheduled: Container, accepts: string -> bool)
    requires refused.id != scheduled.id && !accepts(refused.schedule) && Schedulable(scheduled, accepts)
    requires KeyOf(refused) != KeyOf(scheduled)
    ensures var listing := [refused, scheduled];
            var once := Resynced([], listing, accepts);
            IdsOf(once) == {scheduled.id} && Resynced(once, listing, accepts) == once
  {
    var listing, r := [refused, scheduled], Registration(scheduled, KeyOf(scheduled));
    SecondIsAdded(refused, scheduled, accepts);
    assert scheduled in listing && IdsOf([r]) == {scheduled.id} <= Ids(listing);
    WithoutNone([r], IdsOf([r]) - Ids(listing));
    OneStaysLeftOut(refused, scheduled, accepts);
  }

  lemma SecondIsAdded(refused: Container, scheduled: Container, accepts: string -> bool)
    requires !accepts(refused.schedule) && Schedulable(scheduled, accepts)
    ensures AddedAll([], [refused, scheduled], accepts) == [Registration(scheduled, KeyOf(scheduled))]
  {
    AddedTwo([], refused, scheduled, accepts);
    AddedUnknown([], refused, accepts);
    AddedUnknown([], scheduled, accepts);
  }

  lemma OneStaysLeftOut(refused: Container, scheduled: Container, accepts: string -> bool)
    requires refused.id != scheduled.id && !accepts(refused.schedule) && KeyOf(refused) != KeyOf(scheduled)
    ensures var regs := [Registration(scheduled, KeyOf(scheduled))];
            Resynced(regs, [refused, scheduled], accepts) == regs
  {
    var listing, regs := [refused, scheduled], [Registration(scheduled, KeyOf(scheduled))];
    assert IdsOf(regs) == {scheduled.id} && KeysOf(regs) == {KeyOf(scheduled)};
    assert scheduled in listing;
    forall c | c in listing && c.id !in IdsOf(regs) ensures !Admitted(regs, c, accepts) {
      assert c == refused;
    }
    ResyncChangesNothingExactlyWhen(regs, listing, accepts);
  }

  lemma AddedTwo(regs: seq<Registration>, c: Container, d: Container, accepts: string -> bool)
    requires c.id !in IdsOf(regs)
    ensures var one := Added(regs, c, accepts);
            AddedAll(regs, [c, d], accepts) == if d.id in IdsOf(one) then one else Added(one, d, accepts)
  {
    assert [c, d][..1] == [c] && [c][..0] == [];
    assert AddedAll(regs, [c], accepts) == Added(regs, c, accepts);
  }

  /** The store after a resync that drops these ids, in the order of its updates. */
  ghost function AfterResync(
    st: RepoStore.Store, regs: seq<Registration>, listing: seq<Container>, accepts: string -> bool, resolve: Resolver,
    now: int, dropped: seq<string>): RepoStore.Store
  {
    RepoStore.Run(st, SyncsOf(regs, listing, accepts, resolve, now) + Orphans(dropped))
  }

  // ----- the code

  class Scheduler {
    const containerReg: Registry
    const repoReg: RepoStore.Registry
    const resolve: Resolver
    /** The projects of all containers added so far. */
    ghost var seen: set<string>

    ghost predicate Valid()
      reads this, containerReg, containerReg.cron, repoReg
    {
      && containerReg.Valid() && repoReg.Valid()
      && WellScheduled(containerReg.regs, containerReg.cron.accepts, seen)
      && RunsOwnGroups(containerReg.cron.entries, seen)
    }

    constructor (containerReg: Registry, repoReg: RepoStore.Registry, resolve: Resolver)
      requires containerReg.Valid() && repoReg.Valid() && containerReg.regs == []
      requires forall id :: id in containerReg.cron.entries ==> containerReg.cron.entries[id].job.MaintenanceRun?
      ensures Valid() && seen == {}
      ensures this.containerReg == containerReg && this.repoReg == repoReg && this.resolve == resolve
    {
      this.containerReg, this.repoReg, this.resolve := containerReg, repoReg, resolve;
      seen := {};
    }

    method AddContainer(ctr: Container, now: int) returns (ok: bool)
      requires Valid()
      modifies this, containerReg, containerReg.cron, repoReg
      ensures Valid() && seen == old(seen) + {ctr.project}
      ensures containerReg.regs == Added(old(containerReg.regs), ctr, containerReg.cron.accepts)
      ensures ok == (!Eligible(ctr) || ctr.id in IdsOf(containerReg.regs))
      ensures !ctr.enabled || ctr.schedule == "" ==>
        containerReg.regs == old(containerReg.regs) && repoReg.ops == old(repoReg.ops)
      ensures ctr.enabled && ctr.schedule != "" && containerReg.cron.accepts(ctr.schedule) ==>
        ctr.id in IdsOf(containerReg.regs)
      ensures ctr.enabled && ctr.schedule != "" && resolve(ctr).Some? ==>
        repoReg.ops == old(repoReg.ops) + [RepoStore.Sync(ctr, resolve(ctr).value, now)]
      ensures repoReg.ops == old(repoReg.ops) + SyncOps(ctr, resolve, now)
    {
      AddedKeepsWellScheduled(containerReg.regs, ctr, containerReg.cron.accepts, seen);
      OwnGroupsStay(containerReg.cron.entries, seen, ctr);
      seen := seen + {ctr.project};
      if !ctr.enabled {
        return true;
      }
      if ctr.schedule == "" {
        return true;
      }
      repoReg.SyncContainer(ctr, resolve(ctr), now);
      var key := GroupKey(ctr.project, ctr.schedule);
      ok := containerReg.Register(ctr, key, ctr.schedule, GroupRun(key, ctr.project));
    }

    method RemoveContainer(containerID: string)
      requires Valid()
      modifies containerReg, containerReg.cron, repoReg
      ensures Valid()
      ensures containerReg.regs == Without(old(containerReg.regs), {containerID})
      ensures repoReg.ops == old(repoReg.ops) +
              if containerID in IdsOf(old(containerReg.regs)) then [RepoStore.Orphan(containerID)] else []
    {
      WithoutKeepsWellScheduled(containerReg.regs, {containerID}, containerReg.cron.accepts, seen);
      var found := containerReg.Unregister(containerID);
      if !found {
        return;
      }
      repoReg.MarkOrphaned(containerID);
    }

    /** One turn of the first loop of `Resync`. */
    method AddIfNew(ctr: Container, now: int)
      requires Valid()
      modifies this, containerReg, containerReg.cron, repoReg
      ensures Valid() && old(seen) <= seen <= old(seen) + {ctr.project}
      ensures containerReg.regs ==
              if ctr.id in IdsOf(old(containerReg.regs)) then old(containerReg.regs)
              else Added(old(containerReg.regs), ctr, containerReg.cron.accepts)
      ensures repoReg.ops == old(repoReg.ops) +
              if ctr.id in IdsOf(old(containerReg.regs)) then [] else SyncOps(ctr, resolve, now)
    {
      var known := containerReg.Has(ctr.id);
      if known {
        return;
      }
      var _ := AddContainer(ctr, now);
    }

    /** The first loop of `Resync`. */
    method AddListed(listing: seq<Container>, now: int) returns (active: set<string>)
      requires Valid()
      modifies this, containerReg, containerReg.cron, repoReg
      ensures Valid() && active == Ids(listing)
      ensures old(seen) <= seen <= old(seen) + set c | c in listing :: c.project
      ensures containerReg.regs == AddedAll(old(containerReg.regs), listing, containerReg.cron.accepts)
      ensures repoReg.ops == old(repoReg.ops) +
              SyncsOf(old(containerReg.regs), listing, containerReg.cron.accepts, resolve, now)
    {
      active := {};
      ghost var regs0, ops0, seen0, accepts := containerReg.regs, repoReg.ops, seen, containerReg.cron.accepts;
      for i := 0 to |listing|
        invariant Valid() && active == Ids(listing[..i])
        invariant seen0 <= seen <= seen0 + set c | c in listing[..i] :: c.project
        invariant containerReg.regs == AddedAll(regs0, listing[..i], accepts)
        invariant repoReg.ops == ops0 + SyncsOf(regs0, listing[..i], accepts, resolve, now)
      {
        AddedAllSnoc(regs0, listing, i, accepts, resolve, now);
        Associative(ops0, SyncsOf(regs0, listing[..i], accepts, resolve, now), SyncOps(listing[i], resolve, now));
        active := active + {listing[i].id};
        AddIfNew(listing[i], now);
      }
      assert listing[..|listing|] == listing;
    }

    static lemma AddedAllSnoc(
      regs: seq<Registration>, listing: seq<Container>, i: nat, accepts: string -> bool, resolve: Resolver, now: int)
      requires i < |listing|
      ensures var before, c := AddedAll(regs, listing[..i], accepts), listing[i];
              var syncs := SyncsOf(regs, listing[..i], accepts, resolve, now);
              && AddedAll(regs, listing[..i + 1], accepts) ==
                 (if c.id in IdsOf(before) then before else Added(before, c, accepts))
              && SyncsOf(regs, listing[..i + 1], accepts, resolve, now) ==
                 (if c.id in IdsOf(before) then syncs else syncs + SyncOps(c, resolve, now))
              && Ids(listing[..i + 1]) == Ids(listing[..i]) + {c.id}
              && (set d | d in listing[..i + 1] :: d.project) == (set d | d in listing[..i] :: d.project) + {c.project}
    {
      assert listing[..i + 1][..i] == listing[..i] && listing[..i + 1] == listing[..i] + [listing[i]];
    }

    /** The second loop: entries of the snapshot that are not listed, in any order. */
    method DropUnlisted(active: set<string>) returns (ghost dropped: seq<string>)
      requires Valid()
      modifies containerReg, containerReg.cron, repoReg
      ensures Valid()
      ensures containerReg.regs == Without(old(containerReg.regs), IdsOf(old(containerReg.regs)) - active)
      ensures Enumerates(dropped, IdsOf(old(containerReg.regs)) - active)
      ensures repoReg.ops == old(repoReg.ops) + Orphans(dropped)
    {
      dropped := [];
      var entries := containerReg.Entries();
      var left := entries.Keys;
      ghost var regs0, ops0, all := containerReg.regs, repoReg.ops, IdsOf(containerReg.regs);
      WithoutNone(regs0, {});
      assert (all - left) - active == {};
      while left != {}
        invariant Valid() && left <= all
        invariant containerReg.regs == Without(regs0, (all - left) - active)
        invariant Enumerates(dropped, (all - left) - active)
        invariant repoReg.ops == ops0 + Orphans(dropped)
        decreases left
      {
        var id :| id in left;
        DropOne(regs0, all, left, active, id);
        if id !in active {
          OrphansSnoc(dropped, id);
          Associative(ops0, Orphans(dropped), [RepoStore.Orphan(id)]);
          EnumeratesSnoc(dropped, (all - left) - active, id);
          dropped := dropped + [id];
          RemoveContainer(id);
        }
        left := left - {id};
      }
      assert (all - left) - active == all - active;
    }

    static lemma DropOne(regs: seq<Registration>, all: set<string>, left: set<string>, active: set<string>, id: string)
      requires left <= all == IdsOf(regs) && id in left
      ensures var gone, gone' := (all - left) - active, (all - (left - {id})) - active;
              if id in active then gone' == gone
              else
                && gone' == gone + {id} && id !in gone
                && id in IdsOf(Without(regs, gone))
                && Without(Without(regs, gone), {id}) == Without(regs, gone')
    {
      var gone := (all - left) - active;
      WithoutIds(regs, gone);
      WithoutTwice(regs, gone, {id});
      if id !in active { assert (all - (left - {id})) - active == gone + {id}; }
      else { assert (all - (left - {id})) - active == gone; }
    }

    /** `listing` is what Docker returned; on an error nothing is done. */
    method Resync(listing: RepoStore.Option<seq<Container>>, now: int) returns (ghost dropped: seq<string>)
      requires Valid()
      modifies this, containerReg, containerReg.cron, repoReg
      ensures Valid() && old(seen) <= seen
      ensures listing.None? ==>
        containerReg.regs == old(containerReg.regs) && repoReg.ops == old(repoReg.ops) && seen == old(seen)
      ensures listing.Some? ==>
        && containerReg.regs == Resynced(old(containerReg.regs), listing.value, containerReg.cron.accepts)
        && repoReg.ops == old(repoReg.ops) +
             SyncsOf(old(containerReg.regs), listing.value, containerReg.cron.accepts, resolve, now) + Orphans(dropped)
        && repoReg.Value() == AfterResync(old(repoReg.Value()), old(containerReg.regs), listing.value,
             containerReg.cron.accepts, resolve, now, dropped)
        && Enumerates(dropped, IdsOf(old(containerReg.regs)) - Ids(listing.value))
        && seen <= old(seen) + set c | c in listing.value :: c.project
    {
      dropped := [];
      if listing.None? {
        return;
      }
      var active := AddListed(listing.value, now);
      dropped := DropUnlisted(active);
      DroppedWereScheduled(old(containerReg.regs), listing.value, containerReg.cron.accepts);
      ghost var syncs := SyncsOf(old(containerReg.regs), listing.value, containerReg.cron.accepts, resolve, now);
      Associative(old(repoReg.ops), syncs, Orphans(dropped));
      RepoStore.RunConcat(RepoStore.EMPTY, old(repoReg.ops), syncs + Orphans(dropped));
    }
  }

  /** The members of a set, each once, in some order. */
  ghost predicate Enumerates(ids: seq<string>, s: set<string>) {
    NoDuplicates(ids) && forall id :: id in ids <==> id in s
  }

  lemma EnumeratesSnoc(ids: seq<string>, s: set<string>, id: string)
    requires Enumerates(ids, s) && id !in s
    ensures Enumerates(ids + [id], s + {id})
  {
  }

  /** One MarkOrphaned for each id. */
  ghost function Orphans(ids: seq<string>): seq<RepoStore.Op> {
    if ids == [] then [] else Orphans(ids[..|ids| - 1]) + [RepoStore.Orphan(ids[|ids| - 1])]
  }

  lemma OrphansSnoc(ids: seq<string>, id: string)
    ensures Orphans(ids + [id]) == Orphans(ids) + [RepoStore.Orphan(id)]
  {
    assert (ids + [id])[..|ids|] == ids;
  }
}
