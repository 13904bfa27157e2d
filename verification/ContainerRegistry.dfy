/**
 internal/scheduler/registry.go: which containers are scheduled, in which group.
 The code keeps three maps (id to key, key to containers, key to cron entry);
 they are proved to be views of one list of registrations, in the order the
 containers were registered.
 */
module ContainerRegistry {
  import opened Containers

  datatype Registration = Registration(ctr: Container, key: string)

  // ----- the abstract state

  ghost predicate Unique(regs: seq<Registration>) {
    forall i, j :: 0 <= i < j < |regs| ==> regs[i].ctr.id != regs[j].ctr.id
  }

  ghost function IdsOf(regs: seq<Registration>): set<string> {
    set r | r in regs :: r.ctr.id
  }

  ghost function KeysOf(regs: seq<Registration>): set<string> {
    set r | r in regs :: r.key
  }

  /** id to group key. */
  ghost function Index(regs: seq<Registration>): map<string, string> {
    if regs == [] then map[]
    else
      var r := regs[|regs| - 1];
      Index(regs[..|regs| - 1])[r.ctr.id := r.key]
  }

  /** The containers registered under a key, oldest first. */
  ghost function GroupOf(regs: seq<Registration>, key: string): seq<Container> {
    if regs == [] then []
    else
      var r := regs[|regs| - 1];
      var g := GroupOf(regs[..|regs| - 1], key);
      if r.key == key then g + [r.ctr] else g
  }

  ghost function Without(regs: seq<Registration>, ids: set<string>): seq<Registration> {
    if regs == [] then []
    else
      var r := regs[|regs| - 1];
      var w := Without(regs[..|regs| - 1], ids);
      if r.ctr.id in ids then w else w + [r]
  }

  /**
   `register`. A container that changes groups leaves its old one first, and is
   left out altogether if cron then rejects the schedule of its new group.
   */
  ghost function Registered(regs: seq<Registration>, ctr: Container, key: string, accepted: bool): seq<Registration> {
    if HasKey(regs, ctr.id, key) then regs
    else
      var rest := Without(regs, {ctr.id});
      if key in KeysOf(rest) || accepted then rest + [Registration(ctr, key)] else rest
  }

  ghost predicate Scheduled(regs: seq<Registration>, c: Container) {
    exists r :: r in regs && r.ctr == c
  }

  lemma OneRegistration(regs: seq<Registration>, r: Registration)
    requires Unique(regs) && r in regs
    ensures forall q :: q in regs && q.ctr.id == r.ctr.id ==> q == r
  {
    forall q | q in regs && q.ctr.id == r.ctr.id ensures q == r {
      var i :| 0 <= i < |regs| && regs[i] == r;
      var j :| 0 <= j < |regs| && regs[j] == q;
      assert i == j;
    }
  }

  ghost predicate HasKey(regs: seq<Registration>, id: string, key: string) {
    exists r :: r in regs && r.ctr.id == id && r.key == key
  }

  // ----- facts about it

  lemma {:induction false} WithoutMembers(regs: seq<Registration>, ids: set<string>)
    ensures forall r :: r in Without(regs, ids) <==> r in regs && r.ctr.id !in ids
    ensures Unique(regs) ==> Unique(Without(regs, ids))
  {
    if regs != [] {
      var n := |regs| - 1;
      var rest, w := regs[..n], Without(regs[..n], ids);
      WithoutMembers(rest, ids);
      assert regs == rest + [regs[n]];
      forall i | Unique(regs) && 0 <= i < |w| ensures w[i].ctr.id != regs[n].ctr.id {
        assert w[i] in w;
        var k :| 0 <= k < n && rest[k] == w[i];
        assert regs[k] == w[i];
      }
    }
  }

  lemma {:induction false} WithoutNone(regs: seq<Registration>, ids: set<string>)
    requires IdsOf(regs) !! ids
    ensures Without(regs, ids) == regs
  {
    if regs != [] {
      var n := |regs| - 1;
      assert regs == regs[..n] + [regs[n]];
      assert IdsOf(regs[..n]) <= IdsOf(regs) && regs[n] in regs;
      WithoutNone(regs[..n], ids);
    }
  }

  lemma {:induction false} WithoutTwice(regs: seq<Registration>, a: set<string>, b: set<string>)
    ensures Without(Without(regs, a), b) == Without(regs, a + b)
  {
    if regs != [] {
      var n := |regs| - 1;
      WithoutTwice(regs[..n], a, b);
      if regs[n].ctr.id !in a {
        var w := Without(regs[..n], a);
        assert (w + [regs[n]])[..|w|] == w;
      }
    }
  }

  lemma LastIsNew(regs: seq<Registration>)
    requires Unique(regs) && regs != []
    ensures regs[|regs| - 1].ctr.id !in IdsOf(regs[..|regs| - 1]) && Unique(regs[..|regs| - 1])
    ensures IdsOf(regs) == IdsOf(regs[..|regs| - 1]) + {regs[|regs| - 1].ctr.id}
  {
    var n := |regs| - 1;
    forall r | r in regs[..n] ensures r.ctr.id != regs[n].ctr.id {
      var i :| 0 <= i < n && regs[..n][i] == r;
      assert regs[i] == r;
    }
    assert regs == regs[..n] + [regs[n]];
  }

  lemma {:induction false} IndexMembers(regs: seq<Registration>)
    requires Unique(regs)
    ensures Index(regs).Keys == IdsOf(regs)
    ensures forall r :: r in regs ==> r.ctr.id in Index(regs) && Index(regs)[r.ctr.id] == r.key
    ensures |Index(regs)| == |regs|
  {
    if regs != [] {
      var n := |regs| - 1;
      LastIsNew(regs);
      IndexMembers(regs[..n]);
      forall r | r in regs ensures r.ctr.id in Index(regs) && Index(regs)[r.ctr.id] == r.key {
        assert r in regs[..n] || r == regs[n];
        if r in regs[..n] { assert r.ctr.id in IdsOf(regs[..n]); }
      }
    }
  }

  /** A container is in the group of its own key and in no other, once. */
  lemma GroupMembers(regs: seq<Registration>, key: string)
    ensures forall c :: c in GroupOf(regs, key) <==> Registration(c, key) in regs
    ensures Unique(regs) ==> DistinctIds(GroupOf(regs, key))
    ensures GroupOf(regs, key) != [] <==> key in KeysOf(regs)
  {
    GroupContents(regs, key);
    if Unique(regs) { GroupDistinct(regs, key); }
    if key in KeysOf(regs) {
      var r :| r in regs && r.key == key;
      assert r.ctr in GroupOf(regs, key);
    }
    if GroupOf(regs, key) != [] {
      assert GroupOf(regs, key)[0] in GroupOf(regs, key);
    }
  }

  lemma {:induction false} GroupContents(regs: seq<Registration>, key: string)
    ensures forall c :: c in GroupOf(regs, key) <==> Registration(c, key) in regs
  {
    if regs != [] {
      var n := |regs| - 1;
      GroupContents(regs[..n], key);
      assert regs == regs[..n] + [regs[n]];
    }
  }

  lemma {:induction false} GroupDistinct(regs: seq<Registration>, key: string)
    requires Unique(regs)
    ensures DistinctIds(GroupOf(regs, key))
  {
    if regs != [] {
      var n := |regs| - 1;
      var g := GroupOf(regs[..n], key);
      LastIsNew(regs);
      GroupDistinct(regs[..n], key);
      GroupContents(regs[..n], key);
      forall i | 0 <= i < |g| ensures g[i].id != regs[n].ctr.id {
        assert g[i] in g;
      }
    }
  }

  /** A scheduled id is in its own group, once, and in no other. */
  lemma InExactlyOneGroup(regs: seq<Registration>, r: Registration)
    requires Unique(regs) && r in regs
    ensures r.ctr in GroupOf(regs, r.key)
    ensures forall key, i :: 0 <= i < |GroupOf(regs, key)| && GroupOf(regs, key)[i].id == r.ctr.id ==>
      key == r.key && forall j :: 0 <= j < |GroupOf(regs, key)| && GroupOf(regs, key)[j].id == r.ctr.id ==> j == i
  {
    OneRegistration(regs, r);
    forall key
      ensures DistinctIds(GroupOf(regs, key))
              && forall c :: c in GroupOf(regs, key) <==> Registration(c, key) in regs
    {
      GroupMembers(regs, key);
    }
    forall key, i | 0 <= i < |GroupOf(regs, key)| && GroupOf(regs, key)[i].id == r.ctr.id ensures key == r.key {
      assert GroupOf(regs, key)[i] in GroupOf(regs, key);
    }
  }

  lemma {:induction false} WithoutGroup(regs: seq<Registration>, id: string, key: string)
    requires forall r :: r in regs && r.ctr.id == id ==> r.key != key
    ensures GroupOf(Without(regs, {id}), key) == GroupOf(regs, key)
  {
    if regs != [] {
      var n := |regs| - 1;
      assert regs[n] in regs;
      assert forall r :: r in regs[..n] ==> r in regs;
      WithoutGroup(regs[..n], id, key);
      if regs[n].ctr.id != id {
        var w := Without(regs[..n], {id});
        assert (w + [regs[n]])[..|w|] == w;
      }
    }
  }

  lemma GroupSnoc(regs: seq<Registration>, r: Registration, key: string)
    ensures GroupOf(regs + [r], key) == if r.key == key then GroupOf(regs, key) + [r.ctr] else GroupOf(regs, key)
  {
    assert (regs + [r])[..|regs|] == regs;
  }

  lemma CutBeforeLast<T>(g: seq<T>, last: T, i: nat)
    requires i < |g|
    ensures (g + [last])[..i] + (g + [last])[i + 1..] == g[..i] + g[i + 1..] + [last]
  {
  }

  /** Leaving a group removes exactly the leaver from it. */
  lemma {:induction false} WithoutOwnGroup(regs: seq<Registration>, id: string, key: string, i: nat)
    requires Unique(regs) && i < |GroupOf(regs, key)| && GroupOf(regs, key)[i].id == id
    ensures GroupOf(Without(regs, {id}), key) == GroupOf(regs, key)[..i] + GroupOf(regs, key)[i + 1..]
  {
    var n := |regs| - 1;
    var rest, last := regs[..n], regs[n];
    var g := GroupOf(rest, key);
    if i < |g| {
      MemberBefore(regs, key, i);
      WithoutOwnGroup(rest, id, key, i);
      GroupSnoc(Without(rest, {id}), last, key);
      if last.key == key { CutBeforeLast(g, last.ctr, i); }
    } else {
      assert last.ctr.id == id && last.key == key;
      assert IdsOf(rest) !! {id} by {
        forall r | r in rest ensures r.ctr.id != id {
          var k :| 0 <= k < n && rest[k] == r;
          assert regs[k] == r;
        }
      }
      WithoutNone(rest, {id});
      assert (g + [last.ctr])[..i] == g;
    }
  }

  /** A group member found before the last registration is not the last one. */
  lemma MemberBefore(regs: seq<Registration>, key: string, i: nat)
    requires Unique(regs) && regs != [] && i < |GroupOf(regs[..|regs| - 1], key)|
    ensures GroupOf(regs[..|regs| - 1], key)[i].id != regs[|regs| - 1].ctr.id
    ensures Unique(regs[..|regs| - 1])
  {
    var n := |regs| - 1;
    var g := GroupOf(regs[..n], key);
    GroupMembers(regs[..n], key);
    assert g[i] in g;
    var k :| 0 <= k < n && regs[..n][k] == Registration(g[i], key);
    assert regs[k].ctr.id == g[i].id;
  }

  lemma AppendFacts(regs: seq<Registration>, r: Registration)
    requires Unique(regs) && r.ctr.id !in IdsOf(regs)
    ensures Unique(regs + [r])
    ensures Index(regs + [r]) == Index(regs)[r.ctr.id := r.key]
    ensures KeysOf(regs + [r]) == KeysOf(regs) + {r.key}
    ensures IdsOf(regs + [r]) == IdsOf(regs) + {r.ctr.id}
    ensures forall key ::
      GroupOf(regs + [r], key) == if key == r.key then GroupOf(regs, key) + [r.ctr] else GroupOf(regs, key)
  {
    assert (regs + [r])[..|regs|] == regs;
    forall i | 0 <= i < |regs| ensures regs[i].ctr.id != r.ctr.id { assert regs[i] in regs; }
  }

  lemma {:induction false} IndexWithout(regs: seq<Registration>, id: string)
    requires Unique(regs)
    ensures Index(Without(regs, {id})) == Index(regs) - {id}
  {
    if regs != [] {
      var n := |regs| - 1;
      var m, r := Index(regs[..n]), regs[n];
      IndexWithout(regs[..n], id);
      if r.ctr.id == id {
        assert m[id := r.key] - {id} == m - {id};
      } else {
        var w := Without(regs[..n], {id});
        assert (w + [r])[..|w|] == w;
        assert m[r.ctr.id := r.key] - {id} == (m - {id})[r.ctr.id := r.key];
      }
    }
  }

  /** Only the leaver's own group can become empty. */
  lemma KeysWithout(regs: seq<Registration>, id: string, key: string)
    requires Unique(regs) && HasKey(regs, id, key)
    ensures KeysOf(Without(regs, {id})) + {key} == KeysOf(regs)
  {
    WithoutMembers(regs, {id});
    var r :| r in regs && r.ctr.id == id && r.key == key;
    OneRegistration(regs, r);
  }

  lemma RegisteredMembers(regs: seq<Registration>, ctr: Container, key: string, accepted: bool)
    requires Unique(regs)
    ensures Unique(Registered(regs, ctr, key, accepted))
    ensures ctr.id in IdsOf(Registered(regs, ctr, key, accepted)) ==>
      HasKey(Registered(regs, ctr, key, accepted), ctr.id, key)
    ensures forall r: Registration :: r.ctr.id != ctr.id ==> (r in Registered(regs, ctr, key, accepted) <==> r in regs)
  {
    WithoutMembers(regs, {ctr.id});
    var rest := Without(regs, {ctr.id});
    forall i | 0 <= i < |rest| ensures rest[i].ctr.id != ctr.id { assert rest[i] in rest; }
    var after := Registered(regs, ctr, key, accepted);
    if after == rest + [Registration(ctr, key)] {
      assert Registration(ctr, key) in after;
    }
  }

  /** What unregistering does to each of the three views. */
  lemma LeaveFacts(regs: seq<Registration>, id: string, key: string, i: nat)
    requires Unique(regs) && HasKey(regs, id, key)
    requires i < |GroupOf(regs, key)| && GroupOf(regs, key)[i].id == id
    ensures var after := Without(regs, {id});
            && Unique(after)
            && Index(after) == Index(regs) - {id}
            && GroupOf(after, key) == GroupOf(regs, key)[..i] + GroupOf(regs, key)[i + 1..]
            && (forall k :: k != key ==> GroupOf(after, k) == GroupOf(regs, k))
            && KeysOf(after) == if GroupOf(after, key) == [] then KeysOf(regs) - {key} else KeysOf(regs)
  {
    var after := Without(regs, {id});
    WithoutMembers(regs, {id});
    IndexWithout(regs, id);
    WithoutOwnGroup(regs, id, key, i);
    KeysWithout(regs, id, key);
    GroupMembers(after, key);
    forall k | k != key ensures GroupOf(after, k) == GroupOf(regs, k) {
      OnlyOneKey(regs, id, key);
      WithoutGroup(regs, id, k);
    }
    var r :| r in regs && r.ctr.id == id && r.key == key;
    assert key in KeysOf(regs);
  }

  lemma OnlyOneKey(regs: seq<Registration>, id: string, key: string)
    requires Unique(regs) && HasKey(regs, id, key)
    ensures forall r :: r in regs && r.ctr.id == id ==> r.key == key
  {
    var r :| r in regs && r.ctr.id == id && r.key == key;
    OneRegistration(regs, r);
  }

  /** Who registers anew stands at the end of the new group and is cut out of the old one; nobody else moves. */
  lemma RegisteringMovesToEnd(regs: seq<Registration>, ctr: Container, key: string, accepted: bool)
    requires Unique(regs) && !HasKey(regs, ctr.id, key) && (accepted || key in KeysOf(Without(regs, {ctr.id})))
    ensures var after := Registered(regs, ctr, key, accepted);
            && GroupOf(after, key) == GroupOf(regs, key) + [ctr]
            && (forall k :: k != key && !HasKey(regs, ctr.id, k) ==> GroupOf(after, k) == GroupOf(regs, k))
            && (forall k, i | k != key && 0 <= i < |GroupOf(regs, k)| && GroupOf(regs, k)[i].id == ctr.id ::
                  GroupOf(after, k) == GroupOf(regs, k)[..i] + GroupOf(regs, k)[i + 1..])
  {
    var rest := Without(regs, {ctr.id});
    forall k ensures GroupOf(rest + [Registration(ctr, key)], k) ==
      if k == key then GroupOf(rest, k) + [ctr] else GroupOf(rest, k)
    {
      GroupSnoc(rest, Registration(ctr, key), k);
    }
    forall k | !HasKey(regs, ctr.id, k) ensures GroupOf(rest, k) == GroupOf(regs, k) {
      WithoutGroup(regs, ctr.id, k);
    }
    forall k, i | k != key && 0 <= i < |GroupOf(regs, k)| && GroupOf(regs, k)[i].id == ctr.id
      ensures GroupOf(rest, k) == GroupOf(regs, k)[..i] + GroupOf(regs, k)[i + 1..]
    {
      WithoutOwnGroup(regs, ctr.id, k, i);
    }
  }

  // ----- group keys

  function GroupKey(project: string, schedule: string): string {
    project + "::" + schedule
  }

  predicate SeparatorAt(key: string, k: int) {
    0 <= k <= |key| - 2 && key[k] == ':' && key[k + 1] == ':'
  }

  /** `strings.LastIndex(key, "::")`. */
  function LastSeparator(key: string): (i: int)
    ensures i == -1 || SeparatorAt(key, i)
    ensures forall k :: i < k ==> !SeparatorAt(key, k)
  {
    if |key| < 2 then -1
    else if SeparatorAt(key, |key| - 2) then |key| - 2
    else
      var i := LastSeparator(key[..|key| - 1]);
      assert forall k :: SeparatorAt(key, k) ==> SeparatorAt(key[..|key| - 1], k) || k == |key| - 2;
      i
  }

  function ScheduleFromKey(key: string): string {
    var i := LastSeparator(key);
    if i >= 0 then key[i + 2..] else key
  }

  /** The schedule is read back from the key exactly if no separator starts after the project's end. */
  lemma ScheduleIsRecoveredExactlyWhen(project: string, schedule: string)
    ensures ScheduleFromKey(GroupKey(project, schedule)) == schedule <==>
            forall k :: !SeparatorAt(":" + schedule, k)
  {
    var key, tail, n := GroupKey(project, schedule), ":" + schedule, |project| + 1;
    var i := LastSeparator(key);
    assert SeparatorAt(key, |project|);
    assert i >= |project|;
    assert key[n..] == tail;
    assert forall k :: 0 <= k < |tail| ==> tail[k] == key[n + k];
    assert key[|project| + 2..] == schedule;
    if i > |project| {
      assert SeparatorAt(tail, i - n);
    } else {
      forall k | 0 <= k ensures !SeparatorAt(tail, k) {
        assert !SeparatorAt(key, n + k);
      }
    }
  }

  predicate ColonFree(s: string) {
    ':' !in s
  }

  /** Where a colon-free project ends. */
  lemma ProjectEnds(p: string, s: string)
    requires ColonFree(p)
    ensures GroupKey(p, s)[|p|] == ':' && forall i :: 0 <= i < |p| ==> GroupKey(p, s)[i] != ':'
  {
    forall i | 0 <= i < |p| ensures GroupKey(p, s)[i] != ':' { assert p[i] in p; }
  }

  /** Compose project names have no colon, so a key determines its project and schedule. */
  lemma GroupKeyIsInjective(p: string, s: string, q: string, t: string)
    requires ColonFree(p) && ColonFree(q) && GroupKey(p, s) == GroupKey(q, t)
    ensures p == q && s == t
  {
    ProjectEnds(p, s);
    ProjectEnds(q, t);
    var key := GroupKey(p, s);
    assert |p| == |q|;
    assert key[..|p|] == p && key[..|q|] == q;
    assert key[|p| + 2..] == s && key[|q| + 2..] == t;
  }

  // ----- cron

  /** The functions given to cron; a group's closes over its key and its project. */
  datatype CronJob = GroupRun(key: string, project: string) | MaintenanceRun

  datatype CronEntry = CronEntry(schedule: string, job: CronJob)

  /** The cron library: it accepts some schedules, and hands out ids it has not used. */
  class Cron {
    const accepts: string -> bool
    var entries: map<nat, CronEntry>
    var next: nat

    constructor (accepts: string -> bool)
      ensures this.accepts == accepts && entries == map[] && Valid()
    {
      this.accepts := accepts;
      entries, next := map[], 0;
    }

    ghost predicate Valid()
      reads this
    {
      forall id :: id in entries ==> id < next && accepts(entries[id].schedule)
    }

    method AddFunc(schedule: string, job: CronJob) returns (ok: bool, id: nat)
      requires Valid()
      modifies this
      ensures Valid() && ok == accepts(schedule)
      ensures ok ==> id !in old(entries) && entries == old(entries)[id := CronEntry(schedule, job)]
      ensures !ok ==> entries == old(entries)
    {
      ok, id := accepts(schedule), next;
      if ok {
        entries, next := entries[id := CronEntry(schedule, job)], next + 1;
      }
    }

    method Remove(id: nat)
      requires Valid()
      modifies this
      ensures Valid() && entries == old(entries) - {id}
    {
      entries := entries - {id};
    }
  }

  // ----- agreement of the maps, as facts about values

  /** `index` and `groups` are views of the registrations. */
  ghost predicate Agrees(regs: seq<Registration>, index: map<string, string>, groups: map<string, seq<Container>>) {
    && Unique(regs)
    && index == Index(regs)
    && groups.Keys == KeysOf(regs)
    && forall key :: key in groups ==> groups[key] == GroupOf(regs, key)
  }

  /** Live cron entries and groups correspond one to one. */
  ghost predicate CronAgrees(keys: set<string>, cronIDs: map<string, nat>, entries: map<nat, CronEntry>) {
    && cronIDs.Keys == keys
    && (forall key :: key in cronIDs ==> RunsGroup(entries, cronIDs[key], key))
    && (forall id, key :: RunsGroup(entries, id, key) ==> key in cronIDs && cronIDs[key] == id)
  }

  ghost predicate RunsGroup(entries: map<nat, CronEntry>, id: nat, key: string) {
    id in entries && entries[id].job.GroupRun? && entries[id].job.key == key
  }

  /** The later entries are earlier ones as they were, or this one. */
  ghost predicate OnlyAdds(before: map<nat, CronEntry>, after: map<nat, CronEntry>, added: set<CronEntry>) {
    forall id :: id in after ==> (id in before && after[id] == before[id]) || after[id] in added
  }

  /** All of the registry's maps, and cron's, agree. */
  ghost predicate Consistent(
    regs: seq<Registration>, index: map<string, string>, groups: map<string, seq<Container>>,
    cronIDs: map<string, nat>, entries: map<nat, CronEntry>)
  {
    Agrees(regs, index, groups) && CronAgrees(groups.Keys, cronIDs, entries)
  }

  /** Reading a Go map of slices. */
  function Slice(groups: map<string, seq<Container>>, key: string): seq<Container> {
    if key in groups then groups[key] else []
  }

  lemma IndexedKey(regs: seq<Registration>, id: string, key: string)
    requires Unique(regs)
    ensures HasKey(regs, id, key) <==> id in Index(regs) && Index(regs)[id] == key
    ensures HasKey(regs, id, key) ==> id in IdsOf(regs)
  {
    IndexMembers(regs);
    if id in Index(regs) {
      var r :| r in regs && r.ctr.id == id;
      assert Index(regs)[id] == r.key;
    }
  }

  lemma AbsentAfterLeaving(regs: seq<Registration>, id: string)
    requires Unique(regs)
    ensures id !in IdsOf(Without(regs, {id}))
    ensures id !in Index(regs) ==> Without(regs, {id}) == regs
  {
    WithoutMembers(regs, {id});
    IndexMembers(regs);
    if id !in IdsOf(regs) { WithoutNone(regs, {id}); }
  }

  lemma JoinedIsIn(regs: seq<Registration>, r: Registration)
    ensures r.ctr.id in IdsOf(regs + [r])
  {
    assert r in regs + [r];
  }

  lemma AgreesJoin(
    regs: seq<Registration>, index: map<string, string>, groups: map<string, seq<Container>>,
    ctr: Container, key: string)
    requires Agrees(regs, index, groups) && ctr.id !in IdsOf(regs)
    ensures Agrees(regs + [Registration(ctr, key)], index[ctr.id := key], groups[key := Slice(groups, key) + [ctr]])
  {
    AppendFacts(regs, Registration(ctr, key));
    GroupMembers(regs, key);
  }

  lemma ConsistentJoin(
    regs: seq<Registration>, index: map<string, string>, groups: map<string, seq<Container>>,
    cronIDs: map<string, nat>, entries: map<nat, CronEntry>, ctr: Container, key: string)
    requires Consistent(regs, index, groups, cronIDs, entries) && ctr.id !in IdsOf(regs) && key in groups
    ensures Consistent(regs + [Registration(ctr, key)], index[ctr.id := key],
              groups[key := Slice(groups, key) + [ctr]], cronIDs, entries)
  {
    AgreesJoin(regs, index, groups, ctr, key);
    assert groups[key := Slice(groups, key) + [ctr]].Keys == groups.Keys;
  }

  lemma ConsistentNewGroup(
    regs: seq<Registration>, index: map<string, string>, groups: map<string, seq<Container>>,
    cronIDs: map<string, nat>, entries: map<nat, CronEntry>, ctr: Container, key: string, id: nat, e: CronEntry)
    requires Consistent(regs, index, groups, cronIDs, entries) && ctr.id !in IdsOf(regs)
    requires key !in cronIDs && id !in entries && e.job.GroupRun? && e.job.key == key
    ensures Consistent(regs + [Registration(ctr, key)], index[ctr.id := key],
              groups[key := Slice(groups, key) + [ctr]], cronIDs[key := id], entries[id := e])
  {
    AgreesJoin(regs, index, groups, ctr, key);
    CronNewGroup(groups.Keys, cronIDs, entries, key, id, e);
    assert groups[key := Slice(groups, key) + [ctr]].Keys == groups.Keys + {key};
  }

  lemma ConsistentLeave(
    regs: seq<Registration>, index: map<string, string>, groups: map<string, seq<Container>>,
    cronIDs: map<string, nat>, entries: map<nat, CronEntry>, id: string, key: string, i: nat)
    requires Consistent(regs, index, groups, cronIDs, entries) && id in index && index[id] == key && key in groups
    requires i < |groups[key]| && groups[key][i].id == id
    ensures key in cronIDs
    ensures var left := groups[key][..i] + groups[key][i + 1..];
            if |left| == 0
            then Consistent(Without(regs, {id}), index - {id},
                  groups[key := left] - {key}, cronIDs - {key}, entries - {cronIDs[key]})
            else Consistent(Without(regs, {id}), index - {id}, groups[key := left], cronIDs, entries)
  {
    IndexMembers(regs);
    assert HasKey(regs, id, key);
    LeaveFacts(regs, id, key, i);
    CronLeave(groups.Keys, cronIDs, entries, key);
    var left := groups[key][..i] + groups[key][i + 1..];
    assert groups[key := left].Keys == groups.Keys;
    assert (groups[key := left] - {key}).Keys == groups.Keys - {key};
  }

  /** An indexed container is found in its group. */
  lemma IndexedIsInGroup(
    regs: seq<Registration>, index: map<string, string>, groups: map<string, seq<Container>>, id: string)
    requires Agrees(regs, index, groups) && id in index
    ensures index[id] in groups && exists i :: 0 <= i < |groups[index[id]]| && groups[index[id]][i].id == id
    ensures id in IdsOf(regs)
  {
    IndexMembers(regs);
    GroupMembers(regs, index[id]);
    var r :| r in regs && r.ctr.id == id;
    assert r.ctr in GroupOf(regs, r.key);
  }

  lemma CronNewGroup(
    keys: set<string>, cronIDs: map<string, nat>, entries: map<nat, CronEntry>,
    key: string, id: nat, e: CronEntry)
    requires CronAgrees(keys, cronIDs, entries) && key !in keys && id !in entries
    requires e.job.GroupRun? && e.job.key == key
    ensures CronAgrees(keys + {key}, cronIDs[key := id], entries[id := e])
  {
    var after := entries[id := e];
    forall i, k | RunsGroup(after, i, k) ensures k in cronIDs[key := id] && cronIDs[key := id][k] == i {
      if i != id { assert RunsGroup(entries, i, k); }
    }
    forall k | k in cronIDs ensures RunsGroup(after, cronIDs[k], k) {
      assert RunsGroup(entries, cronIDs[k], k);
    }
  }

  lemma CronLeave(keys: set<string>, cronIDs: map<string, nat>, entries: map<nat, CronEntry>, key: string)
    requires CronAgrees(keys, cronIDs, entries) && key in keys
    ensures CronAgrees(keys - {key}, cronIDs - {key}, entries - {cronIDs[key]})
  {
    forall id, k | RunsGroup(entries - {cronIDs[key]}, id, k) ensures k in cronIDs - {key} && cronIDs[k] == id {
      assert RunsGroup(entries, id, k);
    }
    forall k | k in cronIDs && k != key ensures RunsGroup(entries - {cronIDs[key]}, cronIDs[k], k) {
      assert RunsGroup(entries, cronIDs[k], k) && RunsGroup(entries, cronIDs[key], key);
    }
  }

  // ----- the registry

  datatype EntryInfo = EntryInfo(ctr: Container, schedule: string)

  class Registry {
    var groups: map<string, seq<Container>>
    var index: map<string, string>
    var cronIDs: map<string, nat>
    const cron: Cron
    ghost var regs: seq<Registration>

    /** The three maps agree with the registrations, and cron with the groups. */
    ghost predicate Valid()
      reads this, cron
    {
      Consistent(regs, index, groups, cronIDs, cron.entries) && cron.Valid()
    }

    constructor (cron: Cron)
      requires cron.Valid() && forall id :: id in cron.entries ==> cron.entries[id].job.MaintenanceRun?
      ensures Valid() && this.cron == cron && regs == []
    {
      groups, index, cronIDs, regs := map[], map[], map[], [];
      this.cron := cron;
    }

    /** `fn` is what cron runs for a new group: it is closed over the group's key. */
    method Register(ctr: Container, key: string, schedule: string, fn: CronJob) returns (ok: bool)
      requires Valid() && fn.GroupRun? && fn.key == key
      modifies this, cron
      ensures Valid()
      ensures regs == Registered(old(regs), ctr, key, cron.accepts(schedule))
      ensures ok == (ctr.id in IdsOf(regs))
      ensures OnlyAdds(old(cron.entries), cron.entries, {CronEntry(schedule, fn)})
    {
      IndexedKey(regs, ctr.id, key);
      AbsentAfterLeaving(regs, ctr.id);
      if ctr.id in index {
        if index[ctr.id] == key {
          return true;
        }
        var _ := UnregisterLocked(ctr.id);
      }
      JoinedIsIn(regs, Registration(ctr, key));
      ok := Join(ctr, key, schedule, fn);
    }

    /** The rest of `register`: the group gets its cron entry, the container joins it. */
    method Join(ctr: Container, key: string, schedule: string, fn: CronJob) returns (ok: bool)
      requires Valid() && ctr.id !in IdsOf(regs) && fn.GroupRun? && fn.key == key
      modifies this, cron
      ensures Valid()
      ensures ok == (key in KeysOf(old(regs)) || cron.accepts(schedule))
      ensures regs == if ok then old(regs) + [Registration(ctr, key)] else old(regs)
      ensures OnlyAdds(old(cron.entries), cron.entries, {CronEntry(schedule, fn)})
    {
      if key in cronIDs {
        ConsistentJoin(regs, index, groups, cronIDs, cron.entries, ctr, key);
      } else {
        ghost var entries := cron.entries;
        var accepted, cid := cron.AddFunc(schedule, fn);
        if !accepted {
          return false;
        }
        ConsistentNewGroup(regs, index, groups, cronIDs, entries, ctr, key, cid, CronEntry(schedule, fn));
        cronIDs := cronIDs[key := cid];
      }
      index := index[ctr.id := key];
      groups := groups[key := Slice(groups, key) + [ctr]];
      regs := regs + [Registration(ctr, key)];
      return true;
    }

    method Unregister(containerID: string) returns (found: bool)
      requires Valid()
      modifies this, cron
      ensures Valid()
      ensures found == (containerID in IdsOf(old(regs)))
      ensures regs == Without(old(regs), {containerID})
      ensures OnlyAdds(old(cron.entries), cron.entries, {})
    {
      found := UnregisterLocked(containerID);
    }

    method UnregisterLocked(containerID: string) returns (found: bool)
      requires Valid()
      modifies this, cron
      ensures Valid()
      ensures found == (containerID in IdsOf(old(regs)))
      ensures regs == Without(old(regs), {containerID})
      ensures OnlyAdds(old(cron.entries), cron.entries, {})
    {
      if containerID !in index {
        IndexMembers(regs);
        WithoutNone(regs, {containerID});
        return false;
      }
      IndexedIsInGroup(regs, index, groups, containerID);
      var groupKey := index[containerID];
      var ctrs := groups[groupKey];
      var i := PositionOf(ctrs, containerID);
      CutOut(containerID, groupKey, i);
      return true;
    }

    /** The rest of `unregisterLocked`: the container leaves the maps, an emptied group leaves cron. */
    method CutOut(containerID: string, groupKey: string, i: nat)
      requires Valid() && containerID in index && index[containerID] == groupKey && groupKey in groups
      requires i < |groups[groupKey]| && groups[groupKey][i].id == containerID
      modifies this, cron
      ensures Valid() && regs == Without(old(regs), {containerID})
      ensures OnlyAdds(old(cron.entries), cron.entries, {})
    {
      ConsistentLeave(regs, index, groups, cronIDs, cron.entries, containerID, groupKey, i);
      var ctrs := groups[groupKey];
      index := index - {containerID};
      groups := groups[groupKey := ctrs[..i] + ctrs[i + 1..]];
      regs := Without(regs, {containerID});
      if |groups[groupKey]| == 0 {
        groups := groups - {groupKey};
        if groupKey in cronIDs {
          cron.Remove(cronIDs[groupKey]);
          cronIDs := cronIDs - {groupKey};
        }
      }
    }

    // ----- reading it

    method Count() returns (n: nat)
      requires Valid()
      ensures n == |regs|
    {
      IndexMembers(regs);
      n := |index|;
    }

    method Has(containerID: string) returns (found: bool)
      requires Valid()
      ensures found == (containerID in IdsOf(regs))
    {
      IndexMembers(regs);
      found := containerID in index;
    }

    method GetGroup(key: string) returns (ctrs: seq<Container>)
      requires Valid()
      ensures ctrs == GroupOf(regs, key)
    {
      GroupMembers(regs, key);
      ctrs := Slice(groups, key);
    }

    /** The snapshot that `forEachEntry` iterates. */
    method Entries() returns (entries: map<string, string>)
      requires Valid()
      ensures entries == Index(regs) && entries.Keys == IdsOf(regs)
    {
      IndexMembers(regs);
      entries := index;
    }

    /** Every registration once, in any order, with its schedule read back from the key. */
    method ListAll() returns (entries: seq<EntryInfo>)
      requires Valid()
      ensures |entries| == |regs|
      ensures forall r :: r in regs ==> Info(r) in entries
      ensures forall e :: e in entries ==> exists r :: r in regs && e == Info(r)
    {
      entries := [];
      IndexMembers(regs);
      var left := index.Keys;
      while left != {}
        invariant left <= index.Keys && |entries| + |left| == |index|
        invariant forall r :: r in regs && r.ctr.id !in left ==> Info(r) in entries
        invariant forall e :: e in entries ==> exists r :: r in regs && e == Info(r)
        decreases left
      {
        var id :| id in left;
        var ctr := FindInGroup(id);
        var r := Registration(ctr, index[id]);
        OneRegistration(regs, r);
        entries := entries + [Info(r)];
        left := left - {id};
      }
    }

    /** What is listed is the container with its own schedule, exactly if the key gives that back. */
    static lemma ListedScheduleExactlyWhen(r: Registration)
      requires r.key == GroupKey(r.ctr.project, r.ctr.schedule)
      ensures Info(r) == EntryInfo(r.ctr, r.ctr.schedule) <==> forall k :: !SeparatorAt(":" + r.ctr.schedule, k)
    {
      ScheduleIsRecoveredExactlyWhen(r.ctr.project, r.ctr.schedule);
    }

    static function Info(r: Registration): EntryInfo {
      EntryInfo(r.ctr, ScheduleFromKey(r.key))
    }

    /** The search for a container in its group's slice. */
    static method PositionOf(ctrs: seq<Container>, id: string) returns (i: nat)
      requires exists k :: 0 <= k < |ctrs| && ctrs[k].id == id
      ensures i < |ctrs| && ctrs[i].id == id && forall k :: 0 <= k < i ==> ctrs[k].id != id
    {
      i := 0;
      while ctrs[i].id != id
        invariant 0 <= i < |ctrs|
        invariant forall k :: 0 <= k < i ==> ctrs[k].id != id
        decreases |ctrs| - i
      {
        i := i + 1;
      }
    }

    /** The inner loop of `listAll`. */
    method FindInGroup(id: string) returns (ctr: Container)
      requires Valid() && id in index
      ensures ctr.id == id && Registration(ctr, index[id]) in regs
    {
      IndexedIsInGroup(regs, index, groups, id);
      GroupMembers(regs, index[id]);
      var ctrs := groups[index[id]];
      var i := PositionOf(ctrs, id);
      ctr := ctrs[i];
      assert ctr in ctrs;
    }

    /** Some registered container of that name, or none. */
    method Find(name: string) returns (found: seq<Container>)
      requires Valid()
      ensures |found| <= 1 && forall c :: c in found ==> c.name == name && Scheduled(regs, c)
      ensures found == [] ==> forall c :: Scheduled(regs, c) ==> c.name != name
    {
      found := [];
      var left := groups.Keys;
      while left != {}
        invariant left <= groups.Keys && found == []
        invariant forall r :: r in regs && r.key !in left ==> r.ctr.name != name
        decreases left
      {
        var key :| key in left;
        GroupMembers(regs, key);
        found := FindInSlice(groups[key], name);
        if |found| > 0 {
          assert Registration(found[0], key) in regs;
          return;
        }
        forall r | r in regs && r.key == key ensures r.ctr.name != name {
          assert Registration(r.ctr, key) in regs;
        }
        left := left - {key};
      }
    }

    /** The inner loop of `find`. */
    static method FindInSlice(ctrs: seq<Container>, name: string) returns (found: seq<Container>)
      ensures |found| <= 1 && forall c :: c in found ==> c in ctrs && c.name == name
      ensures found == [] ==> forall c :: c in ctrs ==> c.name != name
    {
      for i := 0 to |ctrs|
        invariant forall k :: 0 <= k < i ==> ctrs[k].name != name
      {
        if ctrs[i].name == name {
          return [ctrs[i]];
        }
      }
      return [];
    }

    /** The inner loop of `findByProject`. */
    method CollectGroup(key: string, project: string, seen0: set<string>, result0: seq<Container>)
      returns (seen: set<string>, result: seq<Container>)
      requires Valid() && key in groups && OfProject(regs, project, seen0, result0)
      ensures OfProject(regs, project, seen, result)
      ensures forall c :: c in result0 ==> c in result
      ensures forall c :: c in groups[key] && c.project == project ==> c in result
    {
      seen, result := seen0, result0;
      var ctrs := groups[key];
      GroupMembers(regs, key);
      for i := 0 to |ctrs|
        invariant OfProject(regs, project, seen, result)
        invariant forall c :: c in result0 ==> c in result
        invariant forall k :: 0 <= k < i && ctrs[k].project == project ==> ctrs[k] in result
      {
        var ctr := ctrs[i];
        assert ctr in ctrs && Registration(ctr, key) in regs;
        SeenMeansListed(regs, project, seen, result, ctr);
        if ctr.project == project && ctr.id !in seen {
          seen := seen + {ctr.id};
          result := result + [ctr];
        }
      }
    }

    /** The containers of a project, each once, in any order. */
    method FindByProject(project: string) returns (result: seq<Container>)
      requires Valid()
      ensures DistinctIds(result)
      ensures forall c :: c in result <==> c.project == project && Scheduled(regs, c)
    {
      result := [];
      var seen: set<string> := {};
      var left := groups.Keys;
      while left != {}
        invariant left <= groups.Keys && OfProject(regs, project, seen, result)
        invariant forall r :: r in regs && r.key !in left && r.ctr.project == project ==> r.ctr in result
        decreases left
      {
        var key :| key in left;
        GroupMembers(regs, key);
        seen, result := CollectGroup(key, project, seen, result);
        left := left - {key};
      }
    }
  }

  /** A partial result of `findByProject`, with the ids it has seen. */
  ghost predicate OfProject(regs: seq<Registration>, project: string, seen: set<string>, result: seq<Container>) {
    && DistinctIds(result) && seen == Ids(result)
    && forall c :: c in result ==> c.project == project && Scheduled(regs, c)
  }

  lemma SeenMeansListed(
    regs: seq<Registration>, project: string, seen: set<string>, result: seq<Container>, c: Container)
    requires Unique(regs) && OfProject(regs, project, seen, result) && Scheduled(regs, c)
    ensures c.id in seen ==> c in result
    ensures c.id !in seen && c.project == project ==> OfProject(regs, project, seen + {c.id}, result + [c])
  {
    if c.id in seen {
      var k :| 0 <= k < |result| && result[k].id == c.id;
      assert result[k] in result;
      var r :| r in regs && r.ctr == c;
      OneRegistration(regs, r);
    } else {
      assert Ids(result + [c]) == Ids(result) + {c.id};
    }
  }
}
