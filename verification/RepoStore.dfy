/**
 internal/registry/registry.go: which restic repository belongs to which
 container. Two buckets, URL to entry and container id to URLs, each database
 update being one atomic step.
 */
module RepoStore {
  import opened Containers

  datatype RepoRef = RepoRef(name: string, url: string)

  datatype RepoEntry = RepoEntry(
    url: string, repoName: string, containerID: string, containerName: string, project: string, service: string,
    createdAt: int, lastBackupAt: int, lastBackupOK: bool, lastCheckAt: int, lastCheckOK: bool, orphaned: bool)

  datatype Store = Store(repos: map<string, RepoEntry>, containerRepos: map<string, seq<string>>)

  const EMPTY := Store(map[], map[])

  function Urls(refs: seq<RepoRef>): (urls: seq<string>)
    ensures |urls| == |refs| && forall i :: 0 <= i < |refs| ==> urls[i] == refs[i].url
  {
    seq(|refs|, i requires 0 <= i < |refs| => refs[i].url)
  }

  // ----- operations

  predicate UpToDate(e: RepoEntry, ctr: Container) {
    && e.containerID == ctr.id
    && e.containerName == ctr.name
    && e.project == ctr.project
    && e.service == ctr.service
    && !e.orphaned
  }

  function Claimed(e: RepoEntry, ref: RepoRef, ctr: Container): RepoEntry {
    if UpToDate(e, ctr) then e
    else e.(containerID := ctr.id, containerName := ctr.name, project := ctr.project, service := ctr.service,
            repoName := ref.name, orphaned := false)
  }

  /** `upsertRepoEntry`. */
  function Upserted(repos: map<string, RepoEntry>, ref: RepoRef, ctr: Container, now: int): map<string, RepoEntry> {
    repos[ref.url :=
      if ref.url in repos then Claimed(repos[ref.url], ref, ctr)
      else RepoEntry(ref.url, ref.name, ctr.id, ctr.name, ctr.project, ctr.service, now, 0, false, 0, false, false)]
  }

  function UpsertedAll(
    repos: map<string, RepoEntry>, refs: seq<RepoRef>, ctr: Container, now: int): map<string, RepoEntry>
  {
    if refs == [] then repos
    else Upserted(UpsertedAll(repos, refs[..|refs| - 1], ctr, now), refs[|refs| - 1], ctr, now)
  }

  /** `SyncContainer`, for the repositories that were resolved for the container. */
  function Synced(st: Store, ctr: Container, refs: seq<RepoRef>, now: int): Store {
    Store(UpsertedAll(st.repos, refs, ctr, now), st.containerRepos[ctr.id := Urls(refs)])
  }

  function OrphanedAll(repos: map<string, RepoEntry>, urls: seq<string>): map<string, RepoEntry> {
    if urls == [] then repos
    else
      var rest, url := OrphanedAll(repos, urls[..|urls| - 1]), urls[|urls| - 1];
      if url in rest then rest[url := rest[url].(orphaned := true)] else rest
  }

  /** `MarkOrphaned`. */
  function Orphaned(st: Store, id: string): Store {
    if id !in st.containerRepos then st
    else Store(OrphanedAll(st.repos, st.containerRepos[id]), st.containerRepos - {id})
  }

  datatype Op =
    | Sync(ctr: Container, refs: seq<RepoRef>, now: int)
    | Orphan(id: string)
    | BackupDone(url: string, ok: bool, now: int)
    | CheckDone(url: string, ok: bool, now: int)

  /** `updateRepoMeta`; an unknown URL is not an error. */
  function Applied(st: Store, op: Op): Store {
    match op
    case Sync(ctr, refs, now) => Synced(st, ctr, refs, now)
    case Orphan(id) => Orphaned(st, id)
    case BackupDone(url, ok, now) =>
      if url in st.repos then st.(repos := st.repos[url := st.repos[url].(lastBackupAt := now, lastBackupOK := ok)])
      else st
    case CheckDone(url, ok, now) =>
      if url in st.repos then st.(repos := st.repos[url := st.repos[url].(lastCheckAt := now, lastCheckOK := ok)])
      else st
  }

  function Run(st: Store, ops: seq<Op>): Store {
    if ops == [] then st else Applied(Run(st, ops[..|ops| - 1]), ops[|ops| - 1])
  }

  lemma RunConcat(st: Store, a: seq<Op>, b: seq<Op>)
    ensures Run(st, a + b) == Run(Run(st, a), b)
  {
    if b == [] {
      assert a + b == a;
    } else {
      RunConcat(st, a, b[..|b| - 1]);
      assert (a + b)[..|a + b| - 1] == a + b[..|b| - 1];
    }
  }

  // ----- when the orphan flags are right

  ghost predicate Lists(st: Store, id: string, url: string) {
    id in st.containerRepos && url in st.containerRepos[id]
  }

  /** The container that the entry of a listed URL has to name, and the entry to be live. */
  ghost predicate Owns(st: Store, id: string, url: string) {
    url in st.repos && !st.repos[url].orphaned && st.repos[url].containerID == id
  }

  /** An entry is live if and only if a container lists its URL, and that container is its recorded owner. */
  ghost predicate Good(st: Store) {
    forall id, url :: Lists(st, id, url) <==> Owns(st, id, url)
  }

  /** Being live, being listed by someone, and being listed by the recorded owner are then the same. */
  lemma GoodMeans(st: Store, url: string)
    requires Good(st)
    ensures url in st.repos ==> (!st.repos[url].orphaned <==> exists id :: Lists(st, id, url))
    ensures forall id :: Lists(st, id, url) ==> url in st.repos && st.repos[url].containerID == id
  {
    if url in st.repos && !st.repos[url].orphaned {
      assert Owns(st, st.repos[url].containerID, url);
    }
    forall id | Lists(st, id, url) ensures Owns(st, id, url) {
    }
  }

  /** What is never rewritten by syncing or orphaning. */
  ghost predicate SameHistory(a: RepoEntry, b: RepoEntry) {
    && a.url == b.url && a.createdAt == b.createdAt
    && a.lastBackupAt == b.lastBackupAt && a.lastBackupOK == b.lastBackupOK
    && a.lastCheckAt == b.lastCheckAt && a.lastCheckOK == b.lastCheckOK
  }

  lemma {:induction false} UpsertedAllFacts(repos: map<string, RepoEntry>, refs: seq<RepoRef>, ctr: Container, now: int)
    ensures var after := UpsertedAll(repos, refs, ctr, now);
            && (forall url :: url in Urls(refs) ==> url in after && UpToDate(after[url], ctr))
            && (forall url :: url !in Urls(refs) ==>
                  (url in after <==> url in repos) && (url in repos ==> after[url] == repos[url]))
            && (forall url :: url in repos ==> url in after && SameHistory(repos[url], after[url]))
  {
    if refs != [] {
      var n := |refs| - 1;
      UpsertedAllFacts(repos, refs[..n], ctr, now);
      assert Urls(refs) == Urls(refs[..n]) + [refs[n].url];
    }
  }

  lemma {:induction false} OrphanedAllFacts(repos: map<string, RepoEntry>, urls: seq<string>)
    ensures var after := OrphanedAll(repos, urls);
            && after.Keys == repos.Keys
            && forall url :: url in repos ==>
                 after[url] == if url in urls then repos[url].(orphaned := true) else repos[url]
  {
    if urls != [] {
      var n := |urls| - 1;
      OrphanedAllFacts(repos, urls[..n]);
      assert urls == urls[..n] + [urls[n]];
    }
  }

  /** The caller's side of a sync: nobody else holds its URLs, and no URL of its own is given up. */
  ghost predicate SyncIsClean(st: Store, ctr: Container, refs: seq<RepoRef>) {
    && (forall id, url :: Lists(st, id, url) && url in Urls(refs) ==> id == ctr.id)
    && (forall url :: Lists(st, ctr.id, url) ==> url in Urls(refs))
  }

  /** Syncing keeps the flags right exactly if it is clean. */
  lemma SyncKeepsGoodExactlyWhen(st: Store, ctr: Container, refs: seq<RepoRef>, now: int)
    requires Good(st)
    ensures Good(Synced(st, ctr, refs, now)) <==> SyncIsClean(st, ctr, refs)
  {
    var after := Synced(st, ctr, refs, now);
    UpsertedAllFacts(st.repos, refs, ctr, now);
    forall id, url ensures Lists(after, id, url) <==> if id == ctr.id then url in Urls(refs) else Lists(st, id, url) {
    }
    forall id, url ensures Owns(after, id, url) <==> if url in Urls(refs) then id == ctr.id else Owns(st, id, url) {
    }
    if Good(after) {
      forall id, url | Lists(st, id, url) && url in Urls(refs) ensures id == ctr.id {
        assert Lists(after, id, url) <==> Owns(after, id, url);
      }
      forall url | Lists(st, ctr.id, url) ensures url in Urls(refs) {
        assert Owns(st, ctr.id, url);
        assert Lists(after, ctr.id, url) <==> Owns(after, ctr.id, url);
      }
    }
    if SyncIsClean(st, ctr, refs) {
      forall id, url ensures Lists(after, id, url) <==> Owns(after, id, url) {
        assert Lists(st, id, url) <==> Owns(st, id, url);
      }
    }
  }

  lemma OrphanKeepsGood(st: Store, id: string)
    requires Good(st)
    ensures Good(Orphaned(st, id))
  {
    if id in st.containerRepos {
      var after := Orphaned(st, id);
      OrphanedAllFacts(st.repos, st.containerRepos[id]);
      forall i, url ensures Lists(after, i, url) <==> Owns(after, i, url) {
        assert Lists(st, i, url) <==> Owns(st, i, url);
        assert Lists(st, id, url) <==> Owns(st, id, url);
      }
    }
  }

  ghost predicate Clean(st: Store, op: Op) {
    op.Sync? ==> SyncIsClean(st, op.ctr, op.refs)
  }

  lemma AppliedKeepsGoodExactlyWhen(st: Store, op: Op)
    requires Good(st)
    ensures Good(Applied(st, op)) <==> Clean(st, op)
  {
    match op {
      case Sync(ctr, refs, now) => SyncKeepsGoodExactlyWhen(st, ctr, refs, now);
      case Orphan(id) => OrphanKeepsGood(st, id);
      case _ =>
        var after := Applied(st, op);
        forall id, url ensures Lists(after, id, url) <==> Owns(after, id, url) {
          assert Lists(st, id, url) <==> Owns(st, id, url);
        }
    }
  }

  /** Each operation is clean in the state it meets. */
  ghost predicate AllClean(st: Store, ops: seq<Op>) {
    ops == [] || (AllClean(st, ops[..|ops| - 1]) && Clean(Run(st, ops[..|ops| - 1]), ops[|ops| - 1]))
  }

  /** The flags are right after every prefix of a run exactly if every sync in it is clean. */
  lemma {:induction false} RunKeepsGoodExactlyWhen(st: Store, ops: seq<Op>)
    requires Good(st)
    ensures AllClean(st, ops) <==> forall n :: 0 <= n <= |ops| ==> Good(Run(st, ops[..n]))
  {
    if ops == [] {
      assert ops[..0] == [];
    } else {
      var n := |ops| - 1;
      var before := ops[..n];
      RunKeepsGoodExactlyWhen(st, before);
      assert forall k :: 0 <= k <= n ==> before[..k] == ops[..k];
      assert before[..n] == before && ops[..|ops|] == ops;
      if Good(Run(st, before)) { AppliedKeepsGoodExactlyWhen(Run(st, before), ops[n]); }
    }
  }

  /** Every sync uses the repositories that its container always resolves to. */
  ghost predicate FixedResolution(ops: seq<Op>, resolve: string -> seq<RepoRef>) {
    forall op :: op in ops && op.Sync? ==> op.refs == resolve(op.ctr.id)
  }

  lemma {:induction false} FixedResolutionLists(ops: seq<Op>, resolve: string -> seq<RepoRef>)
    requires FixedResolution(ops, resolve)
    ensures var st := Run(EMPTY, ops);
            forall id :: id in st.containerRepos ==> st.containerRepos[id] == Urls(resolve(id))
  {
    if ops != [] {
      var n := |ops| - 1;
      assert ops == ops[..n] + [ops[n]];
      FixedResolutionLists(ops[..n], resolve);
    }
  }

  /** Then a sync is clean as soon as the previous holder of each URL has been marked orphaned. */
  lemma FixedResolutionIsClean(ops: seq<Op>, resolve: string -> seq<RepoRef>, ctr: Container)
    requires FixedResolution(ops, resolve)
    ensures var st := Run(EMPTY, ops);
            SyncIsClean(st, ctr, resolve(ctr.id)) <==>
            forall id, url :: Lists(st, id, url) && url in Urls(resolve(ctr.id)) ==> id == ctr.id
  {
    FixedResolutionLists(ops, resolve);
  }

  /**
   A container that is synced before the previous holder of its URL is marked
   orphaned ends up with its own entry marked orphaned.
   */
  lemma LateOrphanHitsNewHolder(st: Store, before: Container, after: Container, ref: RepoRef, now: int)
    requires before.id != after.id
    ensures var r := Orphaned(Synced(Synced(st, before, [ref], now), after, [ref], now), before.id);
            && Lists(r, after.id, ref.url)
            && ref.url in r.repos && r.repos[ref.url].containerID == after.id && r.repos[ref.url].orphaned
            && !Good(r)
  {
    assert Urls([ref]) == [ref.url];
    var held := Synced(st, before, [ref], now);
    var both := Synced(held, after, [ref], now);
    UpsertedAllFacts(held.repos, [ref], after, now);
    assert ref.url in Urls([ref]);
    OrphanedAllFacts(both.repos, [ref.url]);
    var r := Orphaned(both, before.id);
    assert Lists(r, after.id, ref.url) && !Owns(r, after.id, ref.url);
  }

  /** Entries are never deleted, and syncing and orphaning never touch their history. */
  lemma HistoryIsKept(st: Store, op: Op, url: string)
    requires url in st.repos
    ensures url in Applied(st, op).repos
    ensures op.Sync? || op.Orphan? ==> SameHistory(st.repos[url], Applied(st, op).repos[url])
    ensures Applied(st, op).repos[url].createdAt == st.repos[url].createdAt
  {
    match op {
      case Sync(ctr, refs, now) => UpsertedAllFacts(st.repos, refs, ctr, now);
      case Orphan(id) => if id in st.containerRepos { OrphanedAllFacts(st.repos, st.containerRepos[id]); }
      case _ =>
    }
  }

  /** The entries differ in the backup fields of this URL only, which say when it ended and how. */
  ghost predicate BackupRecorded(
    before: map<string, RepoEntry>, after: map<string, RepoEntry>, url: string, ok: bool, now: int)
  {
    && after.Keys == before.Keys
    && (forall other :: other in before && other != url ==> after[other] == before[other])
    && (url in before ==>
          && after[url].lastBackupAt == now && after[url].lastBackupOK == ok
          && before[url] ==
             after[url].(lastBackupAt := before[url].lastBackupAt, lastBackupOK := before[url].lastBackupOK))
  }

  ghost predicate CheckRecorded(
    before: map<string, RepoEntry>, after: map<string, RepoEntry>, url: string, ok: bool, now: int)
  {
    && after.Keys == before.Keys
    && (forall other :: other in before && other != url ==> after[other] == before[other])
    && (url in before ==>
          && after[url].lastCheckAt == now && after[url].lastCheckOK == ok
          && before[url] ==
             after[url].(lastCheckAt := before[url].lastCheckAt, lastCheckOK := before[url].lastCheckOK))
  }

  /** A finished backup or check records its own result, and nothing else. */
  lemma ResultIsRecorded(st: Store, url: string, ok: bool, now: int)
    ensures var after := Applied(st, BackupDone(url, ok, now));
            BackupRecorded(st.repos, after.repos, url, ok, now) && after.containerRepos == st.containerRepos
    ensures var after := Applied(st, CheckDone(url, ok, now));
            CheckRecorded(st.repos, after.repos, url, ok, now) && after.containerRepos == st.containerRepos
  {
    if url in st.repos {
      var e := st.repos[url];
      assert st.repos[url := e.(lastBackupAt := now, lastBackupOK := ok)].Keys == st.repos.Keys;
      assert st.repos[url := e.(lastCheckAt := now, lastCheckOK := ok)].Keys == st.repos.Keys;
    }
  }

  /** After a sync, the entry of each of its URLs describes the container, field by field, and is live. */
  lemma SyncedEntriesDescribe(st: Store, ctr: Container, refs: seq<RepoRef>, now: int, url: string)
    requires url in Urls(refs)
    ensures var after := Synced(st, ctr, refs, now);
            && url in after.repos && !after.repos[url].orphaned
            && after.repos[url].containerID == ctr.id && after.repos[url].containerName == ctr.name
            && after.repos[url].project == ctr.project && after.repos[url].service == ctr.service
  {
    UpsertedAllFacts(st.repos, refs, ctr, now);
  }

  /** An entry that a sync creates is its URL's own, dates from that sync, and has no history. */
  lemma {:induction false} NewEntryIsBlank(
    repos: map<string, RepoEntry>, refs: seq<RepoRef>, ctr: Container, now: int, url: string)
    requires url in Urls(refs) && url !in repos
    ensures var after := UpsertedAll(repos, refs, ctr, now);
            && url in after && after[url].url == url && after[url].createdAt == now
            && after[url].lastBackupAt == 0 && !after[url].lastBackupOK
            && after[url].lastCheckAt == 0 && !after[url].lastCheckOK
  {
    var n := |refs| - 1;
    assert Urls(refs) == Urls(refs[..n]) + [refs[n].url];
    UpsertedAllFacts(repos, refs[..n], ctr, now);
    if url in Urls(refs[..n]) { NewEntryIsBlank(repos, refs[..n], ctr, now, url); }
  }

  ghost predicate UnderOwnUrl(st: Store) {
    forall url :: url in st.repos ==> st.repos[url].url == url
  }

  /** In every run, each entry is stored under its own URL. */
  lemma {:induction false} EntriesAreUnderOwnUrl(st: Store, ops: seq<Op>)
    requires UnderOwnUrl(st)
    ensures UnderOwnUrl(Run(st, ops))
  {
    if ops != [] {
      var before, op := Run(st, ops[..|ops| - 1]), ops[|ops| - 1];
      EntriesAreUnderOwnUrl(st, ops[..|ops| - 1]);
      forall url | url in Run(st, ops).repos ensures Run(st, ops).repos[url].url == url {
        if url in before.repos {
          EntryKeepsUrl(before, op, url);
        } else {
          NewEntryComesFromSync(before, op, url);
        }
      }
    }
  }

  ghost predicate ListedHaveEntries(st: Store) {
    forall id, url :: Lists(st, id, url) ==> url in st.repos
  }

  /** In every run, each listed URL has an entry, whatever the orphan flags say. */
  lemma {:induction false} ListedUrlsHaveEntries(st: Store, ops: seq<Op>)
    requires ListedHaveEntries(st)
    ensures ListedHaveEntries(Run(st, ops))
  {
    if ops != [] {
      var before, op := Run(st, ops[..|ops| - 1]), ops[|ops| - 1];
      ListedUrlsHaveEntries(st, ops[..|ops| - 1]);
      forall id, url | Lists(Run(st, ops), id, url) ensures url in Run(st, ops).repos {
        ListedAfterStep(before, op, id, url);
      }
    }
  }

  lemma ListedAfterStep(st: Store, op: Op, id: string, url: string)
    requires ListedHaveEntries(st) && Lists(Applied(st, op), id, url)
    ensures url in Applied(st, op).repos
  {
    match op {
      case Sync(ctr, refs, now) =>
        UpsertedAllFacts(st.repos, refs, ctr, now);
        assert id == ctr.id || Lists(st, id, url);
      case Orphan(orphan) =>
        assert Lists(st, id, url);
        HistoryIsKept(st, op, url);
      case _ =>
        assert Lists(st, id, url);
    }
  }

  lemma EntryKeepsUrl(st: Store, op: Op, url: string)
    requires url in st.repos
    ensures url in Applied(st, op).repos && Applied(st, op).repos[url].url == st.repos[url].url
  {
    HistoryIsKept(st, op, url);
    match op {
      case BackupDone(u, ok, now) => ResultIsRecorded(st, u, ok, now);
      case CheckDone(u, ok, now) => ResultIsRecorded(st, u, ok, now);
      case _ =>
    }
  }

  lemma NewEntryComesFromSync(st: Store, op: Op, url: string)
    requires url !in st.repos && url in Applied(st, op).repos
    ensures op.Sync? && url in Urls(op.refs) && Applied(st, op).repos[url].url == url
  {
    match op {
      case Sync(ctr, refs, now) =>
        UpsertedAllFacts(st.repos, refs, ctr, now);
        NewEntryIsBlank(st.repos, refs, ctr, now, url);
      case Orphan(id) => if id in st.containerRepos { OrphanedAllFacts(st.repos, st.containerRepos[id]); }
      case _ =>
    }
  }

  // ----- the code

  datatype Option<T> = None | Some(value: T)

  /** What stands for a listed URL without an entry. */
  function Missing(url: string): RepoEntry {
    RepoEntry(url, "", "", "", "", "", 0, 0, false, 0, false, false)
  }

  class Registry {
    var repos: map<string, RepoEntry>
    var containerRepos: map<string, seq<string>>
    /** The updates made so far. */
    ghost var ops: seq<Op>

    constructor ()
      ensures Valid() && ops == []
    {
      repos, containerRepos, ops := map[], map[], [];
    }

    ghost function Value(): Store
      reads this
    {
      Store(repos, containerRepos)
    }

    ghost predicate Valid()
      reads this
    {
      Value() == Run(EMPTY, ops)
    }

    ghost method Record(op: Op)
      requires Value() == Applied(Run(EMPTY, ops), op)
      modifies this`ops
      ensures Valid() && ops == old(ops) + [op]
    {
      assert (ops + [op])[..|ops|] == ops;
      ops := ops + [op];
    }

    /** `resolved` is what resolveRepos gives for the container; it may fail, and then nothing is written. */
    method SyncContainer(ctr: Container, resolved: Option<seq<RepoRef>>, now: int)
      requires Valid()
      modifies this
      ensures Valid()
      ensures ops == match resolved case None => old(ops) case Some(refs) => old(ops) + [Sync(ctr, refs, now)]
    {
      if resolved.None? {
        return;
      }
      var refs := resolved.value;
      for i := 0 to |refs|
        invariant repos == UpsertedAll(old(repos), refs[..i], ctr, now)
        invariant containerRepos == old(containerRepos) && ops == old(ops)
      {
        assert refs[..i + 1][..i] == refs[..i];
        UpsertRepoEntry(refs[i], ctr, now);
      }
      assert refs[..|refs|] == refs;
      containerRepos := containerRepos[ctr.id := Urls(refs)];
      Record(Sync(ctr, refs, now));
    }

    method UpsertRepoEntry(ref: RepoRef, ctr: Container, now: int)
      modifies this`repos
      ensures repos == Upserted(old(repos), ref, ctr, now)
    {
      var entry;
      if ref.url in repos {
        entry := repos[ref.url];
        if entry.containerID == ctr.id && entry.containerName == ctr.name &&
           entry.project == ctr.project && entry.service == ctr.service && !entry.orphaned {
          assert repos[ref.url := entry] == repos;
          return;
        }
        entry := entry.(containerID := ctr.id, containerName := ctr.name, project := ctr.project,
          service := ctr.service, repoName := ref.name, orphaned := false);
      } else {
        entry := RepoEntry(ref.url, ref.name, ctr.id, ctr.name, ctr.project, ctr.service,
          now, 0, false, 0, false, false);
      }
      repos := repos[ref.url := entry];
    }

    method MarkOrphaned(containerID: string)
      requires Valid()
      modifies this
      ensures Valid() && ops == old(ops) + [Orphan(containerID)]
    {
      if containerID in containerRepos {
        var urls := containerRepos[containerID];
        for i := 0 to |urls|
          invariant repos == OrphanedAll(old(repos), urls[..i])
          invariant containerRepos == old(containerRepos) && ops == old(ops)
        {
          assert urls[..i + 1][..i] == urls[..i];
          if urls[i] !in repos {
            continue;
          }
          repos := repos[urls[i] := repos[urls[i]].(orphaned := true)];
        }
        assert urls[..|urls|] == urls;
        containerRepos := containerRepos - {containerID};
      }
      Record(Orphan(containerID));
    }

    method MarkBackupComplete(url: string, ok: bool, now: int)
      requires Valid()
      modifies this
      ensures Valid() && ops == old(ops) + [BackupDone(url, ok, now)]
      ensures BackupRecorded(old(repos), repos, url, ok, now) && containerRepos == old(containerRepos)
    {
      if url in repos {
        repos := repos[url := repos[url].(lastBackupAt := now, lastBackupOK := ok)];
      }
      Record(BackupDone(url, ok, now));
    }

    method MarkCheckComplete(url: string, ok: bool, now: int)
      requires Valid()
      modifies this
      ensures Valid() && ops == old(ops) + [CheckDone(url, ok, now)]
      ensures CheckRecorded(old(repos), repos, url, ok, now) && containerRepos == old(containerRepos)
    {
      if url in repos {
        repos := repos[url := repos[url].(lastCheckAt := now, lastCheckOK := ok)];
      }
      Record(CheckDone(url, ok, now));
    }

    /** Under right flags, the entries of a container are all live and its own. */
    method GetContainerRepos(containerID: string) returns (entries: seq<RepoEntry>)
      ensures containerID !in containerRepos ==> entries == []
      ensures containerID in containerRepos ==> |entries| == |containerRepos[containerID]|
      ensures containerID in containerRepos ==> forall i :: 0 <= i < |entries| ==>
        var url := containerRepos[containerID][i];
        entries[i] == if url in repos then repos[url] else Missing(url)
      ensures Good(Value()) ==> forall e :: e in entries ==> e.containerID == containerID && !e.orphaned
      ensures Valid() && containerID in containerRepos ==>
        forall i :: 0 <= i < |entries| ==>
          && containerRepos[containerID][i] in repos && entries[i] == repos[containerRepos[containerID][i]]
          && entries[i].url == containerRepos[containerID][i]
    {
      if Valid() {
        EntriesAreUnderOwnUrl(EMPTY, ops);
        ListedUrlsHaveEntries(EMPTY, ops);
      }
      entries := [];
      if containerID !in containerRepos {
        return;
      }
      var urls := containerRepos[containerID];
      for i := 0 to |urls|
        invariant |entries| == i
        invariant forall k :: 0 <= k < i ==> entries[k] == if urls[k] in repos then repos[urls[k]] else Missing(urls[k])
        invariant Good(Value()) ==> forall e :: e in entries ==> e.containerID == containerID && !e.orphaned
      {
        assert Lists(Value(), containerID, urls[i]);
        if urls[i] !in repos {
          entries := entries + [Missing(urls[i])];
          continue;
        }
        entries := entries + [repos[urls[i]]];
      }
      forall i | Valid() && 0 <= i < |urls| ensures urls[i] in repos {
        assert Lists(Value(), containerID, urls[i]);
      }
    }
  }
}
