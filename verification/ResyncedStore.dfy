/**
 What a resync does to the repository store (internal/scheduler/scheduler.go and
 internal/registry/registry.go): when it leaves every orphan flag right, and
 when a second one with the same listing leaves the store as it is.
 */
module ResyncedStore {
  import opened Containers
  import opened ContainerRegistry
  import opened RepoStore
  import opened Resync

  // ----- which containers are synced

  /** A container that a resync syncs, when `known` are the scheduled ids. */
  ghost predicate IsSynced(known: set<string>, c: Container, resolve: Resolver) {
    c.id !in known && Eligible(c) && resolve(c).Some?
  }

  /** The container is synced, with this URL among its repositories. */
  ghost predicate Claims(known: set<string>, c: Container, resolve: Resolver, url: string) {
    IsSynced(known, c, resolve) && url in Urls(resolve(c).value)
  }

  ghost predicate SyncsId(known: set<string>, listing: seq<Container>, resolve: Resolver, id: string) {
    exists c :: c in listing && c.id == id && IsSynced(known, c, resolve)
  }

  ghost predicate Claimed(known: set<string>, listing: seq<Container>, resolve: Resolver, url: string) {
    exists c :: c in listing && Claims(known, c, resolve, url)
  }

  ghost predicate ClaimedBy(known: set<string>, listing: seq<Container>, resolve: Resolver, id: string, url: string) {
    exists c :: c in listing && c.id == id && Claims(known, c, resolve, url)
  }

  /** The store after the listing's unknown containers were synced. */
  ghost function AfterSyncs(
    st: Store, known: set<string>, listing: seq<Container>, resolve: Resolver, now: int): Store
  {
    if listing == [] then st
    else
      var n := |listing| - 1;
      var before, c := AfterSyncs(st, known, listing[..n], resolve, now), listing[n];
      if IsSynced(known, c, resolve) then Synced(before, c, resolve(c).value, now) else before
  }

  /** In a listing of distinct ids, a container is known at its turn exactly if it was scheduled before. */
  lemma {:induction false} RunOfSyncs(
    st: Store, regs: seq<Registration>, listing: seq<Container>, accepts: string -> bool, resolve: Resolver, now: int)
    requires DistinctIds(listing)
    ensures Run(st, SyncsOf(regs, listing, accepts, resolve, now)) ==
            AfterSyncs(st, IdsOf(regs), listing, resolve, now)
  {
    if listing != [] {
      var n := |listing| - 1;
      var c, syncs := listing[n], SyncsOf(regs, listing[..n], accepts, resolve, now);
      RunOfSyncs(st, regs, listing[..n], accepts, resolve, now);
      AddedAllGrows(regs, listing[..n], accepts);
      assert c.id !in Ids(listing[..n]);
      RunConcat(st, syncs, SyncOps(c, resolve, now));
      RunOne(Run(st, syncs), c, resolve, now);
      assert syncs + [] == syncs;
    }
  }

  lemma RunOne(st: Store, c: Container, resolve: Resolver, now: int)
    ensures Run(st, SyncOps(c, resolve, now)) ==
            if Eligible(c) && resolve(c).Some? then Synced(st, c, resolve(c).value, now) else st
  {
    if Eligible(c) && resolve(c).Some? {
      assert SyncOps(c, resolve, now)[..0] == [];
    }
  }

  // ----- the store after the syncs

  /** The position of the last container that claims a URL, or -1. */
  ghost function LastClaim(known: set<string>, listing: seq<Container>, resolve: Resolver, url: string): (k: int)
    ensures -1 <= k < |listing|
    ensures k >= 0 ==> Claims(known, listing[k], resolve, url)
    ensures forall i :: k < i < |listing| ==> !Claims(known, listing[i], resolve, url)
  {
    if listing == [] then -1
    else
      var n := |listing| - 1;
      if Claims(known, listing[n], resolve, url) then n
      else
        var k := LastClaim(known, listing[..n], resolve, url);
        assert forall i :: 0 <= i < n ==> listing[..n][i] == listing[i];
        k
  }

  /** The first of a container's repositories with a URL gives an entry its name. */
  ghost function NameOf(refs: seq<RepoRef>, url: string): string
    requires url in Urls(refs)
  {
    var n := |refs| - 1;
    UrlsSnoc(refs);
    if url in Urls(refs[..n]) then NameOf(refs[..n], url) else refs[n].name
  }

  lemma UrlsSnoc(refs: seq<RepoRef>)
    ensures refs != [] ==> Urls(refs) == Urls(refs[..|refs| - 1]) + [refs[|refs| - 1].url]
  {
  }

  /** What upserting a container's repositories does to the name of an entry. */
  lemma {:induction false} UpsertedName(
    repos: map<string, RepoEntry>, refs: seq<RepoRef>, ctr: Container, now: int, url: string)
    requires url in Urls(refs)
    ensures var after := UpsertedAll(repos, refs, ctr, now);
            && url in after && UpToDate(after[url], ctr)
            && after[url].repoName ==
               if url in repos && UpToDate(repos[url], ctr) then repos[url].repoName else NameOf(refs, url)
  {
    var n := |refs| - 1;
    UrlsSnoc(refs);
    UpsertedAllFacts(repos, refs, ctr, now);
    UpsertedAllFacts(repos, refs[..n], ctr, now);
    if url in Urls(refs[..n]) { UpsertedName(repos, refs[..n], ctr, now, url); }
  }

  /** The entry of a claimed URL names the last claimant; others are not touched. */
  lemma {:induction false} EntryAfterSyncs(
    st: Store, known: set<string>, listing: seq<Container>, resolve: Resolver, now: int, url: string)
    requires DistinctIds(listing)
    ensures var after, k := AfterSyncs(st, known, listing, resolve, now), LastClaim(known, listing, resolve, url);
            if k < 0 then (url in after.repos <==> url in st.repos)
                          && (url in st.repos ==> after.repos[url] == st.repos[url])
            else
              && url in after.repos && UpToDate(after.repos[url], listing[k])
              && (url in st.repos ==> SameHistory(st.repos[url], after.repos[url]))
              && after.repos[url].repoName ==
                 if LastClaim(known, listing[..k], resolve, url) < 0 && url in st.repos &&
                    UpToDate(st.repos[url], listing[k])
                 then st.repos[url].repoName else NameOf(resolve(listing[k]).value, url)
  {
    if listing != [] {
      var n := |listing| - 1;
      var before, c := AfterSyncs(st, known, listing[..n], resolve, now), listing[n];
      EntryAfterSyncs(st, known, listing[..n], resolve, now, url);
      var j := LastClaim(known, listing[..n], resolve, url);
      if IsSynced(known, c, resolve) {
        UpsertedAllFacts(before.repos, resolve(c).value, c, now);
        if Claims(known, c, resolve, url) {
          UpsertedName(before.repos, resolve(c).value, c, now, url);
          assert j >= 0 ==> listing[..n][j].id != c.id;
        }
      }
      if j >= 0 { assert listing[..n][..j] == listing[..j]; }
    }
  }

  /** With distinct ids, a prefix of the listing decides about all other ids than the next one. */
  lemma NextContainer(
    known: set<string>, listing: seq<Container>, n: nat, resolve: Resolver, id: string, url: string)
    requires DistinctIds(listing) && n + 1 == |listing|
    ensures var c := listing[n];
            && (SyncsId(known, listing, resolve, id) <==>
                if c.id == id then IsSynced(known, c, resolve) else SyncsId(known, listing[..n], resolve, id))
            && (ClaimedBy(known, listing, resolve, id, url) <==>
                if c.id == id then Claims(known, c, resolve, url) else ClaimedBy(known, listing[..n], resolve, id, url))
            && (c.id == id ==> !SyncsId(known, listing[..n], resolve, id))
  {
    var c := listing[n];
    assert listing == listing[..n] + [c];
    forall d | d in listing[..n] ensures d.id != c.id {
      var i :| 0 <= i < n && listing[..n][i] == d;
      assert listing[i] == d;
    }
  }

  /** A synced container lists what it claims; the others list what they did. */
  lemma {:induction false} ListsAfterSyncs(
    st: Store, known: set<string>, listing: seq<Container>, resolve: Resolver, now: int, id: string, url: string)
    requires DistinctIds(listing)
    ensures Lists(AfterSyncs(st, known, listing, resolve, now), id, url) <==>
            if SyncsId(known, listing, resolve, id) then ClaimedBy(known, listing, resolve, id, url)
            else Lists(st, id, url)
  {
    if listing != [] {
      var n := |listing| - 1;
      ListsAfterSyncs(st, known, listing[..n], resolve, now, id, url);
      NextContainer(known, listing, n, resolve, id, url);
    }
  }

  // ----- the store after the orphanings

  lemma OrphansRun(st: Store, ids: seq<string>)
    requires ids != []
    ensures Run(st, Orphans(ids)) == Orphaned(Run(st, Orphans(ids[..|ids| - 1])), ids[|ids| - 1])
  {
    var before, last := Orphans(ids[..|ids| - 1]), Orphan(ids[|ids| - 1]);
    assert (before + [last])[..|before|] == before;
  }

  lemma ListsAfterOrphan(st: Store, orphan: string, id: string, url: string)
    ensures Lists(Orphaned(st, orphan), id, url) <==> id != orphan && Lists(st, id, url)
  {
  }

  lemma {:induction false} ListsAfterOrphans(st: Store, ids: seq<string>, id: string, url: string)
    ensures Lists(Run(st, Orphans(ids)), id, url) <==> id !in ids && Lists(st, id, url)
  {
    if ids != [] {
      var n := |ids| - 1;
      ListsAfterOrphans(st, ids[..n], id, url);
      OrphansRun(st, ids);
      ListsAfterOrphan(Run(st, Orphans(ids[..n])), ids[n], id, url);
      assert id in ids <==> id in ids[..n] || id == ids[n] by { assert ids == ids[..n] + [ids[n]]; }
    }
  }

  ghost predicate ListedByOne(st: Store, ids: seq<string>, url: string) {
    exists id :: id in ids && Lists(st, id, url)
  }

  /** The entries of what the orphaned containers listed are marked, and nothing else changes. */
  lemma {:induction false} EntryAfterOrphans(st: Store, ids: seq<string>, url: string)
    ensures var after := Run(st, Orphans(ids));
            && (url in after.repos <==> url in st.repos)
            && (url in st.repos ==>
                  after.repos[url] == st.repos[url].(orphaned := st.repos[url].orphaned || ListedByOne(st, ids, url)))
  {
    if ids != [] {
      var n := |ids| - 1;
      var before := Run(st, Orphans(ids[..n]));
      EntryAfterOrphans(st, ids[..n], url);
      OrphansRun(st, ids);
      ListsAfterOrphans(st, ids[..n], ids[n], url);
      assert ids == ids[..n] + [ids[n]];
      if ids[n] in before.containerRepos { OrphanedAllFacts(before.repos, before.containerRepos[ids[n]]); }
    }
  }

  // ----- when a resync leaves the orphan flags right

  lemma AfterResyncIs(
    st: Store, regs: seq<Registration>, listing: seq<Container>, accepts: string -> bool, resolve: Resolver,
    now: int, dropped: seq<string>)
    requires DistinctIds(listing)
    ensures AfterResync(st, regs, listing, accepts, resolve, now, dropped) ==
            Run(AfterSyncs(st, IdsOf(regs), listing, resolve, now), Orphans(dropped))
  {
    RunConcat(st, SyncsOf(regs, listing, accepts, resolve, now), Orphans(dropped));
    RunOfSyncs(st, regs, listing, accepts, resolve, now);
  }

  /** No two containers that are synced share a repository. */
  ghost predicate ClaimsAreDisjoint(known: set<string>, listing: seq<Container>, resolve: Resolver) {
    forall c, d, url :: c in listing && d in listing && Claims(known, c, resolve, url) && Claims(known, d, resolve, url)
      ==> c == d
  }

  /** Of the repositories held so far, those that are claimed are those of the containers that are synced. */
  ghost predicate HoldersAreSynced(st: Store, known: set<string>, listing: seq<Container>, resolve: Resolver) {
    forall id, url :: Lists(st, id, url) ==>
      (Claimed(known, listing, resolve, url) <==> SyncsId(known, listing, resolve, id))
  }

  /** Who lists a URL after the resync. */
  lemma ListsAfterResync(
    st: Store, regs: seq<Registration>, listing: seq<Container>, accepts: string -> bool, resolve: Resolver,
    now: int, dropped: seq<string>, id: string, url: string)
    requires DistinctIds(listing) && Enumerates(dropped, IdsOf(regs) - Ids(listing))
    ensures Lists(AfterResync(st, regs, listing, accepts, resolve, now, dropped), id, url) <==>
            if SyncsId(IdsOf(regs), listing, resolve, id) then ClaimedBy(IdsOf(regs), listing, resolve, id, url)
            else id !in dropped && Lists(st, id, url)
  {
    AfterResyncIs(st, regs, listing, accepts, resolve, now, dropped);
    ListsAfterSyncs(st, IdsOf(regs), listing, resolve, now, id, url);
    ListsAfterOrphans(AfterSyncs(st, IdsOf(regs), listing, resolve, now), dropped, id, url);
  }

  /** Dropped containers are not synced, so they still list what they did when they are orphaned. */
  lemma DroppedStillList(
    st: Store, regs: seq<Registration>, listing: seq<Container>, resolve: Resolver, now: int, dropped: seq<string>,
    url: string)
    requires DistinctIds(listing) && Enumerates(dropped, IdsOf(regs) - Ids(listing))
    ensures ListedByOne(AfterSyncs(st, IdsOf(regs), listing, resolve, now), dropped, url) <==>
            ListedByOne(st, dropped, url)
  {
    forall id | id in dropped
      ensures Lists(AfterSyncs(st, IdsOf(regs), listing, resolve, now), id, url) <==> Lists(st, id, url)
    {
      ListsAfterSyncs(st, IdsOf(regs), listing, resolve, now, id, url);
    }
  }

  /** Who is the live owner of a URL after the resync. */
  lemma OwnsAfterResync(
    st: Store, regs: seq<Registration>, listing: seq<Container>, accepts: string -> bool, resolve: Resolver,
    now: int, dropped: seq<string>, id: string, url: string)
    requires DistinctIds(listing) && Enumerates(dropped, IdsOf(regs) - Ids(listing))
    ensures var k := LastClaim(IdsOf(regs), listing, resolve, url);
            Owns(AfterResync(st, regs, listing, accepts, resolve, now, dropped), id, url) <==>
            && !ListedByOne(st, dropped, url)
            && if k >= 0 then id == listing[k].id else Owns(st, id, url)
  {
    var synced := AfterSyncs(st, IdsOf(regs), listing, resolve, now);
    AfterResyncIs(st, regs, listing, accepts, resolve, now, dropped);
    EntryAfterSyncs(st, IdsOf(regs), listing, resolve, now, url);
    EntryAfterOrphans(synced, dropped, url);
    DroppedStillList(st, regs, listing, resolve, now, dropped, url);
  }

  lemma ClaimedMeansLast(known: set<string>, listing: seq<Container>, resolve: Resolver, url: string)
    ensures Claimed(known, listing, resolve, url) <==> LastClaim(known, listing, resolve, url) >= 0
  {
    if Claimed(known, listing, resolve, url) {
      var c :| c in listing && Claims(known, c, resolve, url);
      var i :| 0 <= i < |listing| && listing[i] == c;
    }
  }

  lemma DroppedIsNotSynced(regs: seq<Registration>, listing: seq<Container>, resolve: Resolver, dropped: seq<string>)
    requires Enumerates(dropped, IdsOf(regs) - Ids(listing))
    ensures forall id :: id in dropped ==> !SyncsId(IdsOf(regs), listing, resolve, id)
  {
  }

  /** One direction, for one container and one URL. */
  lemma CleanResync(
    st: Store, regs: seq<Registration>, listing: seq<Container>, resolve: Resolver, dropped: seq<string>,
    id: string, url: string)
    requires Good(st) && Enumerates(dropped, IdsOf(regs) - Ids(listing))
    requires ClaimsAreDisjoint(IdsOf(regs), listing, resolve) && HoldersAreSynced(st, IdsOf(regs), listing, resolve)
    ensures var known, k := IdsOf(regs), LastClaim(IdsOf(regs), listing, resolve, url);
            (if SyncsId(known, listing, resolve, id) then ClaimedBy(known, listing, resolve, id, url)
             else id !in dropped && Lists(st, id, url))
            <==>
            (!ListedByOne(st, dropped, url) && if k >= 0 then id == listing[k].id else Owns(st, id, url))
  {
    var known, k := IdsOf(regs), LastClaim(IdsOf(regs), listing, resolve, url);
    ClaimedMeansLast(known, listing, resolve, url);
    DroppedIsNotSynced(regs, listing, resolve, dropped);
    assert Lists(st, id, url) <==> Owns(st, id, url);
    forall d | d in dropped && Lists(st, d, url) ensures k < 0 && (Lists(st, id, url) ==> d == id) {
      assert Owns(st, d, url);
    }
    if k >= 0 {
      forall c | c in listing && Claims(known, c, resolve, url) ensures c == listing[k] {
      }
      assert ClaimedBy(known, listing, resolve, listing[k].id, url);
    }
    assert ClaimedBy(known, listing, resolve, id, url) ==> Claimed(known, listing, resolve, url);
  }

  /** The other direction. */
  lemma GoodNeedsSyncedHolders(
    st: Store, regs: seq<Registration>, listing: seq<Container>, accepts: string -> bool, resolve: Resolver,
    now: int, dropped: seq<string>, id: string, url: string)
    requires Good(st) && DistinctIds(listing) && Enumerates(dropped, IdsOf(regs) - Ids(listing))
    requires Good(AfterResync(st, regs, listing, accepts, resolve, now, dropped)) && Lists(st, id, url)
    ensures Claimed(IdsOf(regs), listing, resolve, url) <==> SyncsId(IdsOf(regs), listing, resolve, id)
  {
    var after, known := AfterResync(st, regs, listing, accepts, resolve, now, dropped), IdsOf(regs);
    var k := LastClaim(known, listing, resolve, url);
    ClaimedMeansLast(known, listing, resolve, url);
    DroppedIsNotSynced(regs, listing, resolve, dropped);
    ListsAfterResync(st, regs, listing, accepts, resolve, now, dropped, id, url);
    OwnsAfterResync(st, regs, listing, accepts, resolve, now, dropped, id, url);
    assert Lists(after, id, url) <==> Owns(after, id, url);
    if k >= 0 {
      var c := listing[k];
      ListsAfterResync(st, regs, listing, accepts, resolve, now, dropped, c.id, url);
      OwnsAfterResync(st, regs, listing, accepts, resolve, now, dropped, c.id, url);
      assert ClaimedBy(known, listing, resolve, c.id, url) && SyncsId(known, listing, resolve, c.id);
      assert Lists(after, c.id, url) && Owns(after, c.id, url);
    } else {
      assert Owns(st, id, url);
      forall d | d in dropped && Lists(st, d, url) ensures d == id { assert Owns(st, d, url); }
    }
  }

  /**
   A resync leaves every flag right exactly if no two of the containers it syncs
   share a repository, and a repository held so far is claimed by one of them if
   and only if its holder is one of them.
   */
  lemma ResyncKeepsGoodExactlyWhen(
    st: Store, regs: seq<Registration>, listing: seq<Container>, accepts: string -> bool, resolve: Resolver,
    now: int, dropped: seq<string>)
    requires Good(st) && DistinctIds(listing) && Enumerates(dropped, IdsOf(regs) - Ids(listing))
    ensures Good(AfterResync(st, regs, listing, accepts, resolve, now, dropped)) <==>
            ClaimsAreDisjoint(IdsOf(regs), listing, resolve) && HoldersAreSynced(st, IdsOf(regs), listing, resolve)
  {
    var after, known := AfterResync(st, regs, listing, accepts, resolve, now, dropped), IdsOf(regs);
    if ClaimsAreDisjoint(known, listing, resolve) && HoldersAreSynced(st, known, listing, resolve) {
      forall id, url ensures Lists(after, id, url) <==> Owns(after, id, url) {
        ListsAfterResync(st, regs, listing, accepts, resolve, now, dropped, id, url);
        OwnsAfterResync(st, regs, listing, accepts, resolve, now, dropped, id, url);
        CleanResync(st, regs, listing, resolve, dropped, id, url);
      }
    }
    if Good(after) {
      forall c, d, url | c in listing && d in listing &&
        Claims(known, c, resolve, url) && Claims(known, d, resolve, url)
        ensures c == d
      {
        ListsAfterResync(st, regs, listing, accepts, resolve, now, dropped, c.id, url);
        ListsAfterResync(st, regs, listing, accepts, resolve, now, dropped, d.id, url);
        assert Lists(after, c.id, url) && Lists(after, d.id, url);
        assert Owns(after, c.id, url) && Owns(after, d.id, url);
        SameIdSameContainer(listing, c, d);
      }
      forall id, url | Lists(st, id, url)
        ensures Claimed(known, listing, resolve, url) <==> SyncsId(known, listing, resolve, id)
      {
        GoodNeedsSyncedHolders(st, regs, listing, accepts, resolve, now, dropped, id, url);
      }
    }
  }

  // ----- a container that was re-created

  /** A repository of a dropped container that a new one claims ends up orphaned, although the new one lists it. */
  lemma DroppedHolderOrphansClaim(
    st: Store, regs: seq<Registration>, listing: seq<Container>, accepts: string -> bool, resolve: Resolver,
    now: int, dropped: seq<string>, id: string, c: Container, url: string)
    requires DistinctIds(listing) && Enumerates(dropped, IdsOf(regs) - Ids(listing))
    requires id in dropped && Lists(st, id, url) && c in listing && Claims(IdsOf(regs), c, resolve, url)
    ensures var r := AfterResync(st, regs, listing, accepts, resolve, now, dropped);
            && Lists(r, c.id, url) && url in r.repos && r.repos[url].orphaned && !Good(r)
            && r.repos[url].containerID == listing[LastClaim(IdsOf(regs), listing, resolve, url)].id
  {
    var r, known := AfterResync(st, regs, listing, accepts, resolve, now, dropped), IdsOf(regs);
    assert Claimed(known, listing, resolve, url) && ClaimedBy(known, listing, resolve, c.id, url);
    ClaimedMeansLast(known, listing, resolve, url);
    ListsAfterResync(st, regs, listing, accepts, resolve, now, dropped, c.id, url);
    OwnsAfterResync(st, regs, listing, accepts, resolve, now, dropped, c.id, url);
    AfterResyncIs(st, regs, listing, accepts, resolve, now, dropped);
    EntryAfterSyncs(st, known, listing, resolve, now, url);
    EntryAfterOrphans(AfterSyncs(st, known, listing, resolve, now), dropped, url);
    DroppedStillList(st, regs, listing, resolve, now, dropped, url);
    assert Lists(r, c.id, url) && !Owns(r, c.id, url);
  }

  /**
   From an empty scheduler: a container is added, it is re-created under a new
   id, and a resync lists the new one. The store was right before the resync and
   is wrong after it: the new container's own entry is marked orphaned.
   */
  lemma RecreatedContainerIsOrphaned(
    before: Container, after: Container, ref: RepoRef, accepts: string -> bool, resolve: Resolver, now: int)
    requires before.id != after.id && Eligible(before) && Eligible(after) && accepts(before.schedule)
    requires resolve(before) == resolve(after) == Some([ref])
    ensures var regs, st := Added([], before, accepts), Run(EMPTY, SyncOps(before, resolve, now));
            && IdsOf(regs) == {before.id} && Enumerates([before.id], IdsOf(regs) - Ids([after])) && Good(st)
            && var r := AfterResync(st, regs, [after], accepts, resolve, now, [before.id]);
               && Lists(r, after.id, ref.url) && ref.url in r.repos
               && r.repos[ref.url].containerID == after.id && r.repos[ref.url].orphaned && !Good(r)
  {
    var regs, st := Added([], before, accepts), Run(EMPTY, SyncOps(before, resolve, now));
    AddedUnknown([], before, accepts);
    JoinFacts([], Registration(before, KeyOf(before)));
    assert [] + [Registration(before, KeyOf(before))] == [Registration(before, KeyOf(before))];
    RunOne(EMPTY, before, resolve, now);
    SyncKeepsGoodExactlyWhen(EMPTY, before, [ref], now);
    assert Urls([ref]) == [ref.url] && ref.url in Urls([ref]);
    assert Ids([after]) == {after.id};
    DroppedHolderOrphansClaim(st, regs, [after], accepts, resolve, now, [before.id], before.id, after, ref.url);
  }

  // ----- a second resync with the same listing

  lemma {:induction false} ContainerReposAfterSyncs(
    st: Store, known: set<string>, listing: seq<Container>, resolve: Resolver, now: int, c: Container)
    requires DistinctIds(listing) && c in listing && IsSynced(known, c, resolve)
    ensures var after := AfterSyncs(st, known, listing, resolve, now);
            c.id in after.containerRepos && after.containerRepos[c.id] == Urls(resolve(c).value)
  {
    var n := |listing| - 1;
    assert listing == listing[..n] + [listing[n]];
    if c.id == listing[n].id {
      SameIdSameContainer(listing, c, listing[n]);
    } else {
      ContainerReposAfterSyncs(st, known, listing[..n], resolve, now, c);
    }
  }

  lemma {:induction false} ContainerReposAfterOrphans(st: Store, ids: seq<string>, id: string)
    requires id !in ids
    ensures var after := Run(st, Orphans(ids));
            && (id in after.containerRepos <==> id in st.containerRepos)
            && (id in st.containerRepos ==> after.containerRepos[id] == st.containerRepos[id])
  {
    if ids != [] {
      OrphansRun(st, ids);
      ContainerReposAfterOrphans(st, ids[..|ids| - 1], id);
    }
  }

  /** Syncing again what is recorded already does not change what is recorded. */
  lemma {:induction false} SyncsAgain(
    st: Store, known: set<string>, listing: seq<Container>, resolve: Resolver, now: int)
    requires forall c :: c in listing && IsSynced(known, c, resolve) ==>
               c.id in st.containerRepos && st.containerRepos[c.id] == Urls(resolve(c).value)
    ensures AfterSyncs(st, known, listing, resolve, now).containerRepos == st.containerRepos
  {
    if listing != [] {
      var n := |listing| - 1;
      assert listing == listing[..n] + [listing[n]];
      SyncsAgain(st, known, listing[..n], resolve, now);
    }
  }

  /** Who is synced by the second resync was synced by the first. */
  lemma SyncedAgain(
    regs: seq<Registration>, listing: seq<Container>, accepts: string -> bool, resolve: Resolver, c: Container)
    requires DistinctIds(listing) && c in listing
    ensures IsSynced(IdsOf(Resynced(regs, listing, accepts)), c, resolve) ==> IsSynced(IdsOf(regs), c, resolve)
  {
    ResyncedIds(regs, listing, accepts);
    assert c.id in Ids(listing);
  }

  lemma ClaimsAgain(known: set<string>, again: set<string>, listing: seq<Container>, resolve: Resolver, url: string)
    requires forall c :: c in listing && IsSynced(again, c, resolve) ==> IsSynced(known, c, resolve)
    ensures LastClaim(again, listing, resolve, url) <= LastClaim(known, listing, resolve, url)
    ensures forall k: nat :: k <= |listing| ==>
              LastClaim(again, listing[..k], resolve, url) <= LastClaim(known, listing[..k], resolve, url)
  {
    forall k: nat | k <= |listing|
      ensures LastClaim(again, listing[..k], resolve, url) <= LastClaim(known, listing[..k], resolve, url)
    {
      var part := listing[..k];
      var i := LastClaim(again, part, resolve, url);
      if i >= 0 { assert part[i] in listing && Claims(known, part[i], resolve, url); }
    }
    assert listing[..|listing|] == listing;
  }

  /** The container that claims a URL last is synced again, and the URL was not held by a dropped one. */
  ghost predicate ClaimStands(
    st: Store, known: set<string>, again: set<string>, listing: seq<Container>, resolve: Resolver,
    dropped: seq<string>, url: string)
  {
    && !ListedByOne(st, dropped, url)
    && LastClaim(known, listing, resolve, url) == LastClaim(again, listing, resolve, url)
  }

  /** The entry of a URL that is claimed again. */
  lemma EntryAgain(
    st: Store, known: set<string>, again: set<string>, listing: seq<Container>, resolve: Resolver, now: int,
    dropped: seq<string>, later: int, url: string)
    requires DistinctIds(listing) && Claimed(again, listing, resolve, url)
    requires forall c :: c in listing && IsSynced(again, c, resolve) ==> IsSynced(known, c, resolve)
    requires ListedByOne(AfterSyncs(st, known, listing, resolve, now), dropped, url) <==> ListedByOne(st, dropped, url)
    ensures var once := Run(AfterSyncs(st, known, listing, resolve, now), Orphans(dropped));
            var twice := AfterSyncs(once, again, listing, resolve, later);
            && url in once.repos && url in twice.repos
            && (once.repos[url] == twice.repos[url] <==> ClaimStands(st, known, again, listing, resolve, dropped, url))
  {
    var synced := AfterSyncs(st, known, listing, resolve, now);
    var once := Run(synced, Orphans(dropped));
    var k := LastClaim(again, listing, resolve, url);
    ClaimedMeansLast(again, listing, resolve, url);
    ClaimsAgain(known, again, listing, resolve, url);
    EntryAfterSyncs(st, known, listing, resolve, now, url);
    EntryAfterOrphans(synced, dropped, url);
    EntryAfterSyncs(once, again, listing, resolve, later, url);
  }

  /**
   A second resync with the same listing leaves the store as it is exactly if
   each repository that it claims was not taken over from a dropped container
   and was claimed last, in the first resync, by a container that is synced
   again; what is synced again is what cron refused.
   */
  lemma SecondResyncLeavesStoreExactlyWhen(
    st: Store, regs: seq<Registration>, listing: seq<Container>, accepts: string -> bool, resolve: Resolver,
    now: int, dropped: seq<string>, later: int)
    requires DistinctIds(listing) && Enumerates(dropped, IdsOf(regs) - Ids(listing))
    ensures var regs', st' := Resynced(regs, listing, accepts),
                              AfterResync(st, regs, listing, accepts, resolve, now, dropped);
            && Enumerates([], IdsOf(regs') - Ids(listing))
            && (AfterResync(st', regs', listing, accepts, resolve, later, []) == st' <==>
                forall url :: Claimed(IdsOf(regs'), listing, resolve, url) ==>
                  ClaimStands(st, IdsOf(regs), IdsOf(regs'), listing, resolve, dropped, url))
  {
    var regs', st' := Resynced(regs, listing, accepts), AfterResync(st, regs, listing, accepts, resolve, now, dropped);
    var known, again := IdsOf(regs), IdsOf(regs');
    var twice := AfterResync(st', regs', listing, accepts, resolve, later, []);
    ResyncedIds(regs, listing, accepts);
    assert JoinedIds(regs, listing, accepts) <= Ids(listing);
    AfterResyncIs(st, regs, listing, accepts, resolve, now, dropped);
    AfterResyncIs(st', regs', listing, accepts, resolve, later, []);
    forall c | c in listing && IsSynced(again, c, resolve)
      ensures IsSynced(known, c, resolve)
      ensures c.id in st'.containerRepos && st'.containerRepos[c.id] == Urls(resolve(c).value)
    {
      SyncedAgain(regs, listing, accepts, resolve, c);
      ContainerReposAfterSyncs(st, known, listing, resolve, now, c);
      ContainerReposAfterOrphans(AfterSyncs(st, known, listing, resolve, now), dropped, c.id);
    }
    SyncsAgain(st', again, listing, resolve, later);
    forall url
      ensures (url in twice.repos <==> url in st'.repos)
      ensures url in st'.repos ==> (twice.repos[url] == st'.repos[url] <==>
        (Claimed(again, listing, resolve, url) ==> ClaimStands(st, known, again, listing, resolve, dropped, url)))
      ensures Claimed(again, listing, resolve, url) ==> url in st'.repos
    {
      if Claimed(again, listing, resolve, url) {
        DroppedStillList(st, regs, listing, resolve, now, dropped, url);
        EntryAgain(st, known, again, listing, resolve, now, dropped, later, url);
      } else {
        ClaimedMeansLast(again, listing, resolve, url);
        EntryAfterSyncs(st', again, listing, resolve, later, url);
      }
    }
  }

  /**
   From an empty scheduler: cron refuses the schedule of the first of two
   containers that share a repository. The first resync leaves it with the
   second container, the next one hands it to the first.
   */
  lemma RefusedContainerTakesOver(
    refused: Container, scheduled: Container, ref: RepoRef, accepts: string -> bool, resolve: Resolver,
    now: int, later: int)
    requires refused.id != scheduled.id && Eligible(refused) && Eligible(scheduled)
    requires !accepts(refused.schedule) && accepts(scheduled.schedule) && KeyOf(refused) != KeyOf(scheduled)
    requires resolve(refused) == resolve(scheduled) == Some([ref])
    ensures var listing := [refused, scheduled];
            var once := Resynced([], listing, accepts);
            var first := AfterResync(EMPTY, [], listing, accepts, resolve, now, []);
            var second := AfterResync(first, once, listing, accepts, resolve, later, []);
            && Resynced(once, listing, accepts) == once
            && ref.url in first.repos && first.repos[ref.url].containerID == scheduled.id
            && ref.url in second.repos && second.repos[ref.url].containerID == refused.id
  {
    var listing := [refused, scheduled];
    var once := Resynced([], listing, accepts);
    RefusedIsLeftOut(refused, scheduled, accepts);
    HolderAfterResync(EMPTY, [], refused, scheduled, ref, accepts, resolve, now);
    HolderAfterResync(AfterResync(EMPTY, [], listing, accepts, resolve, now, []), once, refused, scheduled, ref,
      accepts, resolve, later);
  }

  lemma HolderAfterResync(
    st: Store, regs: seq<Registration>, c: Container, d: Container, ref: RepoRef, accepts: string -> bool,
    resolve: Resolver, now: int)
    requires c.id != d.id && Eligible(c) && Eligible(d) && resolve(c) == resolve(d) == Some([ref])
    requires c.id !in IdsOf(regs)
    ensures var repos := AfterResync(st, regs, [c, d], accepts, resolve, now, []).repos;
            ref.url in repos && repos[ref.url].containerID == if d.id in IdsOf(regs) then c.id else d.id
  {
    AfterResyncIs(st, regs, [c, d], accepts, resolve, now, []);
    HolderOfTwo(st, IdsOf(regs), c, d, ref, resolve, now);
  }

  /** Of two containers that share a repository, the last one synced holds it. */
  lemma HolderOfTwo(
    st: Store, known: set<string>, c: Container, d: Container, ref: RepoRef, resolve: Resolver, now: int)
    requires c.id != d.id && Eligible(c) && Eligible(d) && resolve(c) == resolve(d) == Some([ref]) && c.id !in known
    ensures var repos := AfterSyncs(st, known, [c, d], resolve, now).repos;
            ref.url in repos && repos[ref.url].containerID == if d.id in known then c.id else d.id
  {
    assert Urls([ref])[0] == ref.url;
    assert Claims(known, [c, d][0], resolve, ref.url);
    assert Claims(known, [c, d][1], resolve, ref.url) <==> d.id !in known;
    EntryAfterSyncs(st, known, [c, d], resolve, now, ref.url);
  }

  /** In particular, when the first resync leaves every flag right. */
  lemma CleanResyncIsIdempotent(
    st: Store, regs: seq<Registration>, listing: seq<Container>, accepts: string -> bool, resolve: Resolver,
    now: int, dropped: seq<string>, later: int)
    requires Good(st) && DistinctIds(listing) && Enumerates(dropped, IdsOf(regs) - Ids(listing))
    requires Good(AfterResync(st, regs, listing, accepts, resolve, now, dropped))
    ensures var regs', st' := Resynced(regs, listing, accepts),
                              AfterResync(st, regs, listing, accepts, resolve, now, dropped);
            AfterResync(st', regs', listing, accepts, resolve, later, []) == st'
  {
    var known, again := IdsOf(regs), IdsOf(Resynced(regs, listing, accepts));
    SecondResyncLeavesStoreExactlyWhen(st, regs, listing, accepts, resolve, now, dropped, later);
    ResyncKeepsGoodExactlyWhen(st, regs, listing, accepts, resolve, now, dropped);
    forall url | Claimed(again, listing, resolve, url)
      ensures ClaimStands(st, known, again, listing, resolve, dropped, url)
    {
      CleanClaimStands(st, regs, listing, accepts, resolve, dropped, url);
    }
  }

  /** Where claims are disjoint and holders synced, the only claimant is the last one. */
  lemma CleanClaimStands(
    st: Store, regs: seq<Registration>, listing: seq<Container>, accepts: string -> bool, resolve: Resolver,
    dropped: seq<string>, url: string)
    requires DistinctIds(listing) && Enumerates(dropped, IdsOf(regs) - Ids(listing))
    requires ClaimsAreDisjoint(IdsOf(regs), listing, resolve) && HoldersAreSynced(st, IdsOf(regs), listing, resolve)
    requires Claimed(IdsOf(Resynced(regs, listing, accepts)), listing, resolve, url)
    ensures ClaimStands(
              st, IdsOf(regs), IdsOf(Resynced(regs, listing, accepts)), listing, resolve, dropped, url)
  {
    var known, again := IdsOf(regs), IdsOf(Resynced(regs, listing, accepts));
    var k := LastClaim(again, listing, resolve, url);
    ClaimedMeansLast(again, listing, resolve, url);
    SyncedAgain(regs, listing, accepts, resolve, listing[k]);
    assert Claims(known, listing[k], resolve, url) && Claimed(known, listing, resolve, url);
    ClaimedMeansLast(known, listing, resolve, url);
    DroppedIsNotSynced(regs, listing, resolve, dropped);
  }
}
