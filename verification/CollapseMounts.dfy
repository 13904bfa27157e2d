/**
 cmd/buoyctl/discover.go: collapsing mount sources to common ancestors.

 The code repeatedly picks, among the common ancestors of all pairs of paths,
 one that covers most paths (the longest among those), and removes what it
 covers. It is proved to compute something much simpler: the paths fall into
 groups by their first component, and each group is replaced by its longest
 common path.
 */
module CollapseMounts {
  import opened Strings
  import opened Paths

  // ----- groups

  /** Component lists that the code accepts as a common ancestor: not of "" and not of "/". */
  predicate Usable(cs: seq<string>) {
    cs != [] && cs != [""] && cs != ["", ""]
  }

  /**
   The shortest usable prefix: the first component, with the empty ones that a
   leading slash or two puts before it. Only "" and "/" have none.
   */
  function Key(cs: seq<string>): seq<string> {
    if |cs| >= 1 && cs[0] != "" then cs[..1]
    else if |cs| >= 2 && cs[1] != "" then cs[..2]
    else if |cs| >= 3 then cs[..3]
    else []
  }

  function KeyOf(p: string): seq<string> {
    Key(Split(p))
  }

  lemma KeyOfPrefix(x: seq<string>, cs: seq<string>)
    requires x <= cs
    ensures Usable(x) <==> Key(x) != []
    ensures Usable(x) ==> Key(x) == Key(cs) && Key(x) <= x
  {
  }

  /** Two paths have a usable common ancestor exactly if they have the same key. */
  lemma UsableCommon(a: seq<string>, b: seq<string>)
    ensures Usable(Common(a, b)) <==> Key(a) == Key(b) && Key(a) != []
  {
    var c := Common(a, b);
    KeyOfPrefix(c, a);
    KeyOfPrefix(c, b);
    if Key(a) == Key(b) && Key(a) != [] {
      CommonIsGreatest(a, b, Key(a));
      KeyOfPrefix(Key(a), c);
    }
  }

  ghost predicate HasGroup(paths: seq<string>, k: seq<string>) {
    exists p :: p in paths && KeyOf(p) == k
  }

  /** x is a common ancestor of all paths in the group. */
  ghost predicate IsCommon(paths: seq<string>, k: seq<string>, x: seq<string>) {
    forall p :: p in paths && KeyOf(p) == k ==> x <= Split(p)
  }

  /** The longest common path of a group. */
  ghost function GroupCommon(paths: seq<string>, k: seq<string>): seq<string> {
    if paths == [] then []
    else
      var rest, c := paths[..|paths| - 1], Split(paths[|paths| - 1]);
      if Key(c) != k then GroupCommon(rest, k)
      else if !HasGroup(rest, k) then c
      else Common(GroupCommon(rest, k), c)
  }

  lemma {:induction false} GroupCommonIsGreatest(paths: seq<string>, k: seq<string>)
    requires HasGroup(paths, k)
    ensures IsCommon(paths, k, GroupCommon(paths, k))
    ensures forall x :: IsCommon(paths, k, x) ==> x <= GroupCommon(paths, k)
  {
    var n := |paths| - 1;
    var rest, c := paths[..n], Split(paths[n]);
    assert paths == rest + [paths[n]];
    if HasGroup(rest, k) { GroupCommonIsGreatest(rest, k); }
    forall x | IsCommon(paths, k, x) ensures x <= GroupCommon(paths, k) {
      assert IsCommon(rest, k, x);
      if Key(c) == k && HasGroup(rest, k) { CommonIsGreatest(GroupCommon(rest, k), c, x); }
    }
  }

  /** The longest common path of a group lies in the group. */
  lemma GroupCommonKey(paths: seq<string>, k: seq<string>)
    requires HasGroup(paths, k) && k != []
    ensures Key(GroupCommon(paths, k)) == k && Usable(GroupCommon(paths, k))
  {
    GroupCommonIsGreatest(paths, k);
    forall p | p in paths && KeyOf(p) == k ensures k <= Split(p) && Usable(k) {
      KeyOfPrefix(k, Split(p));
    }
    assert IsCommon(paths, k, k);
    KeyOfPrefix(k, GroupCommon(paths, k));
  }

  /** It depends on the members of the group only. */
  lemma GroupCommonOfSameMembers(a: seq<string>, b: seq<string>, k: seq<string>)
    requires forall p :: KeyOf(p) == k ==> (p in a <==> p in b)
    ensures HasGroup(a, k) <==> HasGroup(b, k)
    ensures HasGroup(a, k) ==> GroupCommon(a, k) == GroupCommon(b, k)
  {
    if HasGroup(a, k) {
      GroupCommonIsGreatest(a, k);
      GroupCommonIsGreatest(b, k);
      assert IsCommon(b, k, GroupCommon(a, k)) && IsCommon(a, k, GroupCommon(b, k));
    }
  }

  // ----- what the result has to be

  /** How often o occurs in the result: each group's longest common path once, keyless paths as given. */
  ghost function Expected(paths: seq<string>, o: string): nat {
    if KeyOf(o) == [] then multiset(paths)[o]
    else if IsRoot(paths, o) then 1
    else 0
  }

  ghost predicate IsRoot(paths: seq<string>, o: string) {
    KeyOf(o) != [] && HasGroup(paths, KeyOf(o)) && Split(o) == GroupCommon(paths, KeyOf(o))
  }

  ghost predicate IsCollapsed(paths: seq<string>, out: seq<string>) {
    Sorted(out) && forall o :: multiset(out)[o] == Expected(paths, o)
  }

  /** The result does not depend on the order of the input. */
  lemma OrderDoesNotMatter(a: seq<string>, b: seq<string>, outA: seq<string>, outB: seq<string>)
    requires multiset(a) == multiset(b) && IsCollapsed(a, outA) && IsCollapsed(b, outB)
    ensures outA == outB
  {
    MultisetMembers(a, b);
    forall o ensures multiset(outA)[o] == multiset(outB)[o] {
      GroupCommonOfSameMembers(a, b, KeyOf(o));
    }
    SortedIsUnique(outA, outB);
  }

  lemma OnlyTwoAreKeyless(p: string)
    ensures KeyOf(p) == [] <==> p == "" || p == "/"
  {
    JoinOfSplit(p);
    if p == "/" { assert Split(p) == [""] + Split(""); }
  }

  /** A result is the longest common path of a group, or a keyless input. */
  lemma ResultMembers(paths: seq<string>, out: seq<string>, o: string)
    requires IsCollapsed(paths, out)
    ensures o in out <==> IsRoot(paths, o) || (KeyOf(o) == [] && o in paths)
  {
    assert o in multiset(out) <==> o in out;
    assert o in multiset(paths) <==> o in paths;
    assert multiset(out)[o] == Expected(paths, o);
  }

  /** Something is under a result exactly if it is in the result's group. */
  lemma UnderMeansGroup(paths: seq<string>, o: string, p: string)
    requires IsRoot(paths, o)
    ensures IsUnder(p, o) ==> KeyOf(p) == KeyOf(o)
    ensures p in paths && KeyOf(p) == KeyOf(o) ==> IsUnder(p, o)
  {
    UnderIsPrefix(p, o);
    GroupCommonKey(paths, KeyOf(o));
    GroupCommonIsGreatest(paths, KeyOf(o));
    if Split(o) <= Split(p) { KeyOfPrefix(Split(o), Split(p)); }
  }

  lemma OccursOnce(out: seq<string>, i: nat, j: nat)
    requires i < |out| && j < |out| && i != j && out[i] == out[j]
    ensures multiset(out)[out[i]] >= 2
  {
    var a, b := if i < j then i else j, if i < j then j else i;
    assert out == out[..a] + [out[a]] + out[a + 1..b] + [out[b]] + out[b + 1..];
  }

  lemma OccursTwice(xs: seq<string>, x: string) returns (i: nat, j: nat)
    requires multiset(xs)[x] >= 2
    ensures i < j < |xs| && xs[i] == xs[j] == x
  {
    var n := |xs| - 1;
    assert xs == xs[..n] + [xs[n]];
    if xs[n] == x {
      assert x in multiset(xs[..n]);
      i :| 0 <= i < n && xs[i] == x;
      j := n;
    } else {
      i, j := OccursTwice(xs[..n], x);
    }
  }

  /** Two ancestors of one path: one is under the other. */
  lemma AncestorsAreNested(p: string, a: string, b: string)
    requires IsUnder(p, a) && IsUnder(p, b)
    ensures if |Split(a)| <= |Split(b)| then IsUnder(b, a) else IsUnder(a, b)
  {
    UnderIsPrefix(p, a);
    UnderIsPrefix(p, b);
    UnderIsPrefix(a, b);
    UnderIsPrefix(b, a);
  }

  lemma UnderIsTransitive(p: string, a: string, b: string)
    requires IsUnder(p, a) && IsUnder(a, b)
    ensures IsUnder(p, b)
  {
    UnderIsPrefix(p, a);
    UnderIsPrefix(a, b);
    UnderIsPrefix(p, b);
  }

  /** No path lies under another. */
  ghost predicate Unnested(out: seq<string>) {
    forall i, j | 0 <= i < |out| && 0 <= j < |out| && i != j :: !IsUnder(out[i], out[j])
  }

  /** No input lies under another one that is "" or "/"; these have no group and are kept as given. */
  ghost predicate NoneUnderKeyless(paths: seq<string>) {
    forall i, j | 0 <= i < |paths| && 0 <= j < |paths| && i != j && KeyOf(paths[j]) == [] ::
      !IsUnder(paths[i], paths[j])
  }

  /** p is under exactly one of the results. */
  ghost predicate UnderExactlyOne(p: string, out: seq<string>) {
    exists i :: 0 <= i < |out| && IsUnder(p, out[i]) && forall j :: 0 <= j < |out| && IsUnder(p, out[j]) ==> j == i
  }

  /** Every input is under some result, and every result is above some input. */
  lemma ResultsCover(paths: seq<string>, out: seq<string>)
    requires IsCollapsed(paths, out)
    ensures forall p :: p in paths ==> exists o :: o in out && KeyOf(o) == KeyOf(p) && IsUnder(p, o)
    ensures forall o :: o in out ==> exists p :: p in paths && KeyOf(p) == KeyOf(o) && IsUnder(p, o)
  {
    forall p | p in paths ensures exists o :: o in out && KeyOf(o) == KeyOf(p) && IsUnder(p, o) {
      var o := p;
      if KeyOf(p) != [] { o := RootOf(paths, p); }
      ResultMembers(paths, out, o);
    }
    forall o | o in out ensures exists p :: p in paths && KeyOf(p) == KeyOf(o) && IsUnder(p, o) {
      var p := InputUnder(paths, out, o);
    }
  }

  /** The longest common path of the group of an input. */
  lemma RootOf(paths: seq<string>, p: string) returns (o: string)
    requires p in paths && KeyOf(p) != []
    ensures IsRoot(paths, o) && KeyOf(o) == KeyOf(p) && IsUnder(p, o)
  {
    var k := KeyOf(p);
    o := Join(GroupCommon(paths, k));
    GroupCommonIsGreatest(paths, k);
    GroupCommonKey(paths, k);
    SplitIsSlashFree(p);
    SplitOfJoin(GroupCommon(paths, k));
    UnderMeansGroup(paths, o, p);
  }

  /** A result under the longest common path of a group is that path. */
  lemma NothingElseUnderRoot(paths: seq<string>, out: seq<string>, i: nat, j: nat)
    requires IsCollapsed(paths, out) && i < |out| && j < |out| && IsRoot(paths, out[j]) && IsUnder(out[i], out[j])
    ensures i == j
  {
    UnderMeansGroup(paths, out[j], out[i]);
    ResultMembers(paths, out, out[i]);
    JoinOfSplit(out[i]);
    JoinOfSplit(out[j]);
    assert out[i] == out[j] && multiset(out)[out[j]] == Expected(paths, out[j]) == 1;
    if i != j { OccursOnce(out, i, j); }
  }

  /** A nested result has to lie under a keyless input that another input lies under. */
  lemma NestedNeedsKeyless(paths: seq<string>, out: seq<string>, i: nat, j: nat)
    requires IsCollapsed(paths, out) && i < |out| && j < |out| && i != j && IsUnder(out[i], out[j])
    ensures !NoneUnderKeyless(paths)
  {
    var q := out[j];
    ResultMembers(paths, out, q);
    if IsRoot(paths, q) {
      NothingElseUnderRoot(paths, out, i, j);
    } else if out[i] == q {
      OccursOnce(out, i, j);
      assert multiset(out)[q] == Expected(paths, q);
      var a, b := OccursTwice(paths, q);
      assert IsUnder(paths[a], paths[b]);
    } else {
      var p := InputUnder(paths, out, out[i]);
      UnderIsTransitive(p, out[i], q);
      assert p != q;
      var a :| 0 <= a < |paths| && paths[a] == p;
      var b :| 0 <= b < |paths| && paths[b] == q;
      assert a != b;
    }
  }

  /** An input under a result; for a keyless one, itself. */
  lemma InputUnder(paths: seq<string>, out: seq<string>, o: string) returns (p: string)
    requires IsCollapsed(paths, out) && o in out
    ensures p in paths && KeyOf(p) == KeyOf(o) && IsUnder(p, o) && (KeyOf(o) == [] ==> p == o)
  {
    ResultMembers(paths, out, o);
    p := o;
    if KeyOf(o) != [] {
      p :| p in paths && KeyOf(p) == KeyOf(o);
      UnderMeansGroup(paths, o, p);
    }
  }

  /** An input under a keyless one makes two results nested. */
  lemma KeylessMeansNested(paths: seq<string>, out: seq<string>, a: nat, b: nat)
    requires IsCollapsed(paths, out) && a < |paths| && b < |paths| && a != b
    requires KeyOf(paths[b]) == [] && IsUnder(paths[a], paths[b])
    ensures !Unnested(out)
  {
    var p, q := paths[a], paths[b];
    ResultMembers(paths, out, q);
    var j :| 0 <= j < |out| && out[j] == q;
    if p == q {
      OccursOnce(paths, a, b);
      assert multiset(out)[q] == Expected(paths, q);
      var i, k := OccursTwice(out, q);
      assert IsUnder(out[i], out[k]);
    } else {
      var o := p;
      if KeyOf(p) != [] {
        o := RootOf(paths, p);
        AncestorsAreNested(p, q, o);
        if IsUnder(q, o) { UnderMeansGroup(paths, o, q); }
      }
      ResultMembers(paths, out, o);
      var i :| 0 <= i < |out| && out[i] == o;
      assert IsUnder(out[i], out[j]);
    }
  }

  /** No result lies under another, exactly if no input lies under another one that is "" or "/". */
  lemma ResultsAreNotNestedExactlyWhen(paths: seq<string>, out: seq<string>)
    requires IsCollapsed(paths, out)
    ensures Unnested(out) <==> NoneUnderKeyless(paths)
  {
    if !Unnested(out) {
      var i: nat, j: nat :| i < |out| && j < |out| && i != j && IsUnder(out[i], out[j]);
      NestedNeedsKeyless(paths, out, i, j);
    }
    if !NoneUnderKeyless(paths) {
      var a: nat, b: nat :| a < |paths| && b < |paths| && a != b &&
        KeyOf(paths[b]) == [] && IsUnder(paths[a], paths[b]);
      KeylessMeansNested(paths, out, a, b);
    }
  }

  /** Every input is under exactly one result, in the same cases; it is always under at least one. */
  lemma EachInputIsUnderOneExactlyWhen(paths: seq<string>, out: seq<string>)
    requires IsCollapsed(paths, out)
    ensures forall p :: p in paths ==> exists o :: o in out && IsUnder(p, o)
    ensures (forall p :: p in paths ==> UnderExactlyOne(p, out)) <==> NoneUnderKeyless(paths)
  {
    ResultsAreNotNestedExactlyWhen(paths, out);
    ResultsCover(paths, out);
    if Unnested(out) {
      AllUnderOne(paths, out);
    } else {
      var p := UnderTwo(paths, out);
    }
  }

  lemma UnderTwo(paths: seq<string>, out: seq<string>) returns (p: string)
    requires IsCollapsed(paths, out) && !Unnested(out)
    ensures p in paths && !UnderExactlyOne(p, out)
  {
    var i, j :| 0 <= i < |out| && 0 <= j < |out| && i != j && IsUnder(out[i], out[j]);
    p := InputUnder(paths, out, out[i]);
    UnderIsTransitive(p, out[i], out[j]);
  }

  lemma AllUnderOne(paths: seq<string>, out: seq<string>)
    requires IsCollapsed(paths, out) && Unnested(out)
    ensures forall p :: p in paths ==> UnderExactlyOne(p, out)
  {
    ResultsCover(paths, out);
    forall p | p in paths ensures UnderExactlyOne(p, out) {
      var o :| o in out && IsUnder(p, o);
      UnderNoOther(p, out, o);
    }
  }

  lemma UnderNoOther(p: string, out: seq<string>, o: string)
    requires Unnested(out) && o in out && IsUnder(p, o)
    ensures UnderExactlyOne(p, out)
  {
    var i :| 0 <= i < |out| && out[i] == o;
    forall j | 0 <= j < |out| && IsUnder(p, out[j]) ensures j == i { AncestorsAreNested(p, out[i], out[j]); }
  }

  // ----- counting

  function Cover(paths: seq<string>, ancestor: string): nat {
    if paths == [] then 0
    else Cover(paths[..|paths| - 1], ancestor) + if IsUnder(paths[|paths| - 1], ancestor) then 1 else 0
  }

  ghost function GroupSize(paths: seq<string>, k: seq<string>): nat {
    if paths == [] then 0
    else GroupSize(paths[..|paths| - 1], k) + if KeyOf(paths[|paths| - 1]) == k then 1 else 0
  }

  lemma {:induction false} GroupSizeCounts(paths: seq<string>, k: seq<string>)
    ensures GroupSize(paths, k) > 0 <==> HasGroup(paths, k)
  {
    if paths != [] {
      var n := |paths| - 1;
      GroupSizeCounts(paths[..n], k);
      assert paths == paths[..n] + [paths[n]];
    }
  }

  /** An ancestor that covers only the group covers at most all of it, and if so each member. */
  lemma {:induction false} CoverWithinGroup(paths: seq<string>, ancestor: string, k: seq<string>)
    requires forall p :: p in paths && IsUnder(p, ancestor) ==> KeyOf(p) == k
    ensures Cover(paths, ancestor) <= GroupSize(paths, k)
    ensures Cover(paths, ancestor) == GroupSize(paths, k) <==>
            forall p :: p in paths && KeyOf(p) == k ==> IsUnder(p, ancestor)
  {
    if paths != [] {
      var n := |paths| - 1;
      assert paths == paths[..n] + [paths[n]];
      CoverWithinGroup(paths[..n], ancestor, k);
    }
  }

  lemma {:induction false} GroupSizeOfTwo(paths: seq<string>, k: seq<string>, i: nat, j: nat)
    requires i < j < |paths| && KeyOf(paths[i]) == k && KeyOf(paths[j]) == k
    ensures GroupSize(paths, k) >= 2
  {
    var n := |paths| - 1;
    if j < n {
      GroupSizeOfTwo(paths[..n], k, i, j);
    } else {
      assert paths[..n][i] in paths[..n];
      GroupSizeCounts(paths[..n], k);
    }
  }

  // ----- the greedy choice

  lemma CommonOfCommon(a: seq<string>, l: seq<string>, c: seq<string>)
    requires l <= a
    ensures Common(l, c) == if l <= c then l else Common(a, c)
  {
    if l != [] && c != [] && l[0] == c[0] {
      CommonOfCommon(a[1..], l[1..], c[1..]);
    }
  }

  lemma {:induction false} OnlyMember(paths: seq<string>, k: seq<string>) returns (i: nat)
    requires GroupSize(paths, k) == 1
    ensures i < |paths| && KeyOf(paths[i]) == k && GroupCommon(paths, k) == Split(paths[i])
  {
    var n := |paths| - 1;
    GroupSizeCounts(paths[..n], k);
    if KeyOf(paths[n]) == k { i := n; } else { i := OnlyMember(paths[..n], k); }
  }

  /** A group's longest common path is already that of two of its members. */
  lemma {:induction false} TwoMembersSuffice(paths: seq<string>, k: seq<string>) returns (i: nat, j: nat)
    requires GroupSize(paths, k) >= 2
    ensures i < j < |paths| && KeyOf(paths[i]) == k && KeyOf(paths[j]) == k
    ensures Common(Split(paths[i]), Split(paths[j])) == GroupCommon(paths, k)
  {
    var n := |paths| - 1;
    var rest, c := paths[..n], Split(paths[n]);
    GroupSizeCounts(rest, k);
    if Key(c) != k {
      i, j := TwoMembersSuffice(rest, k);
    } else if GroupSize(rest, k) == 1 {
      i := OnlyMember(rest, k);
      j := n;
    } else {
      i, j := TwoMembersSuffice(rest, k);
      CommonOfCommon(Split(rest[i]), GroupCommon(rest, k), c);
      if !(GroupCommon(rest, k) <= c) { j := n; }
    }
  }

  /** The common ancestor of two of the paths, as the code computes it. */
  ghost function Ancestor(paths: seq<string>, i: nat, j: nat): string
    requires i < |paths| && j < |paths|
  {
    Join(Common(Split(paths[i]), Split(paths[j])))
  }

  ghost predicate UsablePair(paths: seq<string>, i: nat, j: nat)
    requires i < |paths| && j < |paths|
  {
    Ancestor(paths, i, j) != "" && Ancestor(paths, i, j) != "/"
  }

  lemma AncestorFacts(paths: seq<string>, i: nat, j: nat)
    requires i < |paths| && j < |paths|
    ensures UsablePair(paths, i, j) <==> KeyOf(paths[i]) == KeyOf(paths[j]) && KeyOf(paths[i]) != []
    ensures UsablePair(paths, i, j) ==>
      && Split(Ancestor(paths, i, j)) == Common(Split(paths[i]), Split(paths[j]))
      && KeyOf(Ancestor(paths, i, j)) == KeyOf(paths[i])
  {
    var c := Common(Split(paths[i]), Split(paths[j]));
    SplitIsSlashFree(paths[i]);
    UsableCommon(Split(paths[i]), Split(paths[j]));
    if c != [] { SplitOfJoin(c); }
    assert Split("") == [""];
    assert Split("/") == ["", ""] by { assert "/"[1..] == ""; }
    if Usable(c) { KeyOfPrefix(c, Split(paths[i])); }
  }

  /** The best of the pairs before (i, j), in the order of the two loops. */
  ghost predicate BestBefore(paths: seq<string>, i: nat, j: nat, best: string, cover: nat, len: nat) {
    && (cover == 0 ==> len == 0)
    && (cover > 0 ==> IsCandidate(paths, best) && cover == Cover(paths, best) && len == |Split(best)|)
    && BeatsAllBefore(paths, i, j, cover, len)
  }

  ghost predicate BeatsAllBefore(paths: seq<string>, i: nat, j: nat, cover: nat, len: nat) {
    forall a, b :: 0 <= a < b < |paths| && (a < i || (a == i && b < j)) && UsablePair(paths, a, b) ==>
      BeatsPair(paths, a, b, cover, len)
  }

  ghost predicate BeatsPair(paths: seq<string>, a: nat, b: nat, cover: nat, len: nat)
    requires a < |paths| && b < |paths|
  {
    Beats(cover, len, Cover(paths, Ancestor(paths, a, b)), |Split(Ancestor(paths, a, b))|)
  }

  ghost predicate Beats(cover: nat, len: nat, c: nat, l: nat) {
    c < cover || (c == cover && l <= len)
  }

  ghost predicate IsCandidate(paths: seq<string>, best: string) {
    exists a, b :: 0 <= a < b < |paths| && UsablePair(paths, a, b) && best == Ancestor(paths, a, b)
  }

  /** A pair's ancestor covers only its group, and at least the pair. */
  lemma CandidateFacts(paths: seq<string>, a: nat, b: nat)
    requires a < b < |paths| && UsablePair(paths, a, b)
    ensures var o := Ancestor(paths, a, b);
            && KeyOf(o) == KeyOf(paths[a]) && KeyOf(o) != [] && GroupSize(paths, KeyOf(o)) >= 2
            && (forall p :: IsUnder(p, o) ==> KeyOf(p) == KeyOf(o))
            && Cover(paths, o) >= 2
  {
    var o := Ancestor(paths, a, b);
    AncestorFacts(paths, a, b);
    GroupSizeOfTwo(paths, KeyOf(o), a, b);
    forall p | IsUnder(p, o) ensures KeyOf(p) == KeyOf(o) {
      UnderIsPrefix(p, o);
      KeyOfPrefix(Split(o), Split(p));
    }
    UnderIsPrefix(paths[a], o);
    UnderIsPrefix(paths[b], o);
    CoverOfTwo(paths, o, a, b);
  }

  lemma {:induction false} CoverOfOne(paths: seq<string>, o: string, a: nat)
    requires a < |paths| && IsUnder(paths[a], o)
    ensures Cover(paths, o) >= 1
  {
    var n := |paths| - 1;
    if a < n { CoverOfOne(paths[..n], o, a); }
  }

  lemma {:induction false} CoverOfTwo(paths: seq<string>, o: string, a: nat, b: nat)
    requires a < b < |paths| && IsUnder(paths[a], o) && IsUnder(paths[b], o)
    ensures Cover(paths, o) >= 2
  {
    var n := |paths| - 1;
    if b < n { CoverOfTwo(paths[..n], o, a, b); } else { CoverOfOne(paths[..n], o, a); }
  }

  /** The best of all pairs is the longest common path of its whole group, and covers exactly the group. */
  lemma BestIsGroupCommon(paths: seq<string>, best: string, cover: nat, len: nat)
    requires cover > 0 && BestBefore(paths, |paths|, 0, best, cover, len)
    ensures cover >= 2 && IsRoot(paths, best)
    ensures forall p :: p in paths ==> (IsUnder(p, best) <==> KeyOf(p) == KeyOf(best))
  {
    var a, b :| 0 <= a < b < |paths| && UsablePair(paths, a, b) && best == Ancestor(paths, a, b);
    CandidateFacts(paths, a, b);
    var k := KeyOf(best);
    GroupSizeCounts(paths, k);
    GroupCommonIsGreatest(paths, k);
    var i, j := TwoMembersSuffice(paths, k);
    AncestorFacts(paths, i, j);
    CandidateFacts(paths, i, j);
    var whole := Ancestor(paths, i, j);
    forall p | p in paths && KeyOf(p) == k ensures IsUnder(p, whole) { UnderIsPrefix(p, whole); }
    CoverWithinGroup(paths, whole, k);
    CoverWithinGroup(paths, best, k);
    assert BeatsPair(paths, i, j, cover, len);
    forall p | p in paths && KeyOf(p) == k ensures Split(best) <= Split(p) { UnderIsPrefix(p, best); }
    assert IsCommon(paths, k, Split(best));
  }

  // ----- removing groups one at a time

  /** The paths whose group has not been dealt with. */
  ghost function Remaining(paths: seq<string>, done: set<seq<string>>): seq<string> {
    if paths == [] then []
    else
      var rest, p := Remaining(paths[..|paths| - 1], done), paths[|paths| - 1];
      if KeyOf(p) in done then rest else rest + [p]
  }

  lemma {:induction false} RemainingMembers(paths: seq<string>, done: set<seq<string>>)
    ensures forall o :: multiset(Remaining(paths, done))[o] == if KeyOf(o) in done then 0 else multiset(paths)[o]
    ensures forall p :: p in Remaining(paths, done) <==> p in paths && KeyOf(p) !in done
  {
    if paths != [] {
      var n := |paths| - 1;
      RemainingMembers(paths[..n], done);
      assert paths == paths[..n] + [paths[n]];
    }
  }

  /** A group that has not been dealt with is still whole. */
  lemma RootOfRemaining(paths: seq<string>, done: set<seq<string>>, o: string)
    requires KeyOf(o) !in done
    ensures IsRoot(Remaining(paths, done), o) <==> IsRoot(paths, o)
  {
    RemainingMembers(paths, done);
    GroupCommonOfSameMembers(paths, Remaining(paths, done), KeyOf(o));
  }

  /** The output so far: the roots of the groups dealt with. */
  ghost predicate RootsOf(paths: seq<string>, done: set<seq<string>>, out: seq<string>) {
    forall o :: multiset(out)[o] == if KeyOf(o) in done && IsRoot(paths, o) then 1 else 0
  }

  lemma RootsSnoc(paths: seq<string>, done: set<seq<string>>, out: seq<string>, best: string)
    requires RootsOf(paths, done, out) && IsRoot(paths, best) && KeyOf(best) !in done
    ensures RootsOf(paths, done + {KeyOf(best)}, out + [best])
  {
    forall o
      ensures multiset(out + [best])[o] == if KeyOf(o) in done + {KeyOf(best)} && IsRoot(paths, o) then 1 else 0
    {
      if KeyOf(o) == KeyOf(best) && IsRoot(paths, o) {
        JoinOfSplit(o);
        JoinOfSplit(best);
      }
    }
  }

  /** Without a usable pair, every remaining keyed path is alone in its group. */
  lemma AloneIsRoot(paths: seq<string>, o: string)
    requires forall a, b :: 0 <= a < b < |paths| ==> !UsablePair(paths, a, b)
    requires KeyOf(o) != []
    ensures multiset(paths)[o] == if IsRoot(paths, o) then 1 else 0
  {
    var k := KeyOf(o);
    if GroupSize(paths, k) >= 2 {
      var i, j := TwoMembersSuffice(paths, k);
      AncestorFacts(paths, i, j);
      assert false;
    }
    GroupSizeCounts(paths, k);
    if HasGroup(paths, k) {
      var i := OnlyMember(paths, k);
      CountInSingleton(paths, k, i, o);
      JoinOfSplit(o);
      JoinOfSplit(paths[i]);
    } else {
      assert o !in paths;
    }
  }

  lemma {:induction false} CountInSingleton(paths: seq<string>, k: seq<string>, i: nat, o: string)
    requires GroupSize(paths, k) == 1 && i < |paths| && KeyOf(paths[i]) == k && KeyOf(o) == k
    ensures multiset(paths)[o] == if o == paths[i] then 1 else 0
  {
    var n := |paths| - 1;
    assert paths == paths[..n] + [paths[n]];
    GroupSizeCounts(paths[..n], k);
    if i < n {
      assert paths[..n][i] in paths[..n];
      CountInSingleton(paths[..n], k, i, o);
    } else {
      assert o !in paths[..n];
    }
  }

  /** What is left when no pair has a usable ancestor completes the output. */
  lemma RestCompletes(paths: seq<string>, done: set<seq<string>>, out: seq<string>, rest: seq<string>)
    requires RootsOf(paths, done, out) && [] !in done && rest == Remaining(paths, done)
    requires forall a, b :: 0 <= a < b < |rest| ==> !UsablePair(rest, a, b)
    ensures forall o :: multiset(out + rest)[o] == Expected(paths, o)
  {
    RemainingMembers(paths, done);
    forall o ensures multiset(out + rest)[o] == Expected(paths, o) {
      assert multiset(out + rest)[o] == multiset(out)[o] + multiset(rest)[o];
      if KeyOf(o) != [] {
        AloneIsRoot(rest, o);
        if KeyOf(o) !in done { RootOfRemaining(paths, done, o); }
      }
    }
  }

  // ----- the code

  /** Counts the paths under an ancestor. */
  method CountCover(paths: seq<string>, ancestor: string) returns (cover: nat)
    ensures cover == Cover(paths, ancestor)
  {
    cover := 0;
    for n := 0 to |paths|
      invariant cover == Cover(paths[..n], ancestor)
    {
      assert paths[..n + 1][..n] == paths[..n];
      if IsUnder(paths[n], ancestor) {
        cover := cover + 1;
      }
    }
    assert paths[..|paths|] == paths;
  }

  /** One pair more. */
  lemma BestStep(paths: seq<string>, i: nat, j: nat, best: string, cover: nat, len: nat)
    requires i < j < |paths| && BestBefore(paths, i, j, best, cover, len)
    ensures !UsablePair(paths, i, j) ==> BestBefore(paths, i, j + 1, best, cover, len)
    ensures UsablePair(paths, i, j) ==>
      var anc := Ancestor(paths, i, j);
      var c, l := Cover(paths, anc), |Split(anc)|;
      if c > cover || (c == cover && l > len) then BestBefore(paths, i, j + 1, anc, c, l)
      else BestBefore(paths, i, j + 1, best, cover, len)
  {
    if UsablePair(paths, i, j) {
      CandidateFacts(paths, i, j);
      var anc := Ancestor(paths, i, j);
      var c, l := Cover(paths, anc), |Split(anc)|;
      if c > cover || (c == cover && l > len) {
        BeatsMore(paths, i, j, cover, len, c, l);
        BeatsOneMore(paths, i, j, c, l);
        assert IsCandidate(paths, anc);
      } else {
        BeatsOneMore(paths, i, j, cover, len);
      }
    } else {
      BeatsOneMore(paths, i, j, cover, len);
    }
  }

  lemma BeatsOneMore(paths: seq<string>, i: nat, j: nat, cover: nat, len: nat)
    requires i < j < |paths| && BeatsAllBefore(paths, i, j, cover, len)
    requires UsablePair(paths, i, j) ==> BeatsPair(paths, i, j, cover, len)
    ensures BeatsAllBefore(paths, i, j + 1, cover, len)
  {
  }

  lemma BeatsMore(paths: seq<string>, i: nat, j: nat, cover: nat, len: nat, cover': nat, len': nat)
    requires BeatsAllBefore(paths, i, j, cover, len) && (cover' > cover || (cover' == cover && len' > len))
    ensures BeatsAllBefore(paths, i, j, cover', len')
  {
    forall a, b | 0 <= a < b < |paths| && (a < i || (a == i && b < j)) && UsablePair(paths, a, b)
      ensures BeatsPair(paths, a, b, cover', len')
    {
      assert BeatsPair(paths, a, b, cover, len);
    }
  }

  lemma BestRow(paths: seq<string>, i: nat, best: string, cover: nat, len: nat)
    requires BestBefore(paths, i, |paths|, best, cover, len)
    ensures BestBefore(paths, i + 1, i + 2, best, cover, len)
  {
  }

  /** The two loops over pairs. */
  method PickBest(remaining: seq<string>) returns (best: string, bestCover: nat, bestLen: nat)
    ensures BestBefore(remaining, |remaining|, 0, best, bestCover, bestLen)
  {
    best, bestCover, bestLen := "", 0, 0;
    for i := 0 to |remaining|
      invariant BestBefore(remaining, i, i + 1, best, bestCover, bestLen)
    {
      best, bestCover, bestLen := PickInRow(remaining, i, best, bestCover, bestLen);
      BestRow(remaining, i, best, bestCover, bestLen);
    }
  }

  /** The inner loop over j. */
  method PickInRow(remaining: seq<string>, i: nat, best0: string, cover0: nat, len0: nat)
    returns (best: string, bestCover: nat, bestLen: nat)
    requires i < |remaining| && BestBefore(remaining, i, i + 1, best0, cover0, len0)
    ensures BestBefore(remaining, i, |remaining|, best, bestCover, bestLen)
  {
    best, bestCover, bestLen := best0, cover0, len0;
    for j := i + 1 to |remaining|
      invariant BestBefore(remaining, i, j, best, bestCover, bestLen)
    {
      var anc := LongestCommonPathPrefix(remaining[i], remaining[j]);
      BestStep(remaining, i, j, best, bestCover, bestLen);
      if anc == "" || anc == "/" {
        continue;
      }
      var cover := CountCover(remaining, anc);
      var l := |Split(anc)|;
      if cover > bestCover || (cover == bestCover && l > bestLen) {
        best, bestCover, bestLen := anc, cover, l;
      }
    }
  }

  method DropCovered(remaining: seq<string>, best: string, ghost paths: seq<string>, ghost done: set<seq<string>>)
    returns (kept: seq<string>)
    requires remaining == Remaining(paths, done) && IsRoot(remaining, best)
    requires forall p :: p in remaining ==> (IsUnder(p, best) <==> KeyOf(p) == KeyOf(best))
    ensures kept == Remaining(paths, done + {KeyOf(best)})
    ensures |kept| + GroupSize(remaining, KeyOf(best)) == |remaining|
  {
    kept := [];
    for n := 0 to |remaining|
      invariant kept == Remaining(remaining[..n], {KeyOf(best)})
    {
      assert remaining[..n + 1][..n] == remaining[..n];
      assert remaining[n] in remaining;
      if !IsUnder(remaining[n], best) {
        kept := kept + [remaining[n]];
      }
    }
    assert remaining[..|remaining|] == remaining;
    RemainingTwice(paths, done, {KeyOf(best)});
    RemainingLength(remaining, KeyOf(best));
  }

  lemma {:induction false} RemainingLength(paths: seq<string>, k: seq<string>)
    ensures |Remaining(paths, {k})| + GroupSize(paths, k) == |paths|
  {
    if paths != [] { RemainingLength(paths[..|paths| - 1], k); }
  }

  lemma {:induction false} RemainingTwice(paths: seq<string>, a: set<seq<string>>, b: set<seq<string>>)
    ensures Remaining(Remaining(paths, a), b) == Remaining(paths, a + b)
  {
    if paths != [] {
      var n := |paths| - 1;
      RemainingTwice(paths[..n], a, b);
      if KeyOf(paths[n]) !in a {
        var w := Remaining(paths[..n], a);
        assert (w + [paths[n]])[..|w|] == w;
      }
    }
  }

  lemma {:induction false} NoneDone(paths: seq<string>)
    ensures Remaining(paths, {}) == paths
  {
    if paths != [] {
      NoneDone(paths[..|paths| - 1]);
    }
  }

  /** Holds for every input, "" and "/" included. */
  method Collapse(paths: seq<string>) returns (out: seq<string>)
    ensures IsCollapsed(paths, out)
  {
    if |paths| < 2 {
      forall o ensures multiset(paths)[o] == Expected(paths, o) {
        if KeyOf(o) != [] { AloneIsRoot(paths, o); }
      }
      return paths;
    }
    var remaining := paths;
    out := [];
    ghost var done: set<seq<string>> := {};
    NoneDone(paths);
    while |remaining| > 0
      invariant remaining == Remaining(paths, done) && RootsOf(paths, done, out) && [] !in done
      decreases |remaining|
    {
      var best, bestCover, bestLen := PickBest(remaining);
      if bestCover > 0 { BestIsGroupCommon(remaining, best, bestCover, bestLen); }
      if bestCover < 2 {
        RestCompletes(paths, done, out, remaining);
        out := out + remaining;
        SortSorted(out);
        return Sort(out);
      }
      ChosenGroup(paths, done, remaining, best);
      RootsSnoc(paths, done, out, best);
      out := out + [best];
      remaining := DropCovered(remaining, best, paths, done);
      done := done + {KeyOf(best)};
    }
    RestCompletes(paths, done, out, []);
    assert out + [] == out;
    SortSorted(out);
    out := Sort(out);
  }

  /** Each choice deals with a new group, of at least one path. */
  lemma ChosenGroup(paths: seq<string>, done: set<seq<string>>, remaining: seq<string>, best: string)
    requires remaining == Remaining(paths, done) && IsRoot(remaining, best)
    ensures KeyOf(best) !in done && KeyOf(best) != [] && IsRoot(paths, best)
    ensures GroupSize(remaining, KeyOf(best)) > 0
  {
    RemainingMembers(paths, done);
    GroupSizeCounts(remaining, KeyOf(best));
    RootOfRemaining(paths, done, best);
  }
}
