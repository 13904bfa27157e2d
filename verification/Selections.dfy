/** What a loop that keeps some elements of a list leaves: those elements, in the order they had. */
module Selections {

  /** r is what stands at the positions ps, which are the kept ones in increasing order. */
  ghost predicate SelectedAt<T(!new)>(xs: seq<T>, keep: nat -> bool, ps: seq<nat>, r: seq<T>) {
    && |ps| == |r|
    && (forall k :: 0 <= k < |ps| ==> ps[k] < |xs| && r[k] == xs[ps[k]])
    && (forall k, l :: 0 <= k < l < |ps| ==> ps[k] < ps[l])
    && (forall i: nat :: i < |xs| ==> (i in ps <==> keep(i)))
  }

  /** r is the kept elements of xs, in order. */
  ghost predicate Selects<T(!new)>(xs: seq<T>, keep: nat -> bool, r: seq<T>) {
    exists ps :: SelectedAt(xs, keep, ps, r)
  }

  lemma SelectsNothing<T(!new)>(xs: seq<T>, keep: nat -> bool)
    requires xs == []
    ensures Selects(xs, keep, [])
  {
    assert SelectedAt(xs, keep, [], []);
  }

  /** One element more; `before` need only agree with `keep` on the earlier positions. */
  lemma SelectsSnoc<T(!new)>(xs: seq<T>, before: nat -> bool, keep: nat -> bool, r: seq<T>, x: T)
    requires Selects(xs, before, r) && forall i: nat :: i < |xs| ==> before(i) == keep(i)
    ensures Selects(xs + [x], keep, if keep(|xs|) then r + [x] else r)
  {
    var ps: seq<nat> :| SelectedAt(xs, before, ps, r);
    if keep(|xs|) {
      var qs: seq<nat> := ps + [|xs|];
      assert forall i: nat :: i in qs <==> i in ps || i == |xs|;
      assert SelectedAt(xs + [x], keep, qs, r + [x]);
    } else {
      assert forall k :: 0 <= k < |ps| ==> (xs + [x])[ps[k]] == xs[ps[k]];
      assert SelectedAt(xs + [x], keep, ps, r);
    }
  }

  /** The same, split off the end. */
  lemma SelectsNext<T(!new)>(xs: seq<T>, before: nat -> bool, keep: nat -> bool, r: seq<T>)
    requires xs != [] && Selects(xs[..|xs| - 1], before, r)
    requires forall i: nat :: i < |xs| - 1 ==> before(i) == keep(i)
    ensures Selects(xs, keep, if keep(|xs| - 1) then r + [xs[|xs| - 1]] else r)
  {
    var n := |xs| - 1;
    assert xs == xs[..n] + [xs[n]];
    SelectsSnoc(xs[..n], before, keep, r, xs[n]);
  }

  /** Two kept elements stay in order, and what is selected was kept somewhere. */
  lemma SelectedInOrder<T(!new)>(xs: seq<T>, keep: nat -> bool, r: seq<T>, i: nat, j: nat) returns (a: nat, b: nat)
    requires Selects(xs, keep, r) && i < j < |xs| && keep(i) && keep(j)
    ensures a < b < |r| && r[a] == xs[i] && r[b] == xs[j]
  {
    var ps: seq<nat> :| SelectedAt(xs, keep, ps, r);
    assert i in ps && j in ps;
    a :| 0 <= a < |ps| && ps[a] == i;
    b :| 0 <= b < |ps| && ps[b] == j;
  }
}
