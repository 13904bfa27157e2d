/**
 Go's string order and `sort.Strings`, which the service order and the mount
 collapsing both rely on: a sorted list is determined by the multiset of its
 elements, so sorting erases the order in which Go iterates a map.
 */
module Strings {

  /** Go's `<=` on strings: the first differing character decides. */
  predicate Leq(a: string, b: string) {
    a == [] || (b != [] && (a[0] < b[0] || (a[0] == b[0] && Leq(a[1..], b[1..]))))
  }

  lemma {:induction false} LeqTotal(a: string, b: string)
    ensures Leq(a, b) || Leq(b, a)
  {
    if a != [] && b != [] { LeqTotal(a[1..], b[1..]); }
  }

  lemma {:induction false} LeqAntisymmetric(a: string, b: string)
    requires Leq(a, b) && Leq(b, a)
    ensures a == b
  {
    if a != [] && b != [] {
      LeqAntisymmetric(a[1..], b[1..]);
      assert a == [a[0]] + a[1..] && b == [b[0]] + b[1..];
    }
  }

  lemma {:induction false} LeqTransitive(a: string, b: string, c: string)
    requires Leq(a, b) && Leq(b, c)
    ensures Leq(a, c)
  {
    if a != [] && a[0] == b[0] == c[0] { LeqTransitive(a[1..], b[1..], c[1..]); }
  }

  /** a and b agree up to position i, where a has the smaller character. */
  ghost predicate SmallerAt(a: string, b: string, i: nat) {
    i < |a| && i < |b| && a[..i] == b[..i] && a[i] < b[i]
  }

  /** The first differing character decides; without one, the shorter string comes first. */
  lemma {:induction false} LeqExactlyWhen(a: string, b: string)
    ensures Leq(a, b) <==> a <= b || exists i: nat :: SmallerAt(a, b, i)
  {
    if a != [] && b != [] {
      var p, q := a[1..], b[1..];
      assert a == [a[0]] + p && b == [b[0]] + q;
      forall i: nat | i > 0 && SmallerAt(a, b, i) ensures a[0] == b[0] && SmallerAt(p, q, i - 1) {
        assert a[..i][0] == b[..i][0];
        assert p[..i - 1] == a[..i][1..] && q[..i - 1] == b[..i][1..];
      }
      forall i: nat | a[0] == b[0] && SmallerAt(p, q, i) ensures SmallerAt(a, b, i + 1) {
        assert a[..i + 1] == [a[0]] + p[..i] && b[..i + 1] == [b[0]] + q[..i];
      }
      assert a[0] < b[0] <==> SmallerAt(a, b, 0);
      assert a <= b <==> a[0] == b[0] && p <= q;
      LeqExactlyWhen(p, q);
    }
  }

  ghost predicate Sorted(xs: seq<string>) {
    forall i, j :: 0 <= i < j < |xs| ==> Leq(xs[i], xs[j])
  }

  ghost predicate NoDuplicates<T(!new)>(xs: seq<T>) {
    forall i, j :: 0 <= i < j < |xs| ==> xs[i] != xs[j]
  }

  function Insert(x: string, xs: seq<string>): (r: seq<string>)
    ensures multiset(r) == multiset(xs) + multiset{x}
  {
    if xs == [] then [x]
    else if Leq(x, xs[0]) then [x] + xs
    else
      assert xs == [xs[0]] + xs[1..];
      [xs[0]] + Insert(x, xs[1..])
  }

  /** `sort.Strings`. */
  function Sort(xs: seq<string>): (r: seq<string>)
    ensures multiset(r) == multiset(xs)
  {
    if xs == [] then []
    else
      assert xs == [xs[0]] + xs[1..];
      Insert(xs[0], Sort(xs[1..]))
  }

  lemma PrependSorted(x: string, xs: seq<string>)
    requires Sorted(xs) && (xs != [] ==> Leq(x, xs[0]))
    ensures Sorted([x] + xs)
  {
    forall i | 0 <= i < |xs| ensures Leq(x, xs[i]) {
      if i > 0 { LeqTransitive(x, xs[0], xs[i]); }
    }
  }

  lemma {:induction false} InsertSorted(x: string, xs: seq<string>)
    requires Sorted(xs)
    ensures Sorted(Insert(x, xs))
  {
    if xs == [] {
    } else if Leq(x, xs[0]) {
      PrependSorted(x, xs);
    } else {
      var r := Insert(x, xs[1..]);
      InsertSorted(x, xs[1..]);
      LeqTotal(x, xs[0]);
      assert r[0] in multiset(r);
      PrependSorted(xs[0], r);
    }
  }

  lemma {:induction false} SortSorted(xs: seq<string>)
    ensures Sorted(Sort(xs))
  {
    if xs != [] {
      SortSorted(xs[1..]);
      InsertSorted(xs[0], Sort(xs[1..]));
    }
  }

  lemma {:induction false} SortedIsUnique(a: seq<string>, b: seq<string>)
    requires Sorted(a) && Sorted(b) && multiset(a) == multiset(b)
    ensures a == b
  {
    assert |multiset(a)| == |a| && |multiset(b)| == |b|;
    if a != [] {
      assert a[0] in multiset(b) && b[0] in multiset(a);
      if a[0] != b[0] { LeqAntisymmetric(a[0], b[0]); }
      assert a == [a[0]] + a[1..] && b == [b[0]] + b[1..];
      assert multiset(a[1..]) == multiset(a) - multiset{a[0]};
      SortedIsUnique(a[1..], b[1..]);
    }
  }

  lemma SortOfSorted(a: seq<string>)
    requires Sorted(a)
    ensures Sort(a) == a
  {
    SortSorted(a);
    SortedIsUnique(Sort(a), a);
  }

  /** Sorting depends on the elements only, not on the order they arrive in. */
  lemma SortIgnoresArrivalOrder(a: seq<string>, b: seq<string>)
    requires multiset(a) == multiset(b)
    ensures Sort(a) == Sort(b)
  {
    SortSorted(a);
    SortSorted(b);
    SortedIsUnique(Sort(a), Sort(b));
  }

  lemma Associative<T>(a: seq<T>, b: seq<T>, c: seq<T>)
    ensures a + b + c == a + (b + c)
  {
  }

  lemma MultisetMembers<T>(a: seq<T>, b: seq<T>)
    requires multiset(a) == multiset(b)
    ensures |a| == |b| && forall x :: x in a <==> x in b
  {
    assert |multiset(a)| == |a| && |multiset(b)| == |b|;
    assert forall x :: x in a <==> x in multiset(a);
  }

  lemma NoDuplicatesCounts<T(!new)>(a: seq<T>)
    ensures NoDuplicates(a) <==> forall x :: x in multiset(a) ==> multiset(a)[x] == 1
  {
    if a != [] {
      var rest := a[1..];
      assert a == [a[0]] + rest;
      NoDuplicatesCounts(rest);
      assert multiset(a) == multiset{a[0]} + multiset(rest);
      if NoDuplicates(a) {
        assert NoDuplicates(rest);
        assert a[0] !in rest;
      } else if NoDuplicates(rest) {
        assert a[0] in rest;
        assert multiset(a)[a[0]] > 1;
      } else {
        var x :| x in multiset(rest) && multiset(rest)[x] != 1;
        assert multiset(a)[x] > 1;
      }
    }
  }

  /** Two duplicate-free lists with the same members are permutations of each other. */
  lemma SameMembersSameMultiset<T(!new)>(a: seq<T>, b: seq<T>)
    requires NoDuplicates(a) && NoDuplicates(b)
    requires forall x :: x in a <==> x in b
    ensures multiset(a) == multiset(b)
  {
    NoDuplicatesCounts(a);
    NoDuplicatesCounts(b);
    forall x ensures multiset(a)[x] == multiset(b)[x] {
      assert x in multiset(a) <==> x in a;
      assert x in multiset(b) <==> x in b;
    }
  }
}
