/** Slash-separated paths: `strings.Split`, `strings.Join` and prefixes by component. */
module Paths {
  import opened Strings

  /** `strings.Split(p, "/")`. */
  function Split(p: string): (cs: seq<string>)
    ensures cs != []
  {
    if p == [] then [""]
    else if p[0] == '/' then [""] + Split(p[1..])
    else
      var r := Split(p[1..]);
      [[p[0]] + r[0]] + r[1..]
  }

  /** `strings.Join(cs, "/")`. */
  function Join(cs: seq<string>): string {
    if cs == [] then ""
    else if |cs| == 1 then cs[0]
    else cs[0] + "/" + Join(cs[1..])
  }

  ghost predicate SlashFree(cs: seq<string>) {
    forall i :: 0 <= i < |cs| ==> '/' !in cs[i]
  }

  lemma {:induction false} SplitIsSlashFree(p: string)
    ensures SlashFree(Split(p))
  {
    if p != [] { SplitIsSlashFree(p[1..]); }
  }

  lemma JoinStep(c: string, cs: seq<string>)
    requires cs != []
    ensures Join([c] + cs) == c + "/" + Join(cs)
  {
    assert ([c] + cs)[1..] == cs;
  }

  lemma JoinFirst(x: char, cs: seq<string>)
    requires cs != []
    ensures Join([[x] + cs[0]] + cs[1..]) == [x] + Join(cs)
  {
    var first, rest := [x] + cs[0], cs[1..];
    if rest == [] {
      assert [first] + rest == [first];
    } else {
      JoinStep(first, rest);
      Associative([x] + cs[0], "/", Join(rest));
      Associative(cs[0], "/", Join(rest));
      Associative([x], cs[0], "/" + Join(rest));
    }
  }

  lemma {:induction false} JoinOfSplit(p: string)
    ensures Join(Split(p)) == p
  {
    if p != [] {
      JoinOfSplit(p[1..]);
      assert p == [p[0]] + p[1..];
      JoinStep("", Split(p[1..]));
      JoinFirst(p[0], Split(p[1..]));
    }
  }

  lemma {:induction false} SplitOfComponent(c: string)
    requires '/' !in c
    ensures Split(c) == [c]
  {
    if c != [] {
      assert c[0] in c;
      SplitOfComponent(c[1..]);
      assert c == [c[0]] + c[1..];
    }
  }

  lemma SplitStep(c: char, rest: string)
    ensures Split([c] + rest) ==
            if c == '/' then [""] + Split(rest) else [[c] + Split(rest)[0]] + Split(rest)[1..]
  {
    assert ([c] + rest)[1..] == rest;
  }

  lemma {:induction false} SplitConcat(a: string, b: string)
    ensures Split(a + "/" + b) == Split(a) + Split(b)
  {
    if a == [] {
      SplitStep('/', b);
      assert a + "/" + b == ['/'] + b;
    } else {
      var rest := a[1..] + "/" + b;
      SplitConcat(a[1..], b);
      assert a + "/" + b == [a[0]] + rest;
      SplitStep(a[0], rest);
      Prepend(a[0], Split(a[1..]), Split(b));
    }
  }

  lemma Prepend(c: char, r: seq<string>, s: seq<string>)
    requires r != []
    ensures [""] + (r + s) == [""] + r + s
    ensures [[c] + (r + s)[0]] + (r + s)[1..] == [[c] + r[0]] + r[1..] + s
  {
    assert (r + s)[1..] == r[1..] + s;
  }

  lemma {:induction false} SplitOfJoin(cs: seq<string>)
    requires cs != [] && SlashFree(cs)
    ensures Split(Join(cs)) == cs
  {
    SplitOfComponent(cs[0]);
    if |cs| > 1 {
      SplitOfJoin(cs[1..]);
      SplitConcat(cs[0], Join(cs[1..]));
      assert cs == [cs[0]] + cs[1..];
    }
  }

  /** `isUnder`. */
  predicate IsUnder(path: string, ancestor: string) {
    path == ancestor || ancestor + "/" <= path
  }

  /** Being under an ancestor is extending its components. */
  lemma UnderIsPrefix(path: string, ancestor: string)
    ensures IsUnder(path, ancestor) <==> Split(ancestor) <= Split(path)
  {
    var a, p := Split(ancestor), Split(path);
    if IsUnder(path, ancestor) && path != ancestor {
      var rest := path[|ancestor| + 1..];
      assert path == ancestor + "/" + rest;
      SplitConcat(ancestor, rest);
    }
    if a <= p {
      JoinOfSplit(path);
      JoinOfSplit(ancestor);
      var rest := p[|a|..];
      assert p == a + rest;
      if rest == [] {
        assert p == a;
      } else {
        SplitIsSlashFree(path);
        SplitOfJoin(rest);
        SplitConcat(ancestor, Join(rest));
        JoinOfSplit(ancestor + "/" + Join(rest));
        assert path == ancestor + "/" + Join(rest);
      }
    }
  }

  /** The longest common prefix of two component lists. */
  function Common(a: seq<string>, b: seq<string>): (r: seq<string>)
    ensures r <= a && r <= b
    ensures |r| < |a| && |r| < |b| ==> a[|r|] != b[|r|]
  {
    if a == [] || b == [] || a[0] != b[0] then []
    else [a[0]] + Common(a[1..], b[1..])
  }

  lemma {:induction false} CommonIsGreatest(a: seq<string>, b: seq<string>, x: seq<string>)
    requires x <= a && x <= b
    ensures x <= Common(a, b)
  {
    if x != [] { CommonIsGreatest(a[1..], b[1..], x[1..]); }
  }

  lemma {:induction false} CommonAt(a: seq<string>, b: seq<string>, i: nat)
    requires i <= |a| && i <= |b| && a[..i] == b[..i]
    requires i < |a| && i < |b| ==> a[i] != b[i]
    ensures Common(a, b) == a[..i]
  {
    if i > 0 {
      assert a[0] == a[..i][0] == b[..i][0] == b[0];
      assert a[1..][..i - 1] == a[..i][1..] && b[1..][..i - 1] == b[..i][1..];
      CommonAt(a[1..], b[1..], i - 1);
      assert a[..i] == [a[0]] + a[1..][..i - 1];
    }
  }

  /** `longestCommonPathPrefix`. */
  method LongestCommonPathPrefix(a: string, b: string) returns (r: string)
    ensures r == Join(Common(Split(a), Split(b)))
  {
    var xs, ys := Split(a), Split(b);
    var out: seq<string> := [];
    var i := 0;
    while i < |xs| && i < |ys|
      invariant 0 <= i <= |xs| && i <= |ys|
      invariant out == xs[..i] && out == ys[..i]
    {
      if xs[i] != ys[i] {
        break;
      }
      out := out + [xs[i]];
      i := i + 1;
    }
    CommonAt(xs, ys, i);
    r := Join(out);
  }
}
