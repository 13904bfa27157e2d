/**
 internal/compose/parser.go: splitting a short volume spec at colons, except
 inside `${...}`.
 */
module VolumeSpec {

  /** A variable reference starts here. */
  predicate OpensVar(s: string) {
    |s| >= 2 && s[0] == '$' && s[1] == '{'
  }

  /** `depth` after a character inside a variable reference. */
  function Deeper(depth: nat, ch: char): nat
    requires depth > 0
  {
    if ch == '{' then depth + 1 else if ch == '}' then depth - 1 else depth
  }

  /**
   The parts still to come: `taken` are complete, `current` is being read, and
   the scan is inside a variable reference exactly if depth is positive. An
   opening `${` sets the depth to one wherever it stands.
   */
  function SplitRest(rest: string, taken: nat, current: string, depth: nat): (parts: seq<string>)
    ensures parts != []
    decreases |rest|
  {
    if rest == [] then [current]
    else if OpensVar(rest) then SplitRest(rest[2..], taken, current + rest[..2], 1)
    else if depth > 0 then SplitRest(rest[1..], taken, current + [rest[0]], Deeper(depth, rest[0]))
    else if rest[0] == ':' && taken < 2 then [current] + SplitRest(rest[1..], taken + 1, "", 0)
    else SplitRest(rest[1..], taken, current + [rest[0]], 0)
  }

  function Parts(spec: string): seq<string> {
    SplitRest(spec, 0, "", 0)
  }

  /** `splitVolumeSpec`. */
  method SplitVolumeSpec(spec: string) returns (parts: seq<string>)
    ensures parts == Parts(spec)
  {
    parts := [];
    var current := "";
    var depth := 0;
    var inVar := false;
    var i := 0;
    while i < |spec|
      invariant 0 <= i <= |spec| && depth >= 0 && (inVar <==> depth > 0)
      invariant parts + SplitRest(spec[i..], |parts|, current, depth) == Parts(spec)
    {
      var ch := spec[i];
      assert spec[i..][1..] == spec[i + 1..];
      assert OpensVar(spec[i..]) <==> ch == '$' && i + 1 < |spec| && spec[i + 1] == '{';
      if ch == '$' && i + 1 < |spec| && spec[i + 1] == '{' {
        assert OpensVar(spec[i..]) && spec[i..][2..] == spec[i + 2..];
        assert current + spec[i..][..2] == current + [ch] + [spec[i + 1]];
        inVar := true;
        depth := 1;
        current := current + [ch] + [spec[i + 1]];
        i := i + 2;
        continue;
      }
      if inVar {
        assert SplitRest(spec[i..], |parts|, current, depth) ==
               SplitRest(spec[i + 1..], |parts|, current + [ch], Deeper(depth, ch));
        current := current + [ch];
        match ch {
          case '{' => depth := depth + 1;
          case '}' =>
            depth := depth - 1;
            if depth == 0 {
              inVar := false;
            }
          case _ =>
        }
        i := i + 1;
        continue;
      }
      if ch == ':' && |parts| < 2 {
        assert parts + ([current] + SplitRest(spec[i + 1..], |parts| + 1, "", 0)) ==
               parts + [current] + SplitRest(spec[i + 1..], |parts| + 1, "", 0);
        parts := parts + [current];
        current := "";
        i := i + 1;
        continue;
      }
      current := current + [ch];
      i := i + 1;
    }
    parts := parts + [current];
  }

  // ----- nothing is lost

  function JoinColon(parts: seq<string>): string {
    if parts == [] then ""
    else if |parts| == 1 then parts[0]
    else parts[0] + ":" + JoinColon(parts[1..])
  }

  lemma {:induction false} RestIsLossless(rest: string, taken: nat, current: string, depth: nat)
    requires taken <= 2
    ensures var parts := SplitRest(rest, taken, current, depth);
            JoinColon(parts) == current + rest && |parts| <= 3 - taken
    decreases |rest|
  {
    if rest == [] {
    } else if OpensVar(rest) {
      RestIsLossless(rest[2..], taken, current + rest[..2], 1);
    } else if depth > 0 {
      RestIsLossless(rest[1..], taken, current + [rest[0]], Deeper(depth, rest[0]));
    } else if rest[0] == ':' && taken < 2 {
      var tail := SplitRest(rest[1..], taken + 1, "", 0);
      RestIsLossless(rest[1..], taken + 1, "", 0);
      assert ([current] + tail)[1..] == tail;
    } else {
      RestIsLossless(rest[1..], taken, current + [rest[0]], 0);
    }
  }

  /** Joining the one to three parts with colons gives the spec back. */
  lemma SplitIsLossless(spec: string)
    ensures JoinColon(Parts(spec)) == spec && 1 <= |Parts(spec)| <= 3
  {
    RestIsLossless(spec, 0, "", 0);
    assert "" + spec == spec;
  }

  // ----- which strings survive as a part

  /** The depth at the end of s when its scan starts at `depth`, or -1 if it meets a colon at depth zero. */
  function DepthAfter(s: string, depth: nat): int
    decreases |s|
  {
    if s == [] then depth
    else if OpensVar(s) then DepthAfter(s[2..], 1)
    else if depth > 0 then DepthAfter(s[1..], Deeper(depth, s[0]))
    else if s[0] == ':' then -1
    else DepthAfter(s[1..], 0)
  }

  /** s has no bare colon; a variable reference may be left open at its end. */
  predicate Unbroken(s: string) {
    DepthAfter(s, 0) >= 0
  }

  /** s has no bare colon, and every variable reference it opens is closed. */
  predicate Clean(s: string) {
    DepthAfter(s, 0) == 0
  }

  /** What comes after s cannot turn a trailing dollar sign into an opening. */
  predicate Follows(rest: string) {
    rest == [] || rest[0] != '{'
  }

  lemma {:induction false} SplitAfter(s: string, rest: string, taken: nat, current: string, depth: nat)
    requires Follows(rest) && DepthAfter(s, depth) >= 0
    ensures SplitRest(s + rest, taken, current, depth) == SplitRest(rest, taken, current + s, DepthAfter(s, depth))
    decreases |s|
  {
    if s == [] {
      assert s + rest == rest && current + s == current;
    } else {
      assert OpensVar(s + rest) <==> OpensVar(s);
      assert (s + rest)[0] == s[0];
      if OpensVar(s) {
        assert (s + rest)[2..] == s[2..] + rest && (s + rest)[..2] == s[..2];
        SplitAfter(s[2..], rest, taken, current + s[..2], 1);
        assert current + s[..2] + s[2..] == current + s;
      } else {
        assert (s + rest)[1..] == s[1..] + rest;
        SplitAfter(s[1..], rest, taken, current + [s[0]], if depth > 0 then Deeper(depth, s[0]) else 0);
        assert current + [s[0]] + s[1..] == current + s;
      }
    }
  }

  /** The first part of anything that starts inside a variable reference, or outside, extends what was read. */
  lemma {:induction false} FirstPartExtends(rest: string, taken: nat, current: string, depth: nat)
    ensures |SplitRest(rest, taken, current, depth)[0]| >= |current|
    decreases |rest|
  {
    if rest == [] {
    } else if OpensVar(rest) {
      FirstPartExtends(rest[2..], taken, current + rest[..2], 1);
    } else if depth > 0 {
      FirstPartExtends(rest[1..], taken, current + [rest[0]], Deeper(depth, rest[0]));
    } else if !(rest[0] == ':' && taken < 2) {
      FirstPartExtends(rest[1..], taken, current + [rest[0]], 0);
    }
  }

  /** A bare colon cuts the first part short. */
  lemma {:induction false} BareColonCuts(s: string, rest: string, taken: nat, current: string, depth: nat)
    requires taken < 2 && Follows(rest) && DepthAfter(s, depth) < 0
    ensures |SplitRest(s + rest, taken, current, depth)[0]| < |current| + |s|
    decreases |s|
  {
    assert OpensVar(s + rest) <==> OpensVar(s);
    if OpensVar(s) {
      assert (s + rest)[2..] == s[2..] + rest && (s + rest)[..2] == s[..2];
      BareColonCuts(s[2..], rest, taken, current + s[..2], 1);
    } else {
      assert (s + rest)[1..] == s[1..] + rest;
      if depth > 0 {
        BareColonCuts(s[1..], rest, taken, current + [s[0]], Deeper(depth, s[0]));
      } else if s[0] != ':' {
        BareColonCuts(s[1..], rest, taken, current + [s[0]], 0);
      }
    }
  }

  /** s comes out as the next part exactly if it is clean, whatever follows its colon. */
  lemma PartExactlyWhen(s: string, t: string, taken: nat)
    requires taken < 2
    ensures Clean(s) <==> SplitRest(s + ":" + t, taken, "", 0)[0] == s
    ensures Clean(s) ==> SplitRest(s + ":" + t, taken, "", 0) == [s] + SplitRest(t, taken + 1, "", 0)
  {
    var rest := ":" + t;
    assert s + ":" + t == s + rest && rest[1..] == t;
    var d := DepthAfter(s, 0);
    if d < 0 {
      BareColonCuts(s, rest, taken, "", 0);
    } else {
      SplitAfter(s, rest, taken, "", 0);
      assert "" + s == s;
      if d > 0 { FirstPartExtends(t, taken, s + [':'], Deeper(d, ':')); }
    }
  }

  /** At the end of the spec there is no colon to protect, so a reference may stay open. */
  lemma EndPartExactlyWhen(s: string, taken: nat)
    requires taken < 2
    ensures Unbroken(s) <==> SplitRest(s, taken, "", 0) == [s]
  {
    assert s + "" == s && "" + s == s;
    if Unbroken(s) { SplitAfter(s, "", taken, "", 0); }
    else { BareColonCuts(s, "", taken, "", 0); }
  }

  lemma {:induction false} LastPartIsWhole(m: string, current: string, depth: nat)
    ensures SplitRest(m, 2, current, depth) == [current + m]
    decreases |m|
  {
    if m == [] {
      assert current + m == current;
    } else if OpensVar(m) {
      LastPartIsWhole(m[2..], current + m[..2], 1);
      assert current + m[..2] + m[2..] == current + m;
    } else {
      LastPartIsWhole(m[1..], current + [m[0]], if depth > 0 then Deeper(depth, m[0]) else 0);
      assert current + [m[0]] + m[1..] == current + m;
    }
  }

  /**
   Splitting inverts joining. Three parts come back exactly if the first two are
   clean, whatever the mode; two parts, if the first is clean and the second has
   no bare colon; one, if it has none.
   */
  lemma SplitInvertsJoinExactlyWhen(s: string, t: string, m: string)
    ensures Parts(s) == [s] <==> Unbroken(s)
    ensures Parts(s + ":" + t) == [s, t] <==> Clean(s) && Unbroken(t)
    ensures Parts(s + ":" + t + ":" + m) == [s, t, m] <==> Clean(s) && Clean(t)
  {
    EndPartExactlyWhen(s, 0);
    PartExactlyWhen(s, t, 0);
    EndPartExactlyWhen(t, 1);
    FirstOfMore(s, SplitRest(t, 1, "", 0), [t]);
    var more := t + ":" + m;
    assert s + ":" + more == s + ":" + t + ":" + m;
    PartExactlyWhen(s, more, 0);
    PartExactlyWhen(t, m, 1);
    LastPartIsWhole(m, "", 0);
    assert "" + m == m;
    FirstOfMore(s, SplitRest(more, 1, "", 0), [t, m]);
  }

  lemma FirstOfMore(s: string, a: seq<string>, b: seq<string>)
    ensures [s] + a == [s] + b <==> a == b
  {
    assert ([s] + a)[1..] == a && ([s] + b)[1..] == b;
  }

  // ----- what clean strings look like

  /** A plain character, or a variable reference `${body}`. */
  datatype Piece = Plain(c: char) | Var(body: string)

  function RenderOne(p: Piece): string {
    match p
    case Plain(c) => [c]
    case Var(body) => "${" + body + "}"
  }

  function Render(ps: seq<Piece>): string {
    if ps == [] then "" else RenderOne(ps[0]) + Render(ps[1..])
  }

  /** Braces in a body are balanced, starting at the given depth, and no reference is opened in it. */
  predicate Balanced(body: string, depth: nat)
    decreases |body|
  {
    if body == [] then depth == 1
    else
      !OpensVar(body) &&
      if body[0] == '{' then Balanced(body[1..], depth + 1)
      else if body[0] == '}' then depth > 1 && Balanced(body[1..], depth - 1)
      else Balanced(body[1..], depth)
  }

  /** Plain characters are no colons and do not form `${`; bodies are balanced and not nested. */
  predicate WellFormed(ps: seq<Piece>) {
    ps == [] ||
    (WellFormed(ps[1..]) &&
     match ps[0]
     case Plain(c) => c != ':' && !(c == '$' && |ps| > 1 && ps[1] == Plain('{'))
     case Var(body) => Balanced(body, 1))
  }

  lemma {:induction false} BodyCloses(body: string, rest: string, depth: nat)
    requires depth >= 1 && Balanced(body, depth)
    ensures DepthAfter(body + "}" + rest, depth) == DepthAfter(rest, 0)
    decreases |body|
  {
    var all := body + "}" + rest;
    if body == [] {
      assert all == "}" + rest && all[1..] == rest;
    } else {
      assert all[1..] == body[1..] + "}" + rest && all[0] == body[0];
      assert !OpensVar(all) by { assert |body| >= 2 ==> all[1] == body[1]; assert |body| == 1 ==> all[1] == '}'; }
      BodyCloses(body[1..], rest, Deeper(depth, body[0]));
    }
  }

  lemma RenderStarts(ps: seq<Piece>)
    ensures Render(ps) != "" && Render(ps)[0] == '{' ==> ps != [] && ps[0] == Plain('{')
  {
  }

  /** Any text of plain characters and closed, non-nested variable references is clean. */
  lemma {:induction false} PiecesAreClean(ps: seq<Piece>)
    requires WellFormed(ps)
    ensures Clean(Render(ps))
  {
    if ps != [] {
      PiecesAreClean(ps[1..]);
      var rest := Render(ps[1..]);
      match ps[0] {
        case Plain(c) =>
          var all := [c] + rest;
          assert all[1..] == rest;
          RenderStarts(ps[1..]);
        case Var(body) =>
          var all := "${" + body + "}" + rest;
          assert OpensVar(all) && all[2..] == body + "}" + rest;
          BodyCloses(body, rest, 1);
      }
    }
  }

  /** A colon outside such references is bare, so that the text splits there. */
  lemma {:induction false} ColonBetweenPiecesBreaks(ps: seq<Piece>, t: string)
    requires WellFormed(ps)
    ensures !Unbroken(Render(ps) + ":" + t)
  {
    var s, rest := Render(ps), ":" + t;
    PiecesAreClean(ps);
    DepthOfConcat(s, rest, 0);
    assert s + ":" + t == s + rest;
  }

  lemma {:induction false} DepthOfConcat(s: string, rest: string, depth: nat)
    requires Follows(rest) && DepthAfter(s, depth) >= 0
    ensures DepthAfter(s + rest, depth) == DepthAfter(rest, DepthAfter(s, depth))
    decreases |s|
  {
    if s == [] {
      assert s + rest == rest;
    } else {
      assert OpensVar(s + rest) <==> OpensVar(s);
      assert (s + rest)[0] == s[0] && (s + rest)[1..] == s[1..] + rest;
      if OpensVar(s) {
        assert (s + rest)[2..] == s[2..] + rest;
        DepthOfConcat(s[2..], rest, 1);
      } else {
        DepthOfConcat(s[1..], rest, if depth > 0 then Deeper(depth, s[0]) else 0);
      }
    }
  }

  /** A reference nested in another is not: the inner opening resets the depth, so the text after it is bare. */
  lemma NestedReferenceIsNotClean(a: string, b: string, t: string)
    requires Balanced(b, 1) && !OpensVar(a) && a != "" && ':' !in a && '{' !in a && '}' !in a && '$' !in a
    ensures !Clean("${" + a + "${" + b + "}" + ":" + t + "}")
  {
    var tail := ":" + t + "}";
    var inner := "${" + b + "}" + tail;
    var all := "${" + a + inner;
    assert all == "${" + a + "${" + b + "}" + ":" + t + "}";
    assert OpensVar(all) && all[2..] == a + inner;
    NoBraces(a, inner);
    assert OpensVar(inner) && inner[2..] == b + "}" + tail;
    BodyCloses(b, tail, 1);
    assert tail[0] == ':';
  }

  lemma {:induction false} NoBraces(a: string, rest: string)
    requires '{' !in a && '}' !in a && '$' !in a
    ensures DepthAfter(a + rest, 1) == DepthAfter(rest, 1)
    decreases |a|
  {
    if a == [] {
      assert a + rest == rest;
    } else {
      assert a[0] in a && (a + rest)[1..] == a[1..] + rest;
      NoBraces(a[1..], rest);
    }
  }

  /** Nothing is split off exactly if there is no bare colon. */
  lemma OnePartExactlyWhen(spec: string)
    ensures |Parts(spec)| == 1 <==> Unbroken(spec)
  {
    EndPartExactlyWhen(spec, 0);
    SplitIsLossless(spec);
  }

  // ----- its use

  datatype Mount = NoMount | Mount(source: string, target: string, mode: string)

  /** The parts that `parseShortSyntax` reads off. */
  method ParseShortSyntax(spec: string) returns (mount: Mount)
    ensures Unbroken(spec) <==> mount == NoMount
    ensures forall s, t, m :: Clean(s) && Clean(t) && spec == s + ":" + t + ":" + m ==>
      mount == Mount(s, t, if m == "ro" then "ro" else "rw")
    ensures forall s, t :: Clean(s) && Unbroken(t) && spec == s + ":" + t ==> mount == Mount(s, t, "rw")
  {
    var parts := SplitVolumeSpec(spec);
    forall s, t, m | Clean(s) && Clean(t) && spec == s + ":" + t + ":" + m ensures parts == [s, t, m] {
      SplitInvertsJoinExactlyWhen(s, t, m);
    }
    forall s, t | Clean(s) && Unbroken(t) && spec == s + ":" + t ensures parts == [s, t] {
      SplitInvertsJoinExactlyWhen(s, t, "");
    }
    OnePartExactlyWhen(spec);
    if |parts| < 2 {
      return NoMount;
    }
    var mode := "rw";
    if |parts| == 3 {
      match parts[2]
      case "ro" => mode := "ro";
      case "rw" => mode := "rw";
      case _ =>
    }
    mount := Mount(parts[0], parts[1], mode);
  }
}
