/** The canonical form of URL paths: single slashes, none at the end, and nothing else lost. */
module UrlPath {
  import opened Strings

  /** Runs of slashes become one slash. */
  function Collapse(p: string): string {
    if |p| >= 2 && p[0] == '/' && p[1] == '/' then Collapse(p[1..])
    else if p == "" then ""
    else [p[0]] + Collapse(p[1..])
  }

  /** Slashes collapsed, and those at the end removed, except that the root stays. */
  function NormalPath(path: string): string {
    var p := Collapse(path);
    if p == "/" then p else if p != "" && p[|p| - 1] == '/' then Rstrip(p) else p
  }

  // ------------------------------------------------------------------- what a path says

  predicate Absolute(p: string) {
    p != "" && p[0] == '/'
  }

  /** How far the first segment of a path reaches. */
  function SegmentEnd(p: string): (n: nat)
    ensures n <= |p| && (forall i :: 0 <= i < n ==> p[i] != '/') && (n == |p| || p[n] == '/')
  {
    if p == "" || p[0] == '/' then 0 else 1 + SegmentEnd(p[1..])
  }

  /** The names between the slashes; empty ones do not count. */
  function Segments(p: string): seq<string>
    decreases |p|
  {
    if p == "" then []
    else if p[0] == '/' then Segments(p[1..])
    else [p[..SegmentEnd(p)]] + Segments(p[SegmentEnd(p)..])
  }

  predicate Proper(segments: seq<string>) {
    forall s :: s in segments ==> s != "" && '/' !in s
  }

  function Joined(segments: seq<string>): string {
    if segments == [] then "" else "/" + segments[0] + Joined(segments[1..])
  }

  /** The one path in canonical form with these segments. */
  function Render(absolute: bool, segments: seq<string>): string {
    if absolute then (if segments == [] then "/" else Joined(segments))
    else if segments == [] then "" else segments[0] + Joined(segments[1..])
  }

  // -------------------------------------------------------------------------- the proofs

  lemma {:induction false} CollapseSegment(p: string)
    ensures Collapse(p) == p[..SegmentEnd(p)] + Collapse(p[SegmentEnd(p)..])
  {
    if p == "" || p[0] == '/' {
      assert p[..0] == "" && p[0..] == p;
    } else {
      CollapseSegment(p[1..]);
      var n := SegmentEnd(p[1..]);
      assert p[1..][n..] == p[n + 1..] && p[..n + 1] == [p[0]] + p[1..][..n];
    }
  }

  lemma RstripKeeps(a: string, b: string)
    requires a != "" && a[|a| - 1] != '/'
    ensures Rstrip(a + b) == a + Rstrip(b)
    decreases |b|
  {
    if b == "" {
      assert a + b == a;
    } else if b[|b| - 1] == '/' {
      assert (a + b)[..|a + b| - 1] == a + b[..|b| - 1];
      RstripKeeps(a, b[..|b| - 1]);
    }
  }

  /** One segment and what follows it. */
  lemma SegmentThen(p: string)
    requires p != "" && p[0] != '/'
    ensures var n := SegmentEnd(p);
      && n > 0 && Segments(p) == [p[..n]] + Segments(p[n..]) && (p[n..] == "" || p[n] == '/')
      && Rstrip(Collapse(p)) == p[..n] + Rstrip(Collapse(p[n..]))
  {
    CollapseSegment(p);
    RstripKeeps(p[..SegmentEnd(p)], Collapse(p[SegmentEnd(p)..]));
  }

  lemma {:induction false} RstripSlash(b: string)
    requires Rstrip(b) != ""
    ensures Rstrip("/" + b) == "/" + Rstrip(b)
    decreases |b|
  {
    if b[|b| - 1] == '/' {
      assert ("/" + b)[..|b|] == "/" + b[..|b| - 1];
      RstripSlash(b[..|b| - 1]);
    }
  }

  lemma JoinedCons(s: string, rest: seq<string>)
    ensures Joined([s] + rest) == "/" + s + Joined(rest)
  {
    assert ([s] + rest)[1..] == rest;
  }

  lemma RstripJoins(c: string, s: string, tail: seq<string>)
    requires s != "" && Rstrip(c) == s + Joined(tail)
    ensures c != "" && Rstrip("/" + c) == Joined([s] + tail)
  {
    RstripSlash(c);
    JoinedCons(s, tail);
    assert "/" + (s + Joined(tail)) == "/" + s + Joined(tail);
  }

  lemma {:induction false} CollapseRooted(p: string)
    requires p != "" && p[0] == '/'
    ensures Collapse(p) != "" && Collapse(p)[0] == '/'
    ensures Rstrip(Collapse(p)) == Joined(Segments(p))
    ensures Collapse(p) == "/" <==> Segments(p) == []
    decreases |p|
  {
    var q := p[1..];
    if q == "" {
      assert p == "/" && "/"[..0] == "";
    } else if q[0] == '/' {
      CollapseRooted(q);
    } else {
      SegmentThen(q);
      var r := q[SegmentEnd(q)..];
      if r != "" {
        CollapseRooted(r);
      }
      RstripJoins(Collapse(q), q[..SegmentEnd(q)], Segments(r));
    }
  }

  lemma NormalPathStrips(p: string)
    ensures NormalPath(p) == if Collapse(p) == "/" then "/" else Rstrip(Collapse(p))
  {
  }

  lemma RelativeRenders(p: string)
    requires p != "" && p[0] != '/'
    ensures Collapse(p) != "/" && Rstrip(Collapse(p)) == Render(false, Segments(p))
  {
    SegmentThen(p);
    var n := SegmentEnd(p);
    if p[n..] != "" {
      CollapseRooted(p[n..]);
    }
    CollapseSegment(p);
    assert Collapse(p)[0] == p[0];
    assert ([p[..n]] + Segments(p[n..]))[1..] == Segments(p[n..]);
  }

  /** Normalising a path renders its segments. */
  lemma NormalPathRenders(p: string)
    ensures NormalPath(p) == Render(Absolute(p), Segments(p))
  {
    NormalPathStrips(p);
    if Absolute(p) {
      CollapseRooted(p);
    } else if p != "" {
      RelativeRenders(p);
    }
  }

  lemma {:induction false} SegmentsProper(p: string)
    ensures Proper(Segments(p))
    decreases |p|
  {
    if p != "" {
      if p[0] == '/' {
        SegmentsProper(p[1..]);
      } else {
        SegmentsProper(p[SegmentEnd(p)..]);
      }
    }
  }

  lemma SegmentEndOf(s: string, rest: string)
    requires '/' !in s && (rest == "" || rest[0] == '/')
    ensures SegmentEnd(s + rest) == |s|
  {
    assert forall i :: 0 <= i < |s| ==> (s + rest)[i] == s[i];
    assert rest != "" ==> (s + rest)[|s|] == rest[0];
  }

  lemma SegmentsCons(s: string, rest: string)
    requires s != "" && '/' !in s && (rest == "" || rest[0] == '/')
    ensures Segments(s + rest) == [s] + Segments(rest)
  {
    SegmentEndOf(s, rest);
    assert (s + rest)[0] == s[0] && s[0] in s;
    assert (s + rest)[..|s|] == s && (s + rest)[|s|..] == rest;
  }

  lemma SegmentsSlash(p: string)
    ensures Segments("/" + p) == Segments(p)
  {
    assert ("/" + p)[1..] == p;
  }

  lemma JoinedStep(s: string, rest: string)
    requires s != "" && '/' !in s && (rest == "" || rest[0] == '/')
    ensures Segments("/" + s + rest) == [s] + Segments(rest)
  {
    SegmentsCons(s, rest);
    SegmentsSlash(s + rest);
    assert "/" + s + rest == "/" + (s + rest);
  }

  lemma {:induction false} SegmentsOfJoined(segments: seq<string>)
    requires Proper(segments)
    ensures Segments(Joined(segments)) == segments
  {
    if segments != [] {
      assert segments[0] in segments && forall t :: t in segments[1..] ==> t in segments;
      SegmentsOfJoined(segments[1..]);
      JoinedStep(segments[0], Joined(segments[1..]));
    }
  }

  /** The canonical path still has the segments it was rendered from. */
  lemma SegmentsOfRender(absolute: bool, segments: seq<string>)
    requires Proper(segments)
    ensures Segments(Render(absolute, segments)) == segments && Absolute(Render(absolute, segments)) == absolute
  {
    if segments != [] {
      SegmentsOfJoined(segments);
      assert forall t :: t in segments[1..] ==> t in segments;
      SegmentsOfJoined(segments[1..]);
      SegmentsCons(segments[0], Joined(segments[1..]));
      assert segments[0] in segments && segments[0][0] in segments[0];
    }
  }

  // ------------------------------------------------------------------------- the theorems

  /** Two paths normalise alike exactly when they name the same segments from the same start. */
  lemma SamePath(a: string, b: string)
    ensures NormalPath(a) == NormalPath(b) <==> Absolute(a) == Absolute(b) && Segments(a) == Segments(b)
  {
    NormalPathRenders(a);
    NormalPathRenders(b);
    SegmentsProper(a);
    SegmentsProper(b);
    SegmentsOfRender(Absolute(a), Segments(a));
    SegmentsOfRender(Absolute(b), Segments(b));
  }

  lemma NormalPathIdempotent(p: string)
    ensures NormalPath(NormalPath(p)) == NormalPath(p)
  {
    NormalPathRenders(p);
    SegmentsProper(p);
    SegmentsOfRender(Absolute(p), Segments(p));
    SamePath(NormalPath(p), p);
  }

  predicate NoDoubleSlash(p: string) {
    forall i :: 0 <= i < |p| - 1 ==> !(p[i] == '/' && p[i + 1] == '/')
  }

  lemma {:induction false} CollapseSingles(p: string)
    ensures NoDoubleSlash(Collapse(p)) && (Collapse(p) == "" <==> p == "") && (p != "" ==> Collapse(p)[0] == p[0])
  {
    if p != "" {
      CollapseSingles(p[1..]);
    }
  }

  lemma {:induction false} RstripPrefix(p: string)
    ensures Rstrip(p) <= p && (Rstrip(p) == "" || Rstrip(p)[|Rstrip(p)| - 1] != '/')
  {
    if p != "" && p[|p| - 1] == '/' {
      RstripPrefix(p[..|p| - 1]);
    }
  }

  /** A canonical path has no double slash, and none at the end unless it is the root. */
  lemma NormalPathShape(p: string)
    ensures var r := NormalPath(p); NoDoubleSlash(r) && (r == "/" || r == "" || r[|r| - 1] != '/')
  {
    CollapseSingles(p);
    RstripPrefix(Collapse(p));
  }
}
