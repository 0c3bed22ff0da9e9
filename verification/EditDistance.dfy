/** Levenshtein distance: the rolling two-row computation, edit scripts, and the metric laws. */
module EditDistance {

  /** One single-character edit of a string. */
  datatype Edit =
    | Insert(at: nat, c: char)
    | Delete(at: nat)
    | Replace(at: nat, c: char)
  {
    predicate Applies(s: string) {
      if Insert? then at <= |s| else at < |s|
    }

    function Apply(s: string): string
      requires Applies(s)
    {
      match this
      case Insert(i, c) => s[..i] + [c] + s[i..]
      case Delete(i) => s[..i] + s[i + 1..]
      case Replace(i, c) => s[..i] + [c] + s[i + 1..]
    }
  }

  /** Carrying out the edits of `script` one after the other turns `a` into `b`. */
  predicate Turns(script: seq<Edit>, a: string, b: string) {
    if script == [] then a == b
    else script[0].Applies(a) && Turns(script[1..], script[0].Apply(a), b)
  }

  /** `n` is the least number of single-character edits turning `a` into `b`. */
  ghost predicate IsEditDistance(n: nat, a: string, b: string) {
    && (exists script :: Turns(script, a, b) && |script| == n)
    && (forall script :: Turns(script, a, b) ==> n <= |script|)
  }

  function Min(x: int, y: int): int {
    if x <= y then x else y
  }

  function Init(s: string): string
    requires s != []
  {
    s[..|s| - 1]
  }

  function Last(s: string): char
    requires s != []
  {
    s[|s| - 1]
  }

  function Cost(c: char, d: char): nat {
    if c == d then 0 else 1
  }

  /** Of inserting, deleting and substituting a last character, whichever takes least. */
  function Cheapest(inserted: nat, deleted: nat, substituted: nat, cost: nat): nat {
    Min(Min(inserted + 1, deleted + 1), substituted + cost)
  }

  /** The recurrence over prefixes that the rows of the table tabulate. */
  function Distance(a: string, b: string): nat
    decreases |a| + |b|
  {
    if a == [] then |b|
    else if b == [] then |a|
    else Cheapest(Distance(a, Init(b)), Distance(Init(a), b), Distance(Init(a), Init(b)), Cost(Last(a), Last(b)))
  }

  // ---------------------------------------------------------------- metric laws

  lemma {:induction false} Symmetric(a: string, b: string)
    ensures Distance(a, b) == Distance(b, a)
    decreases |a| + |b|
  {
    if a != [] && b != [] {
      Symmetric(a, Init(b));
      Symmetric(Init(a), b);
      Symmetric(Init(a), Init(b));
    }
  }

  lemma {:induction false} ZeroIffEqual(a: string, b: string)
    ensures Distance(a, b) == 0 <==> a == b
    decreases |a| + |b|
  {
    if a != [] && b != [] {
      ZeroIffEqual(Init(a), Init(b));
      assert a == Init(a) + [Last(a)] && b == Init(b) + [Last(b)];
    }
  }

  /** Dropping the last character of either string changes the distance by at most one. */
  lemma DropLast(a: string, b: string)
    ensures a != [] ==> Distance(a, b) <= Distance(Init(a), b) + 1
    ensures b != [] ==> Distance(a, b) <= Distance(a, Init(b)) + 1
  {
  }

  lemma {:induction false} TriangleInequality(a: string, b: string, c: string)
    ensures Distance(a, c) <= Distance(a, b) + Distance(b, c)
    decreases |a| + |b| + |c|
  {
    DropLast(a, c);
    if a != [] { TriangleInequality(Init(a), b, c); }
    if c != [] { TriangleInequality(a, b, Init(c)); }
    if b != [] {
      TriangleInequality(a, Init(b), c);
      if a != [] && c != [] {
        TriangleInequality(Init(a), Init(b), Init(c));
      } else if a == [] && c != [] {
        TriangleInequality(a, Init(b), Init(c));
      } else if a != [] {
        TriangleInequality(Init(a), Init(b), c);
      }
    }
  }

  // ------------------------------------------- the recurrence is the shortest script

  lemma {:induction false} CommonSuffix(p: string, q: string, s: string)
    ensures Distance(p + s, q + s) <= Distance(p, q)
    decreases |s|
  {
    if s == [] {
      assert p + s == p && q + s == q;
    } else {
      CommonSuffix(p, q, Init(s));
      assert Init(p + s) == p + Init(s) && Init(q + s) == q + Init(s);
    }
  }

  lemma EditMovesByAtMostOne(e: Edit, s: string)
    requires e.Applies(s)
    ensures Distance(s, e.Apply(s)) <= 1
  {
    var head, tail := s[..e.at], if e.Insert? then s[e.at..] else s[e.at + 1..];
    var before := if e.Insert? then head else head + [s[e.at]];
    var after := if e.Delete? then head else head + [e.c];
    assert s == before + tail && e.Apply(s) == after + tail;
    ZeroIffEqual(head, head);
    assert before != [] ==> Init(head + [s[if e.Insert? then 0 else e.at]]) == head;
    assert after != head ==> Init(after) == head;
    assert before != head ==> Init(before) == head;
    DropLast(before, after);
    CommonSuffix(before, after, tail);
  }

  lemma {:induction false} ScriptIsNoShorter(script: seq<Edit>, a: string, b: string)
    requires Turns(script, a, b)
    ensures Distance(a, b) <= |script|
  {
    if script == [] {
      ZeroIffEqual(a, b);
    } else {
      var m := script[0].Apply(a);
      ScriptIsNoShorter(script[1..], m, b);
      EditMovesByAtMostOne(script[0], a);
      TriangleInequality(a, m, b);
    }
  }

  lemma {:induction false} TurnsThen(script: seq<Edit>, e: Edit, a: string, m: string)
    requires Turns(script, a, m) && e.Applies(m)
    ensures Turns(script + [e], a, e.Apply(m))
  {
    if script != [] {
      TurnsThen(script[1..], e, script[0].Apply(a), m);
      assert (script + [e])[1..] == script[1..] + [e];
    }
  }

  lemma ApplyBefore(e: Edit, s: string, c: char)
    requires e.Applies(s)
    ensures e.Applies(s + [c]) && e.Apply(s + [c]) == e.Apply(s) + [c]
  {
    match e
    case Insert(i, d) => assert (s + [c])[..i] == s[..i] && (s + [c])[i..] == s[i..] + [c];
    case Delete(i) => assert (s + [c])[..i] == s[..i] && (s + [c])[i + 1..] == s[i + 1..] + [c];
    case Replace(i, d) => assert (s + [c])[..i] == s[..i] && (s + [c])[i + 1..] == s[i + 1..] + [c];
  }

  lemma {:induction false} TurnsBefore(script: seq<Edit>, a: string, b: string, c: char)
    requires Turns(script, a, b)
    ensures Turns(script, a + [c], b + [c])
  {
    if script != [] {
      TurnsBefore(script[1..], script[0].Apply(a), b, c);
      ApplyBefore(script[0], a, c);
    }
  }

  lemma InsertAtEnd(s: string, c: char)
    ensures Insert(|s|, c).Applies(s) && Insert(|s|, c).Apply(s) == s + [c]
  {
    assert s[..|s|] == s && s[|s|..] == [];
  }

  lemma AppendLast(script: seq<Edit>, a: string, b: string) returns (longer: seq<Edit>)
    requires b != [] && Turns(script, a, Init(b))
    ensures Turns(longer, a, b) && |longer| == |script| + 1
  {
    var e := Insert(|b| - 1, Last(b));
    longer := script + [e];
    InsertAtEnd(Init(b), Last(b));
    InitThenLast(b);
    TurnsThen(script, e, a, Init(b));
  }

  lemma InitThenLast(s: string)
    requires s != []
    ensures Init(s) + [Last(s)] == s
  {
  }

  lemma ReplaceLast(script: seq<Edit>, a: string, b: string) returns (longer: seq<Edit>)
    requires a != [] && b != [] && Turns(script, Init(a), Init(b))
    ensures Turns(longer, a, b) && |longer| == |script| + Cost(Last(a), Last(b))
  {
    InitThenLast(a);
    InitThenLast(b);
    TurnsBefore(script, Init(a), Init(b), Last(a));
    if Last(a) == Last(b) {
      longer := script;
    } else {
      var e := Replace(|b| - 1, Last(b));
      longer := script + [e];
      TurnsThen(script, e, a, Init(b) + [Last(a)]);
      assert e.Apply(Init(b) + [Last(a)]) == b;
    }
  }

  lemma DeleteLast(script: seq<Edit>, a: string, b: string) returns (longer: seq<Edit>)
    requires a != [] && Turns(script, Init(a), b)
    ensures Turns(longer, a, b) && |longer| == |script| + 1
  {
    var e := Delete(|a| - 1);
    longer := [e] + script;
    assert e.Apply(a) == Init(a) && longer[1..] == script;
  }

  /** The distance comes from one of three shorter ones. */
  lemma LastStep(a: string, b: string, n: nat)
    requires (a != [] || b != []) && n == Distance(a, b)
    ensures || (a != [] && n == Distance(Init(a), b) + 1)
            || (b != [] && n == Distance(a, Init(b)) + 1)
            || (a != [] && b != [] && n == Distance(Init(a), Init(b)) + Cost(Last(a), Last(b)))
  {
  }

  lemma {:induction false} ShortestScript(a: string, b: string) returns (script: seq<Edit>)
    ensures Turns(script, a, b) && |script| == Distance(a, b)
    decreases |a| + |b|
  {
    if a == [] && b == [] {
      return [];
    }
    var n := Distance(a, b);
    LastStep(a, b, n);
    if a != [] && n == Distance(Init(a), b) + 1 {
      script := ShortestScript(Init(a), b);
      script := DeleteLast(script, a, b);
    } else if b != [] && n == Distance(a, Init(b)) + 1 {
      script := ShortestScript(a, Init(b));
      script := AppendLast(script, a, b);
    } else {
      script := ShortestScript(Init(a), Init(b));
      script := ReplaceLast(script, a, b);
    }
  }

  lemma DistanceIsEditDistance(a: string, b: string)
    ensures IsEditDistance(Distance(a, b), a, b)
  {
    var script := ShortestScript(a, b);
    forall script | Turns(script, a, b) ensures Distance(a, b) <= |script| {
      ScriptIsNoShorter(script, a, b);
    }
  }

  // ------------------------------------------------------------- the two-row loop

  /** `row` holds the distances from `a` to the first |row| prefixes of `b`. */
  ghost predicate Row(row: seq<nat>, a: string, b: string) {
    && |row| <= |b| + 1
    && forall j :: 0 <= j < |row| ==> row[j] == Distance(a, b[..j])
  }

  lemma PrefixEnd(s: string, i: nat)
    requires i < |s|
    ensures Init(s[..i + 1]) == s[..i] && Last(s[..i + 1]) == s[i]
  {
  }

  lemma DistanceIs(a: string, b: string, a0: string, b0: string, x: char, y: char, cell: nat)
    requires a != [] && b != [] && Init(a) == a0 && Init(b) == b0 && Last(a) == x && Last(b) == y
    requires cell == Cheapest(Distance(a, b0), Distance(a0, b), Distance(a0, b0), Cost(x, y))
    ensures Distance(a, b) == cell
  {
  }

  lemma NextCell(a: string, b: string, i: nat, prev: seq<nat>, curr: seq<nat>, cell: nat)
    requires i < |a| && 1 <= |curr| <= |b| && |prev| == |b| + 1
    requires Row(prev, a[..i], b) && Row(curr, a[..i + 1], b)
    requires var j := |curr| - 1;
      cell == Cheapest(curr[j], prev[j + 1], prev[j], Cost(a[i], b[j]))
    ensures Row(curr + [cell], a[..i + 1], b)
  {
    var j := |curr| - 1;
    PrefixEnd(a, i);
    PrefixEnd(b, j);
    RowAt(curr, a[..i + 1], b, j);
    RowAt(prev, a[..i], b, j);
    RowAt(prev, a[..i], b, j + 1);
    DistanceIs(a[..i + 1], b[..j + 1], a[..i], b[..j], a[i], b[j], cell);
    RowNext(curr, a[..i + 1], b, cell);
  }

  lemma RowAt(row: seq<nat>, a: string, b: string, j: nat)
    requires Row(row, a, b) && j < |row|
    ensures row[j] == Distance(a, b[..j])
  {
  }

  lemma RowNext(row: seq<nat>, a: string, b: string, cell: nat)
    requires Row(row, a, b) && |row| <= |b| && cell == Distance(a, b[..|row|])
    ensures Row(row + [cell], a, b)
  {
  }

  lemma FirstRow(row: seq<nat>, b: string)
    requires |row| <= |b| + 1 && forall j :: 0 <= j < |row| ==> row[j] == j
    ensures Row(row, [], b)
  {
  }

  /**
   * Keeps only the previous and the current row of the table; the shorter string spans the rows.
   * Returns the least number of single-character edits, whichever way round the strings come.
   */
  method Levenshtein(a0: string, b0: string) returns (n: nat)
    ensures n == Distance(a0, b0)
    ensures IsEditDistance(n, a0, b0)
  {
    var a, b := a0, b0;
    if |a| < |b| {
      a, b := b, a;
    }
    if b == [] {
      n := |a|;
    } else {
      n := LastCell(a, b);
    }
    Symmetric(a0, b0);
    DistanceIsEditDistance(a0, b0);
  }

  method LastCell(a: string, b: string) returns (n: nat)
    ensures n == Distance(a, b)
  {
    var prev: seq<nat> := seq(|b| + 1, j requires 0 <= j => j);
    FirstRow(prev, b);
    assert a[..0] == [];
    for i := 0 to |a|
      invariant |prev| == |b| + 1 && Row(prev, a[..i], b)
    {
      var curr: seq<nat> := [i + 1];
      assert b[..0] == [];
      for j := 0 to |b|
        invariant |curr| == j + 1 && Row(curr, a[..i + 1], b)
      {
        var cost := if a[i] == b[j] then 0 else 1;
        var cell := Min(Min(curr[j] + 1, prev[j + 1] + 1), prev[j] + cost);
        NextCell(a, b, i, prev, curr, cell);
        curr := curr + [cell];
      }
      prev := curr;
    }
    assert a[..|a|] == a && b[..|b|] == b;
    n := prev[|b|];
  }
}
