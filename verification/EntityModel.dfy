/** Entity resolution on values: name similarity, greedy clustering, merging, renaming and deduplication. */
module EntityModel {
  import opened Common
  import opened Values

  const SIMILARITY_THRESHOLD := 0.55
  const MIN_NAME_LENGTH := 3
  const MERGED := "__merged__"

  // ----------------------------------------------------------------------------- names

  predicate IsSpace(c: char) {
    var n := c as int;
    || 0x09 <= n <= 0x0D || 0x1C <= n <= 0x20 || n == 0x85 || n == 0xA0 || n == 0x1680
    || 0x2000 <= n <= 0x200A || n == 0x2028 || n == 0x2029 || n == 0x202F || n == 0x205F || n == 0x3000
  }

  function Strip(s: string): (r: string)
    ensures |r| <= |s| && (r != "" ==> !IsSpace(r[0]) && !IsSpace(r[|r| - 1]))
  {
    if s != "" && IsSpace(s[0]) then Strip(s[1..])
    else if s != "" && IsSpace(s[|s| - 1]) then Strip(s[..|s| - 1])
    else s
  }

  lemma StripTwice(s: string)
    ensures Strip(Strip(s)) == Strip(s)
  {
  }

  predicate AllSpace(s: string) {
    forall c :: c in s ==> IsSpace(c)
  }

  /** A part of a string, seen from the string without its first character, or without its last. */
  lemma InTail(s: string, i: nat, j: nat)
    requires s != "" && i <= j < |s|
    ensures s[1..][i..j] == s[i + 1..j + 1] && s[..i + 1] == [s[0]] + s[1..][..i] && s[j + 1..] == s[1..][j..]
  {
  }

  lemma InInit(s: string, i: nat, j: nat)
    requires s != "" && i <= j < |s|
    ensures var init := s[..|s| - 1];
      init[i..j] == s[i..j] && s[..i] == init[..i] && s[j..] == init[j..] + [s[|s| - 1]]
  {
  }

  /** Trimming takes spaces off both ends, all of them, and nothing else. */
  lemma {:induction false} StripTrims(s: string) returns (i: nat, j: nat)
    ensures i <= j <= |s| && Strip(s) == s[i..j] && AllSpace(s[..i]) && AllSpace(s[j..])
    ensures i < j ==> !IsSpace(s[i]) && !IsSpace(s[j - 1])
    decreases |s|
  {
    if s != "" && IsSpace(s[0]) {
      i, j := StripTrims(s[1..]);
      InTail(s, i, j);
      i, j := i + 1, j + 1;
    } else if s != "" && IsSpace(s[|s| - 1]) {
      i, j := StripTrims(s[..|s| - 1]);
      InInit(s, i, j);
    } else {
      i, j := 0, |s|;
    }
  }

  /** The first of the `keys` with something to show, trimmed. */
  function FirstValue(item: Item, keys: seq<string>): (r: Option<string>)
    ensures r.Some? ==> r.value != "" && Strip(r.value) == r.value
  {
    if keys == [] then None
    else if Get(item, keys[0]).Truthy() && Strip(Get(item, keys[0]).Show()) != "" then
      StripTwice(Get(item, keys[0]).Show());
      Some(Strip(Get(item, keys[0]).Show()))
    else FirstValue(item, keys[1..])
  }

  /** The field has something to show. */
  predicate Shows(item: Item, key: string) {
    Get(item, key).Truthy() && Strip(Get(item, key).Show()) != ""
  }

  /** It is the trimmed text of the first field that has something to show; and there is one exactly if some field has. */
  lemma {:induction false} FirstValueIsFirst(item: Item, keys: seq<string>)
    ensures FirstValue(item, keys).None? <==> forall i :: 0 <= i < |keys| ==> !Shows(item, keys[i])
    ensures FirstValue(item, keys).Some? ==>
      exists i :: 0 <= i < |keys| && Shows(item, keys[i]) && (forall j :: 0 <= j < i ==> !Shows(item, keys[j]))
               && FirstValue(item, keys).value == Strip(Get(item, keys[i]).Show())
  {
    if keys != [] {
      var rest := keys[1..];
      FirstValueIsFirst(item, rest);
      assert forall i :: 0 < i < |keys| ==> keys[i] == rest[i - 1];
      assert forall i :: 0 <= i < |rest| ==> rest[i] == keys[i + 1];
      if Shows(item, keys[0]) {
        assert FirstValue(item, keys).value == Strip(Get(item, keys[0]).Show());
      } else if FirstValue(item, rest).Some? {
        var i :| 0 <= i < |rest| && Shows(item, rest[i]) && (forall j :: 0 <= j < i ==> !Shows(item, rest[j]))
              && FirstValue(item, rest).value == Strip(Get(item, rest[i]).Show());
        assert Shows(item, keys[i + 1]);
        assert forall j :: 0 <= j < i + 1 ==> !Shows(item, keys[j]);
      }
    }
  }

  // ------------------------------------------------------------------------ similarity

  /** The tokens of a name once normalised; taken as given. */
  type Normalizer = string -> seq<string>

  function TokenSet(tokens: seq<string>): set<string> {
    set t | t in tokens
  }

  function Ratio(a: nat, b: nat): real {
    if b == 0 then 0.0 else a as real / b as real
  }

  function TokenSimilarity(a: set<string>, b: set<string>): real {
    var containment := if |a| < |b| then Ratio(|a * b|, |a|) else if |b| < |a| then Ratio(|b * a|, |b|) else 0.0;
    if containment >= 0.80 then containment * 0.90 else Ratio(|a * b|, |a + b|)
  }

  function NameSimilarity(norm: Normalizer, a: string, b: string): real {
    if a == "" || b == "" then 0.0
    else if a == b then 1.0
    else if norm(a) == [] || norm(b) == [] then 0.0
    else if norm(a) == norm(b) then 1.0
    else TokenSimilarity(TokenSet(norm(a)), TokenSet(norm(b)))
  }

  predicate Similar(norm: Normalizer, a: string, b: string) {
    NameSimilarity(norm, a, b) >= SIMILARITY_THRESHOLD
  }

  lemma SimilaritySymmetric(norm: Normalizer, a: string, b: string)
    ensures NameSimilarity(norm, a, b) == NameSimilarity(norm, b, a)
  {
    var x, y := TokenSet(norm(a)), TokenSet(norm(b));
    assert x * y == y * x && x + y == y + x;
  }

  lemma RatioTimes(a: nat, b: nat)
    requires b > 0
    ensures Ratio(a, b) * b as real == a as real
  {
  }

  lemma RatioReaches(a: nat, b: nat, p: nat, q: nat)
    requires b > 0 && q > 0
    ensures Ratio(a, b) >= p as real / q as real <==> q * a >= p * b
  {
    var r, t, x, y := Ratio(a, b), p as real / q as real, b as real, q as real;
    RatioTimes(a, b);
    assert t * y == p as real;
    assert r * x * y == (q * a) as real && t * y * x == (p * b) as real;
    assert (r - t) * (x * y) == (q * a) as real - (p * b) as real;
  }

  /** The measure in terms of the counts alone: containment, if there is enough of it, or else what is shared of all. */
  ghost predicate MeasuredBy(measure: real, shared: nat, fewer: nat, all: nat, differ: bool) {
    if differ && 5 * shared >= 4 * fewer then measure * fewer as real == 0.9 * shared as real
    else measure * all as real == shared as real
  }

  lemma MeasureIff(shared: nat, fewer: nat, all: nat, differ: bool, measure: real)
    requires fewer > 0 && all > 0
    requires measure == if differ && Ratio(shared, fewer) >= 0.80 then Ratio(shared, fewer) * 0.90 else Ratio(shared, all)
    ensures measure >= 0.55 <==> (differ && 5 * shared >= 4 * fewer) || 20 * shared >= 11 * all
    ensures MeasuredBy(measure, shared, fewer, all, differ)
  {
    RatioReaches(shared, fewer, 4, 5);
    RatioReaches(shared, all, 11, 20);
    RatioTimes(shared, fewer);
    RatioTimes(shared, all);
    assert 4 as real / 5 as real == 0.80 && 11 as real / 20 as real == 0.55;
  }

  lemma TokenSimilarityIs(x: set<string>, y: set<string>)
    requires x != {} && y != {}
    ensures var shared, all, fewer := |x * y|, |x + y|, if |x| < |y| then |x| else |y|;
      && fewer > 0 && all > 0
      && TokenSimilarity(x, y) ==
        if |x| != |y| && Ratio(shared, fewer) >= 0.80 then Ratio(shared, fewer) * 0.90 else Ratio(shared, all)
  {
    assert x * y == y * x && x + y == x + (y - x);
  }

  /** Nothing is like a name that is empty, or of which nothing is left, except the same name. */
  lemma EmptyNamesAreUnlike(norm: Normalizer, a: string, b: string)
    requires a == "" || b == "" || (a != b && (norm(a) == [] || norm(b) == []))
    ensures NameSimilarity(norm, a, b) == 0.0 && !Similar(norm, a, b)
  {
  }

  lemma SetsAlikeIff(x: set<string>, y: set<string>, measure: real)
    requires x != {} && y != {} && measure == TokenSimilarity(x, y)
    ensures var shared, all, fewer := |x * y|, |x + y|, if |x| < |y| then |x| else |y|;
      && (measure >= 0.55 <==> (|x| != |y| && 5 * shared >= 4 * fewer) || 20 * shared >= 11 * all)
      && MeasuredBy(measure, shared, fewer, all, |x| != |y|)
      && (x < y || y < x ==> measure >= 0.55)
  {
    var shared, all, fewer := |x * y|, |x + y|, if |x| < |y| then |x| else |y|;
    TokenSimilarityIs(x, y);
    MeasureIff(shared, fewer, all, |x| != |y|, measure);
    WithinIsSmaller(x, y);
  }

  /**
   * Names whose tokens differ are alike exactly when four fifths of the shorter one's tokens are among the longer one's,
   * or eleven twentieths of all tokens are shared; a name within a longer one always is.
   */
  lemma SimilarIff(norm: Normalizer, a: string, b: string)
    requires a != "" && b != "" && a != b && norm(a) != [] && norm(b) != [] && norm(a) != norm(b)
    ensures var x, y := TokenSet(norm(a)), TokenSet(norm(b));
      var shared, all, fewer := |x * y|, |x + y|, if |x| < |y| then |x| else |y|;
      && (Similar(norm, a, b) <==> (|x| != |y| && 5 * shared >= 4 * fewer) || 20 * shared >= 11 * all)
      && MeasuredBy(NameSimilarity(norm, a, b), shared, fewer, all, |x| != |y|)
      && (x < y || y < x ==> Similar(norm, a, b))
  {
    var x, y := TokenSet(norm(a)), TokenSet(norm(b));
    var measure := TokenSimilarity(x, y);
    assert norm(a)[0] in x && norm(b)[0] in y && NameSimilarity(norm, a, b) == measure;
    SetsAlikeIff(x, y, measure);
  }

  lemma WithinIsSmaller<T>(x: set<T>, y: set<T>)
    ensures x < y ==> x * y == x && |x| < |y|
    ensures y < x ==> x * y == y && |y| < |x|
  {
    if x < y {
      assert x * y == x && y == x + (y - x) && y - x != {};
    }
    if y < x {
      assert x * y == y && x == y + (x - y) && x - y != {};
    }
  }

  lemma RatioBounds(a: nat, b: nat)
    requires a <= b
    ensures 0.0 <= Ratio(a, b) <= 1.0
  {
    if b > 0 {
      var x, y := a as real, b as real;
      assert x / y * y == x;
    }
  }

  /** Similarity lies between zero and one, and equal names are wholly similar. */
  lemma SimilarityBounds(norm: Normalizer, a: string, b: string)
    ensures 0.0 <= NameSimilarity(norm, a, b) <= 1.0
    ensures a != "" ==> NameSimilarity(norm, a, a) == 1.0
  {
    var x, y := TokenSet(norm(a)), TokenSet(norm(b));
    SmallerSet(x * y, x);
    SmallerSet(y * x, y);
    SmallerSet(x * y, x + y);
    RatioBounds(|x * y|, |x|);
    RatioBounds(|y * x|, |y|);
    RatioBounds(|x * y|, |x + y|);
  }

  // ------------------------------------------------------------------------ clustering

  /** An item's position with its trimmed name. */
  datatype Named = Named(index: nat, name: string)

  /** The items with a name long enough to compare, in order, looking from position `i` on. */
  function NamedFrom(items: seq<Item>, keys: seq<string>, i: nat): seq<Named>
    requires i <= |items|
    decreases |items| - i
  {
    if i == |items| then []
    else
      var name := FirstValue(items[i], keys);
      (if name.Some? && |name.value| >= MIN_NAME_LENGTH then [Named(i, name.value)] else [])
      + NamedFrom(items, keys, i + 1)
  }

  function Insert(x: Named, sorted: seq<Named>): seq<Named> {
    if sorted == [] || |x.name| >= |sorted[0].name| then [x] + sorted else [sorted[0]] + Insert(x, sorted[1..])
  }

  /** Longest names first; the library's stable sort. */
  function LongestFirst(named: seq<Named>): seq<Named> {
    if named == [] then [] else Insert(named[0], LongestFirst(named[1..]))
  }

  /** A group of names; the first of them is the seed that the others are compared with. */
  datatype Cluster = Cluster(seed: Named, others: seq<Named>) {
    function Members(): seq<Named> {
      [seed] + others
    }

    function With(x: Named): Cluster {
      Cluster(seed, others + [x])
    }

    predicate Fits(norm: Normalizer, x: Named) {
      Similar(norm, x.name, seed.name)
    }
  }

  /** The first cluster from `i` on whose seed is similar, or the number of clusters. */
  function Home(norm: Normalizer, x: Named, clusters: seq<Cluster>, i: nat): (h: nat)
    requires i <= |clusters|
    ensures i <= h <= |clusters|
    ensures h < |clusters| ==> clusters[h].Fits(norm, x)
    ensures forall k :: i <= k < h ==> !clusters[k].Fits(norm, x)
    decreases |clusters| - i
  {
    if i == |clusters| || clusters[i].Fits(norm, x) then i else Home(norm, x, clusters, i + 1)
  }

  function Assign(norm: Normalizer, x: Named, clusters: seq<Cluster>): seq<Cluster> {
    var h := Home(norm, x, clusters, 0);
    if h == |clusters| then clusters + [Cluster(x, [])] else clusters[h := clusters[h].With(x)]
  }

  function AssignAll(norm: Normalizer, clusters: seq<Cluster>, named: seq<Named>): seq<Cluster>
    decreases |named|
  {
    if named == [] then clusters else AssignAll(norm, Assign(norm, named[0], clusters), named[1..])
  }

  function Clusters(norm: Normalizer, items: seq<Item>, keys: seq<string>): seq<Cluster> {
    AssignAll(norm, [], LongestFirst(NamedFrom(items, keys, 0)))
  }

  function Flatten(clusters: seq<Cluster>): seq<Named> {
    if clusters == [] then [] else clusters[0].Members() + Flatten(clusters[1..])
  }

  /** Members resemble their own seed and are no longer than it. */
  ghost predicate Centred(norm: Normalizer, clusters: seq<Cluster>) {
    forall k, m :: 0 <= k < |clusters| && m in clusters[k].others ==>
      clusters[k].Fits(norm, m) && |m.name| <= |clusters[k].seed.name|
  }

  /** No member resembles the seed of an earlier cluster. */
  ghost predicate Separated(norm: Normalizer, clusters: seq<Cluster>) {
    forall j, k, m :: 0 <= j < k < |clusters| && m in clusters[k].Members() ==> !clusters[j].Fits(norm, m)
  }

  lemma {:induction false} FlattenHas(clusters: seq<Cluster>, x: Named)
    ensures x in Flatten(clusters) <==> exists k :: 0 <= k < |clusters| && x in clusters[k].Members()
  {
    if clusters != [] {
      FlattenHas(clusters[1..], x);
      assert forall k :: 0 < k < |clusters| ==> clusters[k] == clusters[1..][k - 1];
      assert forall k :: 0 <= k < |clusters| - 1 ==> clusters[1..][k] == clusters[k + 1];
    }
  }

  lemma {:induction false} FlattenAppend(clusters: seq<Cluster>, c: Cluster)
    ensures Flatten(clusters + [c]) == Flatten(clusters) + c.Members()
  {
    var longer := clusters + [c];
    if clusters == [] {
      assert longer[0] == c && longer[1..] == [];
      assert Flatten(longer) == c.Members() + [];
    } else {
      FlattenAppend(clusters[1..], c);
      assert longer[0] == clusters[0] && longer[1..] == clusters[1..] + [c];
      assert Flatten(longer) == clusters[0].Members() + (Flatten(clusters[1..]) + c.Members());
    }
  }

  lemma {:induction false} FlattenUpdate(clusters: seq<Cluster>, h: nat, x: Named)
    requires h < |clusters|
    ensures multiset(Flatten(clusters[h := clusters[h].With(x)])) == multiset(Flatten(clusters)) + multiset{x}
  {
    var updated := clusters[h := clusters[h].With(x)];
    if h == 0 {
      assert updated[1..] == clusters[1..];
      assert updated[0].Members() == clusters[0].Members() + [x];
    } else {
      FlattenUpdate(clusters[1..], h - 1, x);
      assert updated[1..] == clusters[1..][h - 1 := clusters[1..][h - 1].With(x)];
    }
  }

  lemma AssignKeepsAll(norm: Normalizer, x: Named, clusters: seq<Cluster>)
    ensures multiset(Flatten(Assign(norm, x, clusters))) == multiset(Flatten(clusters)) + multiset{x}
  {
    var h := Home(norm, x, clusters, 0);
    if h == |clusters| {
      FlattenAppend(clusters, Cluster(x, []));
    } else {
      FlattenUpdate(clusters, h, x);
    }
  }

  lemma AssignKeepsCentred(norm: Normalizer, x: Named, clusters: seq<Cluster>)
    requires Centred(norm, clusters) && forall k :: 0 <= k < |clusters| ==> |x.name| <= |clusters[k].seed.name|
    ensures Centred(norm, Assign(norm, x, clusters))
  {
    var h, after := Home(norm, x, clusters, 0), Assign(norm, x, clusters);
    forall k, m | 0 <= k < |after| && m in after[k].others
      ensures after[k].Fits(norm, m) && |m.name| <= |after[k].seed.name|
    {
      assert k < |clusters| && after[k].seed == clusters[k].seed;
      assert m in clusters[k].others || (k == h && m == x);
    }
  }

  lemma MembersAfter(norm: Normalizer, x: Named, clusters: seq<Cluster>, k: nat, m: Named)
    requires k < |Assign(norm, x, clusters)| && m in Assign(norm, x, clusters)[k].Members()
    ensures (k < |clusters| && m in clusters[k].Members()) || (k == Home(norm, x, clusters, 0) && m == x)
    ensures k < |clusters| ==> Assign(norm, x, clusters)[k].seed == clusters[k].seed
  {
  }

  lemma AssignKeepsSeparated(norm: Normalizer, x: Named, clusters: seq<Cluster>)
    requires Separated(norm, clusters)
    ensures Separated(norm, Assign(norm, x, clusters))
  {
    var after := Assign(norm, x, clusters);
    forall j, k, m | 0 <= j < k < |after| && m in after[k].Members() ensures !after[j].Fits(norm, m) {
      MembersAfter(norm, x, clusters, k, m);
      assert after[j].seed == clusters[j].seed;
    }
  }

  /** How often `x` occurs. */
  function Count<T(==)>(s: seq<T>, x: T): nat {
    multiset(s)[x]
  }

  lemma {:induction false} AssignAllKeepsAll(norm: Normalizer, clusters: seq<Cluster>, named: seq<Named>, x: Named)
    ensures Count(Flatten(AssignAll(norm, clusters, named)), x) == Count(Flatten(clusters), x) + Count(named, x)
    decreases |named|
  {
    if named != [] {
      var head, rest := named[0], named[1..];
      AssignKeepsAll(norm, head, clusters);
      AssignAllKeepsAll(norm, Assign(norm, head, clusters), rest, x);
      CountCons(head, rest, x);
      assert named == [head] + rest;
    }
  }

  lemma CountCons<T>(head: T, rest: seq<T>, x: T)
    ensures Count([head] + rest, x) == Count(rest, x) + if x == head then 1 else 0
  {
  }

  predicate LongestFirstOrder(named: seq<Named>) {
    forall i, j :: 0 <= i < j < |named| ==> |named[j].name| <= |named[i].name|
  }

  ghost predicate NoneLonger(named: seq<Named>, clusters: seq<Cluster>) {
    forall k, i :: 0 <= k < |clusters| && 0 <= i < |named| ==> |named[i].name| <= |clusters[k].seed.name|
  }

  lemma NoneLongerNext(norm: Normalizer, clusters: seq<Cluster>, named: seq<Named>)
    requires named != [] && LongestFirstOrder(named) && NoneLonger(named, clusters)
    ensures LongestFirstOrder(named[1..]) && NoneLonger(named[1..], Assign(norm, named[0], clusters))
  {
    var next := Assign(norm, named[0], clusters);
    assert forall k :: 0 <= k < |next| ==> next[k].seed == named[0] || (k < |clusters| && next[k].seed == clusters[k].seed);
  }

  lemma {:induction false} AssignAllKeepsShape(norm: Normalizer, clusters: seq<Cluster>, named: seq<Named>)
    requires Centred(norm, clusters) && Separated(norm, clusters)
    requires LongestFirstOrder(named) && NoneLonger(named, clusters)
    ensures Centred(norm, AssignAll(norm, clusters, named)) && Separated(norm, AssignAll(norm, clusters, named))
    decreases |named|
  {
    if named != [] {
      NoneLongerNext(norm, clusters, named);
      AssignKeepsCentred(norm, named[0], clusters);
      AssignKeepsSeparated(norm, named[0], clusters);
      AssignAllKeepsShape(norm, Assign(norm, named[0], clusters), named[1..]);
    }
  }

  lemma LongestFirstCons(head: Named, rest: seq<Named>)
    requires LongestFirstOrder(rest) && forall y :: y in rest ==> |y.name| <= |head.name|
    ensures LongestFirstOrder([head] + rest)
  {
    forall i, j | 0 <= i < j < |[head] + rest| ensures |([head] + rest)[j].name| <= |([head] + rest)[i].name| {
      assert ([head] + rest)[j] == rest[j - 1] && rest[j - 1] in rest;
    }
  }

  lemma {:induction false} InsertKeeps(x: Named, sorted: seq<Named>)
    ensures multiset(Insert(x, sorted)) == multiset(sorted) + multiset{x}
  {
    if sorted != [] {
      InsertKeeps(x, sorted[1..]);
      assert sorted == [sorted[0]] + sorted[1..];
    }
  }

  lemma InsertHas(x: Named, sorted: seq<Named>, y: Named)
    ensures y in Insert(x, sorted) <==> y == x || y in sorted
  {
    InsertKeeps(x, sorted);
    assert y in Insert(x, sorted) <==> y in multiset(Insert(x, sorted));
    assert y in sorted <==> y in multiset(sorted);
  }

  lemma {:induction false} InsertSorts(x: Named, sorted: seq<Named>)
    requires LongestFirstOrder(sorted)
    ensures LongestFirstOrder(Insert(x, sorted))
  {
    if sorted == [] || |x.name| >= |sorted[0].name| {
      forall y | y in sorted ensures |y.name| <= |x.name| {
      }
      LongestFirstCons(x, sorted);
    } else {
      InsertSorts(x, sorted[1..]);
      forall y | y in Insert(x, sorted[1..]) ensures |y.name| <= |sorted[0].name| {
        InsertHas(x, sorted[1..], y);
      }
      LongestFirstCons(sorted[0], Insert(x, sorted[1..]));
    }
  }

  lemma {:induction false} LongestFirstSorts(named: seq<Named>)
    ensures LongestFirstOrder(LongestFirst(named)) && multiset(LongestFirst(named)) == multiset(named)
  {
    if named != [] {
      LongestFirstSorts(named[1..]);
      InsertSorts(named[0], LongestFirst(named[1..]));
      InsertKeeps(named[0], LongestFirst(named[1..]));
      assert named == [named[0]] + named[1..];
    }
  }

  /** Names of one length stay in the order of their indices. */
  predicate InIndexOrder(named: seq<Named>) {
    forall i, j :: 0 <= i < j < |named| && |named[i].name| == |named[j].name| ==> named[i].index < named[j].index
  }

  lemma {:induction false} InsertStable(x: Named, sorted: seq<Named>)
    requires InIndexOrder(sorted) && forall y :: y in sorted ==> x.index < y.index
    ensures InIndexOrder(Insert(x, sorted))
  {
    if sorted != [] && |x.name| < |sorted[0].name| {
      var rest := Insert(x, sorted[1..]);
      InsertStable(x, sorted[1..]);
      forall y | y in rest && |y.name| == |sorted[0].name| ensures sorted[0].index < y.index {
        InsertHas(x, sorted[1..], y);
      }
      StableCons(sorted[0], rest);
    } else {
      StableCons(x, sorted);
    }
  }

  lemma StableCons(head: Named, rest: seq<Named>)
    requires InIndexOrder(rest) && forall y :: y in rest && |y.name| == |head.name| ==> head.index < y.index
    ensures InIndexOrder([head] + rest)
  {
    var all := [head] + rest;
    forall i, j | 0 <= i < j < |all| && |all[i].name| == |all[j].name| ensures all[i].index < all[j].index {
      assert all[j] == rest[j - 1] && rest[j - 1] in rest;
      assert i > 0 ==> all[i] == rest[i - 1];
    }
  }

  /** The sort is stable. */
  lemma {:induction false} LongestFirstStable(named: seq<Named>)
    requires forall i, j :: 0 <= i < j < |named| ==> named[i].index < named[j].index
    ensures InIndexOrder(LongestFirst(named))
  {
    if named != [] {
      var rest := LongestFirst(named[1..]);
      LongestFirstStable(named[1..]);
      LongestFirstSorts(named[1..]);
      forall y | y in rest ensures named[0].index < y.index {
        assert y in multiset(rest) && y in named[1..];
      }
      InsertStable(named[0], rest);
    }
  }

  predicate HasName(items: seq<Item>, keys: seq<string>, x: Named) {
    && x.index < |items| && FirstValue(items[x.index], keys) == Some(x.name) && |x.name| >= MIN_NAME_LENGTH
  }

  lemma {:induction false} NamedFromSpec(items: seq<Item>, keys: seq<string>, i: nat, x: Named)
    requires i <= |items|
    ensures Count(NamedFrom(items, keys, i), x) == if HasName(items, keys, x) && i <= x.index then 1 else 0
    decreases |items| - i
  {
    if i < |items| {
      var name, rest := FirstValue(items[i], keys), NamedFrom(items, keys, i + 1);
      NamedFromSpec(items, keys, i + 1, x);
      if name.Some? && |name.value| >= MIN_NAME_LENGTH {
        CountCons(Named(i, name.value), rest, x);
      } else {
        assert [] + rest == rest;
      }
    }
  }

  /**
   * The clusters partition the named items: each stands in exactly one cluster, once, and nothing else does;
   * and the clusters are centred on their seeds and separated.
   */
  lemma ClustersPartition(norm: Normalizer, items: seq<Item>, keys: seq<string>, x: Named)
    ensures var clusters := Clusters(norm, items, keys);
      && Centred(norm, clusters) && Separated(norm, clusters)
      && Count(Flatten(clusters), x) == (if HasName(items, keys, x) then 1 else 0)
  {
    var named := NamedFrom(items, keys, 0);
    LongestFirstSorts(named);
    AssignAllKeepsShape(norm, [], LongestFirst(named));
    AssignAllKeepsAll(norm, [], LongestFirst(named), x);
    NamedFromSpec(items, keys, 0, x);
  }

  /** Seeds are pairwise dissimilar, whichever way round they are compared. */
  lemma SeedsApart(norm: Normalizer, clusters: seq<Cluster>, j: nat, k: nat)
    requires Separated(norm, clusters) && j < |clusters| && k < |clusters| && j != k
    ensures NameSimilarity(norm, clusters[j].seed.name, clusters[k].seed.name) < SIMILARITY_THRESHOLD
  {
    SimilaritySymmetric(norm, clusters[j].seed.name, clusters[k].seed.name);
    assert clusters[j].seed in clusters[j].Members() && clusters[k].seed in clusters[k].Members();
  }

  lemma SeedFits(norm: Normalizer, clusters: seq<Cluster>, j: nat, x: Named, y: Named)
    requires Centred(norm, clusters) && j < |clusters| && x in clusters[j].Members() && x.name == y.name != ""
    ensures clusters[j].Fits(norm, y)
  {
    SimilarityBounds(norm, x.name, x.name);
    assert x == clusters[j].seed || x in clusters[j].others;
  }

  /** Equal names never fall into different clusters. */
  lemma EqualNamesTogether(norm: Normalizer, clusters: seq<Cluster>, j: nat, k: nat, x: Named, y: Named)
    requires Centred(norm, clusters) && Separated(norm, clusters)
    requires j < |clusters| && k < |clusters| && x in clusters[j].Members() && y in clusters[k].Members()
    requires x.name == y.name != ""
    ensures j == k
  {
    SeedFits(norm, clusters, j, x, y);
    SeedFits(norm, clusters, k, y, x);
  }
}
