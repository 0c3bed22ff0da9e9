/** Ordering the candidates of a page and pruning those inside others; and which tags are segments in the end. */
module PagePruning {
  import opened Common
  import opened TagTree
  import opened PageSegments

  // -------------------------------------------------------------------------- ordering

  /** Document order, no tag twice. */
  ghost predicate Ordered(page: seq<Tag>, cs: seq<Candidate>) {
    && (forall c :: c in cs ==> c.element in Below(page))
    && forall i, j :: 0 <= i < j < |cs| ==>
      Position(Below(page), cs[i].element) < Position(Below(page), cs[j].element)
  }

  function RankOf(order: map<nat, nat>, c: Candidate): nat {
    if c.element.id in order then order[c.element.id] else 0
  }

  function InsertByRank(c: Candidate, sorted: seq<Candidate>, order: map<nat, nat>): seq<Candidate> {
    if sorted == [] || RankOf(order, c) <= RankOf(order, sorted[0]) then [c] + sorted
    else [sorted[0]] + InsertByRank(c, sorted[1..], order)
  }

  /** The library's stable sort. */
  function SortByRank(cs: seq<Candidate>, order: map<nat, nat>): seq<Candidate> {
    if cs == [] then [] else InsertByRank(cs[0], SortByRank(cs[1..], order), order)
  }

  ghost predicate Increasing(cs: seq<Candidate>, order: map<nat, nat>) {
    forall i, j :: 0 <= i < j < |cs| ==> RankOf(order, cs[i]) < RankOf(order, cs[j])
  }

  lemma {:induction false} InsertSorts(c: Candidate, sorted: seq<Candidate>, order: map<nat, nat>)
    requires Increasing(sorted, order) && forall d :: d in sorted ==> RankOf(order, d) != RankOf(order, c)
    ensures Increasing(InsertByRank(c, sorted, order), order)
    ensures forall d :: d in InsertByRank(c, sorted, order) <==> d == c || d in sorted
  {
    if sorted != [] && RankOf(order, c) > RankOf(order, sorted[0]) {
      InsertSorts(c, sorted[1..], order);
      var rest := InsertByRank(c, sorted[1..], order);
      assert forall d :: d in rest ==> RankOf(order, sorted[0]) < RankOf(order, d);
    }
  }

  lemma {:induction false} SortSorts(cs: seq<Candidate>, order: map<nat, nat>)
    requires forall i, j :: 0 <= i < j < |cs| ==> RankOf(order, cs[i]) != RankOf(order, cs[j])
    ensures Increasing(SortByRank(cs, order), order)
    ensures forall d :: d in SortByRank(cs, order) <==> d in cs
  {
    if cs != [] {
      SortSorts(cs[1..], order);
      assert forall d :: d in cs[1..] ==> RankOf(order, d) != RankOf(order, cs[0]);
      InsertSorts(cs[0], SortByRank(cs[1..], order), order);
    }
  }

  /** The `i`-th tag of a forest, and the part it lies in. */
  lemma PartOf(page: seq<Tag>, i: nat)
    requires page != [] && i < |Below(page)|
    ensures var inner, rest := Below(page[0].children), Below(page[1..]);
      && |Below(page)| == 1 + |inner| + |rest|
      && (i == 0 ==> Below(page)[i] == page[0])
      && (0 < i <= |inner| ==> Below(page)[i] == inner[i - 1] && Below(page)[i] in inner)
      && (i > |inner| ==> Below(page)[i] == rest[i - 1 - |inner|] && Below(page)[i] in rest)
  {
    var inner, rest := Below(page[0].children), Below(page[1..]);
    assert Below(page) == [page[0]] + inner + rest;
  }

  lemma PositionInPart(page: seq<Tag>, i: nat)
    requires page != [] && Unique(page) && i < |Below(page)|
    ensures var inner, rest := Below(page[0].children), Below(page[1..]);
      Position(Below(page), Below(page)[i]) ==
        if i == 0 then 0
        else if i <= |inner| then 1 + Position(inner, inner[i - 1])
        else 1 + |inner| + Position(rest, rest[i - 1 - |inner|])
  {
    PartOf(page, i);
    PositionParts(page, Below(page)[i]);
  }

  /** A tag stands in one place only. */
  lemma {:induction false} UniquePosition(page: seq<Tag>, i: nat)
    requires Unique(page) && i < |Below(page)|
    ensures Position(Below(page), Below(page)[i]) == i
    decreases page
  {
    var n := |Below(page[0].children)|;
    PositionInPart(page, i);
    if 0 < i <= n {
      UniquePosition(page[0].children, i - 1);
    } else if i > n {
      UniquePosition(page[1..], i - 1 - n);
    }
  }

  lemma IdsDistinct(page: seq<Tag>, i: nat, j: nat)
    requires Unique(page) && i < |Below(page)| && j < |Below(page)| && Below(page)[i].id == Below(page)[j].id
    ensures i == j
  {
    SameId(page, Below(page)[i], Below(page)[j]);
    UniquePosition(page, i);
    UniquePosition(page, j);
  }

  /** The wanted tags among the first `n` are numbered. */
  ghost predicate Numbered(tags: seq<Tag>, n: nat, ids: set<nat>, order: map<nat, nat>)
    requires n <= |tags|
  {
    forall k :: 0 <= k < n && tags[k].id in ids ==> tags[k].id in order && order[tags[k].id] == k
  }

  lemma NumberedMore(tags: seq<Tag>, n: nat, ids: set<nat>, order: map<nat, nat>)
    requires n < |tags| && Numbered(tags, n, ids, order) && forall k :: 0 <= k < n ==> tags[k].id != tags[n].id
    ensures Numbered(tags, n + 1, ids, if tags[n].id in ids then order[tags[n].id := n] else order)
  {
  }

  lemma NumberedNext(page: seq<Tag>, n: nat, ids: set<nat>, order: map<nat, nat>)
    requires Unique(page) && n < |Below(page)| && Numbered(Below(page), n, ids, order)
    ensures Numbered(Below(page), n + 1, ids, if Below(page)[n].id in ids then order[Below(page)[n].id := n] else order)
  {
    forall k | 0 <= k < n ensures Below(page)[k].id != Below(page)[n].id {
      if Below(page)[k].id == Below(page)[n].id {
        IdsDistinct(page, k, n);
      }
    }
    NumberedMore(Below(page), n, ids, order);
  }

  lemma NumberedAll(page: seq<Tag>, n: nat, ids: set<nat>, order: map<nat, nat>)
    requires Unique(page) && n <= |Below(page)| && Numbered(Below(page), n, ids, order)
    requires order.Keys == set k | 0 <= k < n && Below(page)[k].id in ids :: Below(page)[k].id
    requires order.Keys == ids || n == |Below(page)|
    ensures forall t :: t in Below(page) && t.id in ids ==> t.id in order && order[t.id] == Position(Below(page), t)
  {
    var tags := Below(page);
    forall t | t in tags && t.id in ids ensures t.id in order && order[t.id] == Position(tags, t) {
      var p := Position(tags, t);
      if p >= n {
        var k :| 0 <= k < n && tags[k].id == t.id;
        IdsDistinct(page, k, p);
      }
    }
  }

  /** Numbers the tags that are wanted in document order, stopping once all are found. */
  method DocumentOrder(page: seq<Tag>, ids: set<nat>) returns (order: map<nat, nat>)
    requires Unique(page)
    ensures forall t :: t in Below(page) && t.id in ids ==> t.id in order && order[t.id] == Position(Below(page), t)
  {
    order := map[];
    var tags := Below(page);
    var n := 0;
    while n < |tags|
      invariant 0 <= n <= |tags| && Numbered(tags, n, ids, order)
      invariant order.Keys == set k | 0 <= k < n && tags[k].id in ids :: tags[k].id
    {
      NumberedNext(page, n, ids, order);
      if tags[n].id in ids {
        order := order[tags[n].id := n];
        if |order| == |ids| {
          SameSize(order.Keys, ids);
          n := n + 1;
          break;
        }
      }
      n := n + 1;
    }
    NumberedAll(page, n, ids, order);
  }

  lemma RankedByPosition(page: seq<Tag>, cs: seq<Candidate>, order: map<nat, nat>)
    requires Unique(page) && forall c :: c in cs ==> c.element in Below(page)
    requires forall i, j :: 0 <= i < j < |cs| ==> cs[i].element.id != cs[j].element.id
    requires forall c :: c in cs ==> c.element.id in order && order[c.element.id] == Position(Below(page), c.element)
    ensures Ordered(page, SortByRank(cs, order)) && forall c :: c in SortByRank(cs, order) <==> c in cs
  {
    forall i, j | 0 <= i < j < |cs| ensures RankOf(order, cs[i]) != RankOf(order, cs[j]) {
      assert cs[i] in cs && cs[j] in cs;
    }
    SortSorts(cs, order);
    var sorted := SortByRank(cs, order);
    forall i, j | 0 <= i < j < |sorted|
      ensures Position(Below(page), sorted[i].element) < Position(Below(page), sorted[j].element)
    {
      assert sorted[i] in sorted && sorted[j] in sorted;
    }
  }

  /** The eligible tags of the page in document order; none without a body. */
  method CollectCandidates(page: seq<Tag>) returns (cs: seq<Candidate>)
    requires Unique(page)
    ensures Ordered(page, cs)
    ensures var body := First(page, "body");
      if body.None? then cs == [] else forall t :: Holds(cs, t) <==> Eligible(page, body.value, t)
    ensures forall c :: c in cs ==> c.depth == 0 || (InMain(page, c.element) && !Landmark(c.element))
  {
    var body := First(page, "body");
    FirstIsThere(page, "body");
    if body.None? {
      return [];
    }
    var found := Passes(page, body.value);
    var ids := set c | c in found :: c.element.id;
    var order := DocumentOrder(page, ids);
    RankedByPosition(page, found, order);
    cs := SortByRank(found, order);
    forall t ensures Holds(cs, t) <==> Holds(found, t) {
    }
  }

  // --------------------------------------------------------------------------- pruning

  /** What post-processing keeps, given the identities covered so far. */
  function KeptFrom(cs: seq<Candidate>, covered: set<nat>): seq<Candidate>
    decreases |cs|
  {
    if cs == [] then []
    else if cs[0].element.id in covered && !Landmark(cs[0].element) then KeptFrom(cs[1..], covered)
    else [cs[0]] + KeptFrom(cs[1..], covered + Ids(cs[0].element.children))
  }

  method PostProcess(cs: seq<Candidate>) returns (kept: seq<Candidate>)
    ensures kept == KeptFrom(cs, {})
  {
    if |cs| <= 1 {
      return cs;
    }
    kept := [];
    var covered: set<nat> := {};
    var rest := cs;
    while rest != []
      invariant KeptFrom(cs, {}) == kept + KeptFrom(rest, covered)
      decreases |rest|
    {
      var c := rest[0];
      rest := rest[1..];
      if c.element.id in covered && !Landmark(c.element) {
        continue;
      }
      kept := kept + [c];
      covered := Cover(covered, Descendants(c.element));
    }
  }

  method Cover(covered: set<nat>, tags: seq<Tag>) returns (r: set<nat>)
    ensures r == covered + set t | t in tags :: t.id
  {
    r := covered;
    var i := 0;
    while i < |tags|
      invariant 0 <= i <= |tags| && r == covered + set t | t in tags[..i] :: t.id
    {
      assert tags[..i + 1] == tags[..i] + [tags[i]];
      r := r + {tags[i].id};
      i := i + 1;
    }
    assert tags[..i] == tags;
  }

  ghost predicate InsideAny(t: Tag, cs: seq<Candidate>) {
    exists a :: a in cs && t in Descendants(a.element)
  }

  /** Landmarks, and whatever lies inside no other candidate. */
  ghost function Outermost(cs: seq<Candidate>, all: seq<Candidate>): seq<Candidate>
    decreases |cs|
  {
    if cs == [] then []
    else (if Landmark(cs[0].element) || !InsideAny(cs[0].element, all) then [cs[0]] else []) + Outermost(cs[1..], all)
  }

  lemma {:induction false} OutermostHas(cs: seq<Candidate>, all: seq<Candidate>, c: Candidate)
    ensures c in Outermost(cs, all) <==> c in cs && (Landmark(c.element) || !InsideAny(c.element, all))
    decreases |cs|
  {
    if cs != [] {
      OutermostHas(cs[1..], all, c);
      assert c in cs <==> c == cs[0] || c in cs[1..];
    }
  }

  /** What is covered is what lies inside a candidate already seen, whether that one was kept or not. */
  ghost predicate CoveredBy(page: seq<Tag>, covered: set<nat>, done: seq<Candidate>) {
    forall t :: t in Below(page) ==> (t.id in covered <==> InsideAny(t, done))
  }

  lemma CoveredNext(page: seq<Tag>, covered: set<nat>, done: seq<Candidate>, c: Candidate)
    requires Unique(page) && CoveredBy(page, covered, done) && c.element in Below(page)
    requires forall a :: a in done ==> a.element in Below(page)
    ensures CoveredBy(page, covered + Ids(c.element.children), done + [c])
    ensures c.element.id in covered ==> CoveredBy(page, covered, done + [c])
  {
    forall t | t in Below(page)
      ensures t.id in Ids(c.element.children) <==> t in Descendants(c.element)
      ensures InsideAny(t, done + [c]) <==> InsideAny(t, done) || t in Descendants(c.element)
      ensures c.element.id in covered && t in Descendants(c.element) ==> InsideAny(t, done)
    {
      if t.id in Ids(c.element.children) {
        var u :| u in Descendants(c.element) && u.id == t.id;
        DescendantsInside(page, c.element, u);
        SameId(page, t, u);
      }
      if t in Descendants(c.element) {
        assert c in done + [c];
        if c.element.id in covered {
          var a :| a in done && c.element in Descendants(a.element);
          DescendantsInside(a.element.children, c.element, t);
        }
      }
      assert forall a :: a in done ==> a in done + [c];
    }
  }

  /** No candidate lies inside a later one. */
  lemma OnlyEarlierContain(page: seq<Tag>, done: seq<Candidate>, rest: seq<Candidate>)
    requires Unique(page) && rest != [] && Ordered(page, done + rest)
    ensures InsideAny(rest[0].element, done + rest) <==> InsideAny(rest[0].element, done)
  {
    var all, c := done + rest, rest[0];
    assert all[|done|] == c;
    forall a | a in all && c.element in Descendants(a.element) ensures a in done {
      var k :| 0 <= k < |all| && all[k] == a;
      AncestorsFirst(page, a.element, c.element);
      assert k < |done|;
    }
    assert forall a :: a in done ==> a in all;
  }

  lemma OneFurther(done: seq<Candidate>, rest: seq<Candidate>)
    requires rest != []
    ensures done + rest == (done + [rest[0]]) + rest[1..]
    ensures rest[0] in done + rest && forall a :: a in done ==> a in done + rest
  {
    assert (done + rest)[|done|] == rest[0];
  }

  lemma PruneStep(page: seq<Tag>, done: seq<Candidate>, rest: seq<Candidate>, covered: set<nat>)
    requires Unique(page) && rest != [] && Ordered(page, done + rest) && CoveredBy(page, covered, done)
    ensures var c := rest[0];
      && (c.element.id in covered <==> InsideAny(c.element, done + rest))
      && CoveredBy(page, covered + Ids(c.element.children), done + [c])
      && (c.element.id in covered ==> CoveredBy(page, covered, done + [c]))
  {
    OneFurther(done, rest);
    OnlyEarlierContain(page, done, rest);
    CoveredNext(page, covered, done, rest[0]);
  }

  lemma {:induction false} KeptIsOutermost(page: seq<Tag>, done: seq<Candidate>, rest: seq<Candidate>, covered: set<nat>)
    requires Unique(page) && Ordered(page, done + rest) && CoveredBy(page, covered, done)
    ensures KeptFrom(rest, covered) == Outermost(rest, done + rest)
    decreases |rest|
  {
    if rest != [] {
      var c := rest[0];
      PruneStep(page, done, rest, covered);
      OneFurther(done, rest);
      if c.element.id in covered && !Landmark(c.element) {
        KeptIsOutermost(page, done + [c], rest[1..], covered);
      } else {
        KeptIsOutermost(page, done + [c], rest[1..], covered + Ids(c.element.children));
      }
    }
  }

  /** In document order, exactly the landmarks and the candidates inside no other are kept. */
  lemma PruningIsExact(page: seq<Tag>, cs: seq<Candidate>, c: Candidate)
    requires Unique(page) && Ordered(page, cs)
    ensures c in KeptFrom(cs, {}) <==> c in cs && (Landmark(c.element) || !InsideAny(c.element, cs))
  {
    assert [] + cs == cs;
    KeptIsOutermost(page, [], cs, {});
    OutermostHas(cs, cs, c);
  }

  /** Whatever is dropped lies inside something that is kept. */
  lemma {:induction false} DroppedIsCovered(page: seq<Tag>, cs: seq<Candidate>, c: Candidate) returns (k: Candidate)
    requires Unique(page) && Ordered(page, cs) && c in cs && c !in KeptFrom(cs, {})
    ensures k in KeptFrom(cs, {}) && c.element in Descendants(k.element)
    decreases Position(Below(page), c.element)
  {
    PruningIsExact(page, cs, c);
    k :| k in cs && c.element in Descendants(k.element);
    if k !in KeptFrom(cs, {}) {
      AncestorsFirst(page, k.element, c.element);
      var outer := DroppedIsCovered(page, cs, k);
      DescendantsInside(outer.element.children, k.element, c.element);
      k := outer;
    }
  }

  /** Nothing kept lies inside anything kept, landmarks aside. */
  lemma KeptAreApart(page: seq<Tag>, cs: seq<Candidate>, c: Candidate, k: Candidate)
    requires Unique(page) && Ordered(page, cs) && c in KeptFrom(cs, {}) && k in KeptFrom(cs, {}) && !Landmark(c.element)
    ensures c.element !in Descendants(k.element)
  {
    PruningIsExact(page, cs, c);
    PruningIsExact(page, cs, k);
  }

  // ------------------------------------------------------------------ the whole, in closed form

  /**
   * Any landmark; and any block directly in the body with enough text, unless the body itself stands in a landmark.
   * What was collected inside <main> never survives.
   */
  ghost predicate IsSegment(page: seq<Tag>, body: Tag, t: Tag) {
    && t in Below(page)
    && (Landmark(t) || (t in body.children && t.name in BLOCKS && t.textLength >= MIN_TEXT_LEN && !InLandmark(page, body)))
  }

  ghost predicate InLandmark(page: seq<Tag>, body: Tag) {
    exists l :: l in Below(page) && Landmark(l) && body in Descendants(l)
  }

  lemma NotInItself(page: seq<Tag>, a: Tag, b: Tag)
    requires Unique(page) && a in Below(page) && b in Below(page) && a in Descendants(b)
    ensures b !in Descendants(a)
  {
    AncestorsFirst(page, b, a);
    if b in Descendants(a) {
      AncestorsFirst(page, a, b);
    }
  }

  lemma MainContains(page: seq<Tag>, t: Tag) returns (main: Tag)
    requires InMain(page, t)
    ensures main in Below(page) && Landmark(main) && t in Descendants(main)
  {
    main := First(page, "main").value;
    FirstIsThere(page, "main");
    assert LANDMARKS[2] == "main";
    TopInside(main.children, t);
  }

  /** An eligible tag around the body means a landmark around it. */
  lemma AroundBody(page: seq<Tag>, body: Tag, a: Tag)
    requires Unique(page) && body in Below(page) && body.name == "body"
    requires Eligible(page, body, a) && Within(body, a)
    ensures InLandmark(page, body)
  {
    assert !Landmark(body) && body.name !in BLOCKS;
    if !Landmark(a) {
      if a in body.children {
        TopInside(body.children, a);
        NotInItself(page, a, body);
      } else {
        var main := MainContains(page, a);
        DescendantsInside(main.children, a, body);
      }
    }
  }

  lemma SurvivesIffSegment(page: seq<Tag>, body: Tag, cs: seq<Candidate>, c: Candidate)
    requires Unique(page) && body in Below(page) && body.name == "body"
    requires (forall t :: Holds(cs, t) <==> Eligible(page, body, t)) && c in cs
    ensures Landmark(c.element) || !InsideAny(c.element, cs) <==> IsSegment(page, body, c.element)
  {
    var t := c.element;
    assert Holds(cs, t);
    if !Landmark(t) {
      if InMain(page, t) {
        var main := MainContains(page, t);
        assert Holds(cs, main);
        if t in body.children {
          ParentIsNearest(page, body, t, main);
          assert body.name != main.name;
        }
      } else {
        forall a | a in cs && t in Descendants(a.element) ensures InLandmark(page, body) {
          assert Holds(cs, a.element);
          ParentIsNearest(page, body, t, a.element);
          AroundBody(page, body, a.element);
        }
        forall l | l in Below(page) && Landmark(l) && body in Descendants(l) ensures InsideAny(t, cs) {
          assert Eligible(page, body, l) && Holds(cs, l);
          ParentIsNearest(page, body, t, l);
        }
      }
    }
  }

  datatype Segmentation = Fallback | Segments(kept: seq<Candidate>)

  // ------------------------------------------------------------------- in plain terms

  /** The first tag of that name in document order. */
  ghost predicate IsFirstNamed(tags: seq<Tag>, name: string, t: Tag) {
    exists k :: 0 <= k < |tags| && tags[k] == t && t.name == name && forall j :: 0 <= j < k ==> tags[j].name != name
  }

  ghost predicate NamedLandmark(t: Tag) {
    t.name in {"header", "nav", "main", "footer", "aside"}
  }

  /** A block with text enough, directly in the body. */
  ghost predicate BodyBlock(body: Tag, t: Tag) {
    t in body.children && t.name in {"section", "article", "div"} && t.textLength >= 20
  }

  /** The segments of a page whose body is this one. */
  ghost predicate SegmentOf(page: seq<Tag>, body: Tag, t: Tag) {
    && t in Below(page)
    && (NamedLandmark(t)
        || (BodyBlock(body, t) && forall l :: l in Below(page) && NamedLandmark(l) ==> body !in Descendants(l)))
  }

  ghost predicate SegmentedBy(page: seq<Tag>, body: Tag, r: Segmentation) {
    && (r.Fallback? <==> forall t :: t in Below(page) ==> !NamedLandmark(t) && !BodyBlock(body, t))
    && (r.Segments? ==> forall t :: Holds(r.kept, t) <==> SegmentOf(page, body, t))
  }

  lemma {:induction false} NamedFirst(tags: seq<Tag>, name: string)
    ensures Named(tags, [name]) == [] <==> forall t :: t in tags ==> t.name != name
    ensures Named(tags, [name]) != [] ==> IsFirstNamed(tags, name, Named(tags, [name])[0])
  {
    if tags != [] {
      NamedFirst(tags[1..], name);
      assert tags == [tags[0]] + tags[1..];
      if tags[0].name == name {
        assert IsFirstNamed(tags, name, tags[0]);
      } else if Named(tags[1..], [name]) != [] {
        var t := Named(tags[1..], [name])[0];
        var k :| 0 <= k < |tags[1..]| && tags[1..][k] == t && t.name == name && forall j :: 0 <= j < k ==> tags[1..][j].name != name;
        assert tags[k + 1] == t;
        forall j | 0 <= j < k + 1 ensures tags[j].name != name {
          assert j > 0 ==> tags[j] == tags[1..][j - 1];
        }
      }
    }
  }

  lemma TagsByName(t: Tag)
    ensures Landmark(t) <==> NamedLandmark(t)
    ensures t.name in BLOCKS <==> t.name in {"section", "article", "div"}
  {
  }

  lemma OffersPlainly(page: seq<Tag>, body: Tag)
    ensures (forall t :: !Eligible(page, body, t)) <==> forall t :: t in Below(page) ==> !NamedLandmark(t) && !BodyBlock(body, t)
  {
    forall t ensures Eligible(page, body, t) ==> t in Below(page) && (NamedLandmark(t) || BodyBlock(body, t) || InMain(page, t))
      ensures t in Below(page) && (NamedLandmark(t) || BodyBlock(body, t)) ==> Eligible(page, body, t)
    {
      TagsByName(t);
    }
    FirstIsThere(page, "main");
    if t :| InMain(page, t) {
      var main := First(page, "main").value;
      TagsByName(main);
      assert main in Below(page) && NamedLandmark(main);
    }
  }

  lemma SegmentsPlainly(page: seq<Tag>, body: Tag, t: Tag)
    ensures IsSegment(page, body, t) <==> SegmentOf(page, body, t)
  {
    TagsByName(t);
    forall l ensures Landmark(l) <==> NamedLandmark(l) {
      TagsByName(l);
    }
  }

  lemma IsSegmentedBy(page: seq<Tag>, body: Tag, r: Segmentation)
    requires r.Fallback? <==> forall t :: !Eligible(page, body, t)
    requires r.Segments? ==> forall t :: Holds(r.kept, t) <==> IsSegment(page, body, t)
    ensures SegmentedBy(page, body, r)
  {
    OffersPlainly(page, body);
    forall t ensures IsSegment(page, body, t) <==> SegmentOf(page, body, t) {
      SegmentsPlainly(page, body, t);
    }
  }

  /**
   * The segments of a page are exactly the tags described by `SegmentOf`, each once, in document order, and all of
   * depth 0; a page without a body, or without candidates, falls back to a single unknown segment.
   */
  method Segment(page: seq<Tag>) returns (r: Segmentation)
    requires Unique(page)
    ensures (forall t :: t in Below(page) ==> t.name != "body") ==> r.Fallback?
    ensures (exists t :: t in Below(page) && t.name == "body") ==>
      exists body :: IsFirstNamed(Below(page), "body", body) && SegmentedBy(page, body, r)
    ensures r.Segments? ==> Ordered(page, r.kept) && forall c :: c in r.kept ==> c.depth == 0
  {
    NamedFirst(Below(page), "body");
    r := SegmentBody(page);
    if First(page, "body").Some? {
      IsSegmentedBy(page, First(page, "body").value, r);
    }
  }

  method SegmentBody(page: seq<Tag>) returns (r: Segmentation)
    requires Unique(page)
    ensures var body := First(page, "body");
      r.Fallback? <==> body.None? || forall t :: !Eligible(page, body.value, t)
    ensures r.Segments? ==> Ordered(page, r.kept) && forall c :: c in r.kept ==> c.depth == 0
    ensures r.Segments? ==> forall t :: Holds(r.kept, t) <==> IsSegment(page, First(page, "body").value, t)
  {
    var body := First(page, "body");
    FirstIsThere(page, "body");
    var cs := CollectCandidates(page);
    if cs == [] {
      return Fallback;
    }
    assert cs[0] in cs && Holds(cs, cs[0].element);
    var kept := PostProcess(cs);
    SegmentsExactly(page, body.value, cs, kept);
    return Segments(kept);
  }

  ghost predicate Before(page: seq<Tag>, c: Candidate, cs: seq<Candidate>) {
    && c.element in Below(page)
    && forall d :: d in cs ==> d.element in Below(page) && Position(Below(page), c.element) < Position(Below(page), d.element)
  }

  lemma OrderedParts(page: seq<Tag>, cs: seq<Candidate>)
    requires Ordered(page, cs) && cs != []
    ensures Ordered(page, cs[1..]) && Before(page, cs[0], cs[1..])
  {
    assert forall d :: d in cs[1..] ==> d in cs;
  }

  lemma OrderedCons(page: seq<Tag>, c: Candidate, cs: seq<Candidate>)
    requires Ordered(page, cs) && Before(page, c, cs)
    ensures Ordered(page, [c] + cs)
  {
    assert forall i :: 0 < i < |[c] + cs| ==> ([c] + cs)[i] in cs;
  }

  lemma {:induction false} KeptInOrder(page: seq<Tag>, cs: seq<Candidate>, covered: set<nat>)
    requires Ordered(page, cs)
    ensures Ordered(page, KeptFrom(cs, covered)) && forall c :: c in KeptFrom(cs, covered) ==> c in cs
    decreases |cs|
  {
    if cs != [] {
      var c, rest := cs[0], cs[1..];
      OrderedParts(page, cs);
      if c.element.id in covered && !Landmark(c.element) {
        KeptInOrder(page, rest, covered);
      } else {
        var more := covered + Ids(c.element.children);
        KeptInOrder(page, rest, more);
        OrderedCons(page, c, KeptFrom(rest, more));
      }
    }
  }

  lemma SegmentsExactly(page: seq<Tag>, body: Tag, cs: seq<Candidate>, kept: seq<Candidate>)
    requires Unique(page) && body in Below(page) && body.name == "body"
    requires Ordered(page, cs) && (forall t :: Holds(cs, t) <==> Eligible(page, body, t))
    requires forall c :: c in cs ==> c.depth == 0 || (InMain(page, c.element) && !Landmark(c.element))
    requires kept == KeptFrom(cs, {})
    ensures Ordered(page, kept) && forall c :: c in kept ==> c.depth == 0
    ensures forall t :: Holds(kept, t) <==> IsSegment(page, body, t)
  {
    KeptInOrder(page, cs, {});
    forall c | c in cs
      ensures c in kept <==> IsSegment(page, body, c.element)
      ensures c in kept ==> c.depth == 0
    {
      PruningIsExact(page, cs, c);
      SurvivesIffSegment(page, body, cs, c);
      if c.depth != 0 {
        var main := MainContains(page, c.element);
        assert Holds(cs, main);
      }
    }
    forall t ensures Holds(kept, t) <==> IsSegment(page, body, t) {
      if IsSegment(page, body, t) {
        assert Eligible(page, body, t) && Holds(cs, t);
      }
    }
  }
}
