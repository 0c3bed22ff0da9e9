/** Choosing the segments of a page: collecting candidate tags, ordering them and dropping those inside others. */
module PageSegments {
  import opened Common
  import opened TagTree

  const MIN_TEXT_LEN := 20
  const LANDMARKS := ["header", "nav", "main", "footer", "aside"]
  const SECTIONS := ["section", "article"]
  const BLOCKS := ["section", "article", "div"]

  predicate Landmark(t: Tag) {
    t.name in LANDMARKS
  }

  /** A tag that may become a segment; depth 1 marks those collected inside <main>. */
  datatype Candidate = Candidate(element: Tag, depth: nat)

  function Named(tags: seq<Tag>, names: seq<string>): seq<Tag> {
    if tags == [] then []
    else (if tags[0].name in names then [tags[0]] else []) + Named(tags[1..], names)
  }

  /** The first tag of that name in document order. */
  function First(page: seq<Tag>, name: string): Option<Tag> {
    var found := Named(Below(page), [name]);
    if found == [] then None else Some(found[0])
  }

  lemma {:induction false} NamedHas(tags: seq<Tag>, names: seq<string>, t: Tag)
    ensures t in Named(tags, names) <==> t in tags && t.name in names
  {
    if tags != [] {
      NamedHas(tags[1..], names, t);
      assert t in tags <==> t == tags[0] || t in tags[1..];
    }
  }

  // ------------------------------------------------------------------------ collecting

  predicate Enough(t: Tag) {
    Landmark(t) || t.textLength >= MIN_TEXT_LEN
  }

  ghost predicate Holds(cs: seq<Candidate>, t: Tag) {
    exists c :: c in cs && c.element == t
  }

  /** Each offered tag is a candidate once, if it is a landmark or has enough text. */
  class Collector {
    var candidates: seq<Candidate>
    var seen: set<nat>
    ghost const page: seq<Tag>

    ghost predicate Valid()
      reads this
    {
      && Unique(page)
      && (forall c :: c in candidates ==> c.element in Below(page) && Enough(c.element))
      && (forall i, j :: 0 <= i < j < |candidates| ==> candidates[i].element.id != candidates[j].element.id)
      && seen == set c | c in candidates :: c.element.id
    }

    constructor (ghost page: seq<Tag>)
      requires Unique(page)
      ensures Valid() && candidates == [] && this.page == page
    {
      candidates, seen := [], {};
      this.page := page;
    }

    method Add(t: Tag, depth: nat)
      requires Valid() && t in Below(page)
      modifies this
      ensures Valid()
      ensures candidates == old(candidates)
           || (candidates == old(candidates) + [Candidate(t, depth)] && !Holds(old(candidates), t))
      ensures Holds(candidates, t) <==> Enough(t)
    {
      if t.id in seen {
        var c :| c in candidates && c.element.id == t.id;
        SameId(page, c.element, t);
        return;
      }
      if !Landmark(t) && t.textLength < MIN_TEXT_LEN {
        return;
      }
      seen := seen + {t.id};
      candidates := candidates + [Candidate(t, depth)];
    }

    /** Offers each of the tags, all at one depth; those already there keep theirs. */
    method AddAll(tags: seq<Tag>, depth: nat)
      requires Valid() && forall t :: t in tags ==> t in Below(page)
      modifies this
      ensures Valid()
      ensures forall t :: Holds(candidates, t) <==> Holds(old(candidates), t) || (t in tags && Enough(t))
      ensures forall c :: c in candidates ==> c in old(candidates) || (c.depth == depth && !Holds(old(candidates), c.element))
    {
      var i := 0;
      while i < |tags|
        invariant 0 <= i <= |tags| && Valid()
        invariant forall t :: Holds(candidates, t) <==> Holds(old(candidates), t) || (t in tags[..i] && Enough(t))
        invariant forall c :: c in candidates ==>
          c in old(candidates) || (c.depth == depth && !Holds(old(candidates), c.element))
      {
        ghost var was := candidates;
        Add(tags[i], depth);
        HoldsNext(was, candidates, tags[i], depth);
        assert tags[..i + 1] == tags[..i] + [tags[i]];
        i := i + 1;
      }
      assert tags[..i] == tags;
    }
  }

  lemma HoldsNext(was: seq<Candidate>, cs: seq<Candidate>, t: Tag, depth: nat)
    requires cs == was || cs == was + [Candidate(t, depth)]
    ensures forall u :: u != t ==> (Holds(cs, u) <==> Holds(was, u))
    ensures Holds(was, t) ==> Holds(cs, t)
    ensures forall c :: c in was ==> c in cs
  {
    assert forall c :: c in cs ==> c in was || c == Candidate(t, depth);
  }

  /** What the passes are looking for, given the page's body. */
  ghost predicate Eligible(page: seq<Tag>, body: Tag, t: Tag) {
    && t in Below(page) && Enough(t)
    && (Landmark(t) || (t.name in BLOCKS && (t in body.children || InMain(page, t))))
  }

  ghost predicate InMain(page: seq<Tag>, t: Tag) {
    First(page, "main").Some? && t in First(page, "main").value.children
  }

  lemma FirstIsThere(page: seq<Tag>, name: string)
    ensures var f := First(page, name); f.Some? ==> f.value in Below(page) && f.value.name == name
  {
    var f := First(page, name);
    if f.Some? {
      NamedHas(Below(page), [name], f.value);
    }
  }

  lemma ChildrenThere(page: seq<Tag>, parent: Tag)
    requires parent in Below(page)
    ensures forall t :: t in parent.children ==> t in Below(page)
  {
    forall t | t in parent.children ensures t in Below(page) {
      TopInside(parent.children, t);
      DescendantsInside(page, parent, t);
    }
  }

  lemma NamedAll(tags: seq<Tag>, names: seq<string>)
    ensures forall t :: t in Named(tags, names) <==> t in tags && t.name in names
  {
    forall t ensures t in Named(tags, names) <==> t in tags && t.name in names {
      NamedHas(tags, names, t);
    }
  }

  /** Landmarks are collected wherever they stand. */
  method LandmarkPass(collector: Collector, page: seq<Tag>)
    requires collector.Valid() && collector.page == page && collector.candidates == []
    modifies collector
    ensures collector.Valid()
    ensures forall c :: c in collector.candidates ==> c.depth == 0
    ensures forall t :: Holds(collector.candidates, t) <==> t in Below(page) && Landmark(t)
  {
    var i := 0;
    while i < |LANDMARKS|
      invariant 0 <= i <= |LANDMARKS| && collector.Valid()
      invariant forall c :: c in collector.candidates ==> c.depth == 0
      invariant forall t :: Holds(collector.candidates, t) <==> t in Below(page) && t.name in LANDMARKS[..i]
    {
      NamedAll(Below(page), [LANDMARKS[i]]);
      collector.AddAll(Named(Below(page), [LANDMARKS[i]]), 0);
      assert LANDMARKS[..i + 1] == LANDMARKS[..i] + [LANDMARKS[i]];
      i := i + 1;
    }
    assert LANDMARKS[..i] == LANDMARKS;
  }

  method BodyPass(collector: Collector, page: seq<Tag>, body: Tag)
    requires collector.Valid() && collector.page == page && body in Below(page)
    requires forall c :: c in collector.candidates ==> c.depth == 0
    requires forall t :: t in Below(page) && Landmark(t) ==> Holds(collector.candidates, t)
    modifies collector
    ensures collector.Valid()
    ensures forall c :: c in collector.candidates ==> c.depth == 0
    ensures forall t :: Holds(collector.candidates, t) <==>
      Holds(old(collector.candidates), t) || (t in body.children && t.name in BLOCKS && Enough(t))
  {
    var names := BLOCKS + LANDMARKS;
    assert forall n :: n in names <==> n in BLOCKS || n in LANDMARKS;
    ChildrenThere(page, body);
    NamedAll(body.children, names);
    collector.AddAll(Named(body.children, names), 0);
  }

  method MainPass(collector: Collector, page: seq<Tag>)
    requires collector.Valid() && collector.page == page
    requires forall c :: c in collector.candidates ==> c.depth == 0
    requires forall t :: t in Below(page) && Landmark(t) ==> Holds(collector.candidates, t)
    modifies collector
    ensures collector.Valid()
    ensures forall c :: c in collector.candidates ==> c.depth == 0 || (InMain(page, c.element) && !Landmark(c.element))
    ensures forall t :: Holds(collector.candidates, t) <==>
      Holds(old(collector.candidates), t) || (InMain(page, t) && t.name in BLOCKS && Enough(t))
  {
    var main := First(page, "main");
    FirstIsThere(page, "main");
    if main.Some? {
      ChildrenThere(page, main.value);
      NamedAll(main.value.children, BLOCKS);
      collector.AddAll(Named(main.value.children, BLOCKS), 1);
      forall c | c in collector.candidates ensures c.depth == 0 || (InMain(page, c.element) && !Landmark(c.element)) {
        assert Holds(collector.candidates, c.element);
      }
    }
  }

  /** The four passes; the last of them finds nothing new. */
  method Passes(page: seq<Tag>, body: Tag) returns (cs: seq<Candidate>)
    requires Unique(page) && body in Below(page)
    ensures forall c :: c in cs ==> c.element in Below(page)
    ensures forall t :: Holds(cs, t) <==> Eligible(page, body, t)
    ensures forall i, j :: 0 <= i < j < |cs| ==> cs[i].element.id != cs[j].element.id
    ensures forall c :: c in cs ==> c.depth == 0 || (InMain(page, c.element) && !Landmark(c.element))
  {
    var collector := new Collector(page);
    LandmarkPass(collector, page);
    BodyPass(collector, page, body);
    MainPass(collector, page);
    NamedAll(body.children, SECTIONS);
    ChildrenThere(page, body);
    collector.AddAll(Named(body.children, SECTIONS), 0);
    cs := collector.candidates;
  }
}
