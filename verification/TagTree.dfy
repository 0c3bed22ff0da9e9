/** Parsed pages as trees of tags, in document order. */
module TagTree {
  /** `textLength` is the length of all the stripped text under the tag; `id` is its identity. */
  datatype Tag = Tag(id: nat, name: string, textLength: nat, children: seq<Tag>)

  /** All the tags of a forest in document order. */
  function Below(ts: seq<Tag>): seq<Tag>
    decreases ts
  {
    if ts == [] then [] else [ts[0]] + Below(ts[0].children) + Below(ts[1..])
  }

  function Descendants(t: Tag): seq<Tag> {
    Below(t.children)
  }

  function Ids(ts: seq<Tag>): set<nat> {
    set t | t in Below(ts) :: t.id
  }

  /** No two tags of the forest share an identity. */
  predicate Unique(ts: seq<Tag>)
    decreases ts
  {
    ts == [] ||
    (ts[0].id !in Ids(ts[0].children) && ts[0].id !in Ids(ts[1..]) && Ids(ts[0].children) !! Ids(ts[1..])
     && Unique(ts[0].children) && Unique(ts[1..]))
  }

  function Position<T(==)>(s: seq<T>, x: T): (p: nat)
    requires x in s
    ensures p < |s| && s[p] == x
  {
    if s[0] == x then 0 else 1 + Position(s[1..], x)
  }

  lemma {:induction false} PositionAppend<T>(a: seq<T>, b: seq<T>, x: T)
    requires x in a + b
    ensures Position(a + b, x) == if x in a then Position(a, x) else |a| + Position(b, x)
  {
    if a == [] {
      assert a + b == b;
    } else if a[0] != x {
      assert (a + b)[1..] == a[1..] + b;
      PositionAppend(a[1..], b, x);
    }
  }

  /** Membership, part by part. */
  lemma BelowParts(ts: seq<Tag>, x: Tag)
    requires ts != []
    ensures x in Below(ts) <==> x == ts[0] || x in Descendants(ts[0]) || x in Below(ts[1..])
  {
  }

  lemma {:induction false} DescendantsInside(ts: seq<Tag>, a: Tag, d: Tag)
    requires a in Below(ts) && d in Descendants(a)
    ensures d in Below(ts)
    decreases ts
  {
    BelowParts(ts, a);
    BelowParts(ts, d);
    if a in Descendants(ts[0]) {
      DescendantsInside(ts[0].children, a, d);
    } else if a != ts[0] {
      DescendantsInside(ts[1..], a, d);
    }
  }

  lemma ApartFromFirst(ts: seq<Tag>, y: Tag)
    requires ts != [] && Unique(ts) && y in Below(ts[1..])
    ensures y != ts[0] && y !in Descendants(ts[0])
  {
    assert y.id in Ids(ts[1..]);
    assert forall z :: z in Descendants(ts[0]) ==> z.id in Ids(ts[0].children);
  }

  /** What is below the later tags of a level comes after what is below the first one. */
  lemma PositionLater(ts: seq<Tag>, y: Tag)
    requires ts != [] && Unique(ts) && y in Below(ts[1..])
    ensures y in Below(ts) && Position(Below(ts), y) == 1 + |Descendants(ts[0])| + Position(Below(ts[1..]), y)
  {
    ApartFromFirst(ts, y);
    PositionAppend([ts[0]] + Descendants(ts[0]), Below(ts[1..]), y);
  }

  lemma PositionInFirst(ts: seq<Tag>, x: Tag)
    requires ts != [] && (x == ts[0] || x in Descendants(ts[0]))
    ensures x in Below(ts) && Position(Below(ts), x) <= |Descendants(ts[0])|
  {
    var first := [ts[0]] + Descendants(ts[0]);
    assert x in first;
    PositionAppend(first, Below(ts[1..]), x);
  }

  predicate InTree(root: Tag, x: Tag) {
    x == root || x in Descendants(root)
  }

  lemma {:induction false} InLater(ts: seq<Tag>, j: nat, y: Tag)
    requires j < |ts| && InTree(ts[j], y)
    ensures y in Below(ts) && (j > 0 ==> y in Below(ts[1..]))
    decreases |ts|
  {
    BelowParts(ts, y);
    if j > 0 {
      InLater(ts[1..], j - 1, y);
    }
  }

  /** The one comes before the other in the forest. */
  predicate Comes(ts: seq<Tag>, x: Tag, y: Tag) {
    x in Below(ts) && y in Below(ts) && Position(Below(ts), x) < Position(Below(ts), y)
  }

  lemma ComesFirst(ts: seq<Tag>, x: Tag, y: Tag)
    requires ts != [] && Unique(ts) && InTree(ts[0], x) && y in Below(ts[1..])
    ensures Comes(ts, x, y)
  {
    PositionInFirst(ts, x);
    PositionLater(ts, y);
  }

  lemma ComesLater(ts: seq<Tag>, x: Tag, y: Tag)
    requires ts != [] && Unique(ts) && Comes(ts[1..], x, y)
    ensures Comes(ts, x, y)
  {
    PositionLater(ts, x);
    PositionLater(ts, y);
  }

  /** Of two tags of one level the earlier comes first, with all that is below it. */
  lemma {:induction false} SiblingsInOrder(ts: seq<Tag>, i: nat, j: nat, x: Tag, y: Tag)
    requires Unique(ts) && i < j < |ts| && InTree(ts[i], x) && InTree(ts[j], y)
    ensures Comes(ts, x, y)
    decreases |ts|
  {
    if i == 0 {
      InLater(ts, j, y);
      ComesFirst(ts, x, y);
    } else {
      var rest := ts[1..];
      assert rest[i - 1] == ts[i] && rest[j - 1] == ts[j] && Unique(rest);
      SiblingsInOrder(rest, i - 1, j - 1, x, y);
      ComesLater(ts, x, y);
    }
  }

  lemma {:induction false} TopInside(ts: seq<Tag>, t: Tag)
    requires t in ts
    ensures t in Below(ts)
    decreases |ts|
  {
    BelowParts(ts, t);
    if t != ts[0] {
      TopInside(ts[1..], t);
    }
  }

  /** Tags with the same identity are the same tag. */
  lemma {:induction false} SameId(ts: seq<Tag>, a: Tag, b: Tag)
    requires Unique(ts) && a in Below(ts) && b in Below(ts) && a.id == b.id
    ensures a == b
    decreases ts
  {
    BelowParts(ts, a);
    BelowParts(ts, b);
    assert a in Descendants(ts[0]) ==> a.id in Ids(ts[0].children);
    assert b in Descendants(ts[0]) ==> b.id in Ids(ts[0].children);
    assert a in Below(ts[1..]) ==> a.id in Ids(ts[1..]);
    assert b in Below(ts[1..]) ==> b.id in Ids(ts[1..]);
    if a in Descendants(ts[0]) {
      SameId(ts[0].children, a, b);
    } else if a in Below(ts[1..]) {
      SameId(ts[1..], a, b);
    }
  }

  lemma {:induction false} UniqueInside(ts: seq<Tag>, a: Tag)
    requires Unique(ts) && a in Below(ts)
    ensures Unique(a.children)
    decreases ts
  {
    BelowParts(ts, a);
    if a in Descendants(ts[0]) {
      UniqueInside(ts[0].children, a);
    } else if a != ts[0] {
      UniqueInside(ts[1..], a);
    }
  }

  /** Where a tag lies among the parts of a forest. */
  lemma PositionParts(ts: seq<Tag>, x: Tag)
    requires Unique(ts) && x in Below(ts)
    ensures var p := Position(Below(ts), x);
      && (x == ts[0] ==> p == 0)
      && (x in Descendants(ts[0]) ==> p == 1 + Position(Descendants(ts[0]), x))
      && (x in Below(ts[1..]) ==> p == 1 + |Descendants(ts[0])| + Position(Below(ts[1..]), x))
  {
    var first, inner, rest := [ts[0]], Descendants(ts[0]), Below(ts[1..]);
    PositionAppend(first + inner, rest, x);
    assert x in inner ==> x.id in Ids(ts[0].children);
    assert x in rest ==> x.id in Ids(ts[1..]);
    if x in first + inner {
      PositionAppend(first, inner, x);
    }
  }

  /** Ancestors come before their descendants. */
  lemma {:induction false} AncestorsFirst(ts: seq<Tag>, a: Tag, d: Tag)
    requires Unique(ts) && a in Below(ts) && d in Descendants(a)
    ensures d in Below(ts) && Position(Below(ts), a) < Position(Below(ts), d)
    decreases ts
  {
    DescendantsInside(ts, a, d);
    BelowParts(ts, a);
    PositionParts(ts, a);
    PositionParts(ts, d);
    if a in Descendants(ts[0]) {
      DescendantsInside(ts[0].children, a, d);
      AncestorsFirst(ts[0].children, a, d);
    } else if a != ts[0] {
      DescendantsInside(ts[1..], a, d);
      AncestorsFirst(ts[1..], a, d);
    }
  }

  predicate Within(x: Tag, a: Tag) {
    x == a || x in Descendants(a)
  }

  lemma NotBoth(ts: seq<Tag>, p: Tag, q: Tag, x: Tag)
    requires ts != [] && Unique(ts) && Within(p, ts[0]) && q in Below(ts[1..]) && Within(x, p)
    ensures !Within(x, q)
  {
    var inner, rest := ts[0].children, ts[1..];
    if Within(x, q) {
      if x != q { DescendantsInside(rest, q, x); }
      assert x.id in Ids(rest);
      if x != p && p != ts[0] { DescendantsInside(inner, p, x); }
    }
  }

  /** Two tags around a third lie one within the other. */
  lemma {:induction false} Laminar(ts: seq<Tag>, a: Tag, b: Tag, x: Tag)
    requires Unique(ts) && a in Below(ts) && b in Below(ts) && Within(x, a) && Within(x, b)
    ensures Within(a, b) || Within(b, a)
    decreases ts
  {
    BelowParts(ts, a);
    BelowParts(ts, b);
    var inner, rest := ts[0].children, ts[1..];
    if a in Below(inner) && b in Below(inner) {
      Laminar(inner, a, b, x);
    } else if a in Below(rest) && b in Below(rest) {
      Laminar(rest, a, b, x);
    } else if Within(a, ts[0]) && b in Below(rest) {
      NotBoth(ts, a, b, x);
    } else if Within(b, ts[0]) && a in Below(rest) {
      NotBoth(ts, b, a, x);
    }
  }

  /** A tag at the top of a forest has no ancestor in it. */
  lemma {:induction false} TopHasNoAncestor(ts: seq<Tag>, x: Tag, a: Tag)
    requires Unique(ts) && x in ts && a in Below(ts)
    ensures x !in Descendants(a)
    decreases |ts|
  {
    if x in Descendants(a) {
      var inner, rest := ts[0].children, ts[1..];
      BelowParts(ts, a);
      if a in Below(rest) {
        DescendantsInside(rest, a, x);
        assert x.id in Ids(rest);
        if x in rest {
          TopHasNoAncestor(rest, x, a);
        }
      } else {
        if a != ts[0] {
          DescendantsInside(inner, a, x);
        }
        assert x.id in Ids(inner);
        if x in rest {
          TopInside(rest, x);
        }
      }
    }
  }

  /** The ancestors of a child are its parent and the ancestors of its parent. */
  lemma ParentIsNearest(ts: seq<Tag>, parent: Tag, child: Tag, a: Tag)
    requires Unique(ts) && parent in Below(ts) && child in parent.children && a in Below(ts)
    ensures child in Descendants(a) <==> Within(parent, a)
  {
    TopInside(parent.children, child);
    if child in Descendants(a) {
      Laminar(ts, a, parent, child);
      if a in Descendants(parent) {
        UniqueInside(ts, parent);
        TopHasNoAncestor(parent.children, child, a);
      }
    } else if parent in Descendants(a) {
      DescendantsInside(a.children, parent, child);
    }
  }
}
