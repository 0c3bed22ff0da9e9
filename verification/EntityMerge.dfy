/** What merging, renaming and deduplicating clusters does to the items and to references between them. */
module EntityMerge {
  import opened Values
  import opened EntityModel

  // ---------------------------------------------------------------- the canonical item

  /** How complete an item is, and then how long its name; a merged one comes last. */
  function Score(item: Item): (int, nat) {
    var filled := |set k | k in item && item[k].Filled() && item[k] != True|;
    var name := if "name" in item then item["name"].Show() else if "plan_name" in item then item["plan_name"].Show() else "";
    (if Get(item, MERGED).Truthy() then -1 else filled, |name|)
  }

  predicate Higher(a: (int, nat), b: (int, nat)) {
    a.0 > b.0 || (a.0 == b.0 && a.1 > b.1)
  }

  function FirstHighest(scores: seq<(int, nat)>): (b: nat)
    requires scores != []
    ensures b < |scores|
    ensures forall p :: 0 <= p < |scores| ==> !Higher(scores[p], scores[b])
    ensures forall p :: 0 <= p < b ==> Higher(scores[b], scores[p])
  {
    if |scores| == 1 then 0
    else
      var n := |scores| - 1;
      var b := FirstHighest(scores[..n]);
      assert forall p :: 0 <= p < n ==> scores[..n][p] == scores[p];
      if Higher(scores[n], scores[b]) then n else b
  }

  /** The position of the first of the richest rows. */
  function Richest(rows: seq<Item>): (b: nat)
    requires rows != []
    ensures b < |rows|
  {
    FirstHighest(seq(|rows|, p requires 0 <= p < |rows| => Score(rows[p])))
  }

  function CanonicalName(item: Item, fallback: string): Value {
    if Get(item, "name").Truthy() then Get(item, "name")
    else if Get(item, "plan_name").Truthy() then Get(item, "plan_name")
    else Text(fallback)
  }

  /** Fields that are empty in `item` are taken from `variant`. */
  function Enrich(item: Item, variant: Item): Item {
    item + map k | k in variant && variant[k].Filled() && !Get(item, k).Filled() :: variant[k]
  }

  /** Enriched by the rows from `p` on, except the canonical one. */
  function EnrichFrom(item: Item, rows: seq<Item>, canonical: nat, p: nat): Item
    requires p <= |rows|
    decreases |rows| - p
  {
    if p == |rows| then item
    else EnrichFrom(if p == canonical then item else Enrich(item, rows[p]), rows, canonical, p + 1)
  }

  function Enriched(rows: seq<Item>): Item
    requires rows != []
  {
    EnrichFrom(rows[Richest(rows)], rows, Richest(rows), 0)
  }

  /** What a field ends as: the item's own value if filled, else the first filled one of the rows from `p`. */
  function FirstFilled(own: Value, rows: seq<Item>, canonical: nat, p: nat, k: string): Value
    requires p <= |rows|
    decreases |rows| - p
  {
    if own.Filled() || p == |rows| then own
    else FirstFilled(if p != canonical && Get(rows[p], k).Filled() then rows[p][k] else own, rows, canonical, p + 1, k)
  }

  lemma {:induction false} EnrichFromField(item: Item, rows: seq<Item>, canonical: nat, p: nat, k: string)
    requires p <= |rows|
    ensures var r := EnrichFrom(item, rows, canonical, p);
      && Get(r, k) == FirstFilled(Get(item, k), rows, canonical, p, k)
      && (Get(item, k).Filled() ==> Get(r, k) == Get(item, k))
      && (Get(r, k).Filled() <==>
           Get(item, k).Filled() || exists q :: p <= q < |rows| && q != canonical && Get(rows[q], k).Filled())
    decreases |rows| - p
  {
    if p < |rows| {
      var next := if p == canonical then item else Enrich(item, rows[p]);
      EnrichFromField(next, rows, canonical, p + 1, k);
      assert Get(item, k).Filled() ==> FirstFilled(Get(item, k), rows, canonical, p + 1, k) == Get(item, k);
    }
  }

  /** A field of the merged item is filled just when some row fills it, and the canonical row's own value stays. */
  lemma EnrichedIsUnion(rows: seq<Item>, k: string)
    requires rows != []
    ensures Get(Enriched(rows), k).Filled() <==> exists p :: 0 <= p < |rows| && Get(rows[p], k).Filled()
    ensures Get(rows[Richest(rows)], k).Filled() ==> Get(Enriched(rows), k) == Get(rows[Richest(rows)], k)
    ensures Get(Enriched(rows), k) == FirstFilled(Get(rows[Richest(rows)], k), rows, Richest(rows), 0, k)
  {
    EnrichFromField(rows[Richest(rows)], rows, Richest(rows), 0, k);
  }

  /** A field the canonical item lacks is taken from the first of the others to fill it. */
  lemma {:induction false} FirstFilledIs(own: Value, rows: seq<Item>, canonical: nat, p: nat, k: string) returns (q: nat)
    requires p <= |rows| && !own.Filled() && exists r :: p <= r < |rows| && r != canonical && Get(rows[r], k).Filled()
    ensures p <= q < |rows| && q != canonical && k in rows[q] && rows[q][k] !in {Null, Text("")}
    ensures FirstFilled(own, rows, canonical, p, k) == rows[q][k]
    ensures forall r :: p <= r < q && r != canonical && k in rows[r] ==> rows[r][k] in {Null, Text("")}
    decreases |rows| - p
  {
    if p != canonical && Get(rows[p], k).Filled() {
      return p;
    }
    q := FirstFilledIs(own, rows, canonical, p + 1, k);
  }

  // ------------------------------------------------------------------ merging clusters

  predicate InRange(items: seq<Item>, members: seq<Named>) {
    forall m :: m in members ==> m.index < |items|
  }

  function Rows(items: seq<Item>, members: seq<Named>): (r: seq<Item>)
    requires InRange(items, members)
    ensures |r| == |members|
  {
    seq(|members|, p requires 0 <= p < |members| => items[members[p].index])
  }

  /** The member whose item survives. */
  function Canonical(items: seq<Item>, c: Cluster): Named
    requires InRange(items, c.Members())
  {
    c.Members()[Richest(Rows(items, c.Members()))]
  }

  /** The fields with a value that counts. */
  ghost function FieldsFilled(item: Item): set<string> {
    set k | k in item && item[k] !in {Null, Text(""), True}
  }

  predicate Marked(item: Item) {
    MERGED in item && item[MERGED].Truthy()
  }

  /** How the name of an item prints: that of "name" if it is there at all, else that of "plan_name", else nothing. */
  ghost predicate PrintsAs(item: Item, name: string) {
    && ("name" in item ==> ValuePrintsAs(item["name"], name))
    && ("name" !in item && "plan_name" in item ==> ValuePrintsAs(item["plan_name"], name))
    && ("name" !in item && "plan_name" !in item ==> name == "")
  }

  ghost predicate ValuePrintsAs(v: Value, s: string) {
    match v
    case Null => s == "None"
    case True => s == "True"
    case Text(t) => s == t
    case Other(_, t) => s == t
  }

  /** One item is richer than another: it alone is not marked; or else more of its fields count, or its name is longer. */
  ghost predicate Richer(a: Item, b: Item) {
    if Marked(a) || Marked(b) then !Marked(a) || (Marked(b) && LongerName(a, b))
    else
      || |FieldsFilled(a)| > |FieldsFilled(b)|
      || (|FieldsFilled(a)| == |FieldsFilled(b)| && LongerName(a, b))
  }

  ghost predicate LongerName(a: Item, b: Item) {
    exists s, t :: PrintsAs(a, s) && PrintsAs(b, t) && |s| > |t|
  }

  lemma NamePrints(item: Item)
    ensures PrintsAs(item, if "name" in item then item["name"].Show() else if "plan_name" in item then item["plan_name"].Show() else "")
    ensures forall s, t :: PrintsAs(item, s) && PrintsAs(item, t) ==> s == t
  {
  }

  lemma HigherIsRicher(a: Item, b: Item)
    ensures Higher(Score(a), Score(b)) <==> Richer(a, b)
  {
    NamePrints(a);
    NamePrints(b);
    assert (set k | k in a && a[k].Filled() && a[k] != True) == FieldsFilled(a);
    assert (set k | k in b && b[k].Filled() && b[k] != True) == FieldsFilled(b);
  }

  /** No member is richer than the one at `b`, and it is richer than all before it. */
  ghost predicate RichestAt(items: seq<Item>, members: seq<Named>, b: int)
    requires InRange(items, members)
  {
    && 0 <= b < |members|
    && (forall p :: 0 <= p < |members| ==> !Richer(items[members[p].index], items[members[b].index]))
    && (forall p :: 0 <= p < b ==> Richer(items[members[b].index], items[members[p].index]))
  }

  /** The new name is the canonical item's "name", or else its "plan_name", or else the longest name of the cluster. */
  lemma NewNameIs(items: seq<Item>, c: Cluster)
    requires InRange(items, c.Members())
    ensures var item, name := items[Canonical(items, c).index], NewName(items, c);
      && (name.Truthy() || c.seed.name == "")
      && (forall v: Value :: v.Truthy() && "name" in item && item["name"] == v ==> name == v)
      && (!Get(item, "name").Truthy() ==> forall v: Value :: v.Truthy() && "plan_name" in item && item["plan_name"] == v ==> name == v)
      && (!Get(item, "name").Truthy() && !Get(item, "plan_name").Truthy() ==> name == Text(c.seed.name))
  {
  }

  /** The canonical item of a cluster is the first of the members that none is richer than. */
  lemma CanonicalIsRichest(items: seq<Item>, c: Cluster) returns (b: nat)
    requires InRange(items, c.Members())
    ensures RichestAt(items, c.Members(), b) && Canonical(items, c) == c.Members()[b]
  {
    var members, rows := c.Members(), Rows(items, c.Members());
    b := Richest(rows);
    var scores := seq(|rows|, p requires 0 <= p < |rows| => Score(rows[p]));
    assert b == FirstHighest(scores);
    forall p | 0 <= p < |members|
      ensures !Richer(items[members[p].index], items[members[b].index])
      ensures p < b ==> Richer(items[members[b].index], items[members[p].index])
    {
      assert scores[p] == Score(rows[p]) && scores[b] == Score(rows[b]);
      HigherIsRicher(rows[p], rows[b]);
      HigherIsRicher(rows[b], rows[p]);
    }
  }

  function NewName(items: seq<Item>, c: Cluster): Value
    requires InRange(items, c.Members())
  {
    CanonicalName(items[Canonical(items, c).index], c.seed.name)
  }

  function MarkVariants(items: seq<Item>, members: seq<Named>, canonical: nat): (r: seq<Item>)
    requires InRange(items, members)
    ensures |r| == |items|
    decreases |members|
  {
    if members == [] then items
    else
      var i := members[0].index;
      MarkVariants(if i == canonical then items else items[i := items[i][MERGED := True]], members[1..], canonical)
  }

  function MergeCluster(items: seq<Item>, c: Cluster): (r: seq<Item>)
    requires InRange(items, c.Members())
    ensures |r| == |items|
  {
    var canonical := Canonical(items, c).index;
    MarkVariants(items[canonical := Enriched(Rows(items, c.Members()))], c.Members(), canonical)
  }

  function Names(members: seq<Named>): set<string> {
    set m | m in members :: m.name
  }

  function Renames(items: seq<Item>, c: Cluster): map<string, Value>
    requires InRange(items, c.Members())
  {
    var name := NewName(items, c);
    map n | n in Names(c.Members()) && Text(n) != name :: name
  }

  ghost predicate AllInRange(items: seq<Item>, clusters: seq<Cluster>) {
    forall c :: c in clusters ==> InRange(items, c.Members())
  }

  /** Merging every cluster of at least two, one after the other. */
  function MergeAll(items: seq<Item>, clusters: seq<Cluster>): (r: seq<Item>)
    requires AllInRange(items, clusters)
    ensures |r| == |items|
    decreases |clusters|
  {
    if clusters == [] then items
    else
      var c := clusters[0];
      MergeAll(if c.others == [] then items else MergeCluster(items, c), clusters[1..])
  }

  function RenameAll(items: seq<Item>, clusters: seq<Cluster>): map<string, Value>
    requires AllInRange(items, clusters)
    decreases |clusters|
  {
    if clusters == [] then map[]
    else
      var c := clusters[0];
      if c.others == [] then RenameAll(items, clusters[1..])
      else Renames(items, c) + RenameAll(MergeCluster(items, c), clusters[1..])
  }

  ghost predicate IndexIn(i: nat, members: seq<Named>) {
    exists m :: m in members && m.index == i
  }

  lemma {:induction false} MarkVariantsAt(items: seq<Item>, members: seq<Named>, canonical: nat, i: nat)
    requires InRange(items, members) && i < |items|
    ensures MarkVariants(items, members, canonical)[i]
         == if IndexIn(i, members) && i != canonical then items[i][MERGED := True] else items[i]
    decreases |members|
  {
    if members != [] {
      var j := members[0].index;
      var next := if j == canonical then items else items[j := items[j][MERGED := True]];
      MarkVariantsAt(next, members[1..], canonical, i);
      assert IndexIn(i, members) <==> i == j || IndexIn(i, members[1..]) by {
        assert forall m :: m in members <==> m == members[0] || m in members[1..];
      }
      assert next[i] == (if i == j && i != canonical then items[i][MERGED := True] else items[i]);
    }
  }

  /** Where each item stands after its cluster is merged. */
  lemma MergeClusterAt(items: seq<Item>, c: Cluster, i: nat)
    requires InRange(items, c.Members()) && i < |items|
    ensures MergeCluster(items, c)[i] ==
      (if i == Canonical(items, c).index then Enriched(Rows(items, c.Members()))
       else if IndexIn(i, c.Members()) then items[i][MERGED := True]
       else items[i])
  {
    var canonical := Canonical(items, c).index;
    MarkVariantsAt(items[canonical := Enriched(Rows(items, c.Members()))], c.Members(), canonical, i);
  }

  ghost predicate Apart(c: Cluster, d: Cluster) {
    forall x, y :: x in c.Members() && y in d.Members() ==> x.index != y.index
  }

  /** No item is in two clusters. */
  ghost predicate Disjoint(clusters: seq<Cluster>) {
    forall j, k :: 0 <= j < k < |clusters| ==> Apart(clusters[j], clusters[k])
  }

  /** Merging one cluster leaves the rows of another alone. */
  lemma RowsUntouched(items: seq<Item>, c: Cluster, d: Cluster)
    requires InRange(items, c.Members()) && InRange(items, d.Members())
    requires Apart(c, d)
    ensures Rows(MergeCluster(items, c), d.Members()) == Rows(items, d.Members())
    ensures Canonical(MergeCluster(items, c), d) == Canonical(items, d)
    ensures NewName(MergeCluster(items, c), d) == NewName(items, d)
  {
    var after := MergeCluster(items, c);
    forall p | 0 <= p < |d.Members()| ensures after[d.Members()[p].index] == items[d.Members()[p].index] {
      var y := d.Members()[p];
      assert y in d.Members();
      MergeClusterAt(items, c, y.index);
      assert Canonical(items, c) in c.Members();
    }
    assert Rows(after, d.Members()) == Rows(items, d.Members());
  }

  lemma DisjointRest(clusters: seq<Cluster>)
    requires clusters != [] && Disjoint(clusters)
    ensures Disjoint(clusters[1..])
    ensures forall k :: 0 <= k < |clusters[1..]| ==> clusters[1..][k] == clusters[k + 1] && Apart(clusters[0], clusters[1..][k])
  {
    forall k | 0 <= k < |clusters[1..]| ensures clusters[1..][k] == clusters[k + 1] && Apart(clusters[0], clusters[1..][k]) {
      assert clusters[1..][k] == clusters[k + 1];
    }
  }

  /** An item in no cluster stays as it was. */
  lemma {:induction false} MergeAllOutside(items: seq<Item>, clusters: seq<Cluster>, i: nat)
    requires AllInRange(items, clusters) && i < |items|
    requires forall k :: 0 <= k < |clusters| ==> !IndexIn(i, clusters[k].Members())
    ensures MergeAll(items, clusters)[i] == items[i]
    decreases |clusters|
  {
    if clusters != [] {
      var c := clusters[0];
      MergeClusterAt(items, c, i);
      assert Canonical(items, c) in c.Members();
      assert forall k :: 0 <= k < |clusters[1..]| ==> clusters[1..][k] == clusters[k + 1];
      MergeAllOutside(if c.others == [] then items else MergeCluster(items, c), clusters[1..], i);
    }
  }

  lemma UntouchedMerge(items: seq<Item>, c: Cluster, d: Cluster, i: nat)
    requires InRange(items, c.Members()) && InRange(items, d.Members()) && i < |items| && IndexIn(i, d.Members())
    requires Apart(c, d)
    ensures MergeCluster(MergeCluster(items, c), d)[i] == MergeCluster(items, d)[i]
    ensures MergeCluster(items, c)[i] == items[i]
  {
    RowsUntouched(items, c, d);
    MergeClusterAt(items, c, i);
    assert Canonical(items, c) in c.Members();
    MergeClusterAt(items, d, i);
    MergeClusterAt(MergeCluster(items, c), d, i);
  }

  /** What merging `c` makes of the item at `i`, if `c` is merged at all. */
  function Outcome(items: seq<Item>, c: Cluster, i: nat): Item
    requires InRange(items, c.Members()) && i < |items|
  {
    if c.others == [] then items[i] else MergeCluster(items, c)[i]
  }

  lemma OutcomeUntouched(items: seq<Item>, c: Cluster, d: Cluster, i: nat)
    requires InRange(items, c.Members()) && InRange(items, d.Members()) && i < |items| && IndexIn(i, d.Members())
    requires Apart(c, d)
    ensures Outcome(if c.others == [] then items else MergeCluster(items, c), d, i) == Outcome(items, d, i)
  {
    if c.others != [] {
      UntouchedMerge(items, c, d, i);
    }
  }

  /** After all merges an item is what its own cluster made of it, as if no other had been merged. */
  lemma {:induction false} MergeAllInside(items: seq<Item>, clusters: seq<Cluster>, k: nat, i: nat)
    requires AllInRange(items, clusters) && Disjoint(clusters) && i < |items|
    requires k < |clusters| && IndexIn(i, clusters[k].Members())
    ensures MergeAll(items, clusters)[i] == Outcome(items, clusters[k], i)
    decreases |clusters|
  {
    var c, rest := clusters[0], clusters[1..];
    var next := if c.others == [] then items else MergeCluster(items, c);
    DisjointRest(clusters);
    if k == 0 {
      forall j | 0 <= j < |rest| ensures !IndexIn(i, rest[j].Members()) {
        assert Apart(c, rest[j]);
      }
      MergeAllOutside(next, rest, i);
    } else {
      assert rest[k - 1] == clusters[k] && Apart(c, clusters[k]);
      MergeAllInside(next, rest, k - 1, i);
      OutcomeUntouched(items, c, clusters[k], i);
    }
  }

  lemma {:induction false} RenameOutside(items: seq<Item>, clusters: seq<Cluster>, n: string)
    requires AllInRange(items, clusters)
    requires forall k :: 0 <= k < |clusters| ==> n !in Names(clusters[k].Members())
    ensures n !in RenameAll(items, clusters)
    decreases |clusters|
  {
    if clusters != [] {
      var c, rest := clusters[0], clusters[1..];
      assert forall k :: 0 <= k < |rest| ==> rest[k] == clusters[k + 1];
      RenameOutside(if c.others == [] then items else MergeCluster(items, c), rest, n);
    }
  }

  /** No name is in two clusters. */
  ghost predicate NamesApart(clusters: seq<Cluster>) {
    forall j, k :: 0 <= j < k < |clusters| ==> Names(clusters[j].Members()) !! Names(clusters[k].Members())
  }

  /** The rename map sends a name to the canonical name of its cluster, where the two differ. */
  lemma {:induction false} RenameInside(items: seq<Item>, clusters: seq<Cluster>, k: nat, n: string)
    requires AllInRange(items, clusters) && Disjoint(clusters) && NamesApart(clusters)
    requires k < |clusters| && n in Names(clusters[k].Members())
    ensures n in RenameAll(items, clusters) <==> clusters[k].others != [] && Text(n) != NewName(items, clusters[k])
    ensures n in RenameAll(items, clusters) ==> RenameAll(items, clusters)[n] == NewName(items, clusters[k])
    decreases |clusters|
  {
    var c, rest := clusters[0], clusters[1..];
    var next := if c.others == [] then items else MergeCluster(items, c);
    DisjointRest(clusters);
    if k == 0 {
      RenameOutside(next, rest, n);
    } else {
      assert rest[k - 1] == clusters[k] && Apart(c, clusters[k]);
      RenameInside(next, rest, k - 1, n);
      if c.others != [] {
        RowsUntouched(items, c, clusters[k]);
        assert n !in Names(c.Members());
      }
    }
  }
}
