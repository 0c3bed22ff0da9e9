/** The entity resolver itself: loops that merge, rename and deduplicate the parsers' lists in place. */
module EntityResolver {
  import opened Common
  import opened Values
  import opened EntityModel
  import opened EntityMerge
  import opened EntityDedup
  import opened EntityReferences

  /** A list of records, changed in place. */
  class ItemList {
    var items: seq<Item>

    constructor (items: seq<Item>)
      ensures this.items == items
    {
      this.items := items;
    }
  }

  // ------------------------------------------------------------------------ clustering

  predicate LongEnough(name: Option<string>) {
    name.Some? && |name.value| >= MIN_NAME_LENGTH
  }

  lemma NamedNext(items: seq<Item>, keys: seq<string>, i: nat, named: seq<Named>)
    requires i < |items|
    ensures var name := FirstValue(items[i], keys);
      named + NamedFrom(items, keys, i)
      == (if LongEnough(name) then named + [Named(i, name.value)] else named) + NamedFrom(items, keys, i + 1)
  {
  }

  method NamedItems(items: seq<Item>, keys: seq<string>) returns (named: seq<Named>)
    ensures named == NamedFrom(items, keys, 0)
  {
    named := [];
    var i := 0;
    while i < |items|
      invariant 0 <= i <= |items|
      invariant NamedFrom(items, keys, 0) == named + NamedFrom(items, keys, i)
    {
      NamedNext(items, keys, i, named);
      var name := FirstValue(items[i], keys);
      if LongEnough(name) {
        named := named + [Named(i, name.value)];
      }
      i := i + 1;
    }
  }

  method GrowClusters(norm: Normalizer, named: seq<Named>) returns (clusters: seq<Cluster>)
    ensures clusters == AssignAll(norm, [], named)
  {
    clusters := [];
    var rest := named;
    while rest != []
      invariant AssignAll(norm, [], named) == AssignAll(norm, clusters, rest)
      decreases |rest|
    {
      var x := rest[0];
      var k := 0;
      while k < |clusters| && !clusters[k].Fits(norm, x)
        invariant 0 <= k <= |clusters| && Home(norm, x, clusters, 0) == Home(norm, x, clusters, k)
      {
        k := k + 1;
      }
      clusters := if k < |clusters| then clusters[k := clusters[k].With(x)] else clusters + [Cluster(x, [])];
      rest := rest[1..];
    }
  }

  // --------------------------------------------------------------------------- merging

  ghost predicate DistinctIndices(members: seq<Named>) {
    forall p, q :: 0 <= p < q < |members| ==> members[p].index != members[q].index
  }

  /** Enriched so far by the fields in `done`. */
  ghost function EnrichedBy(item: Item, variant: Item, done: set<string>): Item {
    item + map k | k in variant && k in done && variant[k].Filled() && !Get(item, k).Filled() :: variant[k]
  }

  lemma EnrichedByNext(item: Item, variant: Item, done: set<string>, f: string)
    requires f in variant && f !in done
    ensures var sofar := EnrichedBy(item, variant, done);
      EnrichedBy(item, variant, done + {f}) ==
        if variant[f].Filled() && !Get(sofar, f).Filled() then sofar[f := variant[f]] else sofar
  {
    var sofar := EnrichedBy(item, variant, done);
    assert Get(sofar, f) == Get(item, f);
  }

  lemma EnrichedByEnds(item: Item, variant: Item)
    ensures EnrichedBy(item, variant, variant.Keys - variant.Keys) == item
    ensures EnrichedBy(item, variant, variant.Keys) == Enrich(item, variant)
  {
  }

  /** Takes over, one by one, the fields of `variant` that the item lacks. */
  method EnrichItem(item: Item, variant: Item) returns (r: Item)
    ensures r == Enrich(item, variant)
  {
    r := item;
    var todo := variant.Keys;
    EnrichedByEnds(item, variant);
    while todo != {}
      invariant todo <= variant.Keys && r == EnrichedBy(item, variant, variant.Keys - todo)
      decreases |todo|
    {
      var f :| f in todo;
      EnrichedByNext(item, variant, variant.Keys - todo, f);
      if variant[f].Filled() && !Get(r, f).Filled() {
        r := r[f := variant[f]];
      }
      assert variant.Keys - (todo - {f}) == (variant.Keys - todo) + {f};
      todo := todo - {f};
    }
    assert variant.Keys - {} == variant.Keys;
  }

  /** The enriching loop over the variants of a cluster. */
  method EnrichCanonical(list: ItemList, members: seq<Named>, best: nat)
    requires InRange(list.items, members) && DistinctIndices(members) && best < |members|
    modifies list
    ensures var canonical, rows := members[best].index, Rows(old(list.items), members);
      list.items == old(list.items)[canonical := EnrichFrom(old(list.items)[canonical], rows, best, 0)]
  {
    var canonical := members[best].index;
    ghost var rows := Rows(list.items, members);
    var p := 0;
    while p < |members|
      invariant 0 <= p <= |members| && |list.items| == |old(list.items)|
      invariant list.items == old(list.items)[canonical := list.items[canonical]]
      invariant EnrichFrom(old(list.items)[canonical], rows, best, 0) == EnrichFrom(list.items[canonical], rows, best, p)
    {
      assert members[p] in members;
      assert p != best ==> members[p].index != canonical;
      if members[p].index != canonical {
        assert list.items[members[p].index] == rows[p];
        var item := EnrichItem(list.items[canonical], list.items[members[p].index]);
        list.items := list.items[canonical := item];
      }
      p := p + 1;
    }
  }

  method MarkMerged(list: ItemList, members: seq<Named>, canonical: nat)
    requires InRange(list.items, members)
    modifies list
    ensures list.items == MarkVariants(old(list.items), members, canonical)
  {
    var rest := members;
    while rest != []
      invariant InRange(list.items, rest)
      invariant MarkVariants(list.items, rest, canonical) == MarkVariants(old(list.items), members, canonical)
      decreases |rest|
    {
      var i := rest[0].index;
      assert rest[0] in rest;
      if i != canonical {
        list.items := list.items[i := list.items[i][MERGED := True]];
      }
      rest := rest[1..];
    }
  }

  function RenamesTo(names: set<string>, name: Value): map<string, Value> {
    map n | n in names && Text(n) != name :: name
  }

  lemma RenamesToNext(renames: map<string, Value>, n: string, names: set<string>, name: Value)
    ensures renames + RenamesTo({n} + names, name)
         == (if Text(n) != name then renames[n := name] else renames) + RenamesTo(names, name)
  {
  }

  lemma NamesNext(members: seq<Named>)
    requires members != []
    ensures Names(members) == {members[0].name} + Names(members[1..])
  {
    assert members == [members[0]] + members[1..];
  }

  /** Records a new name for each name of a cluster that differs from it. */
  method RecordRenames(renames: map<string, Value>, members: seq<Named>, name: Value) returns (r: map<string, Value>)
    ensures r == renames + RenamesTo(Names(members), name)
  {
    r := renames;
    var rest := members;
    while rest != []
      invariant renames + RenamesTo(Names(members), name) == r + RenamesTo(Names(rest), name)
      decreases |rest|
    {
      NamesNext(rest);
      RenamesToNext(r, rest[0].name, Names(rest[1..]), name);
      if Text(rest[0].name) != name {
        r := r[rest[0].name := name];
      }
      rest := rest[1..];
    }
    assert RenamesTo({}, name) == map[];
  }

  method MergeOne(list: ItemList, c: Cluster, renames: map<string, Value>) returns (r: map<string, Value>)
    requires InRange(list.items, c.Members()) && DistinctIndices(c.Members())
    modifies list
    ensures list.items == MergeCluster(old(list.items), c)
    ensures r == renames + Renames(old(list.items), c)
  {
    var rows := Rows(list.items, c.Members());
    var best := Richest(rows);
    var canonical := c.Members()[best].index;
    var name := CanonicalName(list.items[canonical], c.seed.name);
    EnrichCanonical(list, c.Members(), best);
    r := RecordRenames(renames, c.Members(), name);
    MarkMerged(list, c.Members(), canonical);
  }

  ghost predicate AllDistinct(clusters: seq<Cluster>) {
    forall c :: c in clusters ==> DistinctIndices(c.Members())
  }

  lemma CountBoth<T>(s: seq<T>, t: seq<T>, x: T)
    ensures Count(s + t, x) == Count(s, x) + Count(t, x)
  {
  }

  lemma {:induction false} CountInCluster(clusters: seq<Cluster>, k: nat, x: Named)
    requires k < |clusters|
    ensures Count(clusters[k].Members(), x) <= Count(Flatten(clusters), x)
  {
    CountBoth(clusters[0].Members(), Flatten(clusters[1..]), x);
    if k > 0 {
      CountInCluster(clusters[1..], k - 1, x);
      assert clusters[1..][k - 1] == clusters[k];
    }
  }

  lemma TwiceCounted<T>(s: seq<T>, p: nat, q: nat)
    requires p < q < |s| && s[p] == s[q]
    ensures Count(s, s[p]) >= 2
  {
    assert s == s[..q] + [s[q]] + s[q + 1..];
    assert s[..q][p] == s[p];
    assert s[p] in s[..q];
  }

  /** No index stands twice in one cluster. */
  lemma ClusterIndicesDistinct(norm: Normalizer, items: seq<Item>, keys: seq<string>)
    ensures AllDistinct(Clusters(norm, items, keys))
  {
    var clusters := Clusters(norm, items, keys);
    forall c, p, q | c in clusters && 0 <= p < q < |c.Members()| ensures c.Members()[p].index != c.Members()[q].index {
      var k :| 0 <= k < |clusters| && clusters[k] == c;
      var x, y := c.Members()[p], c.Members()[q];
      MemberIsNamed(norm, items, keys, k, x);
      MemberIsNamed(norm, items, keys, k, y);
      if x == y {
        TwiceCounted(c.Members(), p, q);
        CountInCluster(clusters, k, x);
        ClustersPartition(norm, items, keys, x);
      }
    }
  }

  lemma InRangeRest(items: seq<Item>, clusters: seq<Cluster>)
    requires clusters != [] && AllInRange(items, clusters) && AllDistinct(clusters)
    ensures var c, rest := clusters[0], clusters[1..];
      && InRange(items, c.Members()) && DistinctIndices(c.Members())
      && AllInRange(items, rest) && AllDistinct(rest)
  {
    assert clusters[0] in clusters && forall d :: d in clusters[1..] ==> d in clusters;
  }

  lemma AddedInTurn<K, V>(a: map<K, V>, b: map<K, V>, c: map<K, V>)
    ensures (a + b) + c == a + (b + c)
  {
  }

  /** One cluster off the list of those still to be merged. */
  lemma MergeNext(items: seq<Item>, clusters: seq<Cluster>, renames: map<string, Value>)
    requires clusters != [] && clusters[0].others != [] && AllInRange(items, clusters)
    requires InRange(items, clusters[0].Members()) && AllInRange(items, clusters[1..])
    ensures var c, rest := clusters[0], clusters[1..];
      && AllInRange(MergeCluster(items, c), rest) && MergeAll(items, clusters) == MergeAll(MergeCluster(items, c), rest)
      && renames + RenameAll(items, clusters)
         == (renames + Renames(items, c)) + RenameAll(MergeCluster(items, c), rest)
  {
    var c, rest := clusters[0], clusters[1..];
    AddedInTurn(renames, Renames(items, c), RenameAll(MergeCluster(items, c), rest));
  }

  /** Part of the way: merging what is left will lead to where merging all does. */
  ghost predicate Underway(items0: seq<Item>, clusters: seq<Cluster>, items: seq<Item>, rest: seq<Cluster>, renames: map<string, Value>)
    requires AllInRange(items0, clusters)
  {
    && |items| == |items0| && AllInRange(items, rest) && AllDistinct(rest)
    && MergeAll(items, rest) == MergeAll(items0, clusters)
    && renames + RenameAll(items, rest) == RenameAll(items0, clusters)
  }

  lemma UnderwayMerged(items0: seq<Item>, clusters: seq<Cluster>, items: seq<Item>, rest: seq<Cluster>, renames: map<string, Value>)
    requires AllInRange(items0, clusters) && Underway(items0, clusters, items, rest, renames)
    requires rest != [] && rest[0].others != []
    ensures InRange(items, rest[0].Members())
    ensures Underway(items0, clusters, MergeCluster(items, rest[0]), rest[1..], renames + Renames(items, rest[0]))
  {
    InRangeRest(items, rest);
    MergeNext(items, rest, renames);
  }

  lemma UnderwaySkipped(items0: seq<Item>, clusters: seq<Cluster>, items: seq<Item>, rest: seq<Cluster>, renames: map<string, Value>)
    requires AllInRange(items0, clusters) && Underway(items0, clusters, items, rest, renames)
    requires rest != [] && rest[0].others == []
    ensures Underway(items0, clusters, items, rest[1..], renames)
  {
    InRangeRest(items, rest);
  }

  method MergeClusters(list: ItemList, clusters: seq<Cluster>) returns (renames: map<string, Value>)
    requires AllInRange(list.items, clusters) && AllDistinct(clusters)
    modifies list
    ensures list.items == MergeAll(old(list.items), clusters)
    ensures renames == RenameAll(old(list.items), clusters)
  {
    renames := map[];
    var rest := clusters;
    while rest != []
      invariant Underway(old(list.items), clusters, list.items, rest, renames)
      decreases |rest|
    {
      var c := rest[0];
      if c.others != [] {
        UnderwayMerged(old(list.items), clusters, list.items, rest, renames);
        renames := MergeOne(list, c, renames);
      } else {
        UnderwaySkipped(old(list.items), clusters, list.items, rest, renames);
      }
      rest := rest[1..];
    }
  }

  /** With no two names to compare there is nothing to merge. */
  lemma FewNames(norm: Normalizer, items: seq<Item>, keys: seq<string>)
    requires |NamedFrom(items, keys, 0)| < 2
    ensures AllInRange(items, Clusters(norm, items, keys))
    ensures MergeAll(items, Clusters(norm, items, keys)) == items && RenameAll(items, Clusters(norm, items, keys)) == map[]
  {
    ClustersAreSound(norm, items, keys);
    var named := NamedFrom(items, keys, 0);
    if named != [] {
      assert named == [named[0]] && named[1..] == [];
      assert LongestFirst(named) == [named[0]];
      AssignAllOne(norm, [], named[0]);
      var one := Cluster(named[0], []);
      assert Clusters(norm, items, keys) == [one] && [one][1..] == [];
    }
  }

  lemma {:induction false} FewItems(items: seq<Item>, keys: seq<string>, i: nat)
    requires i <= |items|
    ensures |NamedFrom(items, keys, i)| <= |items| - i
    decreases |items| - i
  {
    if i < |items| {
      FewItems(items, keys, i + 1);
      assert |NamedFrom(items, keys, i)| <= 1 + |NamedFrom(items, keys, i + 1)|;
    }
  }

  /** Clusters similar items of a list, merges each cluster in place and says which name became which. */
  method ResolveList(norm: Normalizer, list: ItemList, keys: seq<string>) returns (renames: map<string, Value>)
    modifies list
    ensures var clusters := Clusters(norm, old(list.items), keys);
      && AllInRange(old(list.items), clusters)
      && list.items == MergeAll(old(list.items), clusters)
      && renames == RenameAll(old(list.items), clusters)
  {
    FewItems(list.items, keys, 0);
    if |list.items| < 2 {
      FewNames(norm, list.items, keys);
      return map[];
    }
    var named := NamedItems(list.items, keys);
    if |named| < 2 {
      FewNames(norm, list.items, keys);
      return map[];
    }
    var clusters := GrowClusters(norm, LongestFirst(named));
    ClustersAreSound(norm, list.items, keys);
    ClusterIndicesDistinct(norm, list.items, keys);
    renames := MergeClusters(list, clusters);
  }

  // ------------------------------------------------------------------- cross-references

  /** The item with its reference renamed. */
  function Refer(item: Item, field: string, renames: map<string, Value>): Item {
    var current := Get(item, field);
    if Redirect(renames, current) == current then item else item[field := Redirect(renames, current)]
  }

  function ReferAll(items: seq<Item>, field: string, renames: map<string, Value>): (r: seq<Item>)
    ensures |r| == |items|
  {
    seq(|items|, i requires 0 <= i < |items| => Refer(items[i], field, renames))
  }

  method UpdateCrossReferences(list: ItemList, field: string, renames: map<string, Value>)
    modifies list
    ensures list.items == ReferAll(old(list.items), field, renames)
  {
    var i := 0;
    while i < |list.items|
      invariant 0 <= i <= |list.items| && |list.items| == |old(list.items)|
      invariant forall k :: 0 <= k < i ==> list.items[k] == Refer(old(list.items)[k], field, renames)
      invariant forall k :: i <= k < |list.items| ==> list.items[k] == old(list.items)[k]
    {
      var item := list.items[i];
      var current := Get(item, field);
      if current.Text? && current.text != "" && current.text in renames {
        list.items := list.items[i := item[field := renames[current.text]]];
        assert item[field := current] == item;
      }
      i := i + 1;
    }
  }

  // --------------------------------------------------------------------- deduplication

  predicate Drops(item: Item, keys: seq<string>, seen: set<string>) {
    var key := FirstValue(item - {MERGED}, keys);
    Get(item, MERGED).Truthy() || (key.Some? && key.value in seen)
  }

  function Seen(item: Item, keys: seq<string>, seen: set<string>): set<string> {
    var key := FirstValue(item - {MERGED}, keys);
    if key.Some? then seen + {key.value} else seen
  }

  /** One more item considered, after those in `done`. */
  lemma DedupNext(done: seq<Item>, item: Item, rest: seq<Item>, keys: seq<string>, seen: set<string>)
    ensures done + Dedup([item] + rest, keys, seen) ==
      if Drops(item, keys, seen) then done + Dedup(rest, keys, seen)
      else (done + [item - {MERGED}]) + Dedup(rest, keys, Seen(item, keys, seen))
  {
    assert ([item] + rest)[1..] == rest;
  }

  lemma Parts(items: seq<Item>, i: nat, unmarked: Item)
    requires i < |items|
    ensures items[i..] == [items[i]] + items[i + 1..]
    ensures items[i := unmarked][..i] == items[..i] && items[i := unmarked][i + 1..] == items[i + 1..]
    ensures items[i := unmarked][..i + 1] == items[..i] + [unmarked]
    ensures var popped := items[i := unmarked][..i] + items[i := unmarked][i + 1..];
      popped[..i] == items[..i] && popped[i..] == items[i + 1..]
  {
  }

  /** The items up to `i` are as they will stay, and those from there on are still to be looked at. */
  ghost predicate Looked(before: seq<Item>, items: seq<Item>, i: nat, keys: seq<string>, seen: set<string>)
    requires i <= |items|
  {
    Dedup(before, keys, {}) == items[..i] + Dedup(items[i..], keys, seen)
  }

  lemma LookedNext(before: seq<Item>, items: seq<Item>, i: nat, keys: seq<string>, seen: set<string>)
    requires i < |items| && Looked(before, items, i, keys, seen)
    ensures var unmarked := items[i := items[i] - {MERGED}];
      if Drops(items[i], keys, seen) then Looked(before, unmarked[..i] + unmarked[i + 1..], i, keys, seen)
      else Looked(before, unmarked, i + 1, keys, Seen(items[i], keys, seen))
  {
    DedupNext(items[..i], items[i], items[i + 1..], keys, seen);
    Parts(items, i, items[i] - {MERGED});
  }

  /** Pops merged and repeated items where they stand; the others lose their marker. */
  method DeduplicateList(list: ItemList, keys: seq<string>)
    modifies list
    ensures list.items == Dedup(old(list.items), keys, {})
  {
    var seen: set<string> := {};
    var i := 0;
    while i < |list.items|
      invariant 0 <= i <= |list.items|
      invariant Looked(old(list.items), list.items, i, keys, seen)
      decreases |list.items| - i
    {
      var item := list.items[i];
      LookedNext(old(list.items), list.items, i, keys, seen);
      list.items := list.items[i := item - {MERGED}];
      var key := FirstValue(list.items[i], keys);
      if Get(item, MERGED).Truthy() || (key.Some? && key.value in seen) {
        list.items := list.items[..i] + list.items[i + 1..];
        continue;
      }
      if key.Some? {
        seen := seen + {key.value};
      }
      i := i + 1;
    }
    assert list.items[..i] == list.items;
  }

  // ------------------------------------------------------------------------- the whole

  /** Pricing after services have been resolved. */
  function PricingAfter(norm: Normalizer, services: seq<Item>, pricing: seq<Item>): seq<Item> {
    Dedup(ReferAll(pricing, "service_name", RenameMap(norm, services)), PRICING_KEYS, {})
  }

  /** No two prices left name the same service. */
  lemma PricesApart(norm: Normalizer, services: seq<Item>, pricing: seq<Item>)
    ensures var left := PricingAfter(norm, services, pricing);
      forall i, j :: 0 <= i < j < |left| && Shows(left[i], "service_name") && Shows(left[j], "service_name") ==>
        Strip(Get(left[i], "service_name").Show()) != Strip(Get(left[j], "service_name").Show())
  {
    var referred := ReferAll(pricing, "service_name", RenameMap(norm, services));
    var left := Dedup(referred, PRICING_KEYS, {});
    DedupDistinct(referred, PRICING_KEYS, {});
    forall i | 0 <= i < |left| && Shows(left[i], "service_name")
      ensures FirstValue(left[i], PRICING_KEYS) == Some(Strip(Get(left[i], "service_name").Show()))
    {
    }
  }

  lemma NothingToRename(items: seq<Item>, field: string)
    ensures ReferAll(items, field, map[]) == items
  {
  }

  /** Resolves the services and carries the new names over to the pricing. */
  method Resolve(norm: Normalizer, services: ItemList, pricing: ItemList)
    requires services != pricing
    modifies services, pricing
    ensures services.items == Resolved(norm, old(services.items))
    ensures pricing.items == PricingAfter(norm, old(services.items), old(pricing.items))
  {
    ClustersAreSound(norm, services.items, SERVICE_KEYS);
    var renames := map[];
    if services.items != [] {
      renames := ResolveList(norm, services, SERVICE_KEYS);
    }
    if renames != map[] {
      UpdateCrossReferences(pricing, "service_name", renames);
    } else {
      NothingToRename(pricing.items, "service_name");
    }
    if services.items != [] {
      DeduplicateList(services, SERVICE_KEYS);
    }
    if pricing.items != [] {
      DeduplicateList(pricing, PRICING_KEYS);
    }
  }

  /**
   * Every price left stems from a price there was before, and unless that one's reference is lost, it names a
   * surviving service if it named one before.
   */
  lemma PricesStillRefer(norm: Normalizer, services: seq<Item>, pricing: seq<Item>, r: Item) returns (i: nat)
    requires Clean(services) && r in PricingAfter(norm, services, pricing)
    ensures i < |pricing| && r == Refer(pricing[i], "service_name", RenameMap(norm, services)) - {MERGED}
    ensures var before := Get(pricing[i], "service_name");
      before.Text? && SomeNamed(services, SERVICE_KEYS, Strip(before.text)) ==>
        (SomeNamed(Resolved(norm, services), SERVICE_KEYS, Strip(Get(r, "service_name").Show()))
         <==> !Lost(RenameMap(norm, services), before.text))
  {
    var renames := RenameMap(norm, services);
    var referred := ReferAll(pricing, "service_name", renames);
    DedupOnlyDrops(referred, PRICING_KEYS, {}, r);
    i :| 0 <= i < |referred| && !Get(referred[i], MERGED).Truthy() && r == referred[i] - {MERGED};
    var before := Get(pricing[i], "service_name");
    assert Get(r, "service_name") == Redirect(renames, before);
    if before.Text? && SomeNamed(services, SERVICE_KEYS, Strip(before.text)) {
      ReferencesSurvive(norm, services, before.text);
    }
  }
}
