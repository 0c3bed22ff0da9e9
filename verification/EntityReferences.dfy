/** Resolving services end to end: what survives, and whether pricing still refers to it. */
module EntityReferences {
  import opened Common
  import opened Values
  import opened EntityModel
  import opened EntityMerge
  import opened EntityDedup

  const SERVICE_KEYS := ["name"]
  const PRICING_KEYS := ["service_name"]

  /** The marker is the resolver's own; parsers do not produce it. */
  predicate Clean(items: seq<Item>) {
    forall i :: 0 <= i < |items| ==> MERGED !in items[i]
  }

  // ----------------------------------------------------------- the clusters of a list

  lemma MemberIsNamed(norm: Normalizer, items: seq<Item>, keys: seq<string>, k: nat, x: Named)
    requires k < |Clusters(norm, items, keys)| && x in Clusters(norm, items, keys)[k].Members()
    ensures HasName(items, keys, x)
  {
    ClustersPartition(norm, items, keys, x);
    FlattenHas(Clusters(norm, items, keys), x);
    assert x in multiset(Flatten(Clusters(norm, items, keys)));
  }

  lemma NamedIsMember(norm: Normalizer, items: seq<Item>, keys: seq<string>, x: Named) returns (k: nat)
    requires HasName(items, keys, x)
    ensures k < |Clusters(norm, items, keys)| && x in Clusters(norm, items, keys)[k].Members()
  {
    var clusters := Clusters(norm, items, keys);
    ClustersPartition(norm, items, keys, x);
    assert x in multiset(Flatten(clusters));
    FlattenHas(clusters, x);
    k :| 0 <= k < |clusters| && x in clusters[k].Members();
  }

  lemma SameCluster(norm: Normalizer, items: seq<Item>, keys: seq<string>, j: nat, k: nat, x: Named, y: Named)
    requires var clusters := Clusters(norm, items, keys);
      j < |clusters| && k < |clusters| && x in clusters[j].Members() && y in clusters[k].Members()
    requires x.name == y.name || x.index == y.index
    ensures j == k
  {
    MemberIsNamed(norm, items, keys, j, x);
    MemberIsNamed(norm, items, keys, k, y);
    ClustersPartition(norm, items, keys, x);
    EqualNamesTogether(norm, Clusters(norm, items, keys), j, k, x, y);
  }

  /** The clusters of a list are what merging needs: in range, and sharing neither items nor names. */
  lemma ClustersAreSound(norm: Normalizer, items: seq<Item>, keys: seq<string>)
    ensures var clusters := Clusters(norm, items, keys);
      AllInRange(items, clusters) && Disjoint(clusters) && NamesApart(clusters)
  {
    var clusters := Clusters(norm, items, keys);
    forall c, m | c in clusters && m in c.Members() ensures m.index < |items| {
      var k :| 0 <= k < |clusters| && clusters[k] == c;
      MemberIsNamed(norm, items, keys, k, m);
    }
    forall j, k | 0 <= j < k < |clusters|
      ensures Apart(clusters[j], clusters[k]) && Names(clusters[j].Members()) !! Names(clusters[k].Members())
    {
      forall x, y | x in clusters[j].Members() && y in clusters[k].Members()
        ensures x.index != y.index && x.name != y.name
      {
        if x.index == y.index || x.name == y.name {
          SameCluster(norm, items, keys, j, k, x, y);
        }
      }
    }
  }

  // --------------------------------------------------------------- what is left of them

  /** The item at `i` is merged into another one. */
  ghost predicate Variant(items: seq<Item>, clusters: seq<Cluster>, i: nat)
    requires AllInRange(items, clusters)
  {
    exists k :: 0 <= k < |clusters| && clusters[k].others != []
      && IndexIn(i, clusters[k].Members()) && i != Canonical(items, clusters[k]).index
  }

  lemma NameValue(item: Item)
    ensures FirstValue(item, SERVICE_KEYS) ==
      if Get(item, "name").Truthy() && Strip(Get(item, "name").Show()) != "" then Some(Strip(Get(item, "name").Show())) else None
  {
    assert SERVICE_KEYS[1..] == [];
  }

  /** Enriching the canonical item keeps its name and brings in no marker. */
  lemma EnrichedName(items: seq<Item>, c: Cluster)
    requires Clean(items) && InRange(items, c.Members())
    requires Get(items[Canonical(items, c).index], "name").Truthy()
    ensures var r := Enriched(Rows(items, c.Members()));
      !Get(r, MERGED).Truthy() && Get(r, "name") == Get(items[Canonical(items, c).index], "name")
  {
    var rows := Rows(items, c.Members());
    EnrichedIsUnion(rows, MERGED);
    EnrichedIsUnion(rows, "name");
    assert rows[Richest(rows)] == items[Canonical(items, c).index];
  }

  lemma VariantOf(items: seq<Item>, clusters: seq<Cluster>, k: nat, i: nat)
    requires AllInRange(items, clusters) && Disjoint(clusters)
    requires k < |clusters| && IndexIn(i, clusters[k].Members())
    ensures Variant(items, clusters, i) <==> clusters[k].others != [] && i != Canonical(items, clusters[k]).index
  {
    forall j | 0 <= j < |clusters| && IndexIn(i, clusters[j].Members()) ensures j == k {
    }
  }

  lemma AfterInside(items: seq<Item>, clusters: seq<Cluster>, k: nat, i: nat)
    requires AllInRange(items, clusters) && Disjoint(clusters) && Clean(items) && i < |items|
    requires k < |clusters| && IndexIn(i, clusters[k].Members())
    requires Get(items[Canonical(items, clusters[k]).index], "name").Truthy()
    ensures var variant := clusters[k].others != [] && i != Canonical(items, clusters[k]).index;
      && (Get(MergeAll(items, clusters)[i], MERGED).Truthy() <==> variant)
      && (!variant ==> Get(MergeAll(items, clusters)[i], "name") == Get(items[i], "name"))
  {
    MergeAllInside(items, clusters, k, i);
    MergeClusterAt(items, clusters[k], i);
    EnrichedName(items, clusters[k]);
  }

  lemma CanonicalIsNamed(norm: Normalizer, items: seq<Item>, k: nat)
    requires k < |Clusters(norm, items, SERVICE_KEYS)|
    ensures var c := Clusters(norm, items, SERVICE_KEYS)[k];
      && InRange(items, c.Members()) && Canonical(items, c) in c.Members()
      && HasName(items, SERVICE_KEYS, Canonical(items, c))
      && Get(items[Canonical(items, c).index], "name").Truthy()
      && NewName(items, c) == Get(items[Canonical(items, c).index], "name")
      && Strip(NewName(items, c).Show()) == Canonical(items, c).name
  {
    var c := Clusters(norm, items, SERVICE_KEYS)[k];
    ClustersAreSound(norm, items, SERVICE_KEYS);
    MemberIsNamed(norm, items, SERVICE_KEYS, k, Canonical(items, c));
    NameValue(items[Canonical(items, c).index]);
  }

  lemma SameName(before: Item, after: Item)
    requires Get(after, "name") == Get(before, "name")
    ensures FirstValue(after - {MERGED}, SERVICE_KEYS) == FirstValue(before, SERVICE_KEYS)
  {
    NameValue(before);
    NameValue(after - {MERGED});
    assert Get(after - {MERGED}, "name") == Get(after, "name");
  }

  lemma AfterMergingFields(norm: Normalizer, items: seq<Item>, i: nat)
    requires Clean(items) && i < |items|
    ensures var clusters := Clusters(norm, items, SERVICE_KEYS);
      && AllInRange(items, clusters)
      && (Get(MergeAll(items, clusters)[i], MERGED).Truthy() <==> Variant(items, clusters, i))
      && (!Variant(items, clusters, i) ==> Get(MergeAll(items, clusters)[i], "name") == Get(items[i], "name"))
  {
    var clusters := Clusters(norm, items, SERVICE_KEYS);
    ClustersAreSound(norm, items, SERVICE_KEYS);
    if k :| 0 <= k < |clusters| && IndexIn(i, clusters[k].Members()) {
      CanonicalIsNamed(norm, items, k);
      VariantOf(items, clusters, k, i);
      AfterInside(items, clusters, k, i);
    } else {
      MergeAllOutside(items, clusters, i);
    }
  }

  /** After merging, an item is marked if it is a variant, and otherwise has the name it had. */
  lemma AfterMerging(norm: Normalizer, items: seq<Item>, i: nat)
    requires Clean(items) && i < |items|
    ensures var clusters := Clusters(norm, items, SERVICE_KEYS);
      && AllInRange(items, clusters)
      && (Get(MergeAll(items, clusters)[i], MERGED).Truthy() <==> Variant(items, clusters, i))
      && (!Variant(items, clusters, i) ==>
           FirstValue(MergeAll(items, clusters)[i] - {MERGED}, SERVICE_KEYS) == FirstValue(items[i], SERVICE_KEYS))
  {
    var clusters := Clusters(norm, items, SERVICE_KEYS);
    AfterMergingFields(norm, items, i);
    if !Variant(items, clusters, i) {
      SameName(items[i], MergeAll(items, clusters)[i]);
    }
  }

  /** Some service of this name was not merged into another. */
  ghost predicate NamedAndKept(items: seq<Item>, clusters: seq<Cluster>, s: string)
    requires AllInRange(items, clusters)
  {
    exists i :: 0 <= i < |items| && !Variant(items, clusters, i) && FirstValue(items[i], SERVICE_KEYS) == Some(s)
  }

  /** The services left after clustering, merging and deduplication. */
  function Resolved(norm: Normalizer, items: seq<Item>): seq<Item> {
    ClustersAreSound(norm, items, SERVICE_KEYS);
    Dedup(MergeAll(items, Clusters(norm, items, SERVICE_KEYS)), SERVICE_KEYS, {})
  }

  function RenameMap(norm: Normalizer, items: seq<Item>): map<string, Value> {
    ClustersAreSound(norm, items, SERVICE_KEYS);
    RenameAll(items, Clusters(norm, items, SERVICE_KEYS))
  }

  /** A name is left just when an item with that name was not merged into another. */
  lemma NamesLeft(norm: Normalizer, items: seq<Item>, s: string)
    requires Clean(items)
    ensures var clusters := Clusters(norm, items, SERVICE_KEYS);
      && AllInRange(items, clusters)
      && (SomeNamed(Resolved(norm, items), SERVICE_KEYS, s) <==> NamedAndKept(items, clusters, s))
  {
    var clusters := Clusters(norm, items, SERVICE_KEYS);
    ClustersAreSound(norm, items, SERVICE_KEYS);
    var after := MergeAll(items, clusters);
    DedupKeys(after, SERVICE_KEYS, {}, s);
    if NamedAndKept(items, clusters, s) {
      var i :| 0 <= i < |items| && !Variant(items, clusters, i) && FirstValue(items[i], SERVICE_KEYS) == Some(s);
      AfterMerging(norm, items, i);
      assert KeptNamed(after, SERVICE_KEYS, s);
    }
    if KeptNamed(after, SERVICE_KEYS, s) {
      var i :| 0 <= i < |after| && !Get(after[i], MERGED).Truthy() && FirstValue(after[i] - {MERGED}, SERVICE_KEYS) == Some(s);
      AfterMerging(norm, items, i);
      assert NamedAndKept(items, clusters, s);
    }
  }

  /** In a cluster that is merged, the only name that stays is that of the canonical item. */
  lemma NamesKeptInCluster(norm: Normalizer, items: seq<Item>, k: nat, x: Named)
    requires var clusters := Clusters(norm, items, SERVICE_KEYS);
      k < |clusters| && clusters[k].others != [] && x in clusters[k].Members()
    ensures var clusters := Clusters(norm, items, SERVICE_KEYS);
      && AllInRange(items, clusters)
      && (NamedAndKept(items, clusters, x.name) <==> Canonical(items, clusters[k]).name == x.name)
  {
    var clusters := Clusters(norm, items, SERVICE_KEYS);
    ClustersAreSound(norm, items, SERVICE_KEYS);
    MemberIsNamed(norm, items, SERVICE_KEYS, k, x);
    CanonicalIsNamed(norm, items, k);
    var can := Canonical(items, clusters[k]);
    VariantOf(items, clusters, k, can.index);
    if NamedAndKept(items, clusters, x.name) {
      var i :| 0 <= i < |items| && !Variant(items, clusters, i) && FirstValue(items[i], SERVICE_KEYS) == Some(x.name);
      var j := NamedIsMember(norm, items, SERVICE_KEYS, Named(i, x.name));
      SameCluster(norm, items, SERVICE_KEYS, j, k, Named(i, x.name), x);
      assert IndexIn(i, clusters[k].Members());
      VariantOf(items, clusters, k, i);
    }
  }

  // -------------------------------------------------------------------- references

  /** What a reference becomes under the rename map. */
  function Redirect(renames: map<string, Value>, reference: Value): Value {
    if reference.Text? && reference.text != "" && reference.text in renames then renames[reference.text] else reference
  }

  /** A reference is lost when it names, untrimmed, a service that is merged under another name. */
  predicate Lost(renames: map<string, Value>, r: string) {
    var s := Strip(r);
    r !in renames && s in renames && Strip(renames[s].Show()) != s
  }

  /** The keys of the rename map are trimmed names of services. */
  lemma RenamedIsMember(norm: Normalizer, items: seq<Item>, r: string) returns (k: nat)
    requires r in RenameMap(norm, items)
    ensures Strip(r) == r
    ensures var clusters := Clusters(norm, items, SERVICE_KEYS); k < |clusters| && r in Names(clusters[k].Members())
  {
    var clusters := Clusters(norm, items, SERVICE_KEYS);
    ClustersAreSound(norm, items, SERVICE_KEYS);
    if forall j :: 0 <= j < |clusters| ==> r !in Names(clusters[j].Members()) {
      RenameOutside(items, clusters, r);
    }
    k :| 0 <= k < |clusters| && r in Names(clusters[k].Members());
    var x :| x in clusters[k].Members() && x.name == r;
    MemberIsNamed(norm, items, SERVICE_KEYS, k, x);
  }

  /** Names too short to compare are neither renamed nor removed. */
  lemma ShortNamesStay(norm: Normalizer, items: seq<Item>, i: nat, s: string)
    requires Clean(items) && i < |items| && FirstValue(items[i], SERVICE_KEYS) == Some(s) && |s| < MIN_NAME_LENGTH
    ensures s !in RenameMap(norm, items) && SomeNamed(Resolved(norm, items), SERVICE_KEYS, s)
  {
    var clusters := Clusters(norm, items, SERVICE_KEYS);
    ClustersAreSound(norm, items, SERVICE_KEYS);
    if s in RenameMap(norm, items) {
      var k := RenamedIsMember(norm, items, s);
      var x :| x in clusters[k].Members() && x.name == s;
      MemberIsNamed(norm, items, SERVICE_KEYS, k, x);
    }
    if Variant(items, clusters, i) {
      var k, m :| 0 <= k < |clusters| && m in clusters[k].Members() && m.index == i;
      MemberIsNamed(norm, items, SERVICE_KEYS, k, m);
    }
    NamesLeft(norm, items, s);
  }

  /** A name in a cluster stays unless the cluster is merged under another name; then it is renamed to that one. */
  lemma ClusteredName(norm: Normalizer, items: seq<Item>, k: nat, x: Named)
    requires Clean(items)
    requires k < |Clusters(norm, items, SERVICE_KEYS)| && x in Clusters(norm, items, SERVICE_KEYS)[k].Members()
    ensures var renames := RenameMap(norm, items);
      && (SomeNamed(Resolved(norm, items), SERVICE_KEYS, x.name) <==>
           x.name !in renames || Strip(renames[x.name].Show()) == x.name)
      && (x.name in renames ==> SomeNamed(Resolved(norm, items), SERVICE_KEYS, Strip(renames[x.name].Show())))
  {
    var clusters := Clusters(norm, items, SERVICE_KEYS);
    ClustersAreSound(norm, items, SERVICE_KEYS);
    CanonicalIsNamed(norm, items, k);
    MemberIsNamed(norm, items, SERVICE_KEYS, k, x);
    RenameInside(items, clusters, k, x.name);
    var can := Canonical(items, clusters[k]);
    NamesLeft(norm, items, x.name);
    NamesLeft(norm, items, can.name);
    if clusters[k].others == [] {
      VariantOf(items, clusters, k, x.index);
    } else {
      NamesKeptInCluster(norm, items, k, x);
      NamesKeptInCluster(norm, items, k, can);
    }
  }

  /**
   * A reference that named a service names a surviving one after the rename, exactly when it is not lost.
   */
  lemma ReferencesSurvive(norm: Normalizer, items: seq<Item>, r: string)
    requires Clean(items) && SomeNamed(items, SERVICE_KEYS, Strip(r))
    ensures var renames := RenameMap(norm, items);
      SomeNamed(Resolved(norm, items), SERVICE_KEYS, Strip(Redirect(renames, Text(r)).Show())) <==> !Lost(renames, r)
  {
    var s, renames := Strip(r), RenameMap(norm, items);
    var i :| 0 <= i < |items| && FirstValue(items[i], SERVICE_KEYS) == Some(s);
    if r in renames {
      var k := RenamedIsMember(norm, items, r);
    }
    if |s| < MIN_NAME_LENGTH {
      ShortNamesStay(norm, items, i, s);
    } else {
      var k := NamedIsMember(norm, items, SERVICE_KEYS, Named(i, s));
      ClusteredName(norm, items, k, Named(i, s));
    }
  }

  /** The name is in a cluster that is merged, and not that of its canonical item. */
  ghost predicate MergedAway(items: seq<Item>, clusters: seq<Cluster>, s: string)
    requires AllInRange(items, clusters)
  {
    exists k :: 0 <= k < |clusters| && MergedIn(items, clusters[k], s)
  }

  predicate MergedIn(items: seq<Item>, c: Cluster, s: string)
    requires InRange(items, c.Members())
  {
    c.others != [] && s in Names(c.Members()) && Canonical(items, c).name != s
  }

  lemma RenamedIff(norm: Normalizer, items: seq<Item>, k: nat, s: string)
    requires Strip(s) == s && k < |Clusters(norm, items, SERVICE_KEYS)|
    requires s in Names(Clusters(norm, items, SERVICE_KEYS)[k].Members())
    ensures var c, renames := Clusters(norm, items, SERVICE_KEYS)[k], RenameMap(norm, items);
      && InRange(items, c.Members())
      && (s in renames && Strip(renames[s].Show()) != s <==> MergedIn(items, c, s))
  {
    ClustersAreSound(norm, items, SERVICE_KEYS);
    CanonicalIsNamed(norm, items, k);
    RenameInside(items, Clusters(norm, items, SERVICE_KEYS), k, s);
  }

  /** In terms of the services: a reference is lost exactly if it is untrimmed and names, trimmed, one merged away. */
  lemma LostIff(norm: Normalizer, items: seq<Item>, r: string)
    ensures var clusters := Clusters(norm, items, SERVICE_KEYS);
      AllInRange(items, clusters)
      && (Lost(RenameMap(norm, items), r) <==> Strip(r) != r && MergedAway(items, clusters, Strip(r)))
  {
    var s, renames, clusters := Strip(r), RenameMap(norm, items), Clusters(norm, items, SERVICE_KEYS);
    ClustersAreSound(norm, items, SERVICE_KEYS);
    StripTwice(r);
    if Lost(renames, r) {
      var k := RenamedIsMember(norm, items, s);
      RenamedIff(norm, items, k, s);
    }
    if Strip(r) != r && MergedAway(items, clusters, s) {
      var k :| 0 <= k < |clusters| && MergedIn(items, clusters[k], s);
      RenamedIff(norm, items, k, s);
      if r in renames {
        var j := RenamedIsMember(norm, items, r);
      }
    }
  }

  /** In particular a trimmed reference always survives, however short the name. */
  lemma TrimmedReferencesSurvive(norm: Normalizer, items: seq<Item>, r: string)
    requires Clean(items) && Strip(r) == r && SomeNamed(items, SERVICE_KEYS, r)
    ensures SomeNamed(Resolved(norm, items), SERVICE_KEYS, Strip(Redirect(RenameMap(norm, items), Text(r)).Show()))
  {
    ReferencesSurvive(norm, items, r);
  }

  /** Surviving services have pairwise distinct names. */
  lemma SurvivorsDistinct(norm: Normalizer, items: seq<Item>)
    ensures DistinctKeys(Resolved(norm, items), SERVICE_KEYS)
  {
    ClustersAreSound(norm, items, SERVICE_KEYS);
    DedupDistinct(MergeAll(items, Clusters(norm, items, SERVICE_KEYS)), SERVICE_KEYS, {});
  }

  lemma SomeRowFills(items: seq<Item>, c: Cluster, f: string)
    requires InRange(items, c.Members())
    ensures var rows := Rows(items, c.Members());
      (exists p :: 0 <= p < |rows| && Get(rows[p], f).Filled())
      <==> exists m :: m in c.Members() && Get(items[m.index], f).Filled()
  {
    var members, rows := c.Members(), Rows(items, c.Members());
    if p :| 0 <= p < |rows| && Get(rows[p], f).Filled() {
      assert members[p] in members;
    }
    if m :| m in members && Get(items[m.index], f).Filled() {
      var p :| 0 <= p < |members| && members[p] == m;
      assert Get(rows[p], f).Filled();
    }
  }

  lemma OutcomeFields(items: seq<Item>, c: Cluster, f: string)
    requires InRange(items, c.Members())
    ensures Canonical(items, c) in c.Members()
    ensures var r := Outcome(items, c, Canonical(items, c).index);
      && (Get(r, f).Filled() <==> exists m :: m in c.Members() && Get(items[m.index], f).Filled())
      && (Get(items[Canonical(items, c).index], f).Filled() ==> Get(r, f) == Get(items[Canonical(items, c).index], f))
  {
    var rows := Rows(items, c.Members());
    MergeClusterAt(items, c, Canonical(items, c).index);
    EnrichedIsUnion(rows, f);
    SomeRowFills(items, c, f);
    if c.others == [] {
      assert c.Members() == [c.seed] && c.seed in c.Members();
    }
  }

  lemma CanonicalAfter(norm: Normalizer, items: seq<Item>, k: nat, f: string)
    requires k < |Clusters(norm, items, SERVICE_KEYS)| && f != MERGED
    ensures var clusters := Clusters(norm, items, SERVICE_KEYS);
      && AllInRange(items, clusters)
      && var can := Canonical(items, clusters[k]).index;
      && var r := MergeAll(items, clusters)[can] - {MERGED};
      && (Get(r, f).Filled() <==> exists m :: m in clusters[k].Members() && Get(items[m.index], f).Filled())
      && (Get(items[can], f).Filled() ==> Get(r, f) == Get(items[can], f))
  {
    var clusters := Clusters(norm, items, SERVICE_KEYS);
    ClustersAreSound(norm, items, SERVICE_KEYS);
    OutcomeFields(items, clusters[k], f);
    MergeAllInside(items, clusters, k, Canonical(items, clusters[k]).index);
  }

  /** No other item left has the name of a canonical item. */
  lemma CanonicalAlone(norm: Normalizer, items: seq<Item>, k: nat, j: nat)
    requires Clean(items) && k < |Clusters(norm, items, SERVICE_KEYS)| && j < |items|
    ensures var clusters := Clusters(norm, items, SERVICE_KEYS);
      && AllInRange(items, clusters)
      && var can, after := Canonical(items, clusters[k]), MergeAll(items, clusters);
      && FirstValue(after[can.index] - {MERGED}, SERVICE_KEYS) == Some(can.name)
      && !Get(after[can.index], MERGED).Truthy()
      && (!Get(after[j], MERGED).Truthy() && j != can.index ==> FirstValue(after[j] - {MERGED}, SERVICE_KEYS) != Some(can.name))
  {
    var clusters := Clusters(norm, items, SERVICE_KEYS);
    ClustersAreSound(norm, items, SERVICE_KEYS);
    CanonicalIsNamed(norm, items, k);
    var can := Canonical(items, clusters[k]);
    VariantOf(items, clusters, k, can.index);
    AfterMerging(norm, items, can.index);
    AfterMerging(norm, items, j);
    if !Variant(items, clusters, j) && j != can.index && FirstValue(items[j], SERVICE_KEYS) == Some(can.name) {
      var k1 := NamedIsMember(norm, items, SERVICE_KEYS, Named(j, can.name));
      SameCluster(norm, items, SERVICE_KEYS, k1, k, Named(j, can.name), can);
      assert IndexIn(j, clusters[k].Members());
      VariantOf(items, clusters, k, j);
    }
  }

  /**
   * The first of the richest items of every cluster survives, under its own name; a field of it is filled exactly when
   * some member of the cluster filled it, and its own filled fields are as they were.
   */
  lemma CanonicalSurvives(norm: Normalizer, items: seq<Item>, k: nat) returns (r: Item)
    requires Clean(items) && k < |Clusters(norm, items, SERVICE_KEYS)|
    ensures var clusters := Clusters(norm, items, SERVICE_KEYS);
      && AllInRange(items, clusters)
      && var can := Canonical(items, clusters[k]);
      && (exists b :: RichestAt(items, clusters[k].Members(), b) && clusters[k].Members()[b] == can)
      && r in Resolved(norm, items) && FirstValue(r, SERVICE_KEYS) == Some(can.name)
      && forall f :: f != MERGED ==>
           && (Get(r, f).Filled() <==> exists m :: m in clusters[k].Members() && Get(items[m.index], f).Filled())
           && (Get(items[can.index], f).Filled() ==> Get(r, f) == Get(items[can.index], f))
  {
    var clusters := Clusters(norm, items, SERVICE_KEYS);
    ClustersAreSound(norm, items, SERVICE_KEYS);
    var can, after := Canonical(items, clusters[k]), MergeAll(items, clusters);
    assert can in clusters[k].Members();
    var b := CanonicalIsRichest(items, clusters[k]);
    r := after[can.index] - {MERGED};
    forall f | f != MERGED
      ensures Get(r, f).Filled() <==> exists m :: m in clusters[k].Members() && Get(items[m.index], f).Filled()
      ensures Get(items[can.index], f).Filled() ==> Get(r, f) == Get(items[can.index], f)
    {
      CanonicalAfter(norm, items, k, f);
    }
    CanonicalAlone(norm, items, k, can.index);
    forall j | 0 <= j < |after| && j != can.index && !Get(after[j], MERGED).Truthy()
      ensures FirstValue(after[j] - {MERGED}, SERVICE_KEYS) != Some(can.name)
    {
      CanonicalAlone(norm, items, k, j);
    }
    DedupKeeps(after, SERVICE_KEYS, {}, can.index);
  }

  /** A trailing space is all that trimming takes off. */
  lemma StripTrailing(s: string)
    requires s != "" && Strip(s) == s
    ensures Strip(s + " ") == s
  {
    assert (s + " ")[..|s|] == s;
  }

  /** A reference names a service before resolution, and none after it. */
  ghost predicate Loses(norm: Normalizer, items: seq<Item>, r: string) {
    && SomeNamed(items, SERVICE_KEYS, Strip(r))
    && !SomeNamed(Resolved(norm, items), SERVICE_KEYS, Strip(Redirect(RenameMap(norm, items), Text(r)).Show()))
  }

  /** Every name that is renamed to another one leaves behind a lost reference: itself with a trailing space. */
  lemma PaddedReferenceLost(norm: Normalizer, items: seq<Item>, s: string)
    requires Clean(items) && s in RenameMap(norm, items) && Strip(RenameMap(norm, items)[s].Show()) != s
    ensures Loses(norm, items, s + " ")
  {
    var k := RenamedIsMember(norm, items, s);
    var x :| x in Clusters(norm, items, SERVICE_KEYS)[k].Members() && x.name == s;
    MemberIsNamed(norm, items, SERVICE_KEYS, k, x);
    StripTrailing(s);
    if s + " " in RenameMap(norm, items) {
      var j := RenamedIsMember(norm, items, s + " ");
    }
    ReferencesSurvive(norm, items, s + " ");
  }

  lemma AssignAllOne(norm: Normalizer, clusters: seq<Cluster>, x: Named)
    ensures AssignAll(norm, clusters, [x]) == Assign(norm, x, clusters)
  {
    assert [x][1..] == [];
  }

  lemma AssignAllTwo(norm: Normalizer, clusters: seq<Cluster>, x: Named, y: Named)
    ensures AssignAll(norm, clusters, [x, y]) == Assign(norm, y, Assign(norm, x, clusters))
  {
    assert [x, y][1..] == [y];
    AssignAllOne(norm, Assign(norm, x, clusters), y);
  }

  /** Two similar names make one cluster around the longer. */
  lemma TwoAlike(norm: Normalizer, items: seq<Item>, short: Named, long: Named)
    requires NamedFrom(items, SERVICE_KEYS, 0) == [short, long]
    requires |short.name| < |long.name| && Similar(norm, short.name, long.name)
    ensures Clusters(norm, items, SERVICE_KEYS) == [Cluster(long, [short])]
  {
    assert [short, long][1..] == [long] && [long][1..] == [];
    assert LongestFirst([long]) == Insert(long, []) == [long];
    assert Insert(short, [long]) == [long] + Insert(short, []) == [long, short];
    AssignAllTwo(norm, [], long, short);
    var first := Cluster(long, []);
    assert first.Fits(norm, short) && Home(norm, short, [first], 0) == 0;
    assert Assign(norm, long, []) == [] + [first] == [first];
    assert first.With(short) == Cluster(long, [short]);
    assert Assign(norm, short, [first]) == [Cluster(long, [short])];
    assert LongestFirst([short, long]) == [long, short];
  }

  lemma PairRenamed(norm: Normalizer, items: seq<Item>, short: Named, long: Named)
    requires NamedFrom(items, SERVICE_KEYS, 0) == [short, long]
    requires |short.name| < |long.name| && Similar(norm, short.name, long.name)
    requires var c := Cluster(long, [short]); InRange(items, c.Members()) && Canonical(items, c) == long
    ensures short.name in RenameMap(norm, items) && Strip(RenameMap(norm, items)[short.name].Show()) != short.name
  {
    TwoAlike(norm, items, short, long);
    ClustersAreSound(norm, items, SERVICE_KEYS);
    var c := Cluster(long, [short]);
    assert c.Members() == [long, short] && short in c.Members();
    CanonicalIsNamed(norm, items, 0);
    MemberIsNamed(norm, items, SERVICE_KEYS, 0, short);
    RenameInside(items, [c], 0, short.name);
  }

  /** Two services that differ in a word that does not count. */
  function Lookalikes(): seq<Item> {
    [map["name" := Text("Tap")], map["name" := Text("Tap plan")]]
  }

  const TAPS := Cluster(Named(1, "Tap plan"), [Named(0, "Tap")])

  /** What the word tables leave of the two names: "plan" is removable. */
  predicate ReadsTables(norm: Normalizer) {
    norm("Tap") == ["tap"] && norm("Tap plan") == ["tap"]
  }

  lemma OneMoreNamed(items: seq<Item>, i: nat)
    requires i < |items| && FirstValue(items[i], SERVICE_KEYS).Some?
    requires |FirstValue(items[i], SERVICE_KEYS).value| >= MIN_NAME_LENGTH
    ensures NamedFrom(items, SERVICE_KEYS, i)
      == [Named(i, FirstValue(items[i], SERVICE_KEYS).value)] + NamedFrom(items, SERVICE_KEYS, i + 1)
  {
  }

  lemma LookalikesNamed()
    ensures NamedFrom(Lookalikes(), SERVICE_KEYS, 0) == [Named(0, "Tap"), Named(1, "Tap plan")]
    ensures Clean(Lookalikes())
  {
    var items := Lookalikes();
    NameValue(items[0]);
    NameValue(items[1]);
    OneMoreNamed(items, 0);
    OneMoreNamed(items, 1);
    assert NamedFrom(items, SERVICE_KEYS, 2) == [];
  }

  lemma LookalikesCanonical()
    ensures InRange(Lookalikes(), TAPS.Members()) && Canonical(Lookalikes(), TAPS) == TAPS.seed
  {
    var items := Lookalikes();
    var rows := Rows(items, TAPS.Members());
    assert rows == [items[1], items[0]];
    forall p | 0 <= p < 2 ensures Score(rows[p]).0 == 1 {
      assert (set k | k in rows[p] && rows[p][k].Filled() && rows[p][k] != True) == {"name"};
    }
    var scores := seq(2, p requires 0 <= p < 2 => Score(rows[p]));
    assert Higher(scores[0], scores[1]);
    assert Richest(rows) == FirstHighest(scores);
  }

  /** For instance: the shorter of them is merged into the longer, and a reference to it with a trailing space is lost. */
  lemma UntrimmedReferenceLost(norm: Normalizer) returns (items: seq<Item>, r: string)
    requires ReadsTables(norm)
    ensures items == Lookalikes() && r == "Tap" + " "
    ensures Clean(items) && Loses(norm, items, r)
  {
    items := Lookalikes();
    LookalikesNamed();
    LookalikesCanonical();
    PairRenamed(norm, items, TAPS.others[0], TAPS.seed);
    PaddedReferenceLost(norm, items, TAPS.others[0].name);
    r := "Tap" + " ";
  }
}
