/** The merged result with its provenance store, both changed in place by each merge. */
module ParsedResult {
  import opened Common
  import opened Values
  import opened MergeModel

  function At<K, T>(m: map<K, seq<T>>, k: K): seq<T> {
    if k in m then m[k] else []
  }

  function Lookup<K, V>(m: map<K, V>, k: K): Option<V> {
    if k in m then Some(m[k]) else None
  }

  function StoresAt<K>(lists: map<K, seq<Item>>, entries: map<K, seq<Entry>>, name: K): Stores {
    Stores(At(lists, name), At(entries, name))
  }

  const KEYED_LISTS := [Services, Pricing, Content, SocialProfiles]

  const LOOSE_LISTS := [Plans, Offers, Reviews, Features, Media, Locations, Team, TrustSignals, Assets]

  /** The raw value and the value with provenance are the same, and a filled value has provenance. */
  predicate ScalarsAgree<K(!new)>(raw: map<K, string>, fielded: map<K, FieldValue>) {
    && (forall k :: k in fielded ==> k in raw && raw[k] == fielded[k].value)
    && (forall k :: k in raw && raw[k] != "" ==> k in fielded)
  }

  /** The fields `done` have had their turn in a merge and the others have not. */
  ghost predicate ScalarsMerged(before: map<Field, FieldValue>, after: map<Field, FieldValue>, valid: Validator,
                                registered: seq<Extract>, strategy: string, e: Extract, done: seq<Field>) {
    forall f: Field :: Lookup(after, f) ==
      (if f in done then MergedScalar(Lookup(before, f), valid, registered, strategy, e, f) else Lookup(before, f))
  }

  ghost predicate SocialMerged(before: map<string, FieldValue>, after: map<string, FieldValue>,
                               strategy: string, e: Extract, todo: set<string>) {
    forall k :: Lookup(after, k) ==
      (if k in todo then Lookup(before, k) else MergedSocial(Lookup(before, k), strategy, e, k))
  }

  method AddAll(s0: Stores, incoming: seq<Item>, key: string, strategy: string, from: Extract) returns (s: Stores)
    ensures s == MergeBoth(s0, incoming, key, strategy, from)
  {
    s := s0;
    var rest := incoming;
    while rest != []
      invariant MergeBoth(s, rest, key, strategy, from) == MergeBoth(s0, incoming, key, strategy, from)
      decreases |rest|
    {
      s, rest := AddToBoth(s, rest[0], key, strategy, from), rest[1..];
    }
  }

  method AddAllLoose(s0: Stores, incoming: seq<Item>, keys: (string, string), strategy: string, from: Extract) returns (s: Stores)
    ensures s == MergeBothLoose(s0, incoming, keys, strategy, from)
  {
    s := s0;
    var rest := incoming;
    while rest != []
      invariant MergeBothLoose(s, rest, keys, strategy, from) == MergeBothLoose(s0, incoming, keys, strategy, from)
      decreases |rest|
    {
      s, rest := AddToBothLoose(s, rest[0], keys, strategy, from), rest[1..];
    }
  }

  /** Shared by the merges of a parse cycle. */
  class ConfidenceCalculator {
    const valid: Validator
    var registered: seq<Extract>

    constructor (valid: Validator)
      ensures this.valid == valid && registered == []
    {
      this.valid, registered := valid, [];
    }
  }

  class ParsedResult {
    var scalars: map<Field, string>
    var socialLinks: map<string, string>
    var lists: map<KeyedList, seq<Item>>
    var looseLists: map<LooseList, seq<Item>>

    var fielded: map<Field, FieldValue>
    var fieldedSocial: map<string, FieldValue>
    var entries: map<KeyedList, seq<Entry>>
    var looseEntries: map<LooseList, seq<Entry>>

    ghost predicate Valid()
      reads this
    {
      && ScalarsAgree(scalars, fielded)
      && ScalarsAgree(socialLinks, fieldedSocial)
      && AllInStep(lists, entries)
      && AllWithin(looseLists, looseEntries)
    }

    /** Values given at construction are ground truth. */
    constructor (scalars0: map<Field, string>, social0: map<string, string>)
      ensures Valid() && scalars == scalars0 && socialLinks == social0
      ensures lists == map[] && looseLists == map[]
      ensures fielded == map f | f in scalars0 && scalars0[f] != "" :: FieldValue(scalars0[f], 1.0, "initial")
      ensures fieldedSocial == map k | k in social0 :: FieldValue(social0[k], 1.0, "initial")
      ensures entries == map[] && looseEntries == map[]
    {
      scalars, socialLinks, lists, looseLists := scalars0, social0, map[], map[];
      fielded := map f | f in scalars0 && scalars0[f] != "" :: FieldValue(scalars0[f], GROUND_TRUTH, "initial");
      fieldedSocial := map k | k in social0 :: FieldValue(social0[k], GROUND_TRUTH, "initial");
      entries, looseEntries := map[], map[];
    }

    /** Sets both stores, if the offer is strictly more confident than what is there. */
    method SetScalar(f: Field, offer: FieldValue)
      requires ScalarsAgree(scalars, fielded)
      modifies this`scalars, this`fielded
      ensures ScalarsAgree(scalars, fielded)
      ensures Lookup(fielded, f) == Some(Better(old(Lookup(fielded, f)), offer))
      ensures forall g :: g != f ==> Lookup(fielded, g) == old(Lookup(fielded, g)) && Lookup(scalars, g) == old(Lookup(scalars, g))
    {
      if f !in fielded || offer.confidence > fielded[f].confidence {
        scalars := scalars[f := offer.value];
        fielded := fielded[f := offer];
      }
    }

    method MergeScalars(e: Extract, strategy: string, calculator: ConfidenceCalculator)
      requires ScalarsAgree(scalars, fielded)
      modifies this`scalars, this`fielded
      ensures ScalarsAgree(scalars, fielded)
      ensures ScalarsMerged(old(fielded), fielded, calculator.valid, calculator.registered, strategy, e, FIELDS)
    {
      for i := 0 to |FIELDS|
        invariant ScalarsAgree(scalars, fielded)
        invariant ScalarsMerged(old(fielded), fielded, calculator.valid, calculator.registered, strategy, e, FIELDS[..i])
      {
        assert FIELDS[i] !in FIELDS[..i] && FIELDS[..i + 1] == FIELDS[..i] + [FIELDS[i]];
        var f := FIELDS[i];
        if e.Scalar(f) != "" {
          SetScalar(f, FieldValue(e.Scalar(f), ScalarConfidence(calculator.valid, calculator.registered, strategy, f, e), strategy));
        }
      }
      assert FIELDS[..7] == FIELDS;
    }

    method MergeSocial(e: Extract, strategy: string)
      requires ScalarsAgree(socialLinks, fieldedSocial)
      modifies this`socialLinks, this`fieldedSocial
      ensures ScalarsAgree(socialLinks, fieldedSocial)
      ensures SocialMerged(old(fieldedSocial), fieldedSocial, strategy, e, {})
    {
      var todo := e.social.Keys;
      while todo != {}
        invariant todo <= e.social.Keys && ScalarsAgree(socialLinks, fieldedSocial)
        invariant SocialMerged(old(fieldedSocial), fieldedSocial, strategy, e, todo)
        decreases |todo|
      {
        var k :| k in todo;
        var offer := FieldValue(e.social[k], SocialConfidence(strategy, e.social[k], e), strategy);
        SocialStep(old(fieldedSocial), fieldedSocial, strategy, e, todo, k);
        if k !in fieldedSocial || offer.confidence > fieldedSocial[k].confidence {
          socialLinks := socialLinks[k := offer.value];
          fieldedSocial := fieldedSocial[k := offer];
        }
        todo := todo - {k};
      }
    }

    /** One of the four lists kept in step with their provenance. */
    method MergeList(name: KeyedList, e: Extract, strategy: string)
      requires InStep(At(lists, name), At(entries, name), KeyField(name))
      modifies this`lists, this`entries
      ensures InStep(At(lists, name), At(entries, name), KeyField(name))
      ensures StoresAt(lists, entries, name)
           == MergeBoth(StoresAt(old(lists), old(entries), name), e.Keyed(name), KeyField(name), strategy, e)
      ensures At(lists, name) == MergeKeyed(At(old(lists), name), e.Keyed(name), KeyField(name))
      ensures At(old(entries), name) <= At(entries, name)
      ensures Others(old(lists), lists, name) && Others(old(entries), entries, name)
    {
      var s := StoresAt(lists, entries, name);
      MergeInStep(s, e.Keyed(name), KeyField(name), strategy, e);
      s := AddAll(s, e.Keyed(name), KeyField(name), strategy, e);
      lists, entries := lists[name := s.list], entries[name := s.entries];
    }

    /** One of the nine other lists: an entry for every item stays so exactly when what comes in allows it. */
    method MergeLooseList(name: LooseList, e: Extract, strategy: string)
      requires Within(At(looseEntries, name), At(looseLists, name)) && KeysApart(At(looseLists, name), KeyFields(name))
      modifies this`looseLists, this`looseEntries
      ensures Within(At(looseEntries, name), At(looseLists, name)) && KeysApart(At(looseLists, name), KeyFields(name))
      ensures StoresAt(looseLists, looseEntries, name)
           == MergeBothLoose(StoresAt(old(looseLists), old(looseEntries), name), e.Loose(name), KeyFields(name), strategy, e)
      ensures At(looseLists, name) == MergeLoose(At(old(looseLists), name), e.Loose(name), KeyFields(name))
      ensures Paired(StoresAt(old(looseLists), old(looseEntries), name)) ==>
        (Paired(StoresAt(looseLists, looseEntries, name))
         <==> StaysPaired(At(old(looseLists), name), e.Loose(name), KeyFields(name)))
      ensures At(old(looseEntries), name) <= At(looseEntries, name)
      ensures Others(old(looseLists), looseLists, name) && Others(old(looseEntries), looseEntries, name)
    {
      LooseMergeFacts(StoresAt(looseLists, looseEntries, name), e.Loose(name), KeyFields(name), strategy, e);
      UpdateLooseList(name, e, strategy);
    }

    method UpdateLooseList(name: LooseList, e: Extract, strategy: string)
      modifies this`looseLists, this`looseEntries
      ensures StoresAt(looseLists, looseEntries, name)
           == MergeBothLoose(StoresAt(old(looseLists), old(looseEntries), name), e.Loose(name), KeyFields(name), strategy, e)
      ensures Others(old(looseLists), looseLists, name) && Others(old(looseEntries), looseEntries, name)
    {
      var s := AddAllLoose(StoresAt(looseLists, looseEntries, name), e.Loose(name), KeyFields(name), strategy, e);
      looseLists, looseEntries := looseLists[name := s.list], looseEntries[name := s.entries];
    }

    method MergeLists(e: Extract, strategy: string)
      requires AllInStep(lists, entries)
      modifies this`lists, this`entries
      ensures AllInStep(lists, entries) && ListsMerged(old(lists), old(entries), lists, entries, strategy, e, KEYED_LISTS)
    {
      for i := 0 to |KEYED_LISTS|
        invariant ListsMerged(old(lists), old(entries), lists, entries, strategy, e, KEYED_LISTS[..i])
      {
        ghost var lists0, entries0 := lists, entries;
        NotYet(KEYED_LISTS, i);
        MergeList(KEYED_LISTS[i], e, strategy);
        ListsStep(old(lists), old(entries), lists0, entries0, lists, entries, strategy, e, KEYED_LISTS[..i], KEYED_LISTS[i]);
      }
      assert KEYED_LISTS[..4] == KEYED_LISTS;
      ListsStayInStep(old(lists), old(entries), lists, entries, strategy, e);
    }

    method MergeLooseLists(e: Extract, strategy: string)
      requires AllWithin(looseLists, looseEntries)
      modifies this`looseLists, this`looseEntries
      ensures AllWithin(looseLists, looseEntries)
      ensures LooseMerged(old(looseLists), old(looseEntries), looseLists, looseEntries, strategy, e, LOOSE_LISTS)
    {
      for i := 0 to |LOOSE_LISTS|
        invariant LooseMerged(old(looseLists), old(looseEntries), looseLists, looseEntries, strategy, e, LOOSE_LISTS[..i])
      {
        ghost var lists0, entries0 := looseLists, looseEntries;
        NotYet(LOOSE_LISTS, i);
        MergeLooseList(LOOSE_LISTS[i], e, strategy);
        LooseStep(old(looseLists), old(looseEntries), lists0, entries0, looseLists, looseEntries, strategy, e,
                  LOOSE_LISTS[..i], LOOSE_LISTS[i]);
      }
      assert LOOSE_LISTS[..9] == LOOSE_LISTS;
      LooseStayWithin(old(looseLists), old(looseEntries), looseLists, looseEntries, strategy, e);
    }

    /** Merges one strategy result and registers it for the agreement bonus of those to come. */
    method Merge(e: Extract, strategy: string, calculator: ConfidenceCalculator)
      requires Valid()
      modifies this, calculator`registered
      ensures Valid()
      ensures calculator.registered == old(calculator.registered) + [e]
      ensures ScalarsMerged(old(fielded), fielded, calculator.valid, old(calculator.registered), strategy, e, FIELDS)
      ensures SocialMerged(old(fieldedSocial), fieldedSocial, strategy, e, {})
      ensures ListsMerged(old(lists), old(entries), lists, entries, strategy, e, KEYED_LISTS)
      ensures LooseMerged(old(looseLists), old(looseEntries), looseLists, looseEntries, strategy, e, LOOSE_LISTS)
    {
      MergeScalars(e, strategy, calculator);
      MergeSocial(e, strategy);
      MergeLists(e, strategy);
      calculator.registered := calculator.registered + [e];
      MergeLooseLists(e, strategy);
    }

    /**
     * A whole parse cycle. Each scalar and social link ends with the earliest of the most confident offers, if what
     * was there before did not beat them all; each list ends, with its provenance, as its own items make it, and a
     * list of the nine keeps an entry for every item exactly when they allow it.
     */
    method MergeAll(parts: seq<Part>, calculator: ConfidenceCalculator)
      requires Valid()
      modifies this, calculator`registered
      ensures Valid() && calculator.registered == old(calculator.registered) + Extracts(parts)
      ensures forall f: Field :: Lookup(fielded, f)
                              == Best(old(Lookup(fielded, f)), OffersFor(calculator.valid, old(calculator.registered), parts, f))
      ensures forall k: string :: Lookup(fieldedSocial, k) == Best(old(Lookup(fieldedSocial, k)), SocialOffers(parts, k))
      ensures forall name: KeyedList ::
        && StoresAt(lists, entries, name) == KeyedRun(StoresAt(old(lists), old(entries), name), parts, name)
        && At(lists, name) == MergeKeyed(At(old(lists), name), Incoming(parts, name), KeyField(name))
      ensures forall name: LooseList ::
        && StoresAt(looseLists, looseEntries, name) == LooseRun(StoresAt(old(looseLists), old(looseEntries), name), parts, name)
        && At(looseLists, name) == MergeLoose(At(old(looseLists), name), IncomingLoose(parts, name), KeyFields(name))
      ensures forall name: LooseList :: Paired(StoresAt(old(looseLists), old(looseEntries), name)) ==>
        (Paired(StoresAt(looseLists, looseEntries, name))
         <==> StaysPaired(At(old(looseLists), name), IncomingLoose(parts, name), KeyFields(name)))
      ensures KeptByKey(lists, entries, looseLists) && NothingLost(lists, looseLists, parts)
    {
      ListsAfterRun(lists, entries, parts);
      LooseAfterRun(looseLists, looseEntries, parts);
      var rest := parts;
      while rest != []
        invariant Valid() && calculator.registered + Extracts(rest) == old(calculator.registered) + Extracts(parts)
        invariant ScalarsToCome(old(fielded), fielded, calculator.valid, old(calculator.registered), calculator.registered, parts, rest)
        invariant SocialToCome(old(fieldedSocial), fieldedSocial, parts, rest)
        invariant ListsToCome(old(lists), old(entries), lists, entries, parts, rest)
        invariant LooseToCome(old(looseLists), old(looseEntries), looseLists, looseEntries, parts, rest)
        decreases |rest|
      {
        ghost var fielded0, registered0, social0 := fielded, calculator.registered, fieldedSocial;
        ghost var lists0, entries0, loose0, looseEntries0 := lists, entries, looseLists, looseEntries;
        Merge(rest[0].extract, rest[0].strategy, calculator);
        ScalarsNext(old(fielded), fielded0, fielded, calculator.valid, old(calculator.registered), registered0, parts, rest);
        SocialNext(old(fieldedSocial), social0, fieldedSocial, parts, rest);
        ListsNext(old(lists), old(entries), lists0, entries0, lists, entries, parts, rest);
        LooseNext(old(looseLists), old(looseEntries), loose0, looseEntries0, looseLists, looseEntries, parts, rest);
        assert Extracts(rest) == [rest[0].extract] + Extracts(rest[1..]);
        rest := rest[1..];
      }
      IsKeptByKey(lists, entries, looseLists, looseEntries);
      NothingIsLost(old(lists), old(looseLists), lists, looseLists, parts);
    }
  }

  /** By which fields no list holds two items: one for each of the first four, two for each of the others. */
  ghost predicate KeptByKey(lists: map<KeyedList, seq<Item>>, entries: map<KeyedList, seq<Entry>>, loose: map<LooseList, seq<Item>>) {
    && InStep(At(lists, Services), At(entries, Services), "name")
    && InStep(At(lists, Pricing), At(entries, Pricing), "service_name")
    && InStep(At(lists, Content), At(entries, Content), "title")
    && InStep(At(lists, SocialProfiles), At(entries, SocialProfiles), "platform")
    && KeysApart(At(loose, Plans), ("plan_name", "name"))
    && KeysApart(At(loose, Offers), ("title", "offer_title"))
    && KeysApart(At(loose, Reviews), ("title", "review_title"))
    && KeysApart(At(loose, Features), ("name", "feature_name"))
    && KeysApart(At(loose, Media), ("url", "src"))
    && KeysApart(At(loose, Locations), ("name", "location_name"))
    && KeysApart(At(loose, Team), ("name", "name"))
    && KeysApart(At(loose, TrustSignals), ("type", "name"))
    && KeysApart(At(loose, Assets), ("url", "src"))
  }

  /** Every item found has left its key behind, or itself if it is of the nine lists and has none. */
  ghost predicate NothingLost(lists: map<KeyedList, seq<Item>>, loose: map<LooseList, seq<Item>>, parts: seq<Part>) {
    && (forall p, name: KeyedList :: p in parts && name in p.extract.keyed ==>
         KeysFound(p.extract.keyed[name], At(lists, name), KeyField(name)))
    && (forall p, name: LooseList :: p in parts && name in p.extract.loose ==>
         ShownFound(p.extract.loose[name], At(loose, name), KeyFields(name)))
  }

  ghost predicate KeysFound(found: seq<Item>, list: seq<Item>, key: string) {
    forall item :: item in found && Get(item, key).Truthy() ==> HasKeyed(list, key, Get(item, key))
  }

  ghost predicate ShownFound(found: seq<Item>, list: seq<Item>, keys: (string, string)) {
    && (forall item, shown :: item in found && KeyedAs(item, keys, shown) ==> HasShown(list, keys, shown))
    && (forall item :: item in found && !Get(item, keys.0).Truthy() && !Get(item, keys.1).Truthy() ==>
         item - {"dom_path", "xpath", "html_snippet"} in list)
  }

  lemma IsKeptByKey(lists: map<KeyedList, seq<Item>>, entries: map<KeyedList, seq<Entry>>,
                    loose: map<LooseList, seq<Item>>, looseEntries: map<LooseList, seq<Entry>>)
    requires AllInStep(lists, entries) && AllWithin(loose, looseEntries)
    ensures KeptByKey(lists, entries, loose)
  {
    assert KeyField(Services) == "name" && KeyField(Pricing) == "service_name";
    assert KeyField(Content) == "title" && KeyField(SocialProfiles) == "platform";
    assert KeyFields(Plans) == ("plan_name", "name") && KeyFields(Offers) == ("title", "offer_title");
    assert KeyFields(Reviews) == ("title", "review_title") && KeyFields(Features) == ("name", "feature_name");
    assert KeyFields(Media) == ("url", "src") && KeyFields(Locations) == ("name", "location_name");
    assert KeyFields(Team) == ("name", "name") && KeyFields(TrustSignals) == ("type", "name") && KeyFields(Assets) == ("url", "src");
  }

  lemma KeyIsKept(name: KeyedList)
    ensures IsKeyField(KeyField(name))
  {
  }

  lemma KeyedFound(before: seq<Item>, parts: seq<Part>, name: KeyedList, p: Part)
    requires p in parts && name in p.extract.keyed
    ensures KeysFound(p.extract.keyed[name], MergeKeyed(before, Incoming(parts, name), KeyField(name)), KeyField(name))
  {
    KeyIsKept(name);
    IncomingHas(parts, name, Plans, p);
    forall item | item in p.extract.keyed[name] && Get(item, KeyField(name)).Truthy()
      ensures HasKeyed(MergeKeyed(before, Incoming(parts, name), KeyField(name)), KeyField(name), Get(item, KeyField(name)))
    {
      MergeKeyedHas(before, Incoming(parts, name), KeyField(name), item);
    }
  }

  lemma LooseFound(before: seq<Item>, parts: seq<Part>, name: LooseList, keys: (string, string), p: Part)
    requires p in parts && name in p.extract.loose && IsKeyField(keys.0) && IsKeyField(keys.1)
    ensures ShownFound(p.extract.loose[name], MergeLoose(before, IncomingLoose(parts, name), keys), keys)
  {
    IncomingHas(parts, Services, name, p);
    forall item, shown | item in p.extract.loose[name] && KeyedAs(item, keys, shown)
      ensures HasShown(MergeLoose(before, IncomingLoose(parts, name), keys), keys, shown)
    {
      MergeLooseHas(before, IncomingLoose(parts, name), keys, item, shown);
    }
    forall item | item in p.extract.loose[name] && !Get(item, keys.0).Truthy() && !Get(item, keys.1).Truthy()
      ensures item - {"dom_path", "xpath", "html_snippet"} in MergeLoose(before, IncomingLoose(parts, name), keys)
    {
      MergeLooseHas(before, IncomingLoose(parts, name), keys, item, "");
    }
  }

  lemma NothingIsLost(lists0: map<KeyedList, seq<Item>>, loose0: map<LooseList, seq<Item>>,
                      lists: map<KeyedList, seq<Item>>, loose: map<LooseList, seq<Item>>, parts: seq<Part>)
    requires forall name: KeyedList :: At(lists, name) == MergeKeyed(At(lists0, name), Incoming(parts, name), KeyField(name))
    requires forall name: LooseList :: At(loose, name) == MergeLoose(At(loose0, name), IncomingLoose(parts, name), KeyFields(name))
    ensures NothingLost(lists, loose, parts)
  {
    forall p, name: KeyedList | p in parts && name in p.extract.keyed
      ensures KeysFound(p.extract.keyed[name], At(lists, name), KeyField(name))
    {
      KeyedFound(At(lists0, name), parts, name, p);
    }
    forall p, name: LooseList | p in parts && name in p.extract.loose
      ensures ShownFound(p.extract.loose[name], At(loose, name), KeyFields(name))
    {
      KeyFieldsAreKeys(name);
      LooseFound(At(loose0, name), parts, name, KeyFields(name), p);
    }
  }

  /** What is still to be merged will bring every scalar to where the whole run brings it. */
  ghost predicate ScalarsToCome(start: map<Field, FieldValue>, current: map<Field, FieldValue>, valid: Validator,
                                registered0: seq<Extract>, registered: seq<Extract>, parts: seq<Part>, rest: seq<Part>) {
    forall f: Field :: Best(Lookup(current, f), OffersFor(valid, registered, rest, f))
                    == Best(Lookup(start, f), OffersFor(valid, registered0, parts, f))
  }

  lemma ScalarsNext(start: map<Field, FieldValue>, current: map<Field, FieldValue>, next: map<Field, FieldValue>, valid: Validator,
                    registered0: seq<Extract>, registered: seq<Extract>, parts: seq<Part>, rest: seq<Part>)
    requires rest != [] && ScalarsToCome(start, current, valid, registered0, registered, parts, rest)
    requires ScalarsMerged(current, next, valid, registered, rest[0].strategy, rest[0].extract, FIELDS)
    ensures ScalarsToCome(start, next, valid, registered0, registered + [rest[0].extract], parts, rest[1..])
  {
    EveryField();
    forall f: Field
      ensures Best(Lookup(next, f), OffersFor(valid, registered + [rest[0].extract], rest[1..], f))
           == Best(Lookup(start, f), OffersFor(valid, registered0, parts, f))
    {
      OffersNext(Lookup(current, f), valid, registered, rest, f);
    }
  }

  ghost predicate SocialToCome(start: map<string, FieldValue>, current: map<string, FieldValue>, parts: seq<Part>, rest: seq<Part>) {
    forall k: string :: Best(Lookup(current, k), SocialOffers(rest, k)) == Best(Lookup(start, k), SocialOffers(parts, k))
  }

  lemma SocialNext(start: map<string, FieldValue>, current: map<string, FieldValue>, next: map<string, FieldValue>,
                   parts: seq<Part>, rest: seq<Part>)
    requires rest != [] && SocialToCome(start, current, parts, rest)
    requires SocialMerged(current, next, rest[0].strategy, rest[0].extract, {})
    ensures SocialToCome(start, next, parts, rest[1..])
  {
    forall k: string ensures Best(Lookup(next, k), SocialOffers(rest[1..], k)) == Best(Lookup(start, k), SocialOffers(parts, k)) {
      SocialOffersNext(Lookup(current, k), rest, k);
    }
  }

  ghost predicate ListsToCome(lists0: map<KeyedList, seq<Item>>, entries0: map<KeyedList, seq<Entry>>,
                              lists: map<KeyedList, seq<Item>>, entries: map<KeyedList, seq<Entry>>,
                              parts: seq<Part>, rest: seq<Part>) {
    forall name: KeyedList ::
      KeyedRun(StoresAt(lists, entries, name), rest, name) == KeyedRun(StoresAt(lists0, entries0, name), parts, name)
  }

  lemma ListsNext(lists0: map<KeyedList, seq<Item>>, entries0: map<KeyedList, seq<Entry>>,
                  lists: map<KeyedList, seq<Item>>, entries: map<KeyedList, seq<Entry>>,
                  lists1: map<KeyedList, seq<Item>>, entries1: map<KeyedList, seq<Entry>>, parts: seq<Part>, rest: seq<Part>)
    requires rest != [] && ListsToCome(lists0, entries0, lists, entries, parts, rest)
    requires ListsMerged(lists, entries, lists1, entries1, rest[0].strategy, rest[0].extract, KEYED_LISTS)
    ensures ListsToCome(lists0, entries0, lists1, entries1, parts, rest[1..])
  {
    forall name: KeyedList
      ensures KeyedRun(StoresAt(lists1, entries1, name), rest[1..], name) == KeyedRun(StoresAt(lists0, entries0, name), parts, name)
    {
      EveryKeyedList(name);
      assert KeyedRun(StoresAt(lists, entries, name), rest, name) == KeyedRun(StoresAt(lists1, entries1, name), rest[1..], name);
    }
  }

  ghost predicate LooseToCome(lists0: map<LooseList, seq<Item>>, entries0: map<LooseList, seq<Entry>>,
                              lists: map<LooseList, seq<Item>>, entries: map<LooseList, seq<Entry>>,
                              parts: seq<Part>, rest: seq<Part>) {
    forall name: LooseList ::
      LooseRun(StoresAt(lists, entries, name), rest, name) == LooseRun(StoresAt(lists0, entries0, name), parts, name)
  }

  lemma LooseNext(lists0: map<LooseList, seq<Item>>, entries0: map<LooseList, seq<Entry>>,
                  lists: map<LooseList, seq<Item>>, entries: map<LooseList, seq<Entry>>,
                  lists1: map<LooseList, seq<Item>>, entries1: map<LooseList, seq<Entry>>, parts: seq<Part>, rest: seq<Part>)
    requires rest != [] && LooseToCome(lists0, entries0, lists, entries, parts, rest)
    requires LooseMerged(lists, entries, lists1, entries1, rest[0].strategy, rest[0].extract, LOOSE_LISTS)
    ensures LooseToCome(lists0, entries0, lists1, entries1, parts, rest[1..])
  {
    forall name: LooseList
      ensures LooseRun(StoresAt(lists1, entries1, name), rest[1..], name) == LooseRun(StoresAt(lists0, entries0, name), parts, name)
    {
      EveryLooseList(name);
      assert LooseRun(StoresAt(lists, entries, name), rest, name) == LooseRun(StoresAt(lists1, entries1, name), rest[1..], name);
    }
  }

  /** What a run makes of each list in step. */
  lemma ListsAfterRun(lists: map<KeyedList, seq<Item>>, entries: map<KeyedList, seq<Entry>>, parts: seq<Part>)
    requires AllInStep(lists, entries)
    ensures forall name: KeyedList :: KeyedRun(StoresAt(lists, entries, name), parts, name).list
                                   == MergeKeyed(At(lists, name), Incoming(parts, name), KeyField(name))
  {
    forall name: KeyedList
      ensures KeyedRun(StoresAt(lists, entries, name), parts, name).list
           == MergeKeyed(At(lists, name), Incoming(parts, name), KeyField(name))
    {
      KeyedRunInStep(StoresAt(lists, entries, name), parts, name);
    }
  }

  ghost predicate PairedIffAllowed(s: Stores, parts: seq<Part>, name: LooseList) {
    Paired(s) ==> (Paired(LooseRun(s, parts, name)) <==> StaysPaired(s.list, IncomingLoose(parts, name), KeyFields(name)))
  }

  /** What a run makes of each of the other lists. */
  lemma LooseAfterRun(lists: map<LooseList, seq<Item>>, entries: map<LooseList, seq<Entry>>, parts: seq<Part>)
    requires AllWithin(lists, entries)
    ensures forall name: LooseList :: LooseRun(StoresAt(lists, entries, name), parts, name).list
                                   == MergeLoose(At(lists, name), IncomingLoose(parts, name), KeyFields(name))
    ensures forall name: LooseList :: PairedIffAllowed(StoresAt(lists, entries, name), parts, name)
  {
    forall name: LooseList
      ensures LooseRun(StoresAt(lists, entries, name), parts, name).list
           == MergeLoose(At(lists, name), IncomingLoose(parts, name), KeyFields(name))
      ensures PairedIffAllowed(StoresAt(lists, entries, name), parts, name)
    {
      var s := StoresAt(lists, entries, name);
      LooseRunKeeps(s, parts, name);
      if Paired(s) {
        RunStaysPairedIff(s, parts, name);
      }
    }
  }

  /** What a merge does to the lists and their provenance. */
  ghost predicate ListsMerged(lists0: map<KeyedList, seq<Item>>, entries0: map<KeyedList, seq<Entry>>,
                              lists1: map<KeyedList, seq<Item>>, entries1: map<KeyedList, seq<Entry>>,
                              strategy: string, e: Extract, done: seq<KeyedList>) {
    forall name: KeyedList :: StoresAt(lists1, entries1, name) ==
      (if name in done then MergeBoth(StoresAt(lists0, entries0, name), e.Keyed(name), KeyField(name), strategy, e)
       else StoresAt(lists0, entries0, name))
  }

  ghost predicate LooseMerged(lists0: map<LooseList, seq<Item>>, entries0: map<LooseList, seq<Entry>>,
                              lists1: map<LooseList, seq<Item>>, entries1: map<LooseList, seq<Entry>>,
                              strategy: string, e: Extract, done: seq<LooseList>) {
    forall name: LooseList :: StoresAt(lists1, entries1, name) ==
      (if name in done then MergeBothLoose(StoresAt(lists0, entries0, name), e.Loose(name), KeyFields(name), strategy, e)
       else StoresAt(lists0, entries0, name))
  }

  lemma SocialStep(before: map<string, FieldValue>, current: map<string, FieldValue>, strategy: string, e: Extract,
                   todo: set<string>, k: string)
    requires SocialMerged(before, current, strategy, e, todo) && k in todo && k in e.social
    ensures var offer := FieldValue(e.social[k], SocialConfidence(strategy, e.social[k], e), strategy);
      SocialMerged(before, current[k := Better(Lookup(current, k), offer)], strategy, e, todo - {k})
    ensures k in current ==> current[k := current[k]] == current
  {
  }

  lemma LooseMergeFacts(s: Stores, incoming: seq<Item>, keys: (string, string), strategy: string, from: Extract)
    requires Within(s.entries, s.list) && KeysApart(s.list, keys) && IsKeyField(keys.0) && IsKeyField(keys.1)
    ensures var s1 := MergeBothLoose(s, incoming, keys, strategy, from);
      && Within(s1.entries, s1.list) && KeysApart(s1.list, keys)
      && s1.list == MergeLoose(s.list, incoming, keys) && s.entries <= s1.entries
      && (Paired(s) ==> (Paired(s1) <==> StaysPaired(s.list, incoming, keys)))
  {
    MergeLooseKeeps(s, incoming, keys, strategy, from);
    if Paired(s) {
      StaysPairedIff(s, incoming, keys, strategy, from);
    }
  }

  predicate NoRepeats<K(==)>(names: seq<K>) {
    forall i, j :: 0 <= i < j < |names| ==> names[i] != names[j]
  }

  lemma NotYet<K>(names: seq<K>, i: nat)
    requires i < |names| && NoRepeats(names)
    ensures names[i] !in names[..i] && names[..i + 1] == names[..i] + [names[i]]
  {
  }

  lemma ListsStep(lists0: map<KeyedList, seq<Item>>, entries0: map<KeyedList, seq<Entry>>,
                  lists: map<KeyedList, seq<Item>>, entries: map<KeyedList, seq<Entry>>,
                  lists1: map<KeyedList, seq<Item>>, entries1: map<KeyedList, seq<Entry>>,
                  strategy: string, e: Extract, done: seq<KeyedList>, name: KeyedList)
    requires ListsMerged(lists0, entries0, lists, entries, strategy, e, done) && name !in done
    requires StoresAt(lists1, entries1, name)
          == MergeBoth(StoresAt(lists, entries, name), e.Keyed(name), KeyField(name), strategy, e)
    requires Others(lists, lists1, name) && Others(entries, entries1, name)
    ensures ListsMerged(lists0, entries0, lists1, entries1, strategy, e, done + [name])
  {
  }

  lemma LooseStep(lists0: map<LooseList, seq<Item>>, entries0: map<LooseList, seq<Entry>>,
                  lists: map<LooseList, seq<Item>>, entries: map<LooseList, seq<Entry>>,
                  lists1: map<LooseList, seq<Item>>, entries1: map<LooseList, seq<Entry>>,
                  strategy: string, e: Extract, done: seq<LooseList>, name: LooseList)
    requires LooseMerged(lists0, entries0, lists, entries, strategy, e, done) && name !in done
    requires StoresAt(lists1, entries1, name)
          == MergeBothLoose(StoresAt(lists, entries, name), e.Loose(name), KeyFields(name), strategy, e)
    requires Others(lists, lists1, name) && Others(entries, entries1, name)
    ensures LooseMerged(lists0, entries0, lists1, entries1, strategy, e, done + [name])
  {
    forall other: LooseList
      ensures other != name ==> StoresAt(lists1, entries1, other) == StoresAt(lists, entries, other)
      ensures other != name ==> (other in done + [name] <==> other in done)
    {
    }
  }

  lemma ListsStayInStep(lists0: map<KeyedList, seq<Item>>, entries0: map<KeyedList, seq<Entry>>,
                        lists1: map<KeyedList, seq<Item>>, entries1: map<KeyedList, seq<Entry>>, strategy: string, e: Extract)
    requires AllInStep(lists0, entries0) && ListsMerged(lists0, entries0, lists1, entries1, strategy, e, KEYED_LISTS)
    ensures AllInStep(lists1, entries1)
  {
    forall name: KeyedList ensures InStep(At(lists1, name), At(entries1, name), KeyField(name)) {
      EveryKeyedList(name);
      MergeInStep(StoresAt(lists0, entries0, name), e.Keyed(name), KeyField(name), strategy, e);
    }
  }

  lemma LooseStayWithin(lists0: map<LooseList, seq<Item>>, entries0: map<LooseList, seq<Entry>>,
                        lists1: map<LooseList, seq<Item>>, entries1: map<LooseList, seq<Entry>>, strategy: string, e: Extract)
    requires AllWithin(lists0, entries0) && LooseMerged(lists0, entries0, lists1, entries1, strategy, e, LOOSE_LISTS)
    ensures AllWithin(lists1, entries1)
  {
    forall name: LooseList
      ensures Within(At(entries1, name), At(lists1, name)) && KeysApart(At(lists1, name), KeyFields(name))
    {
      EveryLooseList(name);
      KeyFieldsAreKeys(name);
      StaysWithin(StoresAt(lists0, entries0, name), StoresAt(lists1, entries1, name), e.Loose(name), KeyFields(name), strategy, e);
    }
  }

  lemma KeyFieldsAreKeys(name: LooseList)
    ensures IsKeyField(KeyFields(name).0) && IsKeyField(KeyFields(name).1)
  {
  }

  lemma StaysWithin(s: Stores, s1: Stores, incoming: seq<Item>, keys: (string, string), strategy: string, e: Extract)
    requires Within(s.entries, s.list) && KeysApart(s.list, keys) && IsKeyField(keys.0) && IsKeyField(keys.1)
    requires s1 == MergeBothLoose(s, incoming, keys, strategy, e)
    ensures Within(s1.entries, s1.list) && KeysApart(s1.list, keys)
  {
    MergeLooseKeeps(s, incoming, keys, strategy, e);
  }

  ghost predicate AllInStep(lists: map<KeyedList, seq<Item>>, entries: map<KeyedList, seq<Entry>>) {
    forall name: KeyedList :: InStep(At(lists, name), At(entries, name), KeyField(name))
  }

  ghost predicate AllWithin(lists: map<LooseList, seq<Item>>, entries: map<LooseList, seq<Entry>>) {
    forall name: LooseList ::
      Within(At(entries, name), At(lists, name)) && KeysApart(At(lists, name), KeyFields(name))
  }

  /** The two maps differ in one key at most. */
  ghost predicate Others<K(!new), T>(before: map<K, seq<T>>, after: map<K, seq<T>>, name: K) {
    forall other: K :: other != name ==> At(after, other) == At(before, other)
  }

  lemma EveryField()
    ensures forall f: Field :: f in FIELDS
  {
    forall f: Field ensures f in FIELDS {
      match f
      case CompanyName => assert FIELDS[0] == f;
      case Description => assert FIELDS[1] == f;
      case Logo => assert FIELDS[2] == f;
      case Industry => assert FIELDS[3] == f;
      case Headquarters => assert FIELDS[4] == f;
      case ContactEmail => assert FIELDS[5] == f;
      case ContactPhone => assert FIELDS[6] == f;
    }
  }

  lemma EveryKeyedList(name: KeyedList)
    ensures name in KEYED_LISTS
  {
    assert KEYED_LISTS[0] == Services && KEYED_LISTS[1] == Pricing && KEYED_LISTS[2] == Content && KEYED_LISTS[3] == SocialProfiles;
  }

  lemma EveryLooseList(name: LooseList)
    ensures name in LOOSE_LISTS
  {
    assert LOOSE_LISTS[0] == Plans && LOOSE_LISTS[1] == Offers && LOOSE_LISTS[2] == Reviews;
    assert LOOSE_LISTS[3] == Features && LOOSE_LISTS[4] == Media && LOOSE_LISTS[5] == Locations;
    assert LOOSE_LISTS[6] == Team && LOOSE_LISTS[7] == TrustSignals && LOOSE_LISTS[8] == Assets;
  }
}
