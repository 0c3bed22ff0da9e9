/** Confidence-weighted merging of strategy results, on values: the confidence formula, scalars and lists. */
module MergeModel {
  import opened Common
  import opened Values

  // ----------------------------------------------------------------------- confidence

  datatype Field = CompanyName | Description | Logo | Industry | Headquarters | ContactEmail | ContactPhone

  const FIELDS := [CompanyName, Description, Logo, Industry, Headquarters, ContactEmail, ContactPhone]

  /** The four lists kept in step with their provenance, and the nine that need not be. */
  datatype KeyedList = Services | Pricing | Content | SocialProfiles

  datatype LooseList = Plans | Offers | Reviews | Features | Media | Locations | Team | TrustSignals | Assets

  function KeyField(name: KeyedList): string {
    match name
    case Services => "name"
    case Pricing => "service_name"
    case Content => "title"
    case SocialProfiles => "platform"
  }

  /** The natural key of a loose list: a field and the one to fall back on. */
  function KeyFields(name: LooseList): (string, string) {
    match name
    case Plans => ("plan_name", "name")
    case Offers => ("title", "offer_title")
    case Reviews => ("title", "review_title")
    case Features => ("name", "feature_name")
    case Media => ("url", "src")
    case Locations => ("name", "location_name")
    case Team => ("name", "name")
    case TrustSignals => ("type", "name")
    case Assets => ("url", "src")
  }

  /** What one strategy found. */
  datatype Extract = Extract(
    scalars: map<Field, string>,
    social: map<string, string>,
    keyed: map<KeyedList, seq<Item>>,
    loose: map<LooseList, seq<Item>>)
  {
    /** The value of a scalar field; missing and empty count alike. */
    function Scalar(f: Field): string {
      if f in scalars then scalars[f] else ""
    }

    function Keyed(name: KeyedList): seq<Item> {
      if name in keyed then keyed[name] else []
    }

    function Loose(name: LooseList): seq<Item> {
      if name in loose then loose[name] else []
    }
  }

  function Before(s: string, c: char): string {
    if s == "" || s[0] == c then "" else [s[0]] + Before(s[1..], c)
  }

  /** The midpoint of the range of the strategy's class. */
  function Base(strategy: string): real {
    var key := Before(strategy, ':');
    if key in {"json_ld", "schema_org", "microdata"} then (0.60 + 0.85) / 2.0
    else if key == "multi_pass" then (0.55 + 0.80) / 2.0
    else if key == "metadata" then (0.45 + 0.70) / 2.0
    else if key == "semantic_html" then (0.40 + 0.65) / 2.0
    else if key in {"table_extraction", "form_extraction", "faq_extraction", "breadcrumb_extraction"} then (0.35 + 0.60) / 2.0
    else (0.25 + 0.50) / 2.0
  }

  function CountFilled(e: Extract, fields: seq<Field>): nat {
    if fields == [] then 0 else (if e.Scalar(fields[0]) != "" then 1 else 0) + CountFilled(e, fields[1..])
  }

  function CountAgreeing(registered: seq<Extract>, f: Field, value: string): nat {
    if registered == [] then 0
    else (if registered[0].Scalar(f) == value then 1 else 0) + CountAgreeing(registered[1..], f, value)
  }

  function Min(x: real, y: real): real {
    if x <= y then x else y
  }

  function Completeness(e: Extract): real {
    CountFilled(e, FIELDS) as real / 7.0 * 0.10
  }

  /** Which values pass the field's format check; the patterns themselves are not modelled. */
  type Validator = (Field, string) -> bool

  function ScalarConfidence(valid: Validator, registered: seq<Extract>, strategy: string, f: Field, e: Extract): real
    requires e.Scalar(f) != ""
  {
    var consistency := Min(0.30, CountAgreeing(registered, f, e.Scalar(f)) as real * 0.10);
    var validation := if valid(f, e.Scalar(f)) then 0.05 else 0.0;
    Min(0.999, Base(strategy) + Completeness(e) + consistency + validation)
  }

  function SocialConfidence(strategy: string, url: string, e: Extract): real {
    if url == "" then 0.0 else Min(0.999, Base(strategy) + Completeness(e))
  }

  function ItemConfidence(strategy: string, item: Item, e: Extract): real {
    var filled := |set k | k in item && item[k].Filled()|;
    var completeness := if |item| == 0 then 0.0 else filled as real / |item| as real;
    Min(0.999, Base(strategy) + Completeness(e) + completeness * 0.15)
  }

  // -------------------------------------------------------------------------- scalars

  /** A value with its provenance, as kept for one field. */
  datatype FieldValue = FieldValue(value: string, confidence: real, strategy: string)

  const GROUND_TRUTH := 1.0

  /** An offer replaces what is there only if it is strictly more confident. */
  function Better(current: Option<FieldValue>, offer: FieldValue): FieldValue {
    if current.None? || offer.confidence > current.value.confidence then offer else current.value
  }

  function Best(current: Option<FieldValue>, offers: seq<FieldValue>): Option<FieldValue>
    decreases |offers|
  {
    if offers == [] then current else Best(Some(Better(current, offers[0])), offers[1..])
  }

  /** A strategy result under the name it is merged with. */
  datatype Part = Part(strategy: string, extract: Extract)

  function Extracts(parts: seq<Part>): seq<Extract> {
    seq(|parts|, i requires 0 <= i < |parts| => parts[i].extract)
  }

  /**
   * What a run of merges offers for a field, each with the confidence computed when its turn comes: the
   * agreement bonus counts the results registered by then.
   */
  function OffersFor(valid: Validator, registered: seq<Extract>, parts: seq<Part>, f: Field): seq<FieldValue>
    decreases |parts|
  {
    if parts == [] then []
    else
      var Part(strategy, e) := parts[0];
      (if e.Scalar(f) == "" then []
       else [FieldValue(e.Scalar(f), ScalarConfidence(valid, registered, strategy, f, e), strategy)])
      + OffersFor(valid, registered + [e], parts[1..], f)
  }

  /** What one merge makes of a field. */
  function MergedScalar(current: Option<FieldValue>, valid: Validator, registered: seq<Extract>, strategy: string,
                        e: Extract, f: Field): Option<FieldValue> {
    if e.Scalar(f) == "" then current
    else Some(Better(current, FieldValue(e.Scalar(f), ScalarConfidence(valid, registered, strategy, f, e), strategy)))
  }

  function MergedSocial(current: Option<FieldValue>, strategy: string, e: Extract, k: string): Option<FieldValue> {
    if k !in e.social then current
    else Some(Better(current, FieldValue(e.social[k], SocialConfidence(strategy, e.social[k], e), strategy)))
  }

  /** What a run of merges offers for a social link; unlike a scalar, an empty one is offered too. */
  function SocialOffers(parts: seq<Part>, k: string): seq<FieldValue> {
    if parts == [] then []
    else
      var Part(strategy, e) := parts[0];
      (if k !in e.social then [] else [FieldValue(e.social[k], SocialConfidence(strategy, e.social[k], e), strategy)])
      + SocialOffers(parts[1..], k)
  }

  lemma SocialOffersNext(current: Option<FieldValue>, parts: seq<Part>, k: string)
    requires parts != []
    ensures Best(current, SocialOffers(parts, k))
         == Best(MergedSocial(current, parts[0].strategy, parts[0].extract, k), SocialOffers(parts[1..], k))
  {
    var Part(strategy, e) := parts[0];
    var rest := SocialOffers(parts[1..], k);
    if k !in e.social {
      assert [] + rest == rest;
    } else {
      var offer := FieldValue(e.social[k], SocialConfidence(strategy, e.social[k], e), strategy);
      assert ([offer] + rest)[0] == offer && ([offer] + rest)[1..] == rest;
    }
  }

  lemma {:induction false} SocialOffersBelowTruth(parts: seq<Part>, k: string)
    ensures forall offer :: offer in SocialOffers(parts, k) ==> offer.confidence <= 0.999
  {
    if parts != [] {
      SocialOffersBelowTruth(parts[1..], k);
    }
  }

  lemma OffersNext(current: Option<FieldValue>, valid: Validator, registered: seq<Extract>, parts: seq<Part>, f: Field)
    requires parts != []
    ensures var Part(strategy, e) := parts[0];
      Best(current, OffersFor(valid, registered, parts, f))
        == Best(MergedScalar(current, valid, registered, strategy, e, f), OffersFor(valid, registered + [e], parts[1..], f))
  {
    var Part(strategy, e) := parts[0];
    var rest := OffersFor(valid, registered + [e], parts[1..], f);
    if e.Scalar(f) == "" {
      assert [] + rest == rest;
    } else {
      var offer := FieldValue(e.Scalar(f), ScalarConfidence(valid, registered, strategy, f, e), strategy);
      assert ([offer] + rest)[0] == offer && ([offer] + rest)[1..] == rest;
    }
  }

  lemma {:induction false} CountFilledBound(e: Extract, fields: seq<Field>)
    ensures CountFilled(e, fields) <= |fields|
  {
    if fields != [] {
      CountFilledBound(e, fields[1..]);
    }
  }

  lemma ConfidenceBounds(valid: Validator, registered: seq<Extract>, strategy: string, f: Field, e: Extract)
    requires e.Scalar(f) != ""
    ensures 0.0 < ScalarConfidence(valid, registered, strategy, f, e) <= 0.999
  {
    assert Completeness(e) >= 0.0;
  }

  lemma {:induction false} OffersBelowTruth(valid: Validator, registered: seq<Extract>, parts: seq<Part>, f: Field)
    ensures forall offer :: offer in OffersFor(valid, registered, parts, f) ==> 0.0 < offer.confidence <= 0.999 && offer.value != ""
    decreases |parts|
  {
    if parts != [] {
      var Part(strategy, e) := parts[0];
      OffersBelowTruth(valid, registered + [e], parts[1..], f);
      if e.Scalar(f) != "" {
        ConfidenceBounds(valid, registered, strategy, f, e);
      }
    }
  }

  /** The value kept is the earliest of those offered with the greatest confidence. */
  lemma {:induction false} BestIsEarliestMaximum(offers: seq<FieldValue>)
    ensures offers == [] <==> Best(None, offers).None?
    ensures offers != [] ==> exists i :: 0 <= i < |offers| && Best(None, offers) == Some(offers[i]) && IsEarliestMaximum(offers, i)
  {
    if offers != [] {
      var i := BestAmong(offers[0], offers[1..]);
      var all := [offers[0]] + offers[1..];
      assert all == offers;
      assert IsEarliestMaximum(offers, i);
    }
  }

  ghost predicate IsEarliestMaximum(offers: seq<FieldValue>, i: nat) {
    && i < |offers|
    && (forall j :: 0 <= j < |offers| ==> offers[j].confidence <= offers[i].confidence)
    && (forall j :: 0 <= j < i ==> offers[j].confidence < offers[i].confidence)
  }

  lemma {:induction false} BestAmong(current: FieldValue, offers: seq<FieldValue>) returns (i: nat)
    ensures var all := [current] + offers;
      IsEarliestMaximum(all, i) && Best(Some(current), offers) == Some(all[i])
    decreases |offers|
  {
    var all := [current] + offers;
    if offers == [] {
      return 0;
    }
    var winner := Better(Some(current), offers[0]);
    var rest := [winner] + offers[1..];
    var k := BestAmong(winner, offers[1..]);
    i := if k > 0 then k + 1 else if winner == current then 0 else 1;
    assert forall j :: 1 < j < |all| ==> all[j] == rest[j - 1];
    assert all[i] == rest[k] && all[0] == current && all[1] == offers[0] && rest[0] == winner;
    assert rest[0].confidence <= rest[k].confidence;
    forall j | 0 <= j < |all|
      ensures all[j].confidence <= all[i].confidence && (j < i ==> all[j].confidence < all[i].confidence)
    {
      if j > 1 {
        assert all[j] == rest[j - 1];
      }
    }
  }

  /** Ground truth is never replaced, and confidence never falls. */
  lemma {:induction false} BestKeeps(current: FieldValue, offers: seq<FieldValue>)
    ensures Best(Some(current), offers).Some? && Best(Some(current), offers).value.confidence >= current.confidence
    ensures (forall offer :: offer in offers ==> offer.confidence <= current.confidence) ==> Best(Some(current), offers) == Some(current)
    decreases |offers|
  {
    if offers != [] {
      BestKeeps(Better(Some(current), offers[0]), offers[1..]);
    }
  }

  /** A value given at construction is never replaced, as computed confidence stays below ground truth. */
  lemma GroundTruthStays(truth: FieldValue, valid: Validator, registered: seq<Extract>, parts: seq<Part>, f: Field)
    requires truth.confidence == GROUND_TRUTH
    ensures Best(Some(truth), OffersFor(valid, registered, parts, f)) == Some(truth)
  {
    OffersBelowTruth(valid, registered, parts, f);
    BestKeeps(truth, OffersFor(valid, registered, parts, f));
  }

  /** Nor is a social link given at construction. */
  lemma SocialTruthStays(truth: FieldValue, parts: seq<Part>, k: string)
    requires truth.confidence == GROUND_TRUTH
    ensures Best(Some(truth), SocialOffers(parts, k)) == Some(truth)
  {
    SocialOffersBelowTruth(parts, k);
    BestKeeps(truth, SocialOffers(parts, k));
  }

  // ---------------------------------------------------------------------------- lists

  /** An item as stored: without the evidence that is moved to its provenance. */
  function Stored(item: Item): Item {
    item - {"dom_path", "xpath", "html_snippet"}
  }

  /** An item with its provenance. */
  datatype Entry = Entry(item: Item, confidence: real, strategy: string)

  predicate IsKeyField(key: string) {
    key !in {"dom_path", "xpath", "html_snippet"}
  }

  function KeyValues(list: seq<Item>, key: string): set<Value> {
    set i | 0 <= i < |list| :: Get(list[i], key)
  }

  function AddKeyed(list: seq<Item>, item: Item, key: string): seq<Item> {
    if Get(item, key).Truthy() && Get(item, key) !in KeyValues(list, key) then list + [Stored(item)] else list
  }

  function MergeKeyed(list: seq<Item>, incoming: seq<Item>, key: string): seq<Item>
    decreases |incoming|
  {
    if incoming == [] then list else MergeKeyed(AddKeyed(list, incoming[0], key), incoming[1..], key)
  }

  function AddEntry(entries: seq<Entry>, e: Entry, key: string): seq<Entry> {
    if Get(e.item, key).Truthy() && (forall i :: 0 <= i < |entries| ==> Get(entries[i].item, key) != Get(e.item, key))
    then entries + [e] else entries
  }

  /** A list and its provenance list. */
  datatype Stores = Stores(list: seq<Item>, entries: seq<Entry>)

  function AddToBoth(s: Stores, item: Item, key: string, strategy: string, from: Extract): Stores {
    if Get(item, key).Truthy() && Get(item, key) !in KeyValues(s.list, key) then
      var e := Entry(Stored(item), ItemConfidence(strategy, Stored(item), from), strategy);
      Stores(s.list + [Stored(item)], AddEntry(s.entries, e, key))
    else s
  }

  function MergeBoth(s: Stores, incoming: seq<Item>, key: string, strategy: string, from: Extract): Stores
    decreases |incoming|
  {
    if incoming == [] then s
    else MergeBoth(AddToBoth(s, incoming[0], key, strategy, from), incoming[1..], key, strategy, from)
  }

  /** Item for item the same, and no key twice. */
  ghost predicate InStep(list: seq<Item>, entries: seq<Entry>, key: string) {
    && |entries| == |list|
    && (forall i :: 0 <= i < |list| ==> entries[i].item == list[i] && Get(list[i], key).Truthy())
    && (forall i, j :: 0 <= i < j < |list| ==> Get(list[i], key) != Get(list[j], key))
  }

  lemma AddInStep(s: Stores, item: Item, key: string, strategy: string, from: Extract)
    requires InStep(s.list, s.entries, key) && IsKeyField(key)
    ensures var s1 := AddToBoth(s, item, key, strategy, from);
      && InStep(s1.list, s1.entries, key) && s1.list == AddKeyed(s.list, item, key)
      && s.entries <= s1.entries && |s1.entries| == |s1.list|
  {
    assert Get(Stored(item), key) == Get(item, key);
    assert forall i :: 0 <= i < |s.list| ==> Get(s.list[i], key) in KeyValues(s.list, key);
  }

  /** The provenance list stays in step and only grows, whatever is merged. */
  lemma {:induction false} MergeInStep(s: Stores, incoming: seq<Item>, key: string, strategy: string, from: Extract)
    requires InStep(s.list, s.entries, key) && IsKeyField(key)
    ensures var s1 := MergeBoth(s, incoming, key, strategy, from);
      InStep(s1.list, s1.entries, key) && s1.list == MergeKeyed(s.list, incoming, key) && s.entries <= s1.entries
    decreases |incoming|
  {
    if incoming != [] {
      AddInStep(s, incoming[0], key, strategy, from);
      MergeInStep(AddToBoth(s, incoming[0], key, strategy, from), incoming[1..], key, strategy, from);
    }
  }

  /** A list and its provenance after a run of merges. */
  function KeyedRun(s: Stores, parts: seq<Part>, name: KeyedList): Stores
    decreases |parts|
  {
    if parts == [] then s
    else
      var Part(strategy, e) := parts[0];
      KeyedRun(MergeBoth(s, e.Keyed(name), KeyField(name), strategy, e), parts[1..], name)
  }

  /** What a run of merges brings in for a list. */
  function Incoming(parts: seq<Part>, name: KeyedList): seq<Item> {
    if parts == [] then [] else parts[0].extract.Keyed(name) + Incoming(parts[1..], name)
  }

  /** After any run the two are in step, and the list is what the items of all parts make of it. */
  lemma {:induction false} KeyedRunInStep(s: Stores, parts: seq<Part>, name: KeyedList)
    requires InStep(s.list, s.entries, KeyField(name))
    ensures var s1 := KeyedRun(s, parts, name);
      InStep(s1.list, s1.entries, KeyField(name)) && s1.list == MergeKeyed(s.list, Incoming(parts, name), KeyField(name))
    decreases |parts|
  {
    if parts != [] {
      var Part(strategy, e) := parts[0];
      MergeInStep(s, e.Keyed(name), KeyField(name), strategy, e);
      KeyedRunInStep(MergeBoth(s, e.Keyed(name), KeyField(name), strategy, e), parts[1..], name);
      MergeKeyedAppend(s.list, e.Keyed(name), Incoming(parts[1..], name), KeyField(name));
    }
  }

  lemma {:induction false} MergeKeyedAppend(list: seq<Item>, a: seq<Item>, b: seq<Item>, key: string)
    ensures MergeKeyed(list, a + b, key) == MergeKeyed(MergeKeyed(list, a, key), b, key)
    decreases |a|
  {
    if a == [] {
      assert a + b == b;
    } else {
      MergeKeyedAppend(AddKeyed(list, a[0], key), a[1..], b, key);
      assert (a + b)[1..] == a[1..] + b;
    }
  }

  /** Position `i` of `all` holds the first item with its key. */
  predicate IsFirst(all: seq<Item>, key: string, i: nat) {
    && i < |all| && Get(all[i], key).Truthy()
    && forall j :: 0 <= j < i ==> Get(all[j], key) != Get(all[i], key)
  }

  /** The first item under each key, in the order of `all`, looking from position `k` on. */
  function FirstSeen(all: seq<Item>, key: string, k: nat): seq<Item>
    requires k <= |all|
    decreases |all| - k
  {
    if k == |all| then []
    else (if IsFirst(all, key, k) then [Stored(all[k])] else []) + FirstSeen(all, key, k + 1)
  }

  function KeysSeen(list: seq<Item>, key: string): set<Value> {
    set v | v in KeyValues(list, key) && v.Truthy()
  }

  lemma KeysSeenNext(list: seq<Item>, item: Item, stored: Item, key: string)
    requires Get(stored, key) == Get(item, key)
    ensures KeysSeen(list + [stored], key) == KeysSeen(list, key) + if Get(item, key).Truthy() then {Get(item, key)} else {}
  {
    var longer := list + [stored];
    assert longer[|list|] == stored && forall i :: 0 <= i < |list| ==> longer[i] == list[i];
    assert KeyValues(longer, key) == KeyValues(list, key) + {Get(item, key)};
  }

  lemma FirstIsUnseen(all: seq<Item>, key: string, k: nat)
    requires k < |all|
    ensures IsFirst(all, key, k) <==> Get(all[k], key).Truthy() && Get(all[k], key) !in KeyValues(all[..k], key)
  {
    assert forall j :: 0 <= j < k ==> all[..k][j] == all[j];
  }

  lemma {:induction false} MergeFrom(list: seq<Item>, all: seq<Item>, key: string, k: nat)
    requires IsKeyField(key) && k <= |all| && KeysSeen(list, key) == KeysSeen(all[..k], key)
    ensures MergeKeyed(list, all[k..], key) == list + FirstSeen(all, key, k)
    decreases |all| - k
  {
    if k < |all| {
      var item := all[k];
      var v := Get(item, key);
      assert all[k..][0] == item && all[k..][1..] == all[k + 1..];
      assert all[..k + 1] == all[..k] + [item];
      FirstIsUnseen(all, key, k);
      KeysSeenNext(all[..k], item, item, key);
      KeysSeenNext(list, item, Stored(item), key);
      assert v.Truthy() ==> (v in KeyValues(list, key) <==> v in KeysSeen(list, key));
      assert v.Truthy() ==> (v in KeyValues(all[..k], key) <==> v in KeysSeen(all[..k], key));
      MergeFrom(AddKeyed(list, item, key), all, key, k + 1);
    }
  }

  /** From nothing, merging keeps just the first item under each key, in the order first seen. */
  lemma MergeKeepsFirstSeen(all: seq<Item>, key: string)
    requires IsKeyField(key)
    ensures MergeKeyed([], all, key) == FirstSeen(all, key, 0)
  {
    MergeFrom([], all, key, 0);
    assert all[0..] == all;
  }

  // ---------------------------------------------------------------------- loose lists

  function ShownKeys(list: seq<Item>, keys: (string, string)): set<string> {
    set i | 0 <= i < |list| && GetOr(list[i], keys.0, keys.1).Truthy() :: GetOr(list[i], keys.0, keys.1).Show()
  }

  predicate Duplicates(list: seq<Item>, item: Item, keys: (string, string)) {
    var k := GetOr(item, keys.0, keys.1);
    k.Truthy() && k.Show() in ShownKeys(list, keys)
  }

  function AddLoose(list: seq<Item>, item: Item, keys: (string, string)): seq<Item> {
    if Duplicates(list, item, keys) then list else list + [Stored(item)]
  }

  function MergeLoose(list: seq<Item>, incoming: seq<Item>, keys: (string, string)): seq<Item>
    decreases |incoming|
  {
    if incoming == [] then list else MergeLoose(AddLoose(list, incoming[0], keys), incoming[1..], keys)
  }

  /** The field the provenance list deduplicates by. */
  function DedupField(item: Item, keys: (string, string)): string {
    if keys.0 in item then keys.0 else keys.1
  }

  function AddToBothLoose(s: Stores, item: Item, keys: (string, string), strategy: string, from: Extract): Stores {
    if Duplicates(s.list, item, keys) then s
    else
      var e := Entry(Stored(item), ItemConfidence(strategy, Stored(item), from), strategy);
      Stores(s.list + [Stored(item)], AddEntry(s.entries, e, DedupField(Stored(item), keys)))
  }

  function MergeBothLoose(s: Stores, incoming: seq<Item>, keys: (string, string), strategy: string, from: Extract): Stores
    decreases |incoming|
  {
    if incoming == [] then s
    else MergeBothLoose(AddToBothLoose(s, incoming[0], keys, strategy, from), incoming[1..], keys, strategy, from)
  }

  /** The items of `entries` occur in `list` in the same order, perhaps with others between them. */
  predicate Within(entries: seq<Entry>, list: seq<Item>) {
    entries == [] ||
    (list != [] &&
      ((entries[|entries| - 1].item == list[|list| - 1] && Within(entries[..|entries| - 1], list[..|list| - 1]))
      || Within(entries, list[..|list| - 1])))
  }

  /** The key of an item: what its first field prints as, or if that is empty its second one, unless both are. */
  predicate KeyedAs(item: Item, keys: (string, string), shown: string) {
    if Get(item, keys.0).Truthy() then shown == Get(item, keys.0).Show()
    else Get(item, keys.1).Truthy() && shown == Get(item, keys.1).Show()
  }

  lemma KeyedAsIff(item: Item, keys: (string, string), shown: string)
    ensures KeyedAs(item, keys, shown) <==>
      var k := GetOr(item, keys.0, keys.1); k.Truthy() && shown == k.Show()
  {
  }

  /** No two items have the same key. */
  ghost predicate KeysApart(list: seq<Item>, keys: (string, string)) {
    forall i, j, shown :: 0 <= i < j < |list| && KeyedAs(list[i], keys, shown) ==> !KeyedAs(list[j], keys, shown)
  }

  /** The item at `i` has no key, or is the first to have it. */
  ghost predicate IsFirstLoose(all: seq<Item>, keys: (string, string), i: nat)
    requires i < |all|
  {
    forall j, shown :: 0 <= j < i && KeyedAs(all[i], keys, shown) ==> !KeyedAs(all[j], keys, shown)
  }

  ghost function FirstLoose(all: seq<Item>, keys: (string, string), k: nat): seq<Item>
    requires k <= |all|
    decreases |all| - k
  {
    if k == |all| then []
    else (if IsFirstLoose(all, keys, k) then [Stored(all[k])] else []) + FirstLoose(all, keys, k + 1)
  }

  lemma ShownKeysNext(list: seq<Item>, item: Item, keys: (string, string))
    ensures var k := GetOr(item, keys.0, keys.1);
      ShownKeys(list + [item], keys) == ShownKeys(list, keys) + if k.Truthy() then {k.Show()} else {}
  {
    var longer := list + [item];
    assert longer[|list|] == item && forall i :: 0 <= i < |list| ==> longer[i] == list[i];
    forall s ensures s in ShownKeys(longer, keys) <==>
      s in ShownKeys(list, keys) || (GetOr(item, keys.0, keys.1).Truthy() && s == GetOr(item, keys.0, keys.1).Show())
    {
      if s in ShownKeys(list, keys) {
        var i :| 0 <= i < |list| && GetOr(list[i], keys.0, keys.1).Truthy() && GetOr(list[i], keys.0, keys.1).Show() == s;
        assert longer[i] == list[i];
      }
    }
  }

  lemma ShownIff(list: seq<Item>, keys: (string, string), shown: string)
    ensures shown in ShownKeys(list, keys) <==> exists i :: 0 <= i < |list| && KeyedAs(list[i], keys, shown)
  {
    if shown in ShownKeys(list, keys) {
      var i :| 0 <= i < |list| && GetOr(list[i], keys.0, keys.1).Truthy() && GetOr(list[i], keys.0, keys.1).Show() == shown;
      KeyedAsIff(list[i], keys, shown);
    }
    if i :| 0 <= i < |list| && KeyedAs(list[i], keys, shown) {
      KeyedAsIff(list[i], keys, shown);
    }
  }

  lemma FirstLooseIsNew(all: seq<Item>, keys: (string, string), k: nat)
    requires k < |all|
    ensures IsFirstLoose(all, keys, k) <==> !Duplicates(all[..k], all[k], keys)
  {
    var own, before := GetOr(all[k], keys.0, keys.1), all[..k];
    assert forall j :: 0 <= j < k ==> before[j] == all[j];
    KeyedAsIff(all[k], keys, own.Show());
    ShownIff(before, keys, own.Show());
    forall shown | KeyedAs(all[k], keys, shown) ensures own.Truthy() && shown == own.Show() {
      KeyedAsIff(all[k], keys, shown);
    }
  }

  /** A list that shows the same keys as what came before does so after one more item, and finds the same duplicates. */
  lemma SameKeysNext(list: seq<Item>, before: seq<Item>, item: Item, keys: (string, string))
    requires IsKeyField(keys.0) && IsKeyField(keys.1) && ShownKeys(list, keys) == ShownKeys(before, keys)
    ensures ShownKeys(AddLoose(list, item, keys), keys) == ShownKeys(before + [item], keys)
    ensures Duplicates(list, item, keys) <==> Duplicates(before, item, keys)
  {
    assert GetOr(Stored(item), keys.0, keys.1) == GetOr(item, keys.0, keys.1);
    ShownKeysNext(before, item, keys);
    ShownKeysNext(list, Stored(item), keys);
  }

  lemma {:induction false} LooseFrom(list: seq<Item>, all: seq<Item>, keys: (string, string), k: nat)
    requires IsKeyField(keys.0) && IsKeyField(keys.1) && k <= |all| && ShownKeys(list, keys) == ShownKeys(all[..k], keys)
    ensures MergeLoose(list, all[k..], keys) == list + FirstLoose(all, keys, k)
    decreases |all| - k
  {
    if k < |all| {
      var item := all[k];
      assert all[k..][0] == item && all[k..][1..] == all[k + 1..] && all[..k + 1] == all[..k] + [item];
      FirstLooseIsNew(all, keys, k);
      SameKeysNext(list, all[..k], item, keys);
      LooseFrom(AddLoose(list, item, keys), all, keys, k + 1);
    }
  }

  /** From nothing, merging keeps just the items without a key and the first under each key, in the order first seen. */
  lemma LooseKeepsFirstSeen(all: seq<Item>, keys: (string, string))
    requires IsKeyField(keys.0) && IsKeyField(keys.1)
    ensures MergeLoose([], all, keys) == FirstLoose(all, keys, 0)
  {
    LooseFrom([], all, keys, 0);
    assert all[0..] == all;
  }

  lemma WithinMore(entries: seq<Entry>, list: seq<Item>, e: Entry, item: Item)
    requires Within(entries, list)
    ensures Within(entries, list + [item]) && (e.item == item ==> Within(entries + [e], list + [item]))
  {
    assert (list + [item])[..|list|] == list && (entries + [e])[..|entries|] == entries;
  }

  lemma KeysApartMore(list: seq<Item>, item: Item, keys: (string, string))
    requires KeysApart(list, keys) && !Duplicates(list, item, keys)
    ensures KeysApart(list + [item], keys)
  {
    forall i, shown | 0 <= i < |list| && KeyedAs(list[i], keys, shown) ensures !KeyedAs(item, keys, shown) {
      KeyedAsIff(list[i], keys, shown);
      KeyedAsIff(item, keys, shown);
      assert shown in ShownKeys(list, keys);
    }
  }

  lemma AddLooseKeeps(s: Stores, item: Item, keys: (string, string), strategy: string, from: Extract)
    requires Within(s.entries, s.list) && KeysApart(s.list, keys) && IsKeyField(keys.0) && IsKeyField(keys.1)
    ensures var s1 := AddToBothLoose(s, item, keys, strategy, from);
      && KeysApart(s1.list, keys) && Within(s1.entries, s1.list)
      && s1.list == AddLoose(s.list, item, keys) && s.entries <= s1.entries
  {
    if !Duplicates(s.list, item, keys) {
      var e := Entry(Stored(item), ItemConfidence(strategy, Stored(item), from), strategy);
      assert GetOr(Stored(item), keys.0, keys.1) == GetOr(item, keys.0, keys.1);
      KeysApartMore(s.list, Stored(item), keys);
      WithinMore(s.entries, s.list, e, Stored(item));
    }
  }

  /** Of the loose lists the provenance is a subsequence, whatever is merged, and no keyed item comes twice. */
  lemma {:induction false} MergeLooseKeeps(s: Stores, incoming: seq<Item>, keys: (string, string), strategy: string, from: Extract)
    requires Within(s.entries, s.list) && KeysApart(s.list, keys) && IsKeyField(keys.0) && IsKeyField(keys.1)
    ensures var s1 := MergeBothLoose(s, incoming, keys, strategy, from);
      && KeysApart(s1.list, keys) && Within(s1.entries, s1.list)
      && s1.list == MergeLoose(s.list, incoming, keys) && s.entries <= s1.entries
    decreases |incoming|
  {
    if incoming != [] {
      AddLooseKeeps(s, incoming[0], keys, strategy, from);
      MergeLooseKeeps(AddToBothLoose(s, incoming[0], keys, strategy, from), incoming[1..], keys, strategy, from);
    }
  }

  /** One entry for every item, in its place. */
  ghost predicate Paired(s: Stores) {
    |s.entries| == |s.list| && forall i :: 0 <= i < |s.list| ==> s.entries[i].item == s.list[i]
  }

  /** A subsequence as long as the whole is the whole. */
  lemma {:induction false} WithinPaired(entries: seq<Entry>, list: seq<Item>)
    requires Within(entries, list)
    ensures |entries| <= |list| && (|entries| == |list| ==> Paired(Stores(list, entries)))
    decreases |list|
  {
    if entries != [] {
      var e, l := entries[..|entries| - 1], list[..|list| - 1];
      if entries[|entries| - 1].item == list[|list| - 1] && Within(e, l) {
        WithinPaired(e, l);
        assert forall i :: 0 <= i < |e| ==> entries[i] == e[i];
        assert forall i :: 0 <= i < |l| ==> list[i] == l[i];
      } else {
        WithinPaired(entries, l);
      }
    }
  }

  /** In the field its entry goes by, the item has a value, and one that no item listed has there. */
  predicate Distinguished(list: seq<Item>, item: Item, keys: (string, string)) {
    var key := DedupField(item, keys);
    Get(item, key).Truthy() && forall i :: 0 <= i < |list| ==> Get(list[i], key) != Get(item, key)
  }

  /** Each incoming item, in its turn, is a duplicate or distinguished from the items listed by then. */
  predicate StaysPaired(list: seq<Item>, incoming: seq<Item>, keys: (string, string))
    decreases |incoming|
  {
    incoming == [] ||
    ((Duplicates(list, incoming[0], keys) || Distinguished(list, incoming[0], keys))
     && StaysPaired(AddLoose(list, incoming[0], keys), incoming[1..], keys))
  }

  lemma AddPaired(s: Stores, item: Item, keys: (string, string), strategy: string, from: Extract)
    requires Paired(s) && IsKeyField(keys.0) && IsKeyField(keys.1)
    ensures var s1 := AddToBothLoose(s, item, keys, strategy, from);
      && s1.list == AddLoose(s.list, item, keys)
      && (Paired(s1) <==> Duplicates(s.list, item, keys) || Distinguished(s.list, item, keys))
      && (!Paired(s1) ==> |s1.entries| < |s1.list|)
  {
    var key := DedupField(item, keys);
    assert DedupField(Stored(item), keys) == key && Get(Stored(item), key) == Get(item, key);
  }

  /** Once there are fewer entries than items it stays so. */
  lemma {:induction false} GapStays(s: Stores, incoming: seq<Item>, keys: (string, string), strategy: string, from: Extract)
    requires |s.entries| < |s.list|
    ensures var s1 := MergeBothLoose(s, incoming, keys, strategy, from); |s1.entries| < |s1.list|
    decreases |incoming|
  {
    if incoming != [] {
      GapStays(AddToBothLoose(s, incoming[0], keys, strategy, from), incoming[1..], keys, strategy, from);
    }
  }

  /** A loose list keeps an entry for every item exactly when what comes in allows it; otherwise entries are missing. */
  lemma {:induction false} StaysPairedIff(s: Stores, incoming: seq<Item>, keys: (string, string), strategy: string, from: Extract)
    requires Paired(s) && IsKeyField(keys.0) && IsKeyField(keys.1)
    ensures var s1 := MergeBothLoose(s, incoming, keys, strategy, from);
      && (Paired(s1) <==> StaysPaired(s.list, incoming, keys))
      && (|s1.entries| == |s1.list| <==> StaysPaired(s.list, incoming, keys))
    decreases |incoming|
  {
    if incoming != [] {
      var s1 := AddToBothLoose(s, incoming[0], keys, strategy, from);
      AddPaired(s, incoming[0], keys, strategy, from);
      if Paired(s1) {
        StaysPairedIff(s1, incoming[1..], keys, strategy, from);
      } else {
        GapStays(s1, incoming[1..], keys, strategy, from);
      }
    }
  }

  // ------------------------------------------------------------- loose lists over a run

  /** A loose list and its provenance after a run of merges. */
  function LooseRun(s: Stores, parts: seq<Part>, name: LooseList): Stores
    decreases |parts|
  {
    if parts == [] then s
    else
      var Part(strategy, e) := parts[0];
      LooseRun(MergeBothLoose(s, e.Loose(name), KeyFields(name), strategy, e), parts[1..], name)
  }

  function IncomingLoose(parts: seq<Part>, name: LooseList): seq<Item> {
    if parts == [] then [] else parts[0].extract.Loose(name) + IncomingLoose(parts[1..], name)
  }

  lemma {:induction false} LooseAppend(list: seq<Item>, a: seq<Item>, b: seq<Item>, keys: (string, string))
    ensures MergeLoose(list, a + b, keys) == MergeLoose(MergeLoose(list, a, keys), b, keys)
    ensures StaysPaired(list, a + b, keys) <==> StaysPaired(list, a, keys) && StaysPaired(MergeLoose(list, a, keys), b, keys)
    decreases |a|
  {
    if a == [] {
      assert a + b == b;
    } else {
      LooseAppend(AddLoose(list, a[0], keys), a[1..], b, keys);
      assert (a + b)[0] == a[0] && (a + b)[1..] == a[1..] + b;
    }
  }

  lemma {:induction false} LooseRunKeeps(s: Stores, parts: seq<Part>, name: LooseList)
    requires Within(s.entries, s.list) && KeysApart(s.list, KeyFields(name))
    ensures var s1 := LooseRun(s, parts, name);
      && Within(s1.entries, s1.list) && KeysApart(s1.list, KeyFields(name))
      && s1.list == MergeLoose(s.list, IncomingLoose(parts, name), KeyFields(name))
    decreases |parts|
  {
    if parts != [] {
      var Part(strategy, e) := parts[0];
      MergeLooseKeeps(s, e.Loose(name), KeyFields(name), strategy, e);
      LooseRunKeeps(MergeBothLoose(s, e.Loose(name), KeyFields(name), strategy, e), parts[1..], name);
      LooseAppend(s.list, e.Loose(name), IncomingLoose(parts[1..], name), KeyFields(name));
    }
  }

  lemma {:induction false} GapStaysOverRun(s: Stores, parts: seq<Part>, name: LooseList)
    requires |s.entries| < |s.list|
    ensures var s1 := LooseRun(s, parts, name); |s1.entries| < |s1.list|
    decreases |parts|
  {
    if parts != [] {
      var Part(strategy, e) := parts[0];
      GapStays(s, e.Loose(name), KeyFields(name), strategy, e);
      GapStaysOverRun(MergeBothLoose(s, e.Loose(name), KeyFields(name), strategy, e), parts[1..], name);
    }
  }

  /** One merge of a run, and what is still to come in. */
  lemma PairedThen(s: Stores, incoming: seq<Item>, tail: seq<Item>, keys: (string, string), strategy: string, from: Extract)
    requires Paired(s) && Within(s.entries, s.list) && KeysApart(s.list, keys) && IsKeyField(keys.0) && IsKeyField(keys.1)
    ensures var s1 := MergeBothLoose(s, incoming, keys, strategy, from);
      && Within(s1.entries, s1.list) && KeysApart(s1.list, keys)
      && (Paired(s1) || |s1.entries| < |s1.list|)
      && (StaysPaired(s.list, incoming + tail, keys) <==> Paired(s1) && StaysPaired(s1.list, tail, keys))
  {
    var s1 := MergeBothLoose(s, incoming, keys, strategy, from);
    MergeLooseKeeps(s, incoming, keys, strategy, from);
    StaysPairedIff(s, incoming, keys, strategy, from);
    WithinPaired(s1.entries, s1.list);
    LooseAppend(s.list, incoming, tail, keys);
  }

  /** The same condition, over the items of all parts in a row, decides for a whole run. */
  lemma {:induction false} RunStaysPairedIff(s: Stores, parts: seq<Part>, name: LooseList)
    requires Paired(s) && Within(s.entries, s.list) && KeysApart(s.list, KeyFields(name))
    ensures Paired(LooseRun(s, parts, name)) <==> StaysPaired(s.list, IncomingLoose(parts, name), KeyFields(name))
    decreases |parts|
  {
    if parts != [] {
      var Part(strategy, e) := parts[0];
      PairedThen(s, e.Loose(name), IncomingLoose(parts[1..], name), KeyFields(name), strategy, e);
      var s1 := MergeBothLoose(s, e.Loose(name), KeyFields(name), strategy, e);
      if Paired(s1) {
        RunStaysPairedIff(s1, parts[1..], name);
      } else {
        GapStaysOverRun(s1, parts[1..], name);
      }
    }
  }

  // ------------------------------------------------------ three ways to lose an entry

  /** No key at all. */
  function Keyless(): seq<Item> {
    [map["price" := Text("9")]]
  }

  /** A key field that is there but empty, and hides the one to fall back on. */
  function Hidden(): seq<Item> {
    [map["plan_name" := Null, "name" := Text("Zed")]]
  }

  /** A fallback value that an item with another key already has. */
  function Clashing(): seq<Item> {
    [map["plan_name" := Text("Gold"), "name" := Text("Acme")], map["name" := Text("Acme")]]
  }

  lemma FirstAlone(item: Item, keys: (string, string))
    requires !Get(item, DedupField(item, keys)).Truthy()
    ensures !StaysPaired([], [item], keys)
  {
    assert ShownKeys([], keys) == {};
  }

  lemma SecondClashes(a: Item, b: Item, keys: (string, string))
    requires !Duplicates([a], b, keys) && Stored(a) == a && Get(a, DedupField(b, keys)) == Get(b, DedupField(b, keys))
    ensures !StaysPaired([], [a, b], keys)
  {
    assert ShownKeys([], keys) == {};
    assert [a, b][1..] == [b] && AddLoose([], a, keys) == [] + [a] == [a];
    assert !Distinguished([a], b, keys) by { assert [a][0] == a; }
    assert !StaysPaired([a], [b], keys);
  }

  lemma NonePaired(incoming: seq<Item>)
    requires incoming in [Keyless(), Hidden(), Clashing()]
    ensures !StaysPaired([], incoming, ("plan_name", "name"))
  {
    var keys := ("plan_name", "name");
    if incoming == Clashing() {
      assert Stored(incoming[0]) == incoming[0];
      SecondClashes(incoming[0], incoming[1], keys);
    } else {
      FirstAlone(incoming[0], keys);
    }
  }

  /** So plans of each of these kinds end with fewer entries than items. */
  lemma LooseListsCanPart(strategy: string, from: Extract, incoming: seq<Item>)
    requires incoming in [Keyless(), Hidden(), Clashing()]
    ensures var s := MergeBothLoose(Stores([], []), incoming, KeyFields(Plans), strategy, from); |s.entries| < |s.list|
  {
    NonePaired(incoming);
    MergeLooseKeeps(Stores([], []), incoming, KeyFields(Plans), strategy, from);
    StaysPairedIff(Stores([], []), incoming, KeyFields(Plans), strategy, from);
    var s := MergeBothLoose(Stores([], []), incoming, KeyFields(Plans), strategy, from);
    WithinPaired(s.entries, s.list);
  }

  // ----------------------------------------------------------------------- what entries say

  /** An entry holds an item of the part without its evidence, the part's strategy, and the confidence of that item from it. */
  ghost predicate EntryOf(entry: Entry, strategy: string, from: Extract, items: seq<Item>) {
    exists item :: item in items && entry.item == item - {"dom_path", "xpath", "html_snippet"}
      && entry.strategy == strategy && entry.confidence == ItemConfidence(strategy, entry.item, from)
  }

  lemma {:induction false} MergeBothEntries(s: Stores, incoming: seq<Item>, key: string, strategy: string, from: Extract)
    ensures forall entry :: entry in MergeBoth(s, incoming, key, strategy, from).entries ==>
      entry in s.entries || EntryOf(entry, strategy, from, incoming)
    decreases |incoming|
  {
    if incoming != [] {
      var s1 := AddToBoth(s, incoming[0], key, strategy, from);
      MergeBothEntries(s1, incoming[1..], key, strategy, from);
      assert forall item :: item in incoming[1..] ==> item in incoming;
      forall entry | entry in s1.entries ensures entry in s.entries || EntryOf(entry, strategy, from, incoming) {
        assert incoming[0] in incoming;
      }
    }
  }

  lemma {:induction false} MergeBothLooseEntries(s: Stores, incoming: seq<Item>, keys: (string, string), strategy: string, from: Extract)
    ensures forall entry :: entry in MergeBothLoose(s, incoming, keys, strategy, from).entries ==>
      entry in s.entries || EntryOf(entry, strategy, from, incoming)
    decreases |incoming|
  {
    if incoming != [] {
      var s1 := AddToBothLoose(s, incoming[0], keys, strategy, from);
      MergeBothLooseEntries(s1, incoming[1..], keys, strategy, from);
      assert forall item :: item in incoming[1..] ==> item in incoming;
      forall entry | entry in s1.entries ensures entry in s.entries || EntryOf(entry, strategy, from, incoming) {
        assert incoming[0] in incoming;
      }
    }
  }

  /** After any run every entry of every list says which part its item came from. */
  lemma {:induction false} KeyedRunEntries(s: Stores, parts: seq<Part>, name: KeyedList)
    ensures forall entry :: entry in KeyedRun(s, parts, name).entries ==>
      entry in s.entries || exists p :: p in parts && EntryOf(entry, p.strategy, p.extract, p.extract.Keyed(name))
    decreases |parts|
  {
    if parts != [] {
      var p := parts[0];
      var s1 := MergeBoth(s, p.extract.Keyed(name), KeyField(name), p.strategy, p.extract);
      MergeBothEntries(s, p.extract.Keyed(name), KeyField(name), p.strategy, p.extract);
      KeyedRunEntries(s1, parts[1..], name);
      assert p in parts && forall q :: q in parts[1..] ==> q in parts;
    }
  }

  lemma {:induction false} LooseRunEntries(s: Stores, parts: seq<Part>, name: LooseList)
    ensures forall entry :: entry in LooseRun(s, parts, name).entries ==>
      entry in s.entries || exists p :: p in parts && EntryOf(entry, p.strategy, p.extract, p.extract.Loose(name))
    decreases |parts|
  {
    if parts != [] {
      var p := parts[0];
      var s1 := MergeBothLoose(s, p.extract.Loose(name), KeyFields(name), p.strategy, p.extract);
      MergeBothLooseEntries(s, p.extract.Loose(name), KeyFields(name), p.strategy, p.extract);
      LooseRunEntries(s1, parts[1..], name);
      assert p in parts && forall q :: q in parts[1..] ==> q in parts;
    }
  }

  // ----------------------------------------------------------------------- nothing is lost

  /** Some item of the list has the key. */
  ghost predicate HasKeyed(list: seq<Item>, key: string, v: Value) {
    exists kept :: kept in list && Get(kept, key) == v
  }

  ghost predicate HasShown(list: seq<Item>, keys: (string, string), shown: string) {
    exists kept :: kept in list && KeyedAs(kept, keys, shown)
  }

  lemma AddKeyedHas(list: seq<Item>, item: Item, key: string)
    requires IsKeyField(key)
    ensures list <= AddKeyed(list, item, key)
    ensures Get(item, key).Truthy() ==> HasKeyed(AddKeyed(list, item, key), key, Get(item, key))
  {
    var v := Get(item, key);
    assert Get(Stored(item), key) == v;
    if v.Truthy() && v in KeyValues(list, key) {
      var i :| 0 <= i < |list| && Get(list[i], key) == v;
      assert list[i] in list;
    } else if v.Truthy() {
      assert Stored(item) in AddKeyed(list, item, key);
    }
  }

  lemma {:induction false} MergeKeyedHas(list: seq<Item>, incoming: seq<Item>, key: string, item: Item)
    requires IsKeyField(key)
    ensures list <= MergeKeyed(list, incoming, key)
    ensures item in incoming && Get(item, key).Truthy() ==> HasKeyed(MergeKeyed(list, incoming, key), key, Get(item, key))
    decreases |incoming|
  {
    if incoming != [] {
      var list1 := AddKeyed(list, incoming[0], key);
      AddKeyedHas(list, incoming[0], key);
      MergeKeyedHas(list1, incoming[1..], key, item);
      assert incoming == [incoming[0]] + incoming[1..];
      if item == incoming[0] && Get(item, key).Truthy() {
        var kept :| kept in list1 && Get(kept, key) == Get(item, key);
        assert kept in MergeKeyed(list, incoming, key);
      }
    }
  }

  lemma AddLooseHas(list: seq<Item>, item: Item, keys: (string, string), shown: string)
    requires IsKeyField(keys.0) && IsKeyField(keys.1)
    ensures list <= AddLoose(list, item, keys)
    ensures KeyedAs(item, keys, shown) ==> HasShown(AddLoose(list, item, keys), keys, shown)
    ensures !GetOr(item, keys.0, keys.1).Truthy() ==> Stored(item) in AddLoose(list, item, keys)
  {
    KeyedAsIff(item, keys, shown);
    if KeyedAs(item, keys, shown) {
      if Duplicates(list, item, keys) {
        ShownIff(list, keys, shown);
        var i :| 0 <= i < |list| && KeyedAs(list[i], keys, shown);
        assert list[i] in list;
      } else {
        assert Stored(item) in AddLoose(list, item, keys) && KeyedAs(Stored(item), keys, shown);
      }
    }
  }

  lemma {:induction false} MergeLooseHas(list: seq<Item>, incoming: seq<Item>, keys: (string, string), item: Item, shown: string)
    requires IsKeyField(keys.0) && IsKeyField(keys.1)
    ensures list <= MergeLoose(list, incoming, keys)
    ensures item in incoming && KeyedAs(item, keys, shown) ==> HasShown(MergeLoose(list, incoming, keys), keys, shown)
    ensures item in incoming && !GetOr(item, keys.0, keys.1).Truthy() ==> Stored(item) in MergeLoose(list, incoming, keys)
    decreases |incoming|
  {
    if incoming != [] {
      var list1 := AddLoose(list, incoming[0], keys);
      AddLooseHas(list, incoming[0], keys, shown);
      MergeLooseHas(list1, incoming[1..], keys, item, shown);
      assert incoming == [incoming[0]] + incoming[1..];
      if item == incoming[0] && KeyedAs(item, keys, shown) {
        var kept :| kept in list1 && KeyedAs(kept, keys, shown);
        assert kept in MergeLoose(list, incoming, keys);
      }
    }
  }

  lemma {:induction false} IncomingHas(parts: seq<Part>, name: KeyedList, loose: LooseList, p: Part)
    requires p in parts
    ensures name in p.extract.keyed ==> forall item :: item in p.extract.keyed[name] ==> item in Incoming(parts, name)
    ensures loose in p.extract.loose ==> forall item :: item in p.extract.loose[loose] ==> item in IncomingLoose(parts, loose)
  {
    if p != parts[0] {
      assert parts == [parts[0]] + parts[1..];
      IncomingHas(parts[1..], name, loose, p);
    }
  }
}
