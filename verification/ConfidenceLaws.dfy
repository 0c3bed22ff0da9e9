/** What decides the confidence of an offer, stated without the formula. */
module ConfidenceLaws {
  import opened Common
  import opened Values
  import opened MergeModel
  import opened ParsedResult

  /** The registered results with the same value for the field. */
  ghost function Agreeing(registered: seq<Extract>, f: Field, value: string): set<int> {
    set i | 0 <= i < |registered| && f in registered[i].scalars && registered[i].scalars[f] == value
  }

  ghost function FieldsFound(e: Extract): set<Field> {
    set f: Field | f in e.scalars && e.scalars[f] != ""
  }

  /** The strategy has this name, or begins with it and a colon. */
  predicate Named(strategy: string, name: string) {
    strategy == name || name + ":" <= strategy
  }

  ghost predicate NamedOneOf(strategy: string, names: set<string>) {
    exists name :: name in names && Named(strategy, name)
  }

  const STRUCTURED := {"json_ld", "schema_org", "microdata"}
  const STRUCTURAL := {"table_extraction", "form_extraction", "faq_extraction", "breadcrumb_extraction"}

  /** By how much a strategy is trusted more than a generic one. */
  ghost predicate Trusts(strategy: string, more: real) {
    && (NamedOneOf(strategy, STRUCTURED) ==> more == 0.35)
    && (Named(strategy, "multi_pass") ==> more == 0.30)
    && (Named(strategy, "metadata") ==> more == 0.20)
    && (Named(strategy, "semantic_html") ==> more == 0.15)
    && (NamedOneOf(strategy, STRUCTURAL) ==> more == 0.10)
    && (!NamedOneOf(strategy, STRUCTURED + STRUCTURAL + {"multi_pass", "metadata", "semantic_html"}) ==> more == 0.0)
  }

  lemma {:induction false} BeforeNames(strategy: string, name: string)
    requires ':' !in name
    ensures Before(strategy, ':') == name <==> Named(strategy, name)
  {
    if strategy != "" && strategy[0] != ':' && name != "" && name[0] == strategy[0] {
      BeforeNames(strategy[1..], name[1..]);
      assert strategy == [strategy[0]] + strategy[1..] && name == [name[0]] + name[1..];
      assert (name + ":")[1..] == name[1..] + ":";
    } else if strategy != "" && strategy[0] != ':' {
      assert name != "" ==> (name + ":")[0] == name[0];
      assert name == "" ==> name + ":" == ":";
    }
  }

  lemma {:induction false} AgreeingAppend(registered: seq<Extract>, e: Extract, f: Field, value: string)
    ensures CountAgreeing(registered + [e], f, value) == CountAgreeing(registered, f, value) + if e.Scalar(f) == value then 1 else 0
  {
    if registered == [] {
      assert [] + [e] == [e] && [e][1..] == [];
    } else {
      AgreeingAppend(registered[1..], e, f, value);
      assert (registered + [e])[1..] == registered[1..] + [e];
    }
  }

  lemma {:induction false} CountsAgreeing(registered: seq<Extract>, f: Field, value: string)
    requires value != ""
    ensures CountAgreeing(registered, f, value) == |Agreeing(registered, f, value)|
    decreases |registered|
  {
    if registered != [] {
      var n := |registered| - 1;
      var before, e := registered[..n], registered[n];
      CountsAgreeing(before, f, value);
      AgreeingAppend(before, e, f, value);
      AgreeingNext(before, e, f, value);
      assert registered == before + [e];
    }
  }

  lemma AgreeingNext(before: seq<Extract>, e: Extract, f: Field, value: string)
    requires value != ""
    ensures |Agreeing(before + [e], f, value)| == |Agreeing(before, f, value)| + if e.Scalar(f) == value then 1 else 0
  {
    var n, was, now := |before|, Agreeing(before, f, value), Agreeing(before + [e], f, value);
    forall i ensures i in now <==> i in was || (i == n && e.Scalar(f) == value) {
      if 0 <= i < n {
        assert (before + [e])[i] == before[i];
      }
    }
    assert n !in was && now == if e.Scalar(f) == value then was + {n} else was;
  }

  ghost function FoundAmong(e: Extract, fields: seq<Field>): set<Field> {
    set f | f in fields && e.Scalar(f) != ""
  }

  lemma FoundCons(e: Extract, fields: seq<Field>)
    requires fields != [] && fields[0] !in fields[1..]
    ensures |FoundAmong(e, fields)| == |FoundAmong(e, fields[1..])| + if e.Scalar(fields[0]) != "" then 1 else 0
  {
    var here := if e.Scalar(fields[0]) != "" then {fields[0]} else {};
    assert fields == [fields[0]] + fields[1..];
    assert FoundAmong(e, fields) == here + FoundAmong(e, fields[1..]);
  }

  lemma {:induction false} CountsFound(e: Extract, fields: seq<Field>)
    requires forall i, j :: 0 <= i < j < |fields| ==> fields[i] != fields[j]
    ensures CountFilled(e, fields) == |FoundAmong(e, fields)|
  {
    if fields != [] {
      CountsFound(e, fields[1..]);
      FoundCons(e, fields);
    }
  }

  lemma FoundInAll(e: Extract)
    ensures CountFilled(e, FIELDS) == |FieldsFound(e)|
  {
    CountsFound(e, FIELDS);
    EveryField();
    assert FoundAmong(e, FIELDS) == FieldsFound(e);
  }

  lemma BaseTrusts(strategy: string)
    ensures Trusts(strategy, Base(strategy) - 0.375)
  {
    KeyIn(strategy, STRUCTURED);
    KeyIn(strategy, STRUCTURAL);
    KeyIn(strategy, STRUCTURED + STRUCTURAL + {"multi_pass", "metadata", "semantic_html"});
    BeforeNames(strategy, "multi_pass");
    BeforeNames(strategy, "metadata");
    BeforeNames(strategy, "semantic_html");
    BaseByKey(strategy, Before(strategy, ':'));
  }

  lemma BaseByKey(strategy: string, key: string)
    requires key == Before(strategy, ':')
    ensures key in STRUCTURED ==> Base(strategy) == 0.725
    ensures key == "multi_pass" ==> Base(strategy) == 0.675
    ensures key == "metadata" ==> Base(strategy) == 0.575
    ensures key == "semantic_html" ==> Base(strategy) == 0.525
    ensures key in STRUCTURAL ==> Base(strategy) == 0.475
    ensures key !in STRUCTURED + STRUCTURAL + {"multi_pass", "metadata", "semantic_html"} ==> Base(strategy) == 0.375
  {
    NamesApart();
  }

  lemma NamesApart()
    ensures STRUCTURED !! STRUCTURAL !! {"multi_pass", "metadata", "semantic_html"}
    ensures "multi_pass" != "metadata" && "multi_pass" != "semantic_html" && "metadata" != "semantic_html"
  {
    assert "table_extraction"[0] == 't' && "form_extraction"[0] == 'f' && "faq_extraction"[0] == 'f' && "breadcrumb_extraction"[0] == 'b';
    assert "json_ld"[0] == 'j' && "schema_org"[1] == 'c' && "microdata"[1] == 'i';
    assert "multi_pass"[1] == 'u' && "metadata"[1] == 'e' && "semantic_html"[0] == 's' && "semantic_html"[1] == 'e';
  }

  lemma KeyIn(strategy: string, names: set<string>)
    requires forall name :: name in names ==> ':' !in name
    ensures NamedOneOf(strategy, names) <==> Before(strategy, ':') in names
  {
    forall name | name in names ensures Before(strategy, ':') == name <==> Named(strategy, name) {
      BeforeNames(strategy, name);
    }
  }

  /** What an offer is worth before any other result has been registered. */
  ghost function Alone(valid: Validator, strategy: string, f: Field, e: Extract): real
    requires e.Scalar(f) != ""
  {
    ScalarConfidence(valid, [], strategy, f, e)
  }

  lemma AloneIs(valid: Validator, strategy: string, f: Field, e: Extract)
    requires e.Scalar(f) != ""
    ensures Alone(valid, strategy, f, e)
         == Base(strategy) + |FieldsFound(e)| as real * 0.10 / 7.0 + if valid(f, e.Scalar(f)) then 0.05 else 0.0
  {
    FoundInAll(e);
    CountFilledBound(e, FIELDS);
  }

  /** Agreement: each registered result with the same value adds a tenth, up to three of them; and 0.999 is the most. */
  lemma AgreementAdds(valid: Validator, registered: seq<Extract>, strategy: string, f: Field, e: Extract)
    requires e.Scalar(f) != ""
    ensures var n := |Agreeing(registered, f, e.Scalar(f))|;
      var sum := Alone(valid, strategy, f, e) + 0.10 * (if n > 3 then 3 else n) as real;
      ScalarConfidence(valid, registered, strategy, f, e) == if sum > 0.999 then 0.999 else sum
  {
    CountsAgreeing(registered, f, e.Scalar(f));
    CountFilledBound(e, FIELDS);
  }

  /** Completeness: each field found adds a seventh of a tenth. */
  lemma CompletenessAdds(valid: Validator, strategy: string, f: Field, e: Extract, more: Extract)
    requires e.Scalar(f) != "" && more.Scalar(f) == e.Scalar(f)
    ensures Alone(valid, strategy, f, more) - Alone(valid, strategy, f, e)
         == 0.10 / 7.0 * (|FieldsFound(more)| - |FieldsFound(e)|) as real
  {
    AloneIs(valid, strategy, f, e);
    AloneIs(valid, strategy, f, more);
  }

  /** Validation: a value that passes its check gains a twentieth. */
  lemma ValidationAdds(valid: Validator, other: Validator, strategy: string, f: Field, e: Extract)
    requires e.Scalar(f) != "" && valid(f, e.Scalar(f)) && !other(f, e.Scalar(f))
    ensures Alone(valid, strategy, f, e) == Alone(other, strategy, f, e) + 0.05
  {
    AloneIs(valid, strategy, f, e);
    AloneIs(other, strategy, f, e);
  }

  /** Trust: a single value from a generic strategy is worth 0.375 and a seventh of a tenth; others are worth more. */
  lemma TrustAdds(valid: Validator, strategy: string, f: Field, e: Extract)
    requires e.Scalar(f) != ""
    ensures Trusts(strategy, Alone(valid, strategy, f, e) - Alone(valid, "regex_pattern", f, e))
    ensures FieldsFound(e) == {f} && !valid(f, e.Scalar(f)) ==> Alone(valid, "regex_pattern", f, e) == 0.375 + 0.10 / 7.0
  {
    AloneIs(valid, strategy, f, e);
    AloneIs(valid, "regex_pattern", f, e);
    BaseTrusts(strategy);
    BaseTrusts("regex_pattern");
    GenericIsNotNamed();
  }

  lemma GenericIsNotNamed()
    ensures !NamedOneOf("regex_pattern", STRUCTURED + STRUCTURAL + {"multi_pass", "metadata", "semantic_html"})
  {
    forall name | name in STRUCTURED + STRUCTURAL + {"multi_pass", "metadata", "semantic_html"} ensures !Named("regex_pattern", name) {
      assert "regex_pattern"[0] == 'r' && name[0] != 'r';
    }
  }

  /** A social link is worth what a scalar is that no other result agrees with and that has no check to pass. */
  lemma SocialIsAlone(valid: Validator, strategy: string, url: string, f: Field, e: Extract)
    requires url != "" && e.Scalar(f) != "" && !valid(f, e.Scalar(f))
    ensures SocialConfidence(strategy, url, e) == Alone(valid, strategy, f, e)
    ensures SocialConfidence(strategy, "", e) == 0.0
  {
  }

  ghost function FilledIn(item: Item): set<string> {
    set k | k in item && item[k] !in {Null, Text("")}
  }

  /** What is added is that part of 0.15 which `part` is of `whole`. */
  ghost predicate Proportional(added: real, part: nat, whole: nat) {
    added * whole as real == 0.15 * part as real
  }

  lemma ItemForm(strategy: string, item: Item, e: Extract, alone: real, filled: set<string>)
    requires alone == SocialConfidence(strategy, "x", e) && filled == FilledIn(item)
    ensures 0.0 <= alone <= 0.83 && |filled| <= |item|
    ensures ItemConfidence(strategy, item, e)
         == Min(0.999, alone + (if item == map[] then 0.0 else |filled| as real / |item| as real) * 0.15)
  {
    CountFilledBound(e, FIELDS);
    assert (set k | k in item && item[k].Filled()) == filled;
    assert item.Keys == filled + (item.Keys - filled) && |item.Keys| == |item|;
  }

  /** An item of a list is worth as much, and up to 0.15 more in proportion to the fields of it that are filled. */
  lemma ItemAdds(strategy: string, item: Item, e: Extract)
    ensures item == map[] ==> ItemConfidence(strategy, item, e) == SocialConfidence(strategy, "x", e)
    ensures Proportional(ItemConfidence(strategy, item, e) - SocialConfidence(strategy, "x", e), |FilledIn(item)|, |item|)
  {
    var filled := FilledIn(item);
    var alone, whole := SocialConfidence(strategy, "x", e), ItemConfidence(strategy, item, e);
    ItemForm(strategy, item, e, alone, filled);
    if item == map[] {
      assert filled == {};
    } else {
      ShareLaw(alone, |filled|, |item|, whole);
    }
  }

  lemma ShareAdds(alone: real, share: real, whole: real, part: real, sum: real)
    requires 0.0 <= alone <= 0.83 && 0.0 <= share <= 1.0 && share * 0.15 * whole == 0.15 * part
    requires sum == Min(0.999, alone + share * 0.15)
    ensures (sum - alone) * whole == 0.15 * part
  {
    assert sum - alone == share * 0.15;
  }

  lemma ShareLaw(alone: real, part: nat, whole: nat, sum: real)
    requires 0.0 <= alone <= 0.83 && part <= whole && whole > 0
    requires sum == Min(0.999, alone + part as real / whole as real * 0.15)
    ensures Proportional(sum - alone, part, whole)
  {
    ShareOf(part, whole);
    ShareAdds(alone, part as real / whole as real, whole as real, part as real, sum);
  }

  lemma ShareOf(part: nat, whole: nat)
    requires part <= whole && whole > 0
    ensures 0.0 <= part as real / whole as real <= 1.0
    ensures part as real / whole as real * 0.15 * whole as real == 0.15 * part as real
  {
    var share := part as real / whole as real;
    assert share * whole as real == part as real;
  }

  // ------------------------------------------------------------ what agreement can decide

  /** A result with nothing but a company name. */
  function NameOnly(name: string): Extract {
    Extract(map[CompanyName := name], map[], map[], map[])
  }

  function OfferOf(valid: Validator, registered: seq<Extract>, part: Part, f: Field): FieldValue
    requires part.extract.Scalar(f) != ""
  {
    FieldValue(part.extract.Scalar(f), ScalarConfidence(valid, registered, part.strategy, f, part.extract), part.strategy)
  }

  lemma OffersCons(valid: Validator, registered: seq<Extract>, part: Part, rest: seq<Part>, f: Field)
    requires part.extract.Scalar(f) != ""
    ensures OffersFor(valid, registered, [part] + rest, f)
         == [OfferOf(valid, registered, part, f)] + OffersFor(valid, registered + [part.extract], rest, f)
  {
    assert ([part] + rest)[0] == part && ([part] + rest)[1..] == rest;
  }

  /** A metadata strategy finds one name, then a generic and a semantic one find another. */
  function Disagreeing(a: string, b: string): seq<Part> {
    [Part("metadata", NameOnly(a)), Part("regex_pattern", NameOnly(b)), Part("semantic_html", NameOnly(b))]
  }

  lemma TrustInNames(valid: Validator, a: string, b: string)
    requires a != "" && b != "" && valid(CompanyName, a) == valid(CompanyName, b)
    ensures var generic := Alone(valid, "regex_pattern", CompanyName, NameOnly(b));
      && Alone(valid, "metadata", CompanyName, NameOnly(a)) == generic + 0.20
      && Alone(valid, "semantic_html", CompanyName, NameOnly(b)) == generic + 0.15
      && 0.375 <= generic <= 0.45
  {
    assert FieldsFound(NameOnly(a)) == {CompanyName} && FieldsFound(NameOnly(b)) == {CompanyName};
    AloneIs(valid, "metadata", CompanyName, NameOnly(a));
    AloneIs(valid, "semantic_html", CompanyName, NameOnly(b));
    AloneIs(valid, "regex_pattern", CompanyName, NameOnly(b));
    BaseTrusts("metadata");
    BaseTrusts("semantic_html");
    BaseTrusts("regex_pattern");
    GenericIsNotNamed();
  }

  lemma NamesAgreeing(a: string, b: string)
    requires a != b
    ensures Agreeing([], CompanyName, a) == {} && Agreeing([NameOnly(a)], CompanyName, b) == {}
    ensures Agreeing([NameOnly(a), NameOnly(b)], CompanyName, b) == {1}
  {
  }

  lemma OffersOfTwo(valid: Validator, registered: seq<Extract>, x: Part, y: Part, f: Field)
    requires x.extract.Scalar(f) != "" && y.extract.Scalar(f) != ""
    ensures OffersFor(valid, registered, [x, y], f)
         == [OfferOf(valid, registered, x, f), OfferOf(valid, registered + [x.extract], y, f)]
  {
    OffersCons(valid, registered, x, [y], f);
    OffersCons(valid, registered + [x.extract], y, [], f);
    assert [x, y] == [x] + [y] && [y] == [y] + [];
  }

  lemma OffersOfThree(valid: Validator, x: Part, y: Part, z: Part, f: Field)
    requires x.extract.Scalar(f) != "" && y.extract.Scalar(f) != "" && z.extract.Scalar(f) != ""
    ensures OffersFor(valid, [], [x, y, z], f)
         == [OfferOf(valid, [], x, f), OfferOf(valid, [x.extract], y, f), OfferOf(valid, [x.extract, y.extract], z, f)]
  {
    OffersCons(valid, [], x, [y, z], f);
    OffersOfTwo(valid, [x.extract], y, z, f);
    assert [x, y, z] == [x] + [y, z] && [] + [x.extract] == [x.extract] && [x.extract] + [y.extract] == [x.extract, y.extract];
  }

  lemma WorthInTurn(valid: Validator, a: string, b: string, p: real, q: real, r: real, r0: real)
    requires a != "" && b != "" && a != b && valid(CompanyName, a) == valid(CompanyName, b)
    requires p == ScalarConfidence(valid, [], "metadata", CompanyName, NameOnly(a))
    requires q == ScalarConfidence(valid, [NameOnly(a)], "regex_pattern", CompanyName, NameOnly(b))
    requires r == ScalarConfidence(valid, [NameOnly(a), NameOnly(b)], "semantic_html", CompanyName, NameOnly(b))
    requires r0 == ScalarConfidence(valid, [NameOnly(a)], "semantic_html", CompanyName, NameOnly(b))
    ensures q <= p < r && r0 <= p
  {
    TrustInNames(valid, a, b);
    NamesAgreeing(a, b);
    AgreementAdds(valid, [NameOnly(a)], "regex_pattern", CompanyName, NameOnly(b));
    AgreementAdds(valid, [NameOnly(a), NameOnly(b)], "semantic_html", CompanyName, NameOnly(b));
    AgreementAdds(valid, [NameOnly(a)], "semantic_html", CompanyName, NameOnly(b));
  }

  lemma BestOfTwo(p: FieldValue, q: FieldValue)
    requires q.confidence <= p.confidence
    ensures Best(None, [p, q]) == Some(p)
  {
    assert [p, q][1..] == [q] && [q][1..] == [];
    assert Best(Some(p), []) == Some(p) == Best(Some(p), [q]);
  }

  lemma BestOfThree(p: FieldValue, q: FieldValue, r: FieldValue)
    requires q.confidence <= p.confidence < r.confidence
    ensures Best(None, [p, q, r]) == Some(r)
  {
    assert [p, q, r][1..] == [q, r] && [q, r][1..] == [r] && [r][1..] == [];
    assert Best(Some(r), []) == Some(r) == Best(Some(p), [r]) == Best(Some(p), [q, r]);
  }

  /** The third result is worth more than the first only because the second agrees with it. */
  lemma AgreementWins(valid: Validator, a: string, b: string)
    requires a != "" && b != "" && a != b && valid(CompanyName, a) == valid(CompanyName, b)
    ensures var parts := Disagreeing(a, b);
      var kept, without := Best(None, OffersFor(valid, [], parts, CompanyName)),
                           Best(None, OffersFor(valid, [], [parts[0], parts[2]], CompanyName));
      kept.Some? && kept.value.value == b && without.Some? && without.value.value == a
  {
    var parts, f := Disagreeing(a, b), CompanyName;
    var x, y, z := parts[0], parts[1], parts[2];
    var p, q, r := OfferOf(valid, [], x, f), OfferOf(valid, [x.extract], y, f), OfferOf(valid, [x.extract, y.extract], z, f);
    var r0 := OfferOf(valid, [x.extract], z, f);
    OffersOfThree(valid, x, y, z, f);
    OffersOfTwo(valid, [], x, z, f);
    assert [] + [x.extract] == [x.extract];
    WorthInTurn(valid, a, b, p.confidence, q.confidence, r.confidence, r0.confidence);
    BestOfThree(p, q, r);
    BestOfTwo(p, r0);
  }

  /** So the name that two strategies agree on wins over one from a strategy trusted more than either. */
  method AgreementTurnsTheWinner(valid: Validator, a: string, b: string) returns (result: ParsedResult)
    requires a != "" && b != "" && a != b && valid(CompanyName, a) == valid(CompanyName, b)
    ensures CompanyName in result.fielded && result.fielded[CompanyName].value == b
  {
    result := new ParsedResult(map[], map[]);
    var calculator := new ConfidenceCalculator(valid);
    AgreementWins(valid, a, b);
    result.MergeAll(Disagreeing(a, b), calculator);
  }
}
