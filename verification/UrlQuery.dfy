/** The canonical form of URL queries: tracking keys dropped, keys sorted, the values of each key in their order. */
module UrlQuery {
  import opened Strings

  /** A query after decoding: its key and value pairs in order. */
  type Query = seq<(string, string)>

  predicate Tracking(noise: set<string>, key: string) {
    Lower(key) in noise
  }

  // ------------------------------------------------------------------ the order of keys

  /** Code points compared from the left, a prefix first. */
  predicate Precedes(a: string, b: string) {
    b != "" && (a == "" || a[0] < b[0] || (a[0] == b[0] && Precedes(a[1..], b[1..])))
  }

  lemma {:induction false} PrecedesTotal(a: string, b: string)
    ensures a == b || Precedes(a, b) || Precedes(b, a)
    ensures !(Precedes(a, b) && Precedes(b, a)) && !Precedes(a, a)
  {
    if a != "" {
      if b != "" && a[0] == b[0] {
        PrecedesTotal(a[1..], b[1..]);
        assert a == [a[0]] + a[1..] && b == [b[0]] + b[1..];
      } else {
        PrecedesTotal(a[1..], a[1..]);
      }
    }
  }

  lemma {:induction false} PrecedesChain(a: string, b: string, c: string)
    requires Precedes(a, b) && Precedes(b, c)
    ensures Precedes(a, c)
  {
    if a != "" && a[0] == b[0] == c[0] {
      PrecedesChain(a[1..], b[1..], c[1..]);
    }
  }

  /** The strings agree up to a place where the one has ended, or has the smaller character. */
  predicate SmallerAt(a: string, b: string, k: nat) {
    k <= |a| && k < |b| && a[..k] == b[..k] && (k == |a| || a[k] < b[k])
  }

  lemma {:induction false} PrecedesIff(a: string, b: string)
    ensures Precedes(a, b) <==> exists k :: SmallerAt(a, b, k)
  {
    if b != "" && (a == "" || a[0] < b[0]) {
      assert SmallerAt(a, b, 0);
    } else if a != "" && b != "" {
      if a[0] == b[0] {
        PrecedesIff(a[1..], b[1..]);
      }
      forall k: nat ensures SmallerAt(a, b, k) <==> k > 0 && a[0] == b[0] && SmallerAt(a[1..], b[1..], k - 1) {
        SmallerFurther(a, b, k);
      }
      if k: nat :| SmallerAt(a[1..], b[1..], k) && a[0] == b[0] {
        assert SmallerAt(a, b, k + 1);
      }
    }
  }

  lemma SmallerFurther(a: string, b: string, k: nat)
    requires a != "" && b != "" && a[0] >= b[0]
    ensures SmallerAt(a, b, k) <==> k > 0 && a[0] == b[0] && SmallerAt(a[1..], b[1..], k - 1)
  {
    if 0 < k <= |a| && k <= |b| {
      assert a[..k] == [a[0]] + a[1..][..k - 1] && b[..k] == [b[0]] + b[1..][..k - 1];
      if a[..k] == b[..k] {
        assert a[0] == a[..k][0] == b[..k][0] == b[0];
        assert a[1..][..k - 1] == a[..k][1..] == b[..k][1..] == b[1..][..k - 1];
      }
    }
  }

  predicate Sorted(keys: seq<string>) {
    forall i, j :: 0 <= i < j < |keys| ==> Precedes(keys[i], keys[j])
  }

  function InsertKey(k: string, sorted: seq<string>): seq<string> {
    if sorted == [] || Precedes(k, sorted[0]) then [k] + sorted else [sorted[0]] + InsertKey(k, sorted[1..])
  }

  function SortKeys(keys: seq<string>): seq<string> {
    if keys == [] then [] else InsertKey(keys[0], SortKeys(keys[1..]))
  }

  // -------------------------------------------------------------------- the normal form

  /** The keys of the grouped dictionary that are kept, each once, in the order first met. */
  function KeptKeys(noise: set<string>, q: Query, met: set<string>): seq<string>
    decreases |q|
  {
    if q == [] then []
    else if q[0].0 in met || Tracking(noise, q[0].0) then KeptKeys(noise, q[1..], met)
    else [q[0].0] + KeptKeys(noise, q[1..], met + {q[0].0})
  }

  /** The values grouped under a key, in order. */
  function ValuesOf(q: Query, key: string): seq<string> {
    if q == [] then [] else (if q[0].0 == key then [q[0].1] else []) + ValuesOf(q[1..], key)
  }

  function Pairs(key: string, values: seq<string>): Query {
    if values == [] then [] else [(key, values[0])] + Pairs(key, values[1..])
  }

  /** One pair for every value of every key. */
  function Spread(keys: seq<string>, q: Query): Query {
    if keys == [] then [] else Pairs(keys[0], ValuesOf(q, keys[0])) + Spread(keys[1..], q)
  }

  function NormalQuery(noise: set<string>, q: Query): Query {
    Spread(SortKeys(KeptKeys(noise, q, {})), q)
  }

  // -------------------------------------------------------------------------- the proofs

  lemma {:induction false} InsertSorts(k: string, sorted: seq<string>)
    requires Sorted(sorted) && k !in sorted
    ensures Sorted(InsertKey(k, sorted)) && forall x :: x in InsertKey(k, sorted) <==> x == k || x in sorted
  {
    if sorted != [] {
      if Precedes(k, sorted[0]) {
        forall x | x in sorted[1..] ensures Precedes(k, x) {
          PrecedesChain(k, sorted[0], x);
        }
      } else {
        InsertSorts(k, sorted[1..]);
        PrecedesTotal(k, sorted[0]);
        var rest := InsertKey(k, sorted[1..]);
        assert forall x :: x in rest ==> Precedes(sorted[0], x);
      }
    }
  }

  ghost predicate Different(keys: seq<string>) {
    forall i, j :: 0 <= i < j < |keys| ==> keys[i] != keys[j]
  }

  lemma {:induction false} SortSorts(keys: seq<string>)
    requires Different(keys)
    ensures Sorted(SortKeys(keys)) && forall x :: x in SortKeys(keys) <==> x in keys
  {
    if keys != [] {
      SortSorts(keys[1..]);
      InsertSorts(keys[0], SortKeys(keys[1..]));
      assert keys == [keys[0]] + keys[1..];
    }
  }

  lemma {:induction false} KeptKeysAre(noise: set<string>, q: Query, met: set<string>)
    ensures Different(KeptKeys(noise, q, met))
    ensures forall k :: k in KeptKeys(noise, q, met) <==> k !in met && !Tracking(noise, k) && ValuesOf(q, k) != []
    decreases |q|
  {
    if q != [] {
      var k := q[0].0;
      KeptKeysAre(noise, q[1..], if k in met || Tracking(noise, k) then met else met + {k});
    }
  }

  lemma {:induction false} ValuesOfAppend(a: Query, b: Query, key: string)
    ensures ValuesOf(a + b, key) == ValuesOf(a, key) + ValuesOf(b, key)
  {
    if a == [] {
      assert a + b == b;
    } else {
      assert (a + b)[1..] == a[1..] + b;
      ValuesOfAppend(a[1..], b, key);
    }
  }

  lemma {:induction false} ValuesOfPairs(k: string, values: seq<string>, key: string)
    ensures ValuesOf(Pairs(k, values), key) == if k == key then values else []
  {
    if values != [] {
      ValuesOfPairs(k, values[1..], key);
      assert Pairs(k, values)[1..] == Pairs(k, values[1..]);
    }
  }

  lemma {:induction false} ValuesOfSpread(keys: seq<string>, q: Query, key: string)
    requires Sorted(keys)
    ensures ValuesOf(Spread(keys, q), key) == if key in keys then ValuesOf(q, key) else []
  {
    if keys != [] {
      ValuesOfSpread(keys[1..], q, key);
      ValuesOfAppend(Pairs(keys[0], ValuesOf(q, keys[0])), Spread(keys[1..], q), key);
      ValuesOfPairs(keys[0], ValuesOf(q, keys[0]), key);
      PrecedesTotal(keys[0], keys[0]);
    }
  }

  /** Normalising keeps the values of every key but the tracking ones, whose values it drops. */
  lemma NormalQueryValues(noise: set<string>, q: Query, key: string)
    ensures ValuesOf(NormalQuery(noise, q), key) == if Tracking(noise, key) then [] else ValuesOf(q, key)
  {
    KeptKeysAre(noise, q, {});
    SortSorts(KeptKeys(noise, q, {}));
    ValuesOfSpread(SortKeys(KeptKeys(noise, q, {})), q, key);
  }

  lemma TailLacksHead(keys: seq<string>)
    requires Sorted(keys) && keys != []
    ensures forall k :: k in keys[1..] <==> k in keys && k != keys[0]
  {
    PrecedesTotal(keys[0], keys[0]);
    assert forall k :: k in keys[1..] ==> Precedes(keys[0], k);
    assert forall i :: 0 < i < |keys| ==> keys[i] == keys[1..][i - 1];
  }

  lemma {:induction false} SortedUnique(a: seq<string>, b: seq<string>)
    requires Sorted(a) && Sorted(b) && forall k :: k in a <==> k in b
    ensures a == b
  {
    assert forall i :: 0 <= i < |a| ==> a[i] in b;
    assert forall i :: 0 <= i < |b| ==> b[i] in a;
    if a != [] {
      PrecedesTotal(a[0], b[0]);
      assert a[0] == b[0];
      TailLacksHead(a);
      TailLacksHead(b);
      SortedUnique(a[1..], b[1..]);
    }
  }

  lemma {:induction false} SpreadSame(keys: seq<string>, a: Query, b: Query)
    requires forall k :: k in keys ==> ValuesOf(a, k) == ValuesOf(b, k)
    ensures Spread(keys, a) == Spread(keys, b)
  {
    if keys != [] {
      assert keys[0] in keys && forall k :: k in keys[1..] ==> k in keys;
      SpreadSame(keys[1..], a, b);
    }
  }

  /** The same values in the same order under every key that is not a tracking one. */
  ghost predicate SameValues(noise: set<string>, a: Query, b: Query) {
    forall key :: !Tracking(noise, key) ==> ValuesOf(a, key) == ValuesOf(b, key)
  }

  /** Two queries normalise alike exactly when they say the same, tracking aside. */
  lemma SameQuery(noise: set<string>, a: Query, b: Query)
    ensures NormalQuery(noise, a) == NormalQuery(noise, b) <==> SameValues(noise, a, b)
  {
    if SameValues(noise, a, b) {
      KeptKeysAre(noise, a, {});
      KeptKeysAre(noise, b, {});
      var x, y := KeptKeys(noise, a, {}), KeptKeys(noise, b, {});
      SortSorts(x);
      SortSorts(y);
      forall k ensures k in SortKeys(x) <==> k in SortKeys(y) {
      }
      SortedUnique(SortKeys(x), SortKeys(y));
      SpreadSame(SortKeys(x), a, b);
    }
    if NormalQuery(noise, a) == NormalQuery(noise, b) {
      forall key | !Tracking(noise, key) ensures ValuesOf(a, key) == ValuesOf(b, key) {
        NormalQueryValues(noise, a, key);
        NormalQueryValues(noise, b, key);
      }
    }
  }

  lemma NormalQueryIdempotent(noise: set<string>, q: Query)
    ensures NormalQuery(noise, NormalQuery(noise, q)) == NormalQuery(noise, q)
  {
    forall key | !Tracking(noise, key) ensures ValuesOf(NormalQuery(noise, q), key) == ValuesOf(q, key) {
      NormalQueryValues(noise, q, key);
    }
    SameQuery(noise, NormalQuery(noise, q), q);
  }

  // ------------------------------------------------------------- recognising tracking URLs

  /** The separate test for tracking URLs; it never sees a parameter with a blank value. */
  predicate IsTracking(noise: set<string>, q: Query) {
    exists i :: 0 <= i < |q| && q[i].1 != "" && Tracking(noise, q[i].0)
  }

  lemma {:induction false} ValuesOfHas(q: Query, key: string, value: string)
    ensures value in ValuesOf(q, key) <==> (key, value) in q
  {
    if q != [] {
      ValuesOfHas(q[1..], key, value);
      assert q == [q[0]] + q[1..];
    }
  }

  /** A query fails the test exactly when normalising drops none but blank parameters. */
  lemma TrackingLosesValues(noise: set<string>, q: Query)
    ensures IsTracking(noise, q) <==> exists p :: p in q && p.1 != "" && p !in NormalQuery(noise, q)
  {
    forall p: (string, string) ensures p in NormalQuery(noise, q) <==> p in q && !Tracking(noise, p.0) {
      NormalQueryValues(noise, q, p.0);
      ValuesOfHas(NormalQuery(noise, q), p.0, p.1);
      ValuesOfHas(q, p.0, p.1);
    }
  }

  /** A blank tracking parameter is dropped though the test does not see it. */
  lemma BlankTrackingUnseen(noise: set<string>, key: string)
    requires Tracking(noise, key)
    ensures !IsTracking(noise, [(key, "")]) && NormalQuery(noise, [(key, "")]) == []
  {
    assert [(key, "")][1..] == [];
    assert KeptKeys(noise, [(key, "")], {}) == KeptKeys(noise, [], {});
  }

  // -------------------------------------------------------------------- the order of the pairs

  /** No pair comes before one with a smaller key. */
  ghost predicate InKeyOrder(q: Query) {
    forall i, j :: 0 <= i < j < |q| ==> q[i].0 == q[j].0 || exists k :: SmallerAt(q[i].0, q[j].0, k)
  }

  lemma {:induction false} PairsKeyed(key: string, values: seq<string>)
    ensures forall p :: p in Pairs(key, values) ==> p.0 == key
  {
    if values != [] {
      PairsKeyed(key, values[1..]);
    }
  }

  lemma {:induction false} SpreadKeyed(keys: seq<string>, q: Query)
    ensures forall p :: p in Spread(keys, q) ==> p.0 in keys
  {
    if keys != [] {
      PairsKeyed(keys[0], ValuesOf(q, keys[0]));
      SpreadKeyed(keys[1..], q);
    }
  }

  lemma InKeyOrderAppend(a: Query, b: Query, key: string)
    requires (forall p :: p in a ==> p.0 == key) && InKeyOrder(b) && forall p :: p in b ==> Precedes(key, p.0)
    ensures InKeyOrder(a + b)
  {
    var all := a + b;
    forall i, j | 0 <= i < j < |all| ensures all[i].0 == all[j].0 || exists k :: SmallerAt(all[i].0, all[j].0, k) {
      if i < |a| <= j {
        assert all[i] == a[i] && a[i] in a && all[j] == b[j - |a|] && b[j - |a|] in b;
        PrecedesIff(all[i].0, all[j].0);
      } else if i < |a| {
        assert all[i] == a[i] && a[i] in a && all[j] == a[j] && a[j] in a;
      } else {
        assert all[i] == b[i - |a|] && all[j] == b[j - |a|];
      }
    }
  }

  lemma {:induction false} SpreadInOrder(keys: seq<string>, q: Query)
    requires Sorted(keys)
    ensures InKeyOrder(Spread(keys, q))
  {
    if keys != [] {
      PairsKeyed(keys[0], ValuesOf(q, keys[0]));
      SpreadKeyed(keys[1..], q);
      SpreadInOrder(keys[1..], q);
      InKeyOrderAppend(Pairs(keys[0], ValuesOf(q, keys[0])), Spread(keys[1..], q), keys[0]);
    }
  }

  /** The pairs of a canonical query come in the order of their keys. */
  lemma NormalQueryInOrder(noise: set<string>, q: Query)
    ensures InKeyOrder(NormalQuery(noise, q))
  {
    KeptKeysAre(noise, q, {});
    SortSorts(KeptKeys(noise, q, {}));
    SpreadInOrder(SortKeys(KeptKeys(noise, q, {})), q);
  }
}
