/** Removing merged items and repeated keys from a list. */
module EntityDedup {
  import opened Common
  import opened Values
  import opened EntityModel

  /** Drops what was merged away, then anything whose key has been seen, and takes the marks off. */
  function Dedup(items: seq<Item>, keys: seq<string>, seen: set<string>): seq<Item>
    decreases |items|
  {
    if items == [] then []
    else
      var item, rest := items[0] - {MERGED}, items[1..];
      var key := FirstValue(item, keys);
      if Get(items[0], MERGED).Truthy() then Dedup(rest, keys, seen)
      else if key.None? then [item] + Dedup(rest, keys, seen)
      else if key.value in seen then Dedup(rest, keys, seen)
      else [item] + Dedup(rest, keys, seen + {key.value})
  }

  ghost predicate SomeNamed(items: seq<Item>, keys: seq<string>, name: string) {
    exists i :: 0 <= i < |items| && FirstValue(items[i], keys) == Some(name)
  }

  /** Some item not merged away has this key. */
  ghost predicate KeptNamed(items: seq<Item>, keys: seq<string>, name: string) {
    exists i :: 0 <= i < |items| && !Get(items[i], MERGED).Truthy() && FirstValue(items[i] - {MERGED}, keys) == Some(name)
  }

  ghost predicate DistinctKeys(items: seq<Item>, keys: seq<string>) {
    forall i, j :: 0 <= i < j < |items| && FirstValue(items[i], keys).Some? ==> FirstValue(items[i], keys) != FirstValue(items[j], keys)
  }

  /** The keys left are pairwise distinct, and are those of the items not merged away, less those seen before. */
  lemma {:induction false} DedupKeys(items: seq<Item>, keys: seq<string>, seen: set<string>, name: string)
    ensures SomeNamed(Dedup(items, keys, seen), keys, name) <==> KeptNamed(items, keys, name) && name !in seen
    decreases |items|
  {
    if items != [] {
      var item, rest := items[0] - {MERGED}, items[1..];
      var key := FirstValue(item, keys);
      var seen1 := if Get(items[0], MERGED).Truthy() || key.None? || key.value in seen then seen else seen + {key.value};
      DedupKeys(rest, keys, seen1, name);
      assert KeptNamed(items, keys, name) <==> (!Get(items[0], MERGED).Truthy() && key == Some(name)) || KeptNamed(rest, keys, name) by {
        assert forall i :: 0 < i < |items| ==> items[i] == rest[i - 1];
        assert forall i :: 0 <= i < |rest| ==> rest[i] == items[i + 1];
      }
      NamedCons(item, Dedup(rest, keys, seen1), keys, name);
    }
  }

  lemma NamedCons(item: Item, rest: seq<Item>, keys: seq<string>, name: string)
    ensures SomeNamed([item] + rest, keys, name) <==> FirstValue(item, keys) == Some(name) || SomeNamed(rest, keys, name)
  {
    var all := [item] + rest;
    assert all[0] == item && forall i :: 0 <= i < |rest| ==> rest[i] == all[i + 1];
    assert forall i :: 0 < i < |all| ==> all[i] == rest[i - 1];
  }

  lemma {:induction false} DedupDistinct(items: seq<Item>, keys: seq<string>, seen: set<string>)
    ensures DistinctKeys(Dedup(items, keys, seen), keys)
    decreases |items|
  {
    if items != [] {
      var item, rest := items[0] - {MERGED}, items[1..];
      var key := FirstValue(item, keys);
      var seen1 := if Get(items[0], MERGED).Truthy() || key.None? || key.value in seen then seen else seen + {key.value};
      var tail := Dedup(rest, keys, seen1);
      DedupDistinct(rest, keys, seen1);
      if key.Some? {
        DedupKeys(rest, keys, seen1, key.value);
      }
    }
  }

  /** Each item left is one of the items not merged away, unmarked. */
  lemma {:induction false} DedupOnlyDrops(items: seq<Item>, keys: seq<string>, seen: set<string>, r: Item)
    requires r in Dedup(items, keys, seen)
    ensures exists i :: 0 <= i < |items| && !Get(items[i], MERGED).Truthy() && r == items[i] - {MERGED}
    decreases |items|
  {
    var item, rest := items[0] - {MERGED}, items[1..];
    if r != item || Get(items[0], MERGED).Truthy() {
      var key := FirstValue(item, keys);
      var seen1 := if Get(items[0], MERGED).Truthy() || key.None? || key.value in seen then seen else seen + {key.value};
      DedupOnlyDrops(rest, keys, seen1, r);
      var i :| 0 <= i < |rest| && !Get(rest[i], MERGED).Truthy() && r == rest[i] - {MERGED};
      assert items[i + 1] == rest[i];
    }
  }

  /** An item not merged away stays if no such item before it has its key. */
  lemma {:induction false} DedupKeeps(items: seq<Item>, keys: seq<string>, seen: set<string>, i: nat)
    requires i < |items| && !Get(items[i], MERGED).Truthy()
    requires var key := FirstValue(items[i] - {MERGED}, keys); key.Some? ==> key.value !in seen
    requires var key := FirstValue(items[i] - {MERGED}, keys); key.Some? ==>
      forall j :: 0 <= j < i && !Get(items[j], MERGED).Truthy() ==> FirstValue(items[j] - {MERGED}, keys) != key
    ensures items[i] - {MERGED} in Dedup(items, keys, seen)
    decreases |items|
  {
    if i > 0 {
      var item, rest := items[0] - {MERGED}, items[1..];
      var key := FirstValue(item, keys);
      assert rest[i - 1] == items[i] && forall j :: 0 <= j < |rest| ==> rest[j] == items[j + 1];
      if Get(items[0], MERGED).Truthy() || key.None? || key.value in seen {
        DedupKeeps(rest, keys, seen, i - 1);
      } else {
        DedupKeeps(rest, keys, seen + {key.value}, i - 1);
      }
    }
  }
}
