/** The difference between two snapshots of a list of records, and what can be done with it. */
module ListDiff {
  import opened Common
  import opened Values

  datatype Kind = Added | Removed | Modified

  datatype DiffItem = DiffItem(kind: Kind, field: string, key: string, before: Option<Item>, after: Option<Item>)

  type Snapshot = map<string, Item>

  function SafeStr(v: Value): string {
    if v == Null then "" else v.Show()
  }

  /** The records by key; those without one are left out, and of those with the same key the last counts. */
  function Keyed(items: seq<Item>, keyField: string): Snapshot {
    if items == [] then map[]
    else
      var n := |items| - 1;
      var key := SafeStr(Get(items[n], keyField));
      if key == "" then Keyed(items[..n], keyField) else Keyed(items[..n], keyField)[key := items[n]]
  }

  /** The key is what the field of the record prints as, if it is there and not None. */
  ghost predicate Carries(items: seq<Item>, keyField: string, key: string, i: int) {
    0 <= i < |items| && keyField in items[i] && items[i][keyField] != Null && items[i][keyField].Show() == key
  }

  ghost predicate LastCarrier(items: seq<Item>, keyField: string, key: string, i: int) {
    Carries(items, keyField, key, i) && forall j :: i < j ==> !Carries(items, keyField, key, j)
  }

  /** A key stands for the last record that carries it; one that is empty or carried by none stands for nothing. */
  lemma {:induction false} KeyedIsLast(items: seq<Item>, keyField: string, key: string) returns (i: int)
    ensures if key in Keyed(items, keyField)
            then key != "" && LastCarrier(items, keyField, key, i) && Keyed(items, keyField)[key] == items[i]
            else key == "" || forall j :: !Carries(items, keyField, key, j)
  {
    if items == [] {
      return 0;
    }
    var n := |items| - 1;
    i := KeyedIsLast(items[..n], keyField, key);
    if Carries(items, keyField, key, n) {
      return n;
    }
    forall j ensures Carries(items, keyField, key, j) == Carries(items[..n], keyField, key, j) {
    }
  }

  method KeyItems(items: seq<Item>, keyField: string) returns (m: Snapshot)
    ensures m == Keyed(items, keyField)
  {
    m := map[];
    var i := 0;
    while i < |items|
      invariant 0 <= i <= |items| && m == Keyed(items[..i], keyField)
    {
      var key := SafeStr(Get(items[i], keyField));
      assert items[..i + 1][..i] == items[..i];
      if key != "" {
        m := m[key := items[i]];
      }
      i := i + 1;
    }
    assert items[..i] == items;
  }

  // ----------------------------------------------------------------- what a diff is for

  function Lookup(m: Snapshot, key: string): Option<Item> {
    if key in m then Some(m[key]) else None
  }

  /** Carrying out one change. */
  function Patch(m: Snapshot, d: DiffItem): Snapshot {
    if d.after.Some? then m[d.key := d.after.value] else m - {d.key}
  }

  /** Carrying out a list of changes, one after the other. */
  function Apply(m: Snapshot, items: seq<DiffItem>): Snapshot
    decreases |items|
  {
    if items == [] then m else Apply(Patch(m, items[0]), items[1..])
  }

  /** The same change read backwards. */
  function Undo(d: DiffItem): DiffItem {
    DiffItem(match d.kind case Added => Removed case Removed => Added case Modified => Modified,
             d.field, d.key, d.after, d.before)
  }

  function UndoAll(items: seq<DiffItem>): (r: seq<DiffItem>)
    ensures |r| == |items| && forall i :: 0 <= i < |items| ==> r[i] == Undo(items[i])
  {
    seq(|items|, i requires 0 <= i < |items| => Undo(items[i]))
  }

  /** What is to be said about a key, if anything. */
  function Change(before: Snapshot, after: Snapshot, field: string, key: string): Option<DiffItem> {
    if Lookup(before, key) == Lookup(after, key) then None
    else
      var kind := if key !in before then Added else if key !in after then Removed else Modified;
      Some(DiffItem(kind, field, key, Lookup(before, key), Lookup(after, key)))
  }

  ghost predicate OncePerKey(items: seq<DiffItem>) {
    forall i, j :: 0 <= i < j < |items| ==> items[i].key != items[j].key
  }

  /** All changes between two snapshots and nothing else, each once, in any order. */
  ghost predicate IsDiff(items: seq<DiffItem>, before: Snapshot, after: Snapshot, field: string) {
    OncePerKey(items) && forall d :: d in items <==> Change(before, after, field, d.key) == Some(d)
  }

  // -------------------------------------------------------------------------- computing it

  /** The changes to the keys in `done`, and only those, are listed. */
  ghost predicate ListedFor(items: seq<DiffItem>, before: Snapshot, after: Snapshot, field: string, done: set<string>) {
    OncePerKey(items) && forall d :: d in items <==> d.key in done && Change(before, after, field, d.key) == Some(d)
  }

  lemma ListedNext(items: seq<DiffItem>, before: Snapshot, after: Snapshot, field: string, done: set<string>, key: string)
    requires ListedFor(items, before, after, field, done) && key !in done
    ensures var change := Change(before, after, field, key);
      ListedFor(if change.Some? then items + [change.value] else items, before, after, field, done + {key})
  {
    forall d | d in items ensures d.key != key {
    }
  }

  /** Every key that is in one of the snapshots has been dealt with. */
  lemma AllListed(items: seq<DiffItem>, before: Snapshot, after: Snapshot, field: string)
    requires ListedFor(items, before, after, field, before.Keys + after.Keys)
    ensures IsDiff(items, before, after, field)
  {
    forall d: DiffItem | Change(before, after, field, d.key) == Some(d) ensures d.key in before.Keys + after.Keys {
    }
  }

  /** Nothing but items of one kind is appended. */
  ghost predicate Grows(items: seq<DiffItem>, more: seq<DiffItem>, kind: Kind) {
    items <= more && forall i :: |items| <= i < |more| ==> more[i].kind == kind
  }

  /** What was added comes before what was removed, and that before what was modified. */
  ghost predicate ByKind(items: seq<DiffItem>) {
    forall i, j :: 0 <= i < j < |items| ==>
      (items[j].kind.Added? ==> items[i].kind.Added?) && (items[i].kind.Modified? ==> items[j].kind.Modified?)
  }

  lemma GrowsNext(items: seq<DiffItem>, more: seq<DiffItem>, d: DiffItem)
    requires Grows(items, more, d.kind)
    ensures Grows(items, more + [d], d.kind)
  {
  }

  lemma KindsInTurn(added: seq<DiffItem>, removed: seq<DiffItem>, items: seq<DiffItem>)
    requires Grows([], added, Added) && Grows(added, removed, Removed) && Grows(removed, items, Modified)
    ensures ByKind(items)
  {
    assert forall i :: 0 <= i < |added| ==> items[i] == added[i];
    assert forall i :: 0 <= i < |removed| ==> items[i] == removed[i];
  }

  /** What has been seen and what is left, after one key. */
  lemma OneSeen(seen: set<string>, todo: set<string>, all: set<string>, key: string)
    requires seen + todo == all && seen !! todo && key in todo
    ensures (seen + {key}) + (todo - {key}) == all && (seen + {key}) !! (todo - {key})
  {
  }

  method ListAdded(items: seq<DiffItem>, b: Snapshot, a: Snapshot, field: string, keys: set<string>, ghost done: set<string>)
    returns (r: seq<DiffItem>)
    requires forall k :: k in keys ==> k in a && k !in b
    requires ListedFor(items, b, a, field, done) && done !! keys
    ensures ListedFor(r, b, a, field, done + keys) && Grows(items, r, Added)
  {
    r := items;
    var todo := keys;
    ghost var seen := done;
    while todo != {}
      invariant todo <= keys && seen + todo == done + keys && seen !! todo
      invariant ListedFor(r, b, a, field, seen) && Grows(items, r, Added)
      decreases |todo|
    {
      var key :| key in todo;
      ListedNext(r, b, a, field, seen, key);
      OneSeen(seen, todo, done + keys, key);
      GrowsNext(items, r, DiffItem(Added, field, key, None, Some(a[key])));
      r := r + [DiffItem(Added, field, key, None, Some(a[key]))];
      todo, seen := todo - {key}, seen + {key};
    }
  }

  method ListRemoved(items: seq<DiffItem>, b: Snapshot, a: Snapshot, field: string, keys: set<string>, ghost done: set<string>)
    returns (r: seq<DiffItem>)
    requires forall k :: k in keys ==> k in b && k !in a
    requires ListedFor(items, b, a, field, done) && done !! keys
    ensures ListedFor(r, b, a, field, done + keys) && Grows(items, r, Removed)
  {
    r := items;
    var todo := keys;
    ghost var seen := done;
    while todo != {}
      invariant todo <= keys && seen + todo == done + keys && seen !! todo
      invariant ListedFor(r, b, a, field, seen) && Grows(items, r, Removed)
      decreases |todo|
    {
      var key :| key in todo;
      ListedNext(r, b, a, field, seen, key);
      OneSeen(seen, todo, done + keys, key);
      GrowsNext(items, r, DiffItem(Removed, field, key, Some(b[key]), None));
      r := r + [DiffItem(Removed, field, key, Some(b[key]), None)];
      todo, seen := todo - {key}, seen + {key};
    }
  }

  method ListModified(items: seq<DiffItem>, b: Snapshot, a: Snapshot, field: string, keys: set<string>, ghost done: set<string>)
    returns (r: seq<DiffItem>)
    requires forall k :: k in keys ==> k in b && k in a
    requires ListedFor(items, b, a, field, done) && done !! keys
    ensures ListedFor(r, b, a, field, done + keys) && Grows(items, r, Modified)
  {
    r := items;
    var todo := keys;
    ghost var seen := done;
    while todo != {}
      invariant todo <= keys && seen + todo == done + keys && seen !! todo
      invariant ListedFor(r, b, a, field, seen) && Grows(items, r, Modified)
      decreases |todo|
    {
      var key :| key in todo;
      ListedNext(r, b, a, field, seen, key);
      OneSeen(seen, todo, done + keys, key);
      if b[key] != a[key] {
        GrowsNext(items, r, DiffItem(Modified, field, key, Some(b[key]), Some(a[key])));
        r := r + [DiffItem(Modified, field, key, Some(b[key]), Some(a[key]))];
      }
      todo, seen := todo - {key}, seen + {key};
    }
  }

  /** Within one kind the items come in no particular order. */
  method DiffLists(before: seq<Item>, after: seq<Item>, keyField: string, field: string) returns (items: seq<DiffItem>)
    ensures IsDiff(items, Keyed(before, keyField), Keyed(after, keyField), field) && ByKind(items)
  {
    var b := KeyItems(before, keyField);
    var a := KeyItems(after, keyField);
    var added, removed, kept := a.Keys - b.Keys, b.Keys - a.Keys, b.Keys * a.Keys;
    items := ListAdded([], b, a, field, added, {});
    ghost var first := items;
    assert {} + added == added;
    items := ListRemoved(items, b, a, field, removed, added);
    ghost var second := items;
    items := ListModified(items, b, a, field, kept, added + removed);
    KindsInTurn(first, second, items);
    assert added + removed + kept == b.Keys + a.Keys;
    AllListed(items, b, a, field);
  }

  // ------------------------------------------------------------------------- the theorems

  /** Where a key ends after a list of changes in which it occurs at most once. */
  lemma {:induction false} ApplyAt(m: Snapshot, items: seq<DiffItem>, key: string)
    requires OncePerKey(items)
    ensures forall d :: d in items && d.key == key ==> Lookup(Apply(m, items), key) == d.after
    ensures (forall d :: d in items ==> d.key != key) ==> Lookup(Apply(m, items), key) == Lookup(m, key)
    decreases |items|
  {
    if items != [] {
      ApplyAt(Patch(m, items[0]), items[1..], key);
      assert forall d :: d in items <==> d == items[0] || d in items[1..];
      assert forall d :: d in items[1..] ==> d.key != items[0].key;
    }
  }

  lemma SameSnapshot(a: Snapshot, b: Snapshot)
    requires forall key :: Lookup(a, key) == Lookup(b, key)
    ensures a == b
  {
    forall key ensures key in a <==> key in b {
      assert Lookup(a, key) == Lookup(b, key);
    }
    forall key | key in a ensures a[key] == b[key] {
      assert Lookup(a, key) == Lookup(b, key);
    }
  }

  /** Carrying out a diff turns the one snapshot into the other. */
  lemma DiffLeadsAcross(items: seq<DiffItem>, before: Snapshot, after: Snapshot, field: string)
    requires IsDiff(items, before, after, field)
    ensures Apply(before, items) == after
  {
    forall key ensures Lookup(Apply(before, items), key) == Lookup(after, key) {
      ApplyAt(before, items, key);
      var change := Change(before, after, field, key);
      assert change.Some? ==> change.value in items;
    }
    SameSnapshot(Apply(before, items), after);
  }

  /** Read backwards it is a diff the other way, and leads back. */
  lemma DiffLeadsBack(items: seq<DiffItem>, before: Snapshot, after: Snapshot, field: string)
    requires IsDiff(items, before, after, field)
    ensures IsDiff(UndoAll(items), after, before, field) && Apply(after, UndoAll(items)) == before
  {
    var undone := UndoAll(items);
    forall d ensures d in undone <==> Change(after, before, field, d.key) == Some(d) {
      assert Change(after, before, field, d.key) == Some(d) <==> Change(before, after, field, d.key) == Some(Undo(d));
      if d in undone {
        var i :| 0 <= i < |undone| && undone[i] == d;
        assert items[i] in items && Undo(Undo(items[i])) == items[i];
      }
      if Undo(d) in items {
        var i :| 0 <= i < |items| && items[i] == Undo(d);
        assert undone[i] == d;
      }
    }
    DiffLeadsAcross(undone, after, before, field);
  }

  /** There is nothing to say exactly when the snapshots are equal. */
  lemma EmptyIffSame(items: seq<DiffItem>, before: Snapshot, after: Snapshot, field: string)
    requires IsDiff(items, before, after, field)
    ensures items == [] <==> before == after
  {
    DiffLeadsAcross(items, before, after, field);
  }

  lemma {:induction false} UnmentionedStays(m: Snapshot, items: seq<DiffItem>, key: string)
    requires forall d :: d in items ==> d.key != key
    ensures Lookup(Apply(m, items), key) == Lookup(m, key)
    decreases |items|
  {
    if items != [] {
      assert items[0] in items && forall d :: d in items[1..] ==> d in items;
      UnmentionedStays(Patch(m, items[0]), items[1..], key);
    }
  }

  function KeysOf(items: seq<DiffItem>): set<string> {
    set d | d in items :: d.key
  }

  lemma {:induction false} KeysAtMost(items: seq<DiffItem>)
    ensures |KeysOf(items)| <= |items|
    ensures OncePerKey(items) ==> |KeysOf(items)| == |items|
  {
    if items != [] {
      KeysAtMost(items[1..]);
      assert forall d :: d in items <==> d == items[0] || d in items[1..];
      assert KeysOf(items) == {items[0].key} + KeysOf(items[1..]);
      assert OncePerKey(items) ==> forall d :: d in items[1..] ==> d.key != items[0].key;
    }
  }

  /** No shorter list of changes leads from the one snapshot to the other. */
  lemma DiffIsShortest(items: seq<DiffItem>, before: Snapshot, after: Snapshot, field: string, other: seq<DiffItem>)
    requires IsDiff(items, before, after, field) && Apply(before, other) == after
    ensures |items| <= |other|
  {
    forall key | key in KeysOf(items) ensures key in KeysOf(other) {
      if key !in KeysOf(other) {
        UnmentionedStays(before, other, key);
      }
    }
    SmallerSet(KeysOf(items), KeysOf(other));
    KeysAtMost(items);
    KeysAtMost(other);
  }
}
