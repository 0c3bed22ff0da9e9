/** The in-process LRU cache with expiry, checked against the history of its own accesses, and the parse memoiser on top. */
module LruCache {
  import opened Common

  type Key = string

  /** One slot of the ordered dictionary; slots are kept least recently used first. */
  datatype Slot<+V> = Slot(key: Key, value: V, stamp: real)

  function Keys<V>(slots: seq<Slot<V>>): set<Key> {
    set i | 0 <= i < |slots| :: slots[i].key
  }

  predicate Distinct<V>(slots: seq<Slot<V>>) {
    forall i, j :: 0 <= i < j < |slots| ==> slots[i].key != slots[j].key
  }

  function Find<V>(slots: seq<Slot<V>>, key: Key): (i: nat)
    requires key in Keys(slots)
    ensures i < |slots| && slots[i].key == key
  {
    if slots[0].key == key then 0 else Find(slots[1..], key) + 1
  }

  function Without<V>(slots: seq<Slot<V>>, i: nat): seq<Slot<V>>
    requires i < |slots|
  {
    slots[..i] + slots[i + 1..]
  }

  // -------------------------------------------------------- what the history promises

  datatype Event<+V> =
    | Hit(key: Key, time: real)
    | Missed(key: Key, time: real)
    | Stored(key: Key, value: V, time: real)
    | Cleared

  /** The value last put under `key` since the cache was last cleared, and when. */
  function LastPut<V>(history: seq<Event<V>>, key: Key): Option<(V, real)> {
    if history == [] then None
    else
      var n := |history| - 1;
      match history[n]
      case Cleared => None
      case Stored(k, v, t) => if k == key then Some((v, t)) else LastPut(history[..n], key)
      case _ => LastPut(history[..n], key)
  }

  /** The other keys put or hit since `key` itself was last put or hit. */
  function Rivals<V>(history: seq<Event<V>>, key: Key): set<Key> {
    if history == [] then {}
    else
      var n := |history| - 1;
      match history[n]
      case Cleared => {}
      case Missed(_, _) => Rivals(history[..n], key)
      case Hit(k, _) => if k == key then {} else {k} + Rivals(history[..n], key)
      case Stored(k, _, _) => if k == key then {} else {k} + Rivals(history[..n], key)
  }

  /** Whatever was put under `key` and is not expired is owed unless `max` other keys have been used since. */
  predicate Owed<V>(history: seq<Event<V>>, key: Key, now: real, max: int, ttl: real) {
    var put := LastPut(history, key);
    put.Some? && now - put.value.1 <= ttl && |Rivals(history, key)| < max
  }

  /** Each slot holds the last put under its key, and the slots after it are keys used since. */
  ghost predicate Recorded<V>(slots: seq<Slot<V>>, history: seq<Event<V>>) {
    && Distinct(slots)
    && (forall i :: 0 <= i < |slots| ==> LastPut(history, slots[i].key) == Some((slots[i].value, slots[i].stamp)))
    && (forall i, j :: 0 <= i < j < |slots| ==> slots[j].key in Rivals(history, slots[i].key))
  }

  /** The slots are what the history says they should be. */
  ghost predicate Tracks<V>(slots: seq<Slot<V>>, history: seq<Event<V>>, now: real, max: int, ttl: real) {
    && Recorded(slots, history) && (slots == [] || |slots| <= max)
    && (forall key :: Owed(history, key, now, max, ttl) ==> key in Keys(slots))
  }

  lemma RecordedWithout<V>(slots: seq<Slot<V>>, history: seq<Event<V>>, g: nat)
    requires Recorded(slots, history) && g < |slots|
    ensures Recorded(Without(slots, g), history) && slots[g].key !in Keys(Without(slots, g))
    ensures forall k :: k in Keys(slots) && k != slots[g].key ==> k in Keys(Without(slots, g))
  {
    var rest := Without(slots, g);
    assert forall i :: 0 <= i < |rest| ==> rest[i] == slots[if i < g then i else i + 1];
    forall k | k in Keys(slots) && k != slots[g].key ensures k in Keys(rest) {
      var j := Find(slots, k);
      assert rest[if j < g then j else j - 1].key == k;
    }
  }

  ghost predicate Uses<V>(e: Event<V>, slot: Slot<V>) {
    match e
    case Hit(k, _) => k == slot.key
    case Stored(k, v, t) => slot == Slot(k, v, t)
    case _ => false
  }

  /** Using a key, by a hit or a put, makes its slot the last one. */
  lemma RecordedThenUsed<V>(rest: seq<Slot<V>>, history: seq<Event<V>>, e: Event<V>, slot: Slot<V>)
    requires Recorded(rest, history) && slot.key !in Keys(rest) && Uses(e, slot)
    requires e.Hit? ==> LastPut(history, slot.key) == Some((slot.value, slot.stamp))
    ensures Recorded(rest + [slot], history + [e])
    ensures forall k :: k != slot.key ==> Rivals(history + [e], k) == {slot.key} + Rivals(history, k)
    ensures forall k :: k != slot.key ==> LastPut(history + [e], k) == LastPut(history, k)
  {
    Extend(history, e);
    assert forall i :: 0 <= i < |rest| ==> rest[i].key in Keys(rest);
  }

  lemma OwedBefore<V>(history: seq<Event<V>>, e: Event<V>, slot: Slot<V>, k: Key, now: real, max: int, ttl: real)
    requires Uses(e, slot) && k != slot.key && Owed(history + [e], k, now, max, ttl)
    ensures Owed(history, k, now, max, ttl) && |{slot.key} + Rivals(history, k)| < max
  {
    Extend(history, e);
    SmallerSet(Rivals(history, k), {slot.key} + Rivals(history, k));
  }

  lemma Later<V>(slots: seq<Slot<V>>, history: seq<Event<V>>, now: real, later: real, max: int, ttl: real)
    requires Tracks(slots, history, now, max, ttl) && now <= later
    ensures Tracks(slots, history, later, max, ttl)
  {
    forall key | Owed(history, key, later, max, ttl) ensures key in Keys(slots) {
      assert Owed(history, key, now, max, ttl);
    }
  }

  lemma TracksMiss<V>(slots: seq<Slot<V>>, history: seq<Event<V>>, key: Key, now: real, max: int, ttl: real)
    requires Tracks(slots, history, now, max, ttl)
    ensures Tracks(slots, history + [Missed(key, now)], now, max, ttl)
  {
    var h1 := history + [Missed(key, now)];
    Extend(history, Missed(key, now));
    assert forall k :: LastPut(h1, k) == LastPut(history, k) && Rivals(h1, k) == Rivals(history, k);
    forall k | Owed(h1, k, now, max, ttl) ensures k in Keys(slots) {
      assert Owed(history, k, now, max, ttl);
    }
  }

  lemma TracksExpired<V>(slots: seq<Slot<V>>, history: seq<Event<V>>, i: nat, now: real, max: int, ttl: real)
    requires Tracks(slots, history, now, max, ttl)
    requires i < |slots| && now - slots[i].stamp > ttl
    ensures Tracks(Without(slots, i), history, now, max, ttl)
  {
    RecordedWithout(slots, history, i);
    assert !Owed(history, slots[i].key, now, max, ttl);
  }

  lemma TracksHit<V>(slots: seq<Slot<V>>, history: seq<Event<V>>, i: nat, now: real, max: int, ttl: real)
    requires Tracks(slots, history, now, max, ttl) && i < |slots|
    ensures Tracks(Without(slots, i) + [slots[i]], history + [Hit(slots[i].key, now)], now, max, ttl)
  {
    var slot, rest := slots[i], Without(slots, i);
    RecordedWithout(slots, history, i);
    RecordedThenUsed(rest, history, Hit(slot.key, now), slot);
    forall k | Owed(history + [Hit(slot.key, now)], k, now, max, ttl) ensures k in Keys(rest + [slot]) {
      InKeys(rest, slot, k);
      if k != slot.key {
        OwedBefore(history, Hit(slot.key, now), slot, k, now, max, ttl);
      }
    }
  }

  lemma InKeys<V>(rest: seq<Slot<V>>, slot: Slot<V>, k: Key)
    ensures k in Keys(rest + [slot]) <==> k == slot.key || k in Keys(rest)
  {
    var all := rest + [slot];
    assert all[|rest|] == slot && forall i :: 0 <= i < |rest| ==> all[i] == rest[i];
  }

  lemma {:induction false} KeysSize<V>(slots: seq<Slot<V>>)
    requires Distinct(slots)
    ensures |Keys(slots)| == |slots|
  {
    if slots != [] {
      var n := |slots| - 1;
      KeysSize(slots[..n]);
      assert Keys(slots) == Keys(slots[..n]) + {slots[n].key};
    }
  }

  /** The slot a put of `key` takes out: its own old one, the first one of a full cache, or none. */
  function Victim<V>(slots: seq<Slot<V>>, key: Key, max: int): (g: nat)
    requires max >= 1
    ensures g <= |slots|
  {
    if key in Keys(slots) then Find(slots, key) else if |slots| >= max then 0 else |slots|
  }

  function Replaced<V>(slots: seq<Slot<V>>, key: Key, value: V, now: real, max: int): seq<Slot<V>>
    requires max >= 1
  {
    var g := Victim(slots, key, max);
    (if g < |slots| then Without(slots, g) else slots) + [Slot(key, value, now)]
  }

  lemma TracksStored<V>(slots: seq<Slot<V>>, history: seq<Event<V>>, key: Key, value: V, now: real, max: int, ttl: real)
    requires Tracks(slots, history, now, max, ttl) && max >= 1
    ensures Tracks(Replaced(slots, key, value, now, max), history + [Stored(key, value, now)], now, max, ttl)
  {
    var g, slot, e := Victim(slots, key, max), Slot(key, value, now), Stored(key, value, now);
    var rest := if g < |slots| then Without(slots, g) else slots;
    if g < |slots| {
      RecordedWithout(slots, history, g);
    }
    assert key !in Keys(rest) by {
      assert forall i :: 0 <= i < |rest| ==> rest[i] in slots;
    }
    RecordedThenUsed(rest, history, e, slot);
    forall k | Owed(history + [e], k, now, max, ttl) ensures k in Keys(rest + [slot]) {
      InKeys(rest, slot, k);
      if k != key {
        OwedBefore(history, e, slot, k, now, max, ttl);
        if g < |slots| && k == slots[g].key {
          EvictedIsNotOwed(slots, history, key, now, max, ttl);
          assert false;
        }
      }
    }
  }

  lemma EvictedIsNotOwed<V>(slots: seq<Slot<V>>, history: seq<Event<V>>, key: Key, now: real, max: int, ttl: real)
    requires Tracks(slots, history, now, max, ttl) && 1 <= max <= |slots| && key !in Keys(slots)
    ensures |{key} + Rivals(history, slots[0].key)| >= max
  {
    var others := slots[1..];
    KeysSize(others);
    forall k | k in Keys(others) ensures k in Rivals(history, slots[0].key) {
      var i :| 0 <= i < |others| && others[i].key == k;
      assert slots[i + 1].key == k;
    }
    assert key !in Keys(others) by {
      assert forall i :: 0 <= i < |others| ==> others[i] == slots[i + 1];
    }
    SmallerSet({key} + Keys(others), {key} + Rivals(history, slots[0].key));
  }

  // ------------------------------------------------------------------------ the cache

  class LRUCache<V> {
    const maxSize: int
    const ttl: real
    var cache: seq<Slot<V>>
    ghost var history: seq<Event<V>>
    ghost var clock: real

    ghost predicate Valid()
      reads this
    {
      Tracks(cache, history, clock, maxSize, ttl)
    }

    constructor (maxSize: int, ttl: real, ghost now: real)
      ensures Valid() && this.maxSize == maxSize && this.ttl == ttl
      ensures cache == [] && history == [] && clock == now
    {
      this.maxSize, this.ttl, cache := maxSize, ttl, [];
      history, clock := [], now;
    }

    /**
     * Returns nothing but the value last put, never older than the time to live; and returns it whenever it
     * is owed. A hit makes the key the most recently used but does not renew its stamp.
     */
    method Get(key: Key, now: real) returns (r: Option<V>)
      requires Valid() && clock <= now
      modifies this
      ensures Valid() && clock == now
      ensures r.Some? ==> cache != [] && var slot := cache[|cache| - 1];
        slot.key == key && slot.value == r.value
        && LastPut(old(history), key) == Some((r.value, slot.stamp)) && now - slot.stamp <= ttl
      ensures Owed(old(history), key, now, maxSize, ttl) ==> r.Some?
      ensures history == old(history) + [if r.Some? then Hit(key, now) else Missed(key, now)]
      ensures multiset(cache) <= multiset(old(cache)) && (r.None? ==> key !in Keys(cache))
    {
      Later(cache, history, clock, now, maxSize, ttl);
      clock := now;
      TracksMiss(cache, history, key, now, maxSize, ttl);
      if key !in Keys(cache) {
        history := history + [Missed(key, now)];
        return None;
      }
      var i := Find(cache, key);
      var slot := cache[i];
      assert cache == cache[..i] + [slot] + cache[i + 1..];
      if now - slot.stamp > ttl {
        history := history + [Missed(key, now)];
        TracksExpired(cache, history, i, now, maxSize, ttl);
        RecordedWithout(cache, history, i);
        cache := Without(cache, i);
        return None;
      }
      TracksHit(cache, history, i, now, maxSize, ttl);
      history := history + [Hit(key, now)];
      cache := Without(cache, i) + [slot];
      return Some(slot.value);
    }

    /** Fails, like popping an empty dictionary, only when the cache has no room for a single entry. */
    method Put(key: Key, value: V, now: real) returns (ok: bool)
      requires Valid() && clock <= now
      modifies this
      ensures Valid() && clock == now && |cache| <= (if maxSize < 0 then 0 else maxSize)
      ensures ok <==> maxSize >= 1
      ensures ok ==> history == old(history) + [Stored(key, value, now)]
      ensures ok ==> cache != [] && cache[|cache| - 1] == Slot(key, value, now)
      ensures ok ==> forall slot :: slot in cache ==> slot == Slot(key, value, now) || slot in old(cache)
      ensures !ok ==> cache == old(cache) && history == old(history)
    {
      Later(cache, history, clock, now, maxSize, ttl);
      clock := now;
      ghost var was := cache;
      if maxSize >= 1 {
        TracksStored(cache, history, key, value, now, maxSize, ttl);
      }
      if key in Keys(cache) {
        cache := Without(cache, Find(cache, key));
      } else if |cache| >= maxSize {
        if cache == [] {
          return false;
        }
        cache := cache[1..];
      }
      cache := cache + [Slot(key, value, now)];
      assert cache == Replaced(was, key, value, now, maxSize);
      history := history + [Stored(key, value, now)];
      return true;
    }

    method Clear()
      requires Valid()
      modifies this`cache, this`history
      ensures Valid() && cache == [] && history == old(history) + [Cleared]
    {
      history := history + [Cleared];
      cache := [];
    }
  }

  // -------------------------------------------------------------------- the memoiser

  /**
   * A parse: the arguments that its cache key is made from, and what else of the parser its result depends on. All
   * parsers share one cache.
   */
  datatype Call = Call(url: string, html: string, strategies: string, settings: string) {
    /** The text whose digest is the key; the digest itself is taken to be injective. */
    function ContentKey(): Key {
      url + ":" + html + ":" + strategies
    }
  }

  /** No call made under the key of this one has found anything else. */
  predicate Unspoilt<R(==)>(parse: Call -> Option<R>, made: seq<Call>, call: Call) {
    forall c :: c in made && c.ContentKey() == call.ContentKey() && parse(c).Some? ==> parse(c) == parse(call)
  }

  /** The result is that of a call made under this key. */
  ghost predicate Traced<R>(parse: Call -> Option<R>, made: seq<Call>, key: Key, result: Option<R>) {
    exists c :: c in made && c.ContentKey() == key && parse(c) == result
  }

  /** Each slot holds the result of a call made under its key. */
  ghost predicate Memoises<R>(slots: seq<Slot<Option<R>>>, parse: Call -> Option<R>, made: seq<Call>) {
    forall slot :: slot in slots ==> Traced(parse, made, slot.key, slot.value)
  }

  lemma MemoisesMore<R>(slots: seq<Slot<Option<R>>>, parse: Call -> Option<R>, made: seq<Call>, call: Call)
    requires Memoises(slots, parse, made)
    ensures Memoises(slots, parse, made + [call])
  {
    forall slot | slot in slots ensures Traced(parse, made + [call], slot.key, slot.value) {
      var c :| c in made && c.ContentKey() == slot.key && parse(c) == slot.value;
      assert c in made + [call];
    }
  }

  lemma TracedItself<R>(parse: Call -> Option<R>, made: seq<Call>, call: Call)
    ensures Traced(parse, made + [call], call.ContentKey(), parse(call))
  {
    assert call in made + [call];
  }

  lemma UnspoiltOwns<R>(parse: Call -> Option<R>, made: seq<Call>, call: Call, result: Option<R>)
    requires Unspoilt(parse, made, call) && Traced(parse, made, call.ContentKey(), result) && result.Some?
    ensures result == parse(call)
  {
  }

  /** Nothing but accesses to one key is added. */
  ghost predicate Accesses<V>(before: seq<Event<V>>, after: seq<Event<V>>, key: Key) {
    before <= after && forall i :: |before| <= i < |after| ==> !after[i].Cleared? && after[i].key == key
  }

  datatype Outcome<+R> = Returned(value: R) | Raised

  class CachedParser<R> {
    const parse: Call -> Option<R>
    const cache: LRUCache<Option<R>>
    /** Every call, in order. */
    ghost var made: seq<Call>

    ghost predicate Valid()
      reads this, cache
    {
      cache.Valid() && Memoises(cache.cache, parse, made)
    }

    constructor (parse: Call -> Option<R>, maxSize: int, ttl: real, ghost now: real)
      ensures Valid() && fresh(cache) && this.parse == parse && made == []
      ensures cache.maxSize == maxSize && cache.ttl == ttl && cache.cache == [] && cache.history == [] && cache.clock == now
    {
      this.parse, made := parse, [];
      cache := new LRUCache(maxSize, ttl, now);
    }

    /** A cached result; a cached None looks like a miss. */
    method Lookup(key: Key, now: real) returns (found: Option<R>)
      requires Valid() && cache.clock <= now
      modifies cache
      ensures Valid() && cache.clock == now
      ensures found.Some? ==> Known(old(cache.history), key) && LastPut(old(cache.history), key).value.0 == found
      ensures found.Some? ==> Traced(parse, made, key, found) && cache.history == old(cache.history) + [Hit(key, now)]
      ensures found.Some? ==> now - LastPut(old(cache.history), key).value.1 <= cache.ttl
      ensures Remembered(old(cache.history), key, now, cache.maxSize, cache.ttl) ==> found.Some?
      ensures Accesses(old(cache.history), cache.history, key)
    {
      ghost var slots := cache.cache;
      var cached := cache.Get(key, now);
      SlotsKept(slots, cache.cache);
      if cached.Some? {
        ghost var last := cache.cache[|cache.cache| - 1];
        assert last in cache.cache && last in slots;
        return cached.value;
      }
      return None;
    }

    /** A fresh parse, put into the cache; raises when there is no room in it. */
    method ParseAfresh(call: Call, now: real) returns (r: Outcome<Option<R>>)
      requires Valid() && cache.clock == now && call in made
      modifies cache
      ensures Valid() && cache.clock == now
      ensures r == if cache.maxSize >= 1 then Returned(parse(call)) else Raised
      ensures cache.history == old(cache.history) + if r.Raised? then [] else [Stored(call.ContentKey(), parse(call), now)]
    {
      var result := parse(call);
      assert Traced(parse, made, call.ContentKey(), result);
      var ok := cache.Put(call.ContentKey(), result, now);
      return if ok then Returned(result) else Raised;
    }

    /**
     * Answers with the result of a call that was made under the same key, and with this call's own unless an earlier
     * one under that key found something else. What is remembered is answered again; a cached None looks like a miss
     * and is parsed afresh. With no room in the cache a fresh parse raises.
     */
    method Parse(call: Call, now: real) returns (r: Outcome<Option<R>>)
      requires Valid() && cache.clock <= now
      modifies cache, this`made
      ensures Valid() && cache.clock == now && made == old(made) + [call]
      ensures r.Raised? ==> cache.maxSize < 1
      ensures r.Returned? ==> Traced(parse, made, call.ContentKey(), r.value)
      ensures r.Returned? && Unspoilt(parse, old(made), call) ==> r.value == parse(call)
      ensures cache.maxSize >= 1 ==>
        Answered(parse, old(cache.history), cache.history, call, now, r, cache.maxSize, cache.ttl)
      ensures r.Returned? && r.value.Some? && cache.maxSize >= 1 && cache.ttl >= 0.0 ==>
        && Remembered(cache.history, call.ContentKey(), now, cache.maxSize, cache.ttl)
        && LastPut(cache.history, call.ContentKey()).value.0 == r.value
    {
      ghost var history, made0 := cache.history, made;
      var found := Lookup(call.ContentKey(), now);
      MemoisesMore(cache.cache, parse, made, call);
      made := made + [call];
      if found.Some? {
        TracedMore(parse, made0, call, found);
        AfterHit(history, call.ContentKey(), now);
        return Returned(found);
      }
      TracedItself(parse, made0, call);
      ghost var missed := cache.history;
      r := ParseAfresh(call, now);
      AfterStore(history, missed, call.ContentKey(), parse(call), now);
    }
  }

  lemma TracedMore<R>(parse: Call -> Option<R>, made: seq<Call>, call: Call, found: Option<R>)
    requires Traced(parse, made, call.ContentKey(), found) && found.Some?
    ensures Traced(parse, made + [call], call.ContentKey(), found)
    ensures Unspoilt(parse, made, call) ==> found == parse(call)
  {
    var c :| c in made && c.ContentKey() == call.ContentKey() && parse(c) == found;
    assert c in made + [call];
  }

  lemma AfterHit<V>(history: seq<Event<V>>, key: Key, now: real)
    ensures LastPut(history + [Hit(key, now)], key) == LastPut(history, key) && Rivals(history + [Hit(key, now)], key) == {}
  {
    Extend(history, Hit(key, now));
  }

  lemma AfterStore<V>(history: seq<Event<V>>, missed: seq<Event<V>>, key: Key, value: V, now: real)
    requires Accesses(history, missed, key)
    ensures var after := missed + [Stored(key, value, now)];
      Accesses(history, after, key) && LastPut(after, key) == Some((value, now)) && Rivals(after, key) == {}
  {
    Extend(missed, Stored(key, value, now));
  }

  /** What a call is answered in view of the history, and what has been put last after it. */
  ghost predicate Answered<R>(parse: Call -> Option<R>, before: seq<Event<Option<R>>>, after: seq<Event<Option<R>>>,
                              call: Call, now: real, r: Outcome<Option<R>>, max: int, ttl: real)
  {
    var key := call.ContentKey();
    && Accesses(before, after, key)
    && (Remembered(before, key, now, max, ttl) ==>
      r == Returned(LastPut(before, key).value.0) && LastPut(after, key) == LastPut(before, key))
    && (!Known(before, key) ==> r == Returned(parse(call)) && LastPut(after, key) == Some((parse(call), now)))
  }

  predicate Remembered<R>(history: seq<Event<Option<R>>>, key: Key, now: real, max: int, ttl: real) {
    Owed(history, key, now, max, ttl) && Known(history, key)
  }

  /** What was last put under the key is a result. */
  predicate Known<R>(history: seq<Event<Option<R>>>, key: Key) {
    var put := LastPut(history, key);
    put.Some? && put.value.0.Some?
  }

  lemma SlotsKept<V>(was: seq<Slot<V>>, now: seq<Slot<V>>)
    requires multiset(now) <= multiset(was)
    ensures forall slot :: slot in now ==> slot in was
  {
    forall slot | slot in now ensures slot in was {
      assert slot in multiset(now);
    }
  }

  /** Joining with ":" does not keep the parts apart, and what is not joined is not told apart at all. */
  lemma KeysClash()
    ensures Call("http://h", "80/:<p>", "", "").ContentKey() == Call("http://h:80/", "<p>", "", "").ContentKey()
    ensures forall call: Call, settings :: call.(settings := settings).ContentKey() == call.ContentKey()
  {
    assert Call("http://h", "80/:<p>", "", "").ContentKey() == "http://h:80/:<p>:"
        == Call("http://h:80/", "<p>", "", "").ContentKey();
  }

  /** But nothing in the key is idle: calls that differ in one of its three parts only have different keys. */
  lemma KeysDiffer(call: Call, other: string)
    ensures other != call.url ==> call.(url := other).ContentKey() != call.ContentKey()
    ensures other != call.html ==> call.(html := other).ContentKey() != call.ContentKey()
    ensures other != call.strategies ==> call.(strategies := other).ContentKey() != call.ContentKey()
  {
    KeyAround(call.url, call.html, call.strategies);
    KeyAround(other, call.html, call.strategies);
    KeyAround(call.url, other, call.strategies);
    KeyAround(call.url, call.html, other);
    InTheMiddle("", call.url, other, ":" + call.html + ":" + call.strategies);
    InTheMiddle(call.url + ":", call.html, other, ":" + call.strategies);
    InTheMiddle(call.url + ":" + call.html + ":", call.strategies, other, "");
  }

  lemma KeyAround(u: string, h: string, s: string)
    ensures u + ":" + h + ":" + s == "" + u + (":" + h + ":" + s)
    ensures u + ":" + h + ":" + s == u + ":" + h + (":" + s)
    ensures u + ":" + h + ":" + s == u + ":" + h + ":" + s + ""
  {
  }

  lemma InTheMiddle(a: string, s: string, t: string, b: string)
    ensures a + s + b == a + t + b ==> s == t
  {
    assert (a + s + b)[|a|..|a| + |s|] == s && (a + t + b)[|a|..|a| + |t|] == t;
    assert |a + s + b| == |a| + |s| + |b| && |a + t + b| == |a| + |t| + |b|;
  }

  // ----------------------------------------------------------------- runs of the memoiser

  datatype Request = Request(call: Call, time: real)

  predicate InTimeOrder(run: seq<Request>, from: real) {
    run != [] ==> from <= run[0].time && forall i, j :: 0 <= i < j < |run| ==> run[i].time <= run[j].time
  }

  function Calls(run: seq<Request>): (r: seq<Call>)
    ensures |r| == |run| && forall i :: 0 <= i < |run| ==> r[i] == run[i].call
  {
    seq(|run|, i requires 0 <= i < |run| => run[i].call)
  }

  /** What the first of the calls under the key to find anything finds. */
  function FirstFound<R>(parse: Call -> Option<R>, calls: seq<Call>, key: Key): Option<R> {
    if calls == [] then None
    else
      var n := |calls| - 1;
      var before := FirstFound(parse, calls[..n], key);
      if before.Some? then before else if calls[n].ContentKey() == key then parse(calls[n]) else None
  }

  /** Every call is answered with its own result. */
  ghost predicate OwnAnswers<R>(parse: Call -> Option<R>, calls: seq<Call>, answers: seq<Outcome<Option<R>>>)
    requires |answers| == |calls|
  {
    forall i :: 0 <= i < |calls| ==> answers[i] == Returned(parse(calls[i]))
  }

  /** The calls answered so far got what the first one under their key to find anything found. */
  ghost predicate FirstAnswers<R>(parse: Call -> Option<R>, calls: seq<Call>, answers: seq<Outcome<Option<R>>>)
    requires |answers| <= |calls|
  {
    forall i :: 0 <= i < |answers| ==> answers[i] == Returned(FirstFound(parse, calls[..i + 1], calls[i].ContentKey()))
  }

  /** Those no earlier call clashes with got their own result. */
  ghost predicate OwnUnlessSpoilt<R>(parse: Call -> Option<R>, calls: seq<Call>, answers: seq<Outcome<Option<R>>>)
    requires |answers| <= |calls|
  {
    forall i :: 0 <= i < |answers| ==> OwnAt(parse, calls, i, answers[i])
  }

  predicate OwnAt<R(==)>(parse: Call -> Option<R>, calls: seq<Call>, i: nat, answer: Outcome<Option<R>>)
    requires i < |calls|
  {
    Unspoilt(parse, calls[..i], calls[i]) ==> answer == Returned(parse(calls[i]))
  }

  /** None of the calls clashes with an earlier one. */
  ghost predicate NoneSpoilt<R>(parse: Call -> Option<R>, calls: seq<Call>) {
    forall i :: 0 <= i < |calls| ==> Unspoilt(parse, calls[..i], calls[i])
  }

  lemma {:induction false} FirstStays<R>(parse: Call -> Option<R>, calls: seq<Call>, j: nat, key: Key)
    requires j <= |calls| && FirstFound(parse, calls[..j], key).Some?
    ensures FirstFound(parse, calls, key) == FirstFound(parse, calls[..j], key)
  {
    if j < |calls| {
      assert calls[..|calls| - 1][..j] == calls[..j];
      FirstStays(parse, calls[..|calls| - 1], j, key);
    } else {
      assert calls[..j] == calls;
    }
  }

  lemma {:induction false} FirstIsTraced<R>(parse: Call -> Option<R>, calls: seq<Call>, key: Key)
    requires FirstFound(parse, calls, key).Some?
    ensures Traced(parse, calls, key, FirstFound(parse, calls, key))
  {
    var n := |calls| - 1;
    assert calls == calls[..n] + [calls[n]];
    if FirstFound(parse, calls[..n], key).Some? {
      FirstIsTraced(parse, calls[..n], key);
      var c :| c in calls[..n] && c.ContentKey() == key && parse(c) == FirstFound(parse, calls, key);
      assert c in calls;
    } else {
      assert calls[n] in calls;
    }
  }

  lemma FirstOfPrefix<R>(parse: Call -> Option<R>, calls: seq<Call>, i: nat)
    requires i < |calls|
    ensures var key := calls[i].ContentKey();
      var before := FirstFound(parse, calls[..i], key);
      FirstFound(parse, calls[..i + 1], key) == if before.Some? then before else parse(calls[i])
  {
    assert calls[..i + 1][..i] == calls[..i];
  }

  /** Answered so, every call gets its own result exactly when none clashes with an earlier one. */
  lemma FirstAnswersAreOwnIff<R>(parse: Call -> Option<R>, calls: seq<Call>, answers: seq<Outcome<Option<R>>>)
    requires |answers| == |calls| && FirstAnswers(parse, calls, answers)
    ensures OwnAnswers(parse, calls, answers) <==> NoneSpoilt(parse, calls)
  {
    if NoneSpoilt(parse, calls) {
      forall i | 0 <= i < |calls| ensures answers[i] == Returned(parse(calls[i])) {
        UnspoiltIsOwn(parse, calls, i);
      }
    }
    if OwnAnswers(parse, calls, answers) {
      forall i | 0 <= i < |calls| ensures Unspoilt(parse, calls[..i], calls[i]) {
        forall j | 0 <= j < i && calls[j].ContentKey() == calls[i].ContentKey() && parse(calls[j]).Some?
          ensures parse(calls[j]) == parse(calls[i])
        {
          FirstAgrees(parse, calls, j, i);
        }
      }
    }
  }

  lemma FirstAgrees<R>(parse: Call -> Option<R>, calls: seq<Call>, j: nat, i: nat)
    requires j < i < |calls| && calls[j].ContentKey() == calls[i].ContentKey()
    requires FirstFound(parse, calls[..j + 1], calls[j].ContentKey()).Some?
    ensures FirstFound(parse, calls[..i + 1], calls[i].ContentKey()) == FirstFound(parse, calls[..j + 1], calls[j].ContentKey())
  {
    assert calls[..i + 1][..j + 1] == calls[..j + 1];
    FirstStays(parse, calls[..i + 1], j + 1, calls[j].ContentKey());
  }

  lemma UnspoiltIsOwn<R>(parse: Call -> Option<R>, calls: seq<Call>, i: nat)
    requires i < |calls| && Unspoilt(parse, calls[..i], calls[i])
    ensures FirstFound(parse, calls[..i + 1], calls[i].ContentKey()) == parse(calls[i])
  {
    var key := calls[i].ContentKey();
    FirstOfPrefix(parse, calls, i);
    if FirstFound(parse, calls[..i], key).Some? {
      FirstIsTraced(parse, calls[..i], key);
      UnspoiltOwns(parse, calls[..i], calls[i], FirstFound(parse, calls[..i], key));
    }
  }

  /** The keys of the calls. */
  function KeysOf(calls: seq<Call>): set<Key> {
    set c | c in calls :: c.ContentKey()
  }

  /** The cache is never full and nothing in it expires. */
  predicate Roomy(run: seq<Request>, max: int, ttl: real) {
    |KeysOf(Calls(run))| <= max && (run != [] ==> run[|run| - 1].time - run[0].time <= ttl)
  }

  /** What has been found first is what was put last, since `start`; and only keys in use have been accessed. */
  ghost predicate RemembersFirst<R>(parse: Call -> Option<R>, calls: seq<Call>, history: seq<Event<Option<R>>>,
                                    start: real, keys: set<Key>)
  {
    && (forall key :: if FirstFound(parse, calls, key).None? then !Known(history, key)
          else var put := LastPut(history, key);
            put.Some? && put.value.0 == FirstFound(parse, calls, key) && start <= put.value.1)
    && forall key :: key !in Rivals(history, key) && Rivals(history, key) <= keys
  }

  lemma FirstIsRemembered<R>(parse: Call -> Option<R>, calls: seq<Call>, history: seq<Event<Option<R>>>,
                             start: real, keys: set<Key>, key: Key, now: real, max: int, ttl: real)
    requires RemembersFirst(parse, calls, history, start, keys) && key in keys && |keys| <= max && now - start <= ttl
    ensures FirstFound(parse, calls, key).Some? <==> Known(history, key)
    ensures Known(history, key) ==> Remembered(history, key, now, max, ttl)
  {
    SmallerSet(Rivals(history, key), keys - {key});
  }

  /** Accesses to one key change nothing that was put under another. */
  lemma {:induction false} AccessesElsewhere<V>(before: seq<Event<V>>, after: seq<Event<V>>, key: Key, other: Key)
    requires Accesses(before, after, key)
    ensures key != other ==> LastPut(after, other) == LastPut(before, other)
    ensures Rivals(after, other) <= Rivals(before, other) + {key}
    ensures key == other ==> Rivals(after, other) <= Rivals(before, other)
    decreases |after|
  {
    if |after| > |before| {
      AccessesElsewhere(before, after[..|after| - 1], key, other);
    } else {
      assert after == before;
    }
  }

  lemma FirstElsewhere<R>(parse: Call -> Option<R>, calls: seq<Call>, call: Call, key: Key)
    ensures FirstFound(parse, calls + [call], key) ==
      var before := FirstFound(parse, calls, key);
      if before.Some? then before else if call.ContentKey() == key then parse(call) else None
  {
    Extend(calls, call);
  }

  lemma RemembersNext<R>(parse: Call -> Option<R>, calls: seq<Call>, call: Call, before: seq<Event<Option<R>>>,
                         after: seq<Event<Option<R>>>, start: real, now: real, keys: set<Key>)
    requires RemembersFirst(parse, calls, before, start, keys) && call.ContentKey() in keys && start <= now
    requires Accesses(before, after, call.ContentKey())
    requires if Known(before, call.ContentKey()) then LastPut(after, call.ContentKey()) == LastPut(before, call.ContentKey())
             else LastPut(after, call.ContentKey()) == Some((parse(call), now))
    ensures RemembersFirst(parse, calls + [call], after, start, keys)
  {
    forall key ensures if FirstFound(parse, calls + [call], key).None? then !Known(after, key)
      else var put := LastPut(after, key);
        put.Some? && put.value.0 == FirstFound(parse, calls + [call], key) && start <= put.value.1
    {
      FirstElsewhere(parse, calls, call, key);
      AccessesElsewhere(before, after, call.ContentKey(), key);
    }
    forall key ensures key !in Rivals(after, key) && Rivals(after, key) <= keys {
      AccessesElsewhere(before, after, call.ContentKey(), key);
    }
  }

  /** One more call where nothing is full or expires: it is answered with what was found first. */
  lemma FirstStep<R>(parse: Call -> Option<R>, calls: seq<Call>, i: nat, before: seq<Event<Option<R>>>,
                     after: seq<Event<Option<R>>>, start: real, now: real, keys: set<Key>, r: Outcome<Option<R>>, max: int, ttl: real)
    requires i < |calls| && RemembersFirst(parse, calls[..i], before, start, keys)
    requires calls[i].ContentKey() in keys && |keys| <= max && start <= now && now - start <= ttl
    requires Answered(parse, before, after, calls[i], now, r, max, ttl)
    ensures r == Returned(FirstFound(parse, calls[..i + 1], calls[i].ContentKey()))
    ensures RemembersFirst(parse, calls[..i + 1], after, start, keys)
  {
    FirstIsRemembered(parse, calls[..i], before, start, keys, calls[i].ContentKey(), now, max, ttl);
    FirstOfPrefix(parse, calls, i);
    RemembersNext(parse, calls[..i], calls[i], before, after, start, now, keys);
    assert calls[..i + 1] == calls[..i] + [calls[i]];
  }

  lemma FirstAnswersNext<R>(parse: Call -> Option<R>, calls: seq<Call>, answers: seq<Outcome<Option<R>>>, r: Outcome<Option<R>>)
    requires |answers| < |calls| && FirstAnswers(parse, calls, answers)
    requires r == Returned(FirstFound(parse, calls[..|answers| + 1], calls[|answers|].ContentKey()))
    ensures FirstAnswers(parse, calls, answers + [r])
  {
    forall i | 0 <= i < |answers| + 1
      ensures (answers + [r])[i] == Returned(FirstFound(parse, calls[..i + 1], calls[i].ContentKey()))
    {
      if i < |answers| {
        assert (answers + [r])[i] == answers[i];
      }
    }
  }

  lemma PrefixNext<T>(s: seq<T>, i: nat)
    requires i < |s|
    ensures s[..i + 1] == s[..i] + [s[i]]
  {
  }

  lemma OwnNext<R>(parse: Call -> Option<R>, calls: seq<Call>, answers: seq<Outcome<Option<R>>>, r: Outcome<Option<R>>)
    requires |answers| < |calls| && OwnUnlessSpoilt(parse, calls, answers)
    requires OwnAt(parse, calls, |answers|, r)
    ensures OwnUnlessSpoilt(parse, calls, answers + [r])
  {
    forall i | 0 <= i < |answers| + 1 ensures OwnAt(parse, calls, i, (answers + [r])[i]) {
      assert i < |answers| ==> (answers + [r])[i] == answers[i];
    }
  }

  /** A run that leaves room so far: what was answered, and what is remembered. */
  ghost predicate InRoom<R>(parse: Call -> Option<R>, calls: seq<Call>, answers: seq<Outcome<Option<R>>>,
                            history: seq<Event<Option<R>>>, start: real)
    requires |answers| <= |calls|
  {
    && FirstAnswers(parse, calls, answers)
    && RemembersFirst(parse, calls[..|answers|], history, start, KeysOf(calls))
  }

  lemma InRoomNext<R>(parse: Call -> Option<R>, calls: seq<Call>, answers: seq<Outcome<Option<R>>>, before: seq<Event<Option<R>>>,
                      after: seq<Event<Option<R>>>, start: real, now: real, r: Outcome<Option<R>>, max: int, ttl: real)
    requires |answers| < |calls| && InRoom(parse, calls, answers, before, start)
    requires |KeysOf(calls)| <= max && start <= now && now - start <= ttl
    requires Answered(parse, before, after, calls[|answers|], now, r, max, ttl)
    ensures InRoom(parse, calls, answers + [r], after, start)
  {
    assert calls[|answers|] in calls;
    FirstStep(parse, calls, |answers|, before, after, start, now, KeysOf(calls), r, max, ttl);
    FirstAnswersNext(parse, calls, answers, r);
  }

  lemma TimesInRoom(run: seq<Request>, i: nat, max: int, ttl: real)
    requires i < |run| && Roomy(run, max, ttl) && InTimeOrder(run, run[0].time)
    ensures run[0].time <= run[i].time && run[i].time - run[0].time <= ttl
  {
  }

  /** One call of a run. */
  method ParseNext<R>(parser: CachedParser<R>, run: seq<Request>, answers: seq<Outcome<Option<R>>>)
    returns (r: Outcome<Option<R>>)
    requires parser.Valid() && |answers| < |run| && InTimeOrder(run, run[0].time) && parser.cache.maxSize >= 1
    requires parser.cache.clock <= run[|answers|].time && parser.made == Calls(run)[..|answers|]
    requires OwnUnlessSpoilt(parser.parse, Calls(run), answers)
    modifies parser.cache, parser`made
    ensures parser.Valid() && parser.cache.clock == run[|answers|].time && parser.made == Calls(run)[..|answers| + 1]
    ensures OwnUnlessSpoilt(parser.parse, Calls(run), answers + [r])
    ensures Roomy(run, parser.cache.maxSize, parser.cache.ttl) ==>
      InRoom(parser.parse, Calls(run), answers, old(parser.cache.history), run[0].time) ==>
      InRoom(parser.parse, Calls(run), answers + [r], parser.cache.history, run[0].time)
  {
    ghost var i, calls, history := |answers|, Calls(run), parser.cache.history;
    PrefixNext(calls, i);
    r := parser.Parse(run[|answers|].call, run[|answers|].time);
    OwnNext(parser.parse, calls, answers, r);
    if Roomy(run, parser.cache.maxSize, parser.cache.ttl) && InRoom(parser.parse, calls, answers, history, run[0].time) {
      TimesInRoom(run, i, parser.cache.maxSize, parser.cache.ttl);
      InRoomNext(parser.parse, calls, answers, history, parser.cache.history, run[0].time, run[i].time, r,
                 parser.cache.maxSize, parser.cache.ttl);
    }
  }

  /**
   * A run of calls from an empty cache. A call that no earlier one clashes with is answered with its own result, however
   * the cache fills and expires. When it does neither, each call is answered with what the first one under its key to
   * find anything found; so all get their own results exactly when none clashes with an earlier one.
   */
  method ParseAll<R>(parser: CachedParser<R>, run: seq<Request>) returns (answers: seq<Outcome<Option<R>>>)
    requires parser.Valid() && parser.cache.history == [] && parser.made == [] && parser.cache.maxSize >= 1
    requires InTimeOrder(run, parser.cache.clock)
    modifies parser.cache, parser`made
    ensures parser.Valid() && parser.made == Calls(run) && |answers| == |run|
    ensures OwnUnlessSpoilt(parser.parse, Calls(run), answers)
    ensures Roomy(run, parser.cache.maxSize, parser.cache.ttl) ==>
      && FirstAnswers(parser.parse, Calls(run), answers)
      && (OwnAnswers(parser.parse, Calls(run), answers) <==> NoneSpoilt(parser.parse, Calls(run)))
  {
    answers := [];
    while |answers| < |run|
      invariant parser.Valid() && |answers| <= |run| && parser.made == Calls(run)[..|answers|]
      invariant |answers| < |run| ==> parser.cache.clock <= run[|answers|].time
      invariant OwnUnlessSpoilt(parser.parse, Calls(run), answers)
      invariant run != [] && Roomy(run, parser.cache.maxSize, parser.cache.ttl) ==>
        InRoom(parser.parse, Calls(run), answers, parser.cache.history, run[0].time)
    {
      var r := ParseNext(parser, run, answers);
      answers := answers + [r];
    }
    assert Calls(run)[..|run|] == Calls(run);
    if Roomy(run, parser.cache.maxSize, parser.cache.ttl) {
      FirstAnswersAreOwnIff(parser.parse, Calls(run), answers);
    }
  }

  lemma FirstOfTwo<R>(parse: Call -> Option<R>, x: Call, y: Call, answers: seq<Outcome<Option<R>>>)
    requires x.ContentKey() == y.ContentKey() && parse(x).Some? && |answers| == 2 && FirstAnswers(parse, [x, y], answers)
    ensures answers == [Returned(parse(x)), Returned(parse(x))]
  {
    FirstOfPrefix(parse, [x, y], 0);
    FirstOfPrefix(parse, [x, y], 1);
    assert [x, y][..1] == [x] && [x, y][..0] == [];
  }

  lemma OneKey(x: Call, y: Call)
    requires x.ContentKey() == y.ContentKey()
    ensures |KeysOf([x, y])| == 1
  {
    assert x in [x, y];
    assert KeysOf([x, y]) == {x.ContentKey()};
  }

  /** Two calls under one key that find different things: made in one order or the other, the second gets the wrong answer. */
  method OneOrderSpoils<R>(parse: Call -> Option<R>, a: Call, b: Call, maxSize: int, ttl: real, now: real)
    returns (run: seq<Request>, answers: seq<Outcome<Option<R>>>)
    requires a.ContentKey() == b.ContentKey() && parse(a) != parse(b) && maxSize >= 1 && ttl >= 0.0
    ensures Calls(run) in {[a, b], [b, a]} && |answers| == 2
    ensures answers == [Returned(parse(run[0].call)), Returned(parse(run[0].call))]
    ensures !OwnAnswers(parse, Calls(run), answers)
  {
    var first, second := if parse(a).Some? then a else b, if parse(a).Some? then b else a;
    run := [Request(first, now), Request(second, now)];
    assert Calls(run) == [first, second];
    OneKey(first, second);
    var parser := new CachedParser(parse, maxSize, ttl, now);
    answers := ParseAll(parser, run);
    FirstOfTwo(parse, first, second, answers);
  }

  /** Where two calls clash and differ, the second is answered with the result of the first. */
  method ParseClashing<R>(parse: Call -> Option<R>, a: Call, b: Call, maxSize: int, ttl: real, now: real)
    returns (r: Outcome<Option<R>>)
    requires a.ContentKey() == b.ContentKey() && parse(a) != parse(b) && parse(a).Some?
    requires maxSize >= 1 && ttl >= 0.0
    ensures r == Returned(parse(a))
  {
    var parser := new CachedParser(parse, maxSize, ttl, now);
    var first := parser.Parse(a, now);
    r := parser.Parse(b, now);
  }
}
