/** The fetcher's cache of HTTP validators: bounded, least recently used first, with expiry, and checked against its history. */
module HttpCache {
  import opened Common

  type Url = string

  /** The validators kept for a page, and equally those given to a store. */
  datatype Entry = Entry(etag: Option<string>, lastModified: Option<string>, cacheControl: Option<string>, contentHash: string) {
    function Of(v: Validator): Option<string> {
      match v
      case ETag => etag
      case LastModified => lastModified
      case CacheControl => cacheControl
      case ContentHash => Some(contentHash)
    }
  }

  datatype Validator = ETag | LastModified | CacheControl | ContentHash

  predicate Given(s: Option<string>) {
    s.Some? && s.value != ""
  }

  /** Fields not given stay as they were. */
  function Overlay(entry: Entry, given: Entry): Entry {
    Entry(if Given(given.etag) then given.etag else entry.etag,
          if Given(given.lastModified) then given.lastModified else entry.lastModified,
          if Given(given.cacheControl) then given.cacheControl else entry.cacheControl,
          if given.contentHash != "" then given.contentHash else entry.contentHash)
  }

  function Minus(order: seq<Url>, urls: set<Url>): seq<Url> {
    if order == [] then []
    else if order[0] in urls then Minus(order[1..], urls)
    else [order[0]] + Minus(order[1..], urls)
  }

  function Expired(stamps: map<Url, real>, now: real, ttl: real): set<Url> {
    set url | url in stamps && now - stamps[url] > ttl
  }

  /** Those in the order before a store that are still there just before it adds its own. */
  function Survivors(order: seq<Url>, stamps: map<Url, real>, now: real, max: int, ttl: real): seq<Url> {
    if |order| < max then order
    else
      var left := Minus(order, Expired(stamps, now, ttl));
      if |left| < max || left == [] then left else left[1..]
  }

  /** What the cache held of the pages still in the order. */
  function Kept(entries: map<Url, Entry>, order: seq<Url>): map<Url, Entry> {
    map u | u in order && u in entries :: entries[u]
  }

  function Written(entries: map<Url, Entry>, url: Url, given: Entry): map<Url, Entry> {
    entries[url := if url in entries then Overlay(entries[url], given) else given]
  }

  // ----------------------------------------------------------------------- the history

  datatype Event =
    | Hit(url: Url)
    | Stored(url: Url, given: Entry, time: real)
    | Dropped(url: Url)
    | Removed(url: Url)
    | Cleared

  /** The validators of a page: those given since it was last lost, later ones over earlier ones. */
  function Known(history: seq<Event>, url: Url): Option<Entry> {
    if history == [] then None
    else
      var before := Known(history[..|history| - 1], url);
      match history[|history| - 1]
      case Stored(u, given, _) =>
        if u != url then before else if before.Some? then Some(Overlay(before.value, given)) else Some(given)
      case Dropped(u) => if u == url then None else before
      case Removed(u) => if u == url then None else before
      case Cleared => None
      case _ => before
  }

  predicate Loses(e: Event, url: Url) {
    e.Cleared? || ((e.Dropped? || e.Removed?) && e.url == url)
  }

  /** A store of the page, which has not been lost since. */
  ghost predicate Live(history: seq<Event>, url: Url, i: int) {
    && 0 <= i < |history| && history[i].Stored? && history[i].url == url
    && forall j :: i < j < |history| ==> !Loses(history[j], url)
  }

  /** It gives a value that is not empty. */
  ghost predicate Gives(history: seq<Event>, url: Url, v: Validator, i: int) {
    Live(history, url, i) && history[i].given.Of(v) !in {None, Some("")}
  }

  /** The store that decides a validator: the latest to give it; or if none does, the first. */
  ghost predicate Decides(history: seq<Event>, url: Url, v: Validator, i: int) {
    || (Gives(history, url, v, i) && forall j :: Gives(history, url, v, j) ==> j <= i)
    || (Live(history, url, i) && (forall j :: Live(history, url, j) ==> i <= j) && forall j :: !Gives(history, url, v, j))
  }

  /** Each validator is that of the store that decides it. */
  ghost predicate AsGiven(history: seq<Event>, url: Url, entry: Entry) {
    forall v: Validator :: DecidedAs(history, url, v, entry.Of(v))
  }

  ghost predicate DecidedAs(history: seq<Event>, url: Url, v: Validator, value: Option<string>) {
    exists i :: Decides(history, url, v, i) && history[i].given.Of(v) == value
  }

  /** An event that is no loss changes nothing about the stores before it. */
  lemma LiveBefore(history: seq<Event>, url: Url, v: Validator, e: Event, i: int)
    requires !Loses(e, url)
    ensures i < |history| ==> Live(history + [e], url, i) == Live(history, url, i)
    ensures i < |history| ==> Gives(history + [e], url, v, i) == Gives(history, url, v, i)
    ensures i == |history| ==> Live(history + [e], url, i) == (e.Stored? && e.url == url)
  {
    var after := history + [e];
    assert after[|history|] == e;
    if 0 <= i < |history| {
      assert after[i] == history[i];
      assert forall j :: i < j < |history| ==> after[j] == history[j];
    }
  }

  lemma DecidesNext(history: seq<Event>, url: Url, v: Validator, e: Event, i: int)
    requires !Loses(e, url)
    ensures Decides(history, url, v, i) && !Gives(history + [e], url, v, |history|) ==> Decides(history + [e], url, v, i)
    ensures Gives(history + [e], url, v, |history|) ==> Decides(history + [e], url, v, |history|)
    ensures (forall j :: !Live(history, url, j)) && e.Stored? && e.url == url ==> Decides(history + [e], url, v, |history|)
    ensures (forall j :: !Live(history, url, j)) && !(e.Stored? && e.url == url) ==> forall j :: !Live(history + [e], url, j)
  {
    forall j
      ensures j < |history| ==> Live(history + [e], url, j) == Live(history, url, j)
      ensures j < |history| ==> Gives(history + [e], url, v, j) == Gives(history, url, v, j)
      ensures j == |history| ==> Live(history + [e], url, j) == (e.Stored? && e.url == url)
    {
      LiveBefore(history, url, v, e, j);
    }
  }

  lemma NoneLive(history: seq<Event>, url: Url, e: Event)
    requires Loses(e, url)
    ensures forall i :: !Live(history + [e], url, i)
  {
    assert (history + [e])[|history|] == e;
  }

  /** What is known of a page is what its live stores gave: of each validator the latest value, or else the first. */
  lemma {:induction false} KnownAsGiven(history: seq<Event>, url: Url, v: Validator) returns (i: int)
    ensures Known(history, url).None? ==> forall j :: !Live(history, url, j)
    ensures Known(history, url).Some? ==> Decides(history, url, v, i) && Known(history, url).value.Of(v) == history[i].given.Of(v)
  {
    if history == [] {
      return 0;
    }
    var n := |history| - 1;
    var before, e := history[..n], history[n];
    assert history == before + [e];
    i := KnownAsGiven(before, url, v);
    if Loses(e, url) {
      NoneLive(before, url, e);
    } else {
      DecidesNext(before, url, v, e, i);
      LiveBefore(before, url, v, e, n);
      if Live(history, url, n) && (Known(before, url).None? || Gives(history, url, v, n)) {
        i := n;
      }
    }
  }

  lemma KnownAsGivenInAll(history: seq<Event>, url: Url)
    requires Known(history, url).Some?
    ensures AsGiven(history, url, Known(history, url).value)
  {
    forall v: Validator
      ensures DecidedAs(history, url, v, Known(history, url).value.Of(v))
    {
      var i := KnownAsGiven(history, url, v);
    }
  }

  /** When a page was last stored, unless it was removed since. */
  function LastStore(history: seq<Event>, url: Url): Option<real> {
    if history == [] then None
    else
      var before := LastStore(history[..|history| - 1], url);
      match history[|history| - 1]
      case Stored(u, _, t) => if u == url then Some(t) else before
      case Removed(u) => if u == url then None else before
      case Cleared => None
      case _ => before
  }

  /** The stamp of a page: removing the page, or clearing them all, does not take it away. */
  function StampOf(history: seq<Event>, url: Url): Option<real> {
    if history == [] then None
    else
      var before := StampOf(history[..|history| - 1], url);
      match history[|history| - 1]
      case Stored(u, _, t) => if u == url then Some(t) else before
      case Dropped(u) => if u == url then None else before
      case _ => before
  }

  /** Removed or cleared away while it was cached, and neither stored nor dropped since. */
  ghost predicate Orphaned(history: seq<Event>, url: Url) {
    history != [] &&
    var before := history[..|history| - 1];
    match history[|history| - 1]
    case Stored(u, _, _) => u != url && Orphaned(before, url)
    case Dropped(u) => u != url && Orphaned(before, url)
    case Removed(u) => Orphaned(before, url) || (u == url && Known(before, url).Some?)
    case Cleared => Orphaned(before, url) || Known(before, url).Some?
    case Hit(_) => Orphaned(before, url)
  }

  lemma {:induction false} OrphansAreStamped(history: seq<Event>, url: Url)
    ensures Known(history, url).Some? ==> StampOf(history, url).Some?
    ensures Orphaned(history, url) <==> StampOf(history, url).Some? && Known(history, url).None?
  {
    if history != [] {
      OrphansAreStamped(history[..|history| - 1], url);
    }
  }

  /** The other pages found or stored since this one was. */
  function Rivals(history: seq<Event>, url: Url): set<Url> {
    if history == [] then {}
    else
      var before := Rivals(history[..|history| - 1], url);
      match history[|history| - 1]
      case Hit(u) => if u == url then {} else before + {u}
      case Stored(u, _, _) => if u == url then {} else before + {u}
      case _ => before
  }

  /** Those found or stored, and since then not the page itself. */
  lemma {:induction false} RivalsUsedSince(history: seq<Event>, url: Url, v: Url)
    ensures v in Rivals(history, url) <==>
      v != url && exists i :: 0 <= i < |history| && Touches(history[i], v) && NotTouchedFrom(history, url, i)
  {
    if history != [] {
      var n := |history| - 1;
      var before := history[..n];
      RivalsUsedSince(before, url, v);
      forall i | 0 <= i < n
        ensures NotTouchedFrom(history, url, i) <==> NotTouchedFrom(before, url, i) && !Touches(history[n], url)
      {
        assert forall j :: i <= j < n ==> before[j] == history[j];
      }
      if v != url && Touches(history[n], v) {
        assert NotTouchedFrom(history, url, n);
      }
      assert forall i :: 0 <= i < n ==> before[i] == history[i];
    }
  }

  ghost predicate NotTouchedFrom(history: seq<Event>, url: Url, i: int) {
    0 <= i && forall j :: i <= j < |history| ==> !Touches(history[j], url)
  }

  predicate Touches(e: Event, url: Url) {
    (e.Hit? || e.Stored?) && e.url == url
  }

  /** Stored, not removed, not expired, and with fewer rivals than there is room for beside it and one more. */
  predicate Owed(history: seq<Event>, url: Url, now: real, max: int, ttl: real) {
    var t := LastStore(history, url);
    t.Some? && now - t.value <= ttl && |Rivals(history, url)| < max - 1
  }

  predicate NothingRemoved(history: seq<Event>) {
    forall e :: e in history ==> !e.Removed? && !e.Cleared?
  }

  // ---------------------------------------------------------------------- the invariant

  /** Least recently used first. */
  ghost predicate Recent(order: seq<Url>, history: seq<Event>) {
    order == [] ||
    (order[0] !in order[1..] && Recent(order[1..], history)
     && forall v :: v in order[1..] ==> v in Rivals(history, order[0]))
  }

  ghost predicate Mirrors(order: seq<Url>, entries: map<Url, Entry>, history: seq<Event>) {
    && (forall u :: u in order <==> u in entries)
    && forall u :: Known(history, u) == if u in entries then Some(entries[u]) else None
  }

  ghost predicate Stamped(entries: map<Url, Entry>, stamps: map<Url, real>, history: seq<Event>) {
    && (forall u :: u in entries ==> u in stamps && LastStore(history, u) == Some(stamps[u]))
    && (forall u :: StampOf(history, u) == if u in stamps then Some(stamps[u]) else None)
    && (NothingRemoved(history) ==> stamps.Keys == entries.Keys)
  }

  /** The stamps left over are exactly those of the pages removed and not dropped since. */
  lemma LeftOver(entries: map<Url, Entry>, stamps: map<Url, real>, order: seq<Url>, history: seq<Event>)
    requires Mirrors(order, entries, history) && Stamped(entries, stamps, history)
    ensures forall u :: u in stamps && u !in entries <==> Orphaned(history, u)
  {
    forall u ensures u in stamps && u !in entries <==> Orphaned(history, u) {
      OrphansAreStamped(history, u);
    }
  }

  ghost predicate Keeps(entries: map<Url, Entry>, history: seq<Event>, now: real, max: int, ttl: real) {
    forall u :: Owed(history, u, now, max, ttl) ==> u in entries
  }

  lemma {:induction false} MinusHas(order: seq<Url>, urls: set<Url>)
    ensures forall u :: u in Minus(order, urls) <==> u in order && u !in urls
    ensures |Minus(order, urls)| <= |order|
  {
    if order != [] {
      MinusHas(order[1..], urls);
      assert order == [order[0]] + order[1..];
    }
  }

  lemma {:induction false} MinusTwice(order: seq<Url>, urls: set<Url>, url: Url)
    ensures Minus(Minus(order, urls), {url}) == Minus(order, urls + {url})
  {
    if order != [] {
      MinusTwice(order[1..], urls, url);
      var rest := Minus(order[1..], urls);
      assert ([order[0]] + rest)[1..] == rest;
    }
  }

  lemma {:induction false} MinusAbsent(order: seq<Url>, urls: set<Url>)
    requires forall u :: u in order ==> u !in urls
    ensures Minus(order, urls) == order
  {
    if order != [] {
      MinusAbsent(order[1..], urls);
    }
  }

  lemma {:induction false} RecentMinus(order: seq<Url>, urls: set<Url>, history: seq<Event>)
    requires Recent(order, history)
    ensures Recent(Minus(order, urls), history)
  {
    if order != [] {
      RecentMinus(order[1..], urls, history);
      MinusHas(order[1..], urls);
      var rest := Minus(order[1..], urls);
      assert ([order[0]] + rest)[1..] == rest;
    }
  }

  /** A page that is found or stored becomes the most recently used. */
  lemma {:induction false} RecentTouched(order: seq<Url>, history: seq<Event>, e: Event, url: Url)
    requires Recent(order, history) && url !in order && Touches(e, url)
    ensures Recent(order + [url], history + [e])
  {
    Extend(history, e);
    if order != [] {
      RecentTouched(order[1..], history, e, url);
      assert (order + [url])[1..] == order[1..] + [url];
    }
  }

  lemma {:induction false} RecentUntouched(order: seq<Url>, history: seq<Event>, e: Event)
    requires Recent(order, history) && !e.Hit? && !e.Stored?
    ensures Recent(order, history + [e])
  {
    Extend(history, e);
    if order != [] {
      RecentUntouched(order[1..], history, e);
    }
  }

  lemma {:induction false} RecentSize(order: seq<Url>, history: seq<Event>)
    requires Recent(order, history)
    ensures |set u | u in order| == |order|
  {
    if order != [] {
      RecentSize(order[1..], history);
      assert (set u | u in order) == {order[0]} + (set u | u in order[1..]);
    }
  }

  /** The least recently used page of a full cache has as many rivals as there are other pages in it. */
  lemma OldestHasRivals(order: seq<Url>, history: seq<Event>)
    requires Recent(order, history) && order != []
    ensures |Rivals(history, order[0])| >= |order| - 1
  {
    RecentSize(order[1..], history);
    SmallerSet((set u | u in order[1..]), Rivals(history, order[0]));
  }

  lemma OwedBefore(history: seq<Event>, e: Event, url: Url, u: Url, now: real, max: int, ttl: real)
    requires Touches(e, url) && Owed(history + [e], u, now, max, ttl) && u != url
    ensures Owed(history, u, now, max, ttl)
  {
    Extend(history, e);
    SmallerSet(Rivals(history, u), Rivals(history, u) + {url});
  }

  lemma {:induction false} MinusShorter(order: seq<Url>, url: Url)
    requires url in order
    ensures |Minus(order, {url})| < |order|
  {
    if order[0] == url {
      MinusHas(order[1..], {url});
    } else {
      MinusShorter(order[1..], url);
    }
  }

  /** Exactly the pages the history knows, within the limit; nothing owed is missing. */
  ghost predicate Tracks(order: seq<Url>, entries: map<Url, Entry>, stamps: map<Url, real>,
                         history: seq<Event>, now: real, max: int, ttl: real)
  {
    && Recent(order, history) && Mirrors(order, entries, history) && Stamped(entries, stamps, history)
    && Keeps(entries, history, now, max, ttl) && (order == [] || |order| <= max)
  }

  lemma TracksLater(order: seq<Url>, entries: map<Url, Entry>, stamps: map<Url, real>,
                    history: seq<Event>, now: real, later: real, max: int, ttl: real)
    requires Tracks(order, entries, stamps, history, now, max, ttl) && now <= later
    ensures Tracks(order, entries, stamps, history, later, max, ttl)
  {
    forall u | Owed(history, u, later, max, ttl) ensures u in entries {
      assert Owed(history, u, now, max, ttl);
    }
  }

  lemma TracksDropped(order: seq<Url>, entries: map<Url, Entry>, stamps: map<Url, real>,
                      history: seq<Event>, url: Url, now: real, max: int, ttl: real)
    requires Tracks(order, entries, stamps, history, now, max, ttl) && !Owed(history, url, now, max, ttl)
    ensures Tracks(Minus(order, {url}), entries - {url}, stamps - {url}, history + [Dropped(url)], now, max, ttl)
  {
    Extend(history, Dropped(url));
    RecentMinus(order, {url}, history);
    MinusHas(order, {url});
    RecentUntouched(Minus(order, {url}), history, Dropped(url));
    forall u | Owed(history + [Dropped(url)], u, now, max, ttl) ensures u in entries - {url} {
      assert Owed(history, u, now, max, ttl);
    }
  }

  lemma TracksHit(order: seq<Url>, entries: map<Url, Entry>, stamps: map<Url, real>,
                  history: seq<Event>, url: Url, now: real, max: int, ttl: real)
    requires Tracks(order, entries, stamps, history, now, max, ttl) && url in entries
    ensures Tracks(Minus(order, {url}) + [url], entries, stamps, history + [Hit(url)], now, max, ttl)
  {
    Extend(history, Hit(url));
    RecentMinus(order, {url}, history);
    MinusHas(order, {url});
    RecentTouched(Minus(order, {url}), history, Hit(url), url);
    MinusShorter(order, url);
    forall u | Owed(history + [Hit(url)], u, now, max, ttl) ensures u in entries {
      if u != url {
        OwedBefore(history, Hit(url), url, u, now, max, ttl);
      }
    }
  }

  lemma StoredMirrors(order: seq<Url>, entries: map<Url, Entry>, history: seq<Event>, url: Url, given: Entry, now: real)
    requires Recent(order, history) && Mirrors(order, entries, history)
    ensures var after := Minus(order, {url}) + [url];
      && Recent(after, history + [Stored(url, given, now)])
      && Mirrors(after, Written(entries, url, given), history + [Stored(url, given, now)])
  {
    var e := Stored(url, given, now);
    Extend(history, e);
    RecentMinus(order, {url}, history);
    MinusHas(order, {url});
    RecentTouched(Minus(order, {url}), history, e, url);
  }

  lemma StoredStamped(entries: map<Url, Entry>, stamps: map<Url, real>, history: seq<Event>,
                      url: Url, given: Entry, now: real)
    requires Stamped(entries, stamps, history)
    ensures Stamped(Written(entries, url, given), stamps[url := now], history + [Stored(url, given, now)])
  {
    var e := Stored(url, given, now);
    Extend(history, e);
    assert forall x :: x in history ==> x in history + [e];
  }

  lemma StoredKeeps(entries: map<Url, Entry>, history: seq<Event>, url: Url, given: Entry, now: real, max: int, ttl: real)
    requires Keeps(entries, history, now, max, ttl)
    ensures Keeps(Written(entries, url, given), history + [Stored(url, given, now)], now, max, ttl)
  {
    var e := Stored(url, given, now);
    forall u | Owed(history + [e], u, now, max, ttl) ensures u in Written(entries, url, given) {
      if u != url {
        OwedBefore(history, e, url, u, now, max, ttl);
      }
    }
  }

  lemma TracksStored(order: seq<Url>, entries: map<Url, Entry>, stamps: map<Url, real>,
                     history: seq<Event>, url: Url, given: Entry, now: real, max: int, ttl: real)
    requires Tracks(order, entries, stamps, history, now, max, ttl) && |order| < max
    ensures Tracks(Minus(order, {url}) + [url], Written(entries, url, given), stamps[url := now],
                   history + [Stored(url, given, now)], now, max, ttl)
  {
    StoredMirrors(order, entries, history, url, given, now);
    StoredStamped(entries, stamps, history, url, given, now);
    StoredKeeps(entries, history, url, given, now, max, ttl);
    MinusHas(order, {url});
  }

  lemma TracksRemoved(order: seq<Url>, entries: map<Url, Entry>, stamps: map<Url, real>,
                      history: seq<Event>, url: Url, now: real, max: int, ttl: real)
    requires Tracks(order, entries, stamps, history, now, max, ttl)
    ensures Tracks(Minus(order, {url}), entries - {url}, stamps, history + [Removed(url)], now, max, ttl)
  {
    var e := Removed(url);
    Extend(history, e);
    RecentMinus(order, {url}, history);
    MinusHas(order, {url});
    RecentUntouched(Minus(order, {url}), history, e);
    assert e in history + [e];
    forall u | Owed(history + [e], u, now, max, ttl) ensures u in entries - {url} {
      assert u != url && Owed(history, u, now, max, ttl);
    }
  }

  /** The same pages count as stored, and as used since. */
  ghost predicate SameUse(before: seq<Event>, after: seq<Event>) {
    && (forall u :: LastStore(after, u) == LastStore(before, u) && Rivals(after, u) == Rivals(before, u))
    && NothingRemoved(after) == NothingRemoved(before)
  }

  lemma DroppingIsNoUse(history: seq<Event>, url: Url)
    ensures SameUse(history, history + [Dropped(url)])
  {
    Extend(history, Dropped(url));
  }

  lemma TakenInTurn<V>(m: map<Url, V>, gone: set<Url>, url: Url)
    ensures m - gone - {url} == m - (gone + {url})
  {
  }

  lemma SameUseChain(a: seq<Event>, b: seq<Event>, c: seq<Event>)
    requires SameUse(a, b) && SameUse(b, c)
    ensures SameUse(a, c)
  {
  }

  /** Expired pages may be dropped, all of them, in any order. */
  lemma {:induction false} TracksExpired(order: seq<Url>, entries: map<Url, Entry>, stamps: map<Url, real>,
      history: seq<Event>, gone: set<Url>, now: real, max: int, ttl: real) returns (after: seq<Event>)
    requires Tracks(order, entries, stamps, history, now, max, ttl) && gone <= Expired(stamps, now, ttl)
    ensures SameUse(history, after)
    ensures Tracks(Minus(order, gone), entries - gone, stamps - gone, after, now, max, ttl)
    decreases |gone|
  {
    if gone == {} {
      MinusAbsent(order, {});
      assert entries - {} == entries && stamps - {} == stamps;
      return history;
    }
    var url :| url in gone;
    var rest := gone - {url};
    var h := TracksExpired(order, entries, stamps, history, rest, now, max, ttl);
    MinusTwice(order, rest, url);
    TakenInTurn(entries, rest, url);
    TakenInTurn(stamps, rest, url);
    assert rest + {url} == gone;
    ExpiredIsNotOwed(Minus(order, rest), entries - rest, stamps - rest, h, url, now, max, ttl);
    TracksDropped(Minus(order, rest), entries - rest, stamps - rest, h, url, now, max, ttl);
    DroppingIsNoUse(h, url);
    after := h + [Dropped(url)];
    SameUseChain(history, h, after);
  }

  /** A page that is not cached is not owed either. */
  lemma ExpiredIsNotOwed(order: seq<Url>, entries: map<Url, Entry>, stamps: map<Url, real>,
                         history: seq<Event>, url: Url, now: real, max: int, ttl: real)
    requires Tracks(order, entries, stamps, history, now, max, ttl) && url in Expired(stamps, now, ttl)
    ensures !Owed(history, url, now, max, ttl)
  {
    if url in entries {
      assert LastStore(history, url) == Some(stamps[url]);
    }
  }

  /** Every page missing afterwards had expired, or had all the rivals there is room for. */
  ghost predicate LostWithCause(entries: map<Url, Entry>, stamps: map<Url, real>, history: seq<Event>,
                                after: map<Url, Entry>, now: real, max: int, ttl: real)
  {
    forall u :: u in entries && u !in after ==>
      u in stamps && (now - stamps[u] > ttl || |Rivals(history, u)| >= max - 1)
  }

  predicate Within(after: map<Url, real>, before: map<Url, real>) {
    forall u :: u in after ==> u in before && after[u] == before[u]
  }

  lemma KeptAll(order: seq<Url>, entries: map<Url, Entry>, gone: set<Url>)
    requires forall u :: u in order <==> u in entries
    ensures entries - gone == Kept(entries, Minus(order, gone))
    ensures entries == Kept(entries, order)
  {
    MinusHas(order, gone);
  }

  lemma KeptRest(left: seq<Url>, entries: map<Url, Entry>)
    requires left != [] && left[0] !in left[1..]
    ensures Kept(entries, left) - {left[0]} == Kept(entries, left[1..])
  {
    assert left == [left[0]] + left[1..];
  }

  // -------------------------------------------------------------------------- the cache

  class HttpCacheLayer {
    const maxSize: int
    const ttl: real
    var order: seq<Url>
    var entries: map<Url, Entry>
    var stamps: map<Url, real>
    ghost var history: seq<Event>
    ghost var clock: real

    ghost predicate Valid()
      reads this
    {
      Tracks(order, entries, stamps, history, clock, maxSize, ttl)
    }

    constructor (maxSize: int, ttl: real, ghost now: real)
      ensures Valid() && this.maxSize == maxSize && this.ttl == ttl
      ensures order == [] && entries == map[] && stamps == map[] && history == [] && clock == now
    {
      this.maxSize, this.ttl := maxSize, ttl;
      order, entries, stamps := [], map[], map[];
      history, clock := [], now;
    }

    /** Takes a page that is not owed out of both dictionaries. */
    method Pop(url: Url)
      requires Valid() && !Owed(history, url, clock, maxSize, ttl)
      modifies `order, `entries, `stamps, `history
      ensures Valid()
      ensures order == Minus(old(order), {url}) && entries == old(entries) - {url} && stamps == old(stamps) - {url}
      ensures history == old(history) + [Dropped(url)] && SameUse(old(history), history)
    {
      TracksDropped(order, entries, stamps, history, url, clock, maxSize, ttl);
      DroppingIsNoUse(history, url);
      order, entries, stamps := Minus(order, {url}), entries - {url}, stamps - {url};
      history := history + [Dropped(url)];
    }

    /** Time passing makes nothing owed that was not. */
    ghost method Tick(now: real)
      requires Valid() && clock <= now
      modifies `clock
      ensures Valid() && clock == now
    {
      TracksLater(order, entries, stamps, history, clock, now, maxSize, ttl);
      clock := now;
    }

    /** Drops exactly the expired pages, from both dictionaries, leaving the others in their order. */
    method EvictExpired(now: real)
      requires Valid() && clock == now
      modifies `order, `entries, `stamps, `history
      ensures Valid()
      ensures order == Minus(old(order), Expired(old(stamps), now, ttl))
      ensures entries == old(entries) - Expired(old(stamps), now, ttl)
      ensures stamps == old(stamps) - Expired(old(stamps), now, ttl)
      ensures SameUse(old(history), history)
    {
      var expired := Expired(stamps, now, ttl);
      ghost var after := TracksExpired(order, entries, stamps, history, expired, now, maxSize, ttl);
      PopAll(expired);
      history := after;
    }

    method PopAll(urls: set<Url>)
      modifies `order, `entries, `stamps
      ensures order == Minus(old(order), urls)
      ensures entries == old(entries) - urls && stamps == old(stamps) - urls
    {
      var todo := urls;
      MinusAbsent(order, {});
      assert urls - todo == {};
      while todo != {}
        invariant todo <= urls && order == Minus(old(order), urls - todo)
        invariant entries == old(entries) - (urls - todo) && stamps == old(stamps) - (urls - todo)
        decreases |todo|
      {
        var url :| url in todo;
        MinusTwice(old(order), urls - todo, url);
        TakenInTurn(old(entries), urls - todo, url);
        TakenInTurn(old(stamps), urls - todo, url);
        order, entries, stamps := Minus(order, {url}), entries - {url}, stamps - {url};
        assert urls - (todo - {url}) == (urls - todo) + {url};
        todo := todo - {url};
      }
      assert urls - todo == urls;
    }

    /**
     * Finds a page exactly when it is cached and not expired, and then returns all that was given for it since it
     * was last lost; whatever is owed is found. A hit makes the page the most recently used and renews no stamp.
     */
    method Get(url: Url, now: real) returns (r: Option<Entry>)
      requires Valid() && clock <= now
      modifies this
      ensures Valid() && clock == now
      ensures r.Some? <==> url in old(entries) && now - old(stamps)[url] <= ttl
      ensures r.Some? ==> r == Known(old(history), url) && AsGiven(old(history), url, r.value)
      ensures r.Some? ==> var t := LastStore(old(history), url); t.Some? && now - t.value <= ttl
      ensures var t := LastStore(old(history), url);
        t.Some? && now - t.value <= ttl && |Rivals(old(history), url)| + 1 < maxSize ==> r.Some?
      ensures if r.Some? then history == old(history) + [Hit(url)] else SameUse(old(history), history)
      ensures r.Some? ==> order == Minus(old(order), {url}) + [url] && entries == old(entries) && stamps == old(stamps)
      ensures r.None? ==> order == Minus(old(order), {url}) && entries == old(entries) - {url}
      ensures r.None? ==> stamps == if url in old(entries) then old(stamps) - {url} else old(stamps)
    {
      Tick(now);
      if url !in entries {
        MinusAbsent(order, {url});
        return None;
      }
      if now - stamps[url] > ttl {
        Pop(url);
        return None;
      }
      KnownAsGivenInAll(history, url);
      TracksHit(order, entries, stamps, history, url, now, maxSize, ttl);
      history := history + [Hit(url)];
      order := Minus(order, {url}) + [url];
      return Some(entries[url]);
    }

    /**
     * Keeps what was known of the page where nothing is given, unless the call itself lost it. A full cache first
     * loses its expired pages, and if still full the least recently used one, which has `maxSize - 1` rivals.
     * Fails, like popping an empty dictionary, only when there is no room for a single page.
     */
    method Store(url: Url, given: Entry, now: real, later: real) returns (ok: bool)
      requires Valid() && clock <= now <= later
      modifies this
      ensures Valid() && clock == later
      ensures ok <==> maxSize >= 1
      ensures ok ==> var left := Survivors(old(order), old(stamps), now, maxSize, ttl);
        && order == Minus(left, {url}) + [url] && |order| <= maxSize
        && entries == Written(Kept(old(entries), left), url, given)
      ensures ok ==> history != [] && history[|history| - 1] == Stored(url, given, later)
      ensures ok ==> SameUse(old(history), history[..|history| - 1]) && url in stamps && stamps[url] == later
      ensures Within(stamps - {url}, old(stamps))
      ensures |old(order)| < maxSize ==> stamps == old(stamps)[url := later]
      ensures LostWithCause(old(entries), old(stamps), old(history), entries, now, maxSize, ttl)
      ensures !ok ==> order == [] && SameUse(old(history), history)
    {
      Tick(now);
      ok := MakeRoom(now);
      if !ok {
        Tick(later);
        return;
      }
      Tick(later);
      Write(url, given, later);
    }

    /** Brings the cache below its limit; fails if there is nothing to take out. */
    method MakeRoom(now: real) returns (ok: bool)
      requires Valid() && clock == now
      modifies `order, `entries, `stamps, `history
      ensures Valid() && (ok <==> maxSize >= 1)
      ensures order == Survivors(old(order), old(stamps), now, maxSize, ttl) && (ok ==> |order| < maxSize)
      ensures entries == Kept(old(entries), order)
      ensures LostWithCause(old(entries), old(stamps), old(history), entries, now, maxSize, ttl)
      ensures Within(stamps, old(stamps))
      ensures |old(order)| < maxSize ==> stamps == old(stamps)
      ensures SameUse(old(history), history)
    {
      KeptAll(order, entries, Expired(stamps, now, ttl));
      if |order| >= maxSize {
        EvictExpired(now);
      }
      assert entries == Kept(old(entries), order);
      assert LostWithCause(old(entries), old(stamps), old(history), entries, now, maxSize, ttl);
      if |order| >= maxSize {
        if order == [] {
          return false;
        }
        ghost var was := history;
        KeptRest(order, old(entries));
        EvictOldest();
        SameUseChain(old(history), was, history);
      }
      return true;
    }

    method EvictOldest()
      requires Valid() && order != [] && |order| >= maxSize
      modifies `order, `entries, `stamps, `history
      ensures Valid() && SameUse(old(history), history)
      ensures order == old(order[1..]) && |Rivals(old(history), old(order[0]))| >= maxSize - 1
      ensures entries == old(entries) - {old(order[0])} && stamps == old(stamps) - {old(order[0])}
    {
      OldestHasRivals(order, history);
      assert order[0] in order;
      MinusAbsent(order[1..], {order[0]});
      Pop(order[0]);
    }

    /** Adds the page, or overlays what is known of it, as the most recently used. */
    method Write(url: Url, given: Entry, now: real)
      requires Valid() && clock == now && |order| < maxSize
      modifies `order, `entries, `stamps, `history
      ensures Valid() && history == old(history) + [Stored(url, given, now)]
      ensures order == Minus(old(order), {url}) + [url]
      ensures entries == Written(old(entries), url, given)
      ensures stamps == old(stamps)[url := now]
    {
      TracksStored(order, entries, stamps, history, url, given, now, maxSize, ttl);
      entries := entries[url := if url in entries then Overlay(entries[url], given) else given];
      order, stamps := Minus(order, {url}) + [url], stamps[url := now];
      history := history + [Stored(url, given, now)];
    }

    /** Removing a page, like clearing them all, leaves its stamp behind. */
    method Remove(url: Url)
      requires Valid()
      modifies `order, `entries, `history
      ensures Valid() && history == old(history) + [Removed(url)]
      ensures order == Minus(old(order), {url}) && entries == old(entries) - {url}
    {
      TracksRemoved(order, entries, stamps, history, url, clock, maxSize, ttl);
      order, entries, history := Minus(order, {url}), entries - {url}, history + [Removed(url)];
    }

    method Clear()
      requires Valid()
      modifies `order, `entries, `history
      ensures Valid() && history == old(history) + [Cleared] && order == [] && entries == map[]
    {
      Extend(history, Cleared);
      history := history + [Cleared];
      order, entries := [], map[];
      assert Cleared in history;
    }
  }

  /** Removals leave stamps behind without bound: a page stored and removed at once stays stamped. */
  method StampsPileUp(cache: HttpCacheLayer, urls: seq<Url>, given: Entry, now: real)
    requires cache.Valid() && cache.clock == now && cache.maxSize >= 1 && cache.ttl >= 0.0
    requires cache.order == [] && cache.stamps == map[]
    modifies cache
    ensures cache.Valid() && cache.order == [] && cache.stamps.Keys == set u | u in urls
  {
    var i := 0;
    while i < |urls|
      invariant 0 <= i <= |urls| && cache.Valid() && cache.clock == now
      invariant cache.order == [] && cache.stamps.Keys == set u | u in urls[..i]
    {
      var ok := cache.Store(urls[i], given, now, now);
      cache.Remove(urls[i]);
      assert urls[..i + 1] == urls[..i] + [urls[i]];
      i := i + 1;
    }
    assert urls[..i] == urls;
  }

  lemma FreshSurvivors(order: seq<Url>, stamps: map<Url, real>, now: real, max: int, ttl: real)
    requires order != [] && |order| == max
    requires forall u :: u in order ==> u !in Expired(stamps, now, ttl)
    ensures Survivors(order, stamps, now, max, ttl) == order[1..]
  {
    MinusAbsent(order, Expired(stamps, now, ttl));
  }

  lemma {:induction false} MinusOne(order: seq<Url>, url: Url, history: seq<Event>)
    requires Recent(order, history)
    ensures |Minus(order, {url})| == |order| - if url in order then 1 else 0
  {
    if order != [] {
      MinusOne(order[1..], url, history);
    }
  }

  /**
   * A store into a full cache of unexpired pages takes the least recently used page out, even when the page stored is
   * in the cache and needs no room: then the cache is one short. If it is itself the least recently used, all that
   * was known of it is lost.
   */
  method StoreWhenFull(cache: HttpCacheLayer, url: Url, given: Entry, now: real, later: real)
    requires cache.Valid() && cache.clock <= now <= later
    requires cache.order != [] && |cache.order| == cache.maxSize
    requires forall u :: u in cache.order ==> u !in Expired(cache.stamps, now, cache.ttl)
    modifies cache
    ensures cache.Valid() && cache.clock == later
    ensures cache.entries.Keys == old(cache.entries).Keys - {old(cache.order[0])} + {url}
    ensures |cache.order| == cache.maxSize - if url in old(cache.order[1..]) then 1 else 0
    ensures url == old(cache.order[0]) ==> cache.entries[url] == given
  {
    ghost var oldest := cache.order[0];
    ghost var left := cache.order[1..];
    FreshSurvivors(cache.order, cache.stamps, now, cache.maxSize, cache.ttl);
    MinusOne(left, url, cache.history);
    assert cache.order == [oldest] + left;
    var ok := cache.Store(url, given, now, later);
    assert cache.entries == Written(Kept(old(cache.entries), left), url, given);
  }

  /** One other page, stored twice, is enough to push a page out of a cache for two. */
  method OneRivalSuffices(a: Url, b: Url, given: Entry, now: real, ttl: real) returns (r: Option<Entry>)
    requires a != b && ttl >= 0.0
    ensures r.None?
  {
    var cache := new HttpCacheLayer(2, ttl, now);
    var ok := cache.Store(a, given, now, now);
    assert cache.order == [a];
    ok := cache.Store(b, given, now, now);
    assert cache.order == [a, b];
    StoreWhenFull(cache, b, given, now, now);
    r := cache.Get(a, now);
  }
}
