/** Dropping duplicate URLs after discovery: one entry for each URL whatever its case, but not always the best one. */
module DiscoveryDedup {
  import opened Common
  import opened Strings

  datatype Discovered = Discovered(url: string, source: string)

  /** The smaller the better. */
  function Priority(source: string): nat {
    if source == "robots" then 0
    else if source == "sitemap" then 1
    else if source == "nav" then 2
    else if source == "footer" then 3
    else if source == "meta" then 4
    else if source == "internal_link" then 5
    else 99
  }

  predicate Better(a: Discovered, b: Discovered) {
    Priority(a.source) < Priority(b.source)
  }

  /** The sources, the most trusted first; any other is trusted less. */
  const SOURCES := ["robots", "sitemap", "nav", "footer", "meta", "internal_link"]

  /** The one is listed before the other is. */
  predicate ComesBefore(source: string, other: string) {
    exists i | 0 <= i < |SOURCES| :: SOURCES[i] == source && other !in SOURCES[..i + 1]
  }

  lemma SourcesListed()
    ensures |SOURCES| == 6 && SOURCES[0] == "robots" && SOURCES[1] == "sitemap" && SOURCES[2] == "nav"
    ensures SOURCES[3] == "footer" && SOURCES[4] == "meta" && SOURCES[5] == "internal_link"
    ensures forall i :: 0 <= i < 6 ==> Priority(SOURCES[i]) == i
    ensures forall s :: s !in SOURCES ==> Priority(s) == 99
  {
    assert "robots" in SOURCES && "sitemap" in SOURCES && "nav" in SOURCES;
    assert "footer" in SOURCES && "meta" in SOURCES && "internal_link" in SOURCES;
  }

  lemma PriorityIsPlace(source: string, i: nat)
    requires i < |SOURCES|
    ensures source in SOURCES[..i + 1] <==> Priority(source) <= i
  {
    SourcesListed();
    if source in SOURCES[..i + 1] {
      var j :| 0 <= j <= i && SOURCES[j] == source;
    }
    if Priority(source) <= i {
      assert source in SOURCES;
      var j :| 0 <= j < |SOURCES| && SOURCES[j] == source;
      assert SOURCES[..i + 1][j] == source;
    }
  }

  lemma BetterComesBefore(a: Discovered, b: Discovered)
    ensures Better(a, b) <==> ComesBefore(a.source, b.source)
  {
    SourcesListed();
    if Better(a, b) {
      assert a.source in SOURCES;
      var i :| 0 <= i < |SOURCES| && SOURCES[i] == a.source;
      PriorityIsPlace(b.source, i);
      assert ComesBefore(a.source, b.source);
    }
    if ComesBefore(a.source, b.source) {
      var i :| 0 <= i < |SOURCES| && SOURCES[i] == a.source && b.source !in SOURCES[..i + 1];
      PriorityIsPlace(b.source, i);
    }
  }

  /** The URL as it is spelt, without slashes at the end. */
  function Spelling(d: Discovered): string {
    Rstrip(d.url)
  }

  /** The same without regard to case. */
  function Folded(spelling: string): string {
    Lower(Rstrip(spelling))
  }

  function FoldedAll(urls: seq<Discovered>): set<string> {
    set d | d in urls :: Folded(Spelling(d))
  }

  // ------------------------------------------------------------------- what is to be kept

  /** The spellings of those that come first, whatever their case, and were not seen before. */
  function Leaders(urls: seq<Discovered>, before: set<string>): seq<string> {
    if urls == [] then []
    else
      var n := |urls| - 1;
      var f := Folded(Spelling(urls[n]));
      if f in before || f in FoldedAll(urls[..n]) then Leaders(urls[..n], before)
      else Leaders(urls[..n], before) + [Spelling(urls[n])]
  }

  /** Of those spelt alike, the first with the best source. */
  function Best(urls: seq<Discovered>, spelling: string): Option<Discovered> {
    if urls == [] then None
    else
      var n := |urls| - 1;
      var b := Best(urls[..n], spelling);
      if Spelling(urls[n]) == spelling && (b.None? || Better(urls[n], b.value)) then Some(urls[n]) else b
  }

  // ------------------------------------------------------------------------- the engine

  /** One slot of an insertion-ordered dictionary. */
  datatype Slot = Slot(spelling: string, kept: Discovered)

  function Find(slots: seq<Slot>, spelling: string): (i: nat)
    ensures i <= |slots| && (i < |slots| ==> slots[i].spelling == spelling)
    ensures forall j :: 0 <= j < i ==> slots[j].spelling != spelling
  {
    if slots == [] || slots[0].spelling == spelling then 0 else 1 + Find(slots[1..], spelling)
  }

  /** The slots are the leaders so far, each with the best of its spelling so far. */
  ghost predicate Holds(slots: seq<Slot>, urls: seq<Discovered>, before: set<string>) {
    var leaders := Leaders(urls, before);
    && |slots| == |leaders|
    && forall i :: 0 <= i < |slots| ==>
      slots[i].spelling == leaders[i] && Best(urls, leaders[i]) == Some(slots[i].kept)
  }

  lemma Last(urls: seq<Discovered>, d: Discovered)
    ensures (urls + [d])[..|urls|] == urls && (urls + [d])[|urls|] == d
    ensures FoldedAll(urls + [d]) == FoldedAll(urls) + {Folded(Spelling(d))}
  {
    assert forall x :: x in urls + [d] <==> x in urls || x == d;
  }

  ghost predicate LeadsWith(leaders: seq<string>, f: string) {
    exists i :: 0 <= i < |leaders| && Folded(leaders[i]) == f
  }

  lemma LeadsWithMore(leaders: seq<string>, l: string, f: string)
    ensures LeadsWith(leaders + [l], f) <==> LeadsWith(leaders, f) || Folded(l) == f
  {
    var more := leaders + [l];
    assert more[|leaders|] == l && forall i :: 0 <= i < |leaders| ==> more[i] == leaders[i];
  }

  /** Each URL not seen before has a leader. */
  lemma {:induction false} LeadersFolded(urls: seq<Discovered>, before: set<string>, f: string)
    ensures LeadsWith(Leaders(urls, before), f) <==> f in FoldedAll(urls) && f !in before
  {
    if urls != [] {
      var n := |urls| - 1;
      LeadersFolded(urls[..n], before, f);
      Last(urls[..n], urls[n]);
      assert urls == urls[..n] + [urls[n]];
      LeadsWithMore(Leaders(urls[..n], before), Spelling(urls[n]), f);
    }
  }

  /** No two leaders differ in case only. */
  lemma {:induction false} LeadersApart(urls: seq<Discovered>, before: set<string>, i: nat, j: nat)
    requires i < j < |Leaders(urls, before)|
    ensures Folded(Leaders(urls, before)[i]) != Folded(Leaders(urls, before)[j])
  {
    var n := |urls| - 1;
    if j < |Leaders(urls[..n], before)| {
      LeadersApart(urls[..n], before, i, j);
    } else {
      LeadersFolded(urls[..n], before, Folded(Spelling(urls[n])));
    }
  }

  lemma {:induction false} BestIsThere(urls: seq<Discovered>, spelling: string)
    ensures Best(urls, spelling).None? <==> forall d :: d in urls ==> Spelling(d) != spelling
  {
    if urls != [] {
      var n := |urls| - 1;
      BestIsThere(urls[..n], spelling);
      assert forall d :: d in urls <==> d in urls[..n] || d == urls[n];
    }
  }

  /** A spelling not met before begins a slot. */
  lemma HoldsNew(slots: seq<Slot>, urls: seq<Discovered>, before: set<string>, d: Discovered)
    requires Holds(slots, urls, before)
    requires Folded(Spelling(d)) !in before && Folded(Spelling(d)) !in FoldedAll(urls)
    ensures Holds(slots + [Slot(Spelling(d), d)], urls + [d], before)
  {
    Last(urls, d);
    BestIsThere(urls, Spelling(d));
    LeadersFolded(urls, before, Folded(Spelling(d)));
    assert forall i :: 0 <= i < |slots| ==> slots[i].spelling != Spelling(d);
  }

  lemma SlotsApart(slots: seq<Slot>, urls: seq<Discovered>, before: set<string>, i: nat, j: nat)
    requires Holds(slots, urls, before) && i < |slots| && j < |slots| && i != j
    ensures slots[i].spelling != slots[j].spelling
  {
    if i < j {
      LeadersApart(urls, before, i, j);
    } else {
      LeadersApart(urls, before, j, i);
    }
  }

  lemma BestNext(urls: seq<Discovered>, d: Discovered, s: string)
    ensures var b := Best(urls, s);
      Best(urls + [d], s) == if Spelling(d) == s && (b.None? || Better(d, b.value)) then Some(d) else b
  {
    Last(urls, d);
  }

  function Repeated(slots: seq<Slot>, d: Discovered): seq<Slot> {
    var k := Find(slots, Spelling(d));
    if k < |slots| && Better(d, slots[k].kept) then slots[k := Slot(Spelling(d), d)] else slots
  }

  lemma SlotAfter(slots: seq<Slot>, urls: seq<Discovered>, before: set<string>, d: Discovered, i: nat)
    requires Holds(slots, urls, before) && i < |slots|
    ensures Repeated(slots, d)[i].spelling == slots[i].spelling
    ensures Best(urls + [d], slots[i].spelling) == Some(Repeated(slots, d)[i].kept)
  {
    var k := Find(slots, Spelling(d));
    if k < |slots| && i != k {
      SlotsApart(slots, urls, before, i, k);
    }
    BestNext(urls, d, slots[i].spelling);
  }

  /** One met before may better the slot of its own spelling, and changes no other. */
  lemma HoldsRepeat(slots: seq<Slot>, urls: seq<Discovered>, before: set<string>, d: Discovered)
    requires Holds(slots, urls, before)
    requires Folded(Spelling(d)) in before || Folded(Spelling(d)) in FoldedAll(urls)
    ensures Holds(Repeated(slots, d), urls + [d], before)
  {
    Last(urls, d);
    var leaders := Leaders(urls, before);
    assert Leaders(urls + [d], before) == leaders;
    forall i | 0 <= i < |slots|
      ensures Repeated(slots, d)[i].spelling == leaders[i] && Best(urls + [d], leaders[i]) == Some(Repeated(slots, d)[i].kept)
    {
      SlotAfter(slots, urls, before, d, i);
    }
  }

  class DiscoveryEngine {
    var seenUrls: set<string>

    /** Puts one more URL into the dictionary, or lets it go. */
    method Consider(slots: seq<Slot>, d: Discovered, ghost urls: seq<Discovered>, ghost before: set<string>)
      returns (r: seq<Slot>)
      requires Holds(slots, urls, before) && seenUrls == before + FoldedAll(urls)
      modifies this
      ensures Holds(r, urls + [d], before) && seenUrls == before + FoldedAll(urls + [d])
    {
      Last(urls, d);
      var spelling := Spelling(d);
      r := slots;
      if Folded(spelling) in seenUrls {
        HoldsRepeat(slots, urls, before, d);
        var k := Find(slots, spelling);
        if k < |slots| && Better(d, slots[k].kept) {
          r := slots[k := Slot(spelling, d)];
        }
      } else {
        HoldsNew(slots, urls, before, d);
        seenUrls := seenUrls + {Folded(spelling)};
        r := slots + [Slot(spelling, d)];
      }
    }

    /** One entry for each URL not seen before, whatever its case; and these count as seen from then on. */
    method Deduplicate(urls: seq<Discovered>) returns (r: seq<Discovered>)
      modifies this
      ensures seenUrls == old(seenUrls) + FoldedAll(urls)
      ensures var leaders := Leaders(urls, old(seenUrls));
        |r| == |leaders| && forall i :: 0 <= i < |r| ==> Best(urls, leaders[i]) == Some(r[i])
      ensures BestFirst(urls) ==> forall d :: d in r ==> BestOfAll(urls, d)
      ensures forall d :: d in r ==> exists i :: FirstOfBest(urls, Spelling(d), i) && urls[i] == d
    {
      var seen: seq<Slot> := [];
      var i := 0;
      while i < |urls|
        invariant 0 <= i <= |urls| && Holds(seen, urls[..i], old(seenUrls))
        invariant seenUrls == old(seenUrls) + FoldedAll(urls[..i])
      {
        assert urls[..i + 1] == urls[..i] + [urls[i]];
        seen := Consider(seen, urls[i], urls[..i], old(seenUrls));
        i := i + 1;
      }
      assert urls[..i] == urls;
      r := seq(|seen|, j requires 0 <= j < |seen| => seen[j].kept);
      AllBest(urls, old(seenUrls), r);
      AllFirstOfBest(urls, old(seenUrls), r);
    }
  }

  // ------------------------------------------------------------------------- the theorems

  /** The find at `i`: of its spelling, none comes from a more trusted source, and none before it from as good a one. */
  ghost predicate FirstOfBest(urls: seq<Discovered>, spelling: string, i: int) {
    && 0 <= i < |urls| && Spelling(urls[i]) == spelling
    && forall j :: 0 <= j < |urls| && Spelling(urls[j]) == spelling ==>
      && !ComesBefore(urls[j].source, urls[i].source)
      && (j < i ==> ComesBefore(urls[i].source, urls[j].source))
  }

  ghost predicate FirstLeast(urls: seq<Discovered>, spelling: string, i: int) {
    && 0 <= i < |urls| && Spelling(urls[i]) == spelling
    && forall j :: 0 <= j < |urls| && Spelling(urls[j]) == spelling ==>
      Priority(urls[i].source) <= Priority(urls[j].source) && (j < i ==> Priority(urls[i].source) < Priority(urls[j].source))
  }

  lemma FirstLeastNext(before: seq<Discovered>, d: Discovered, spelling: string, i: int)
    ensures FirstLeast(before, spelling, i) && !(Spelling(d) == spelling && Better(d, before[i])) ==>
      FirstLeast(before + [d], spelling, i)
    ensures FirstLeast(before, spelling, i) && Spelling(d) == spelling && Better(d, before[i]) ==>
      FirstLeast(before + [d], spelling, |before|)
    ensures (forall e :: e in before ==> Spelling(e) != spelling) && Spelling(d) == spelling ==>
      FirstLeast(before + [d], spelling, |before|)
  {
    var urls := before + [d];
    assert urls[|before|] == d && forall j :: 0 <= j < |before| ==> urls[j] == before[j] && before[j] in before;
  }

  lemma {:induction false} BestIsFirstLeast(urls: seq<Discovered>, spelling: string) returns (i: int)
    ensures Best(urls, spelling).None? <==> forall d :: d in urls ==> Spelling(d) != spelling
    ensures Best(urls, spelling).Some? ==> FirstLeast(urls, spelling, i) && Best(urls, spelling).value == urls[i]
  {
    if urls == [] {
      return 0;
    }
    var n := |urls| - 1;
    var before, d := urls[..n], urls[n];
    i := BestIsFirstLeast(before, spelling);
    assert urls == before + [d];
    FirstLeastNext(before, d, spelling, i);
    if Spelling(d) == spelling && (Best(before, spelling).None? || Better(d, before[i])) {
      i := n;
    }
  }

  /** What is kept of each spelling, in terms of the order of the sources. */
  lemma BestIsFirstOfBest(urls: seq<Discovered>, spelling: string) returns (i: int)
    ensures Best(urls, spelling).None? <==> forall d :: d in urls ==> Spelling(d) != spelling
    ensures Best(urls, spelling).Some? ==> FirstOfBest(urls, spelling, i) && Best(urls, spelling).value == urls[i]
  {
    i := BestIsFirstLeast(urls, spelling);
    if Best(urls, spelling).Some? {
      forall j | 0 <= j < |urls| && Spelling(urls[j]) == spelling
        ensures !ComesBefore(urls[j].source, urls[i].source) && (j < i ==> ComesBefore(urls[i].source, urls[j].source))
      {
        BetterComesBefore(urls[j], urls[i]);
        BetterComesBefore(urls[i], urls[j]);
      }
    }
  }

  lemma AllFirstOfBest(urls: seq<Discovered>, before: set<string>, r: seq<Discovered>)
    requires var leaders := Leaders(urls, before);
      |r| == |leaders| && forall i :: 0 <= i < |r| ==> Best(urls, leaders[i]) == Some(r[i])
    ensures forall d :: d in r ==> exists i :: FirstOfBest(urls, Spelling(d), i) && urls[i] == d
  {
    forall d | d in r ensures exists i :: FirstOfBest(urls, Spelling(d), i) && urls[i] == d {
      var k :| 0 <= k < |r| && r[k] == d;
      var i := BestIsFirstOfBest(urls, Leaders(urls, before)[k]);
    }
  }

  /** What is kept is spelt like the first, and no other of that spelling has a better source. */
  lemma {:induction false} BestIsBest(urls: seq<Discovered>, spelling: string, d: Discovered)
    requires d in urls && Spelling(d) == spelling
    ensures var b := Best(urls, spelling);
      b.Some? && b.value in urls && Spelling(b.value) == spelling && !Better(d, b.value)
  {
    var n := |urls| - 1;
    if urls[n] != d {
      BestIsBest(urls[..n], spelling, d);
    }
    BestFrom(urls[..n], spelling);
  }

  lemma {:induction false} BestFrom(urls: seq<Discovered>, spelling: string)
    ensures var b := Best(urls, spelling); b.Some? ==> b.value in urls && Spelling(b.value) == spelling
  {
    if urls != [] {
      BestFrom(urls[..|urls| - 1], spelling);
    }
  }

  /** Nothing that differs at most in case has a better source. */
  ghost predicate BestOfAll(urls: seq<Discovered>, d: Discovered) {
    forall x :: x in urls && Folded(Spelling(x)) == Folded(Spelling(d)) ==> !Better(x, d)
  }

  /** The entry kept is the best of its URL exactly when one of the best is spelt as the first of them is. */
  lemma KeptIsBestIff(urls: seq<Discovered>, spelling: string)
    requires Best(urls, spelling).Some?
    ensures BestOfAll(urls, Best(urls, spelling).value)
      <==> exists x :: x in urls && Spelling(x) == spelling && BestOfAll(urls, x)
  {
    BestFrom(urls, spelling);
    var b := Best(urls, spelling).value;
    if x :| x in urls && Spelling(x) == spelling && BestOfAll(urls, x) {
      BestIsBest(urls, spelling, x);
    }
  }

  /** Whatever is found first keeps out a better entry that is spelt with other capitals. */
  lemma CaseHidesBest(first: Discovered, better: Discovered)
    requires Folded(Spelling(first)) == Folded(Spelling(better)) && Spelling(first) != Spelling(better)
    requires Better(better, first)
    ensures Leaders([first, better], {}) == [Spelling(first)]
    ensures Best([first, better], Spelling(first)) == Some(first) && !BestOfAll([first, better], first)
  {
    var urls := [first, better];
    assert urls[..1] == [first] && [first][..0] == [] && Leaders([], {}) == [];
    assert Leaders([first], {}) == [Spelling(first)];
    assert first in [first] && better in urls;
    assert Best([], Spelling(first)) == None && Best([first], Spelling(first)) == Some(first);
  }

  // -------------------------------------------------------- in the order finds are made

  /** Found at `i`, spelt like this, and not found before `i` whatever the case. */
  predicate FirstAt(urls: seq<Discovered>, spelling: string, i: nat) {
    && i < |urls| && Spelling(urls[i]) == spelling
    && forall j :: 0 <= j < i ==> Folded(Spelling(urls[j])) != Folded(spelling)
  }

  /** A leader is the spelling of the first find of its URL. */
  lemma {:induction false} LeaderIsFirst(urls: seq<Discovered>, before: set<string>, spelling: string) returns (i: nat)
    requires spelling in Leaders(urls, before)
    ensures FirstAt(urls, spelling, i)
  {
    var n := |urls| - 1;
    if spelling in Leaders(urls[..n], before) {
      i := LeaderIsFirst(urls[..n], before, spelling);
    } else {
      i := n;
      forall j | 0 <= j < n ensures Folded(Spelling(urls[j])) != Folded(spelling) {
        assert urls[j] in urls[..n] && Folded(Spelling(urls[j])) in FoldedAll(urls[..n]);
      }
    }
  }

  /** The leaders come in the order their URLs were first found. */
  lemma {:induction false} LeadersInOrder(urls: seq<Discovered>, before: set<string>, p: nat, q: nat) returns (i: nat, j: nat)
    requires p < q < |Leaders(urls, before)|
    ensures i < j && FirstAt(urls, Leaders(urls, before)[p], i) && FirstAt(urls, Leaders(urls, before)[q], j)
  {
    var n := |urls| - 1;
    if q < |Leaders(urls[..n], before)| {
      i, j := LeadersInOrder(urls[..n], before, p, q);
      FirstAtMore(urls, n, Leaders(urls, before)[q], j);
    } else {
      i := LeaderIsFirst(urls[..n], before, Leaders(urls[..n], before)[p]);
      j := n;
      NewIsFirst(urls, n);
    }
    FirstAtMore(urls, n, Leaders(urls, before)[p], i);
  }

  lemma FirstAtMore(urls: seq<Discovered>, n: nat, spelling: string, i: nat)
    requires n <= |urls| && FirstAt(urls[..n], spelling, i)
    ensures FirstAt(urls, spelling, i)
  {
    assert urls[..n][i] == urls[i] && forall j :: 0 <= j < i ==> urls[..n][j] == urls[j];
  }

  lemma NewIsFirst(urls: seq<Discovered>, n: nat)
    requires n < |urls| && Folded(Spelling(urls[n])) !in FoldedAll(urls[..n])
    ensures FirstAt(urls, Spelling(urls[n]), n)
  {
    forall k | 0 <= k < n ensures Folded(Spelling(urls[k])) != Folded(Spelling(urls[n])) {
      assert urls[k] in urls[..n] && Folded(Spelling(urls[k])) in FoldedAll(urls[..n]);
    }
  }

  predicate BestFirst(urls: seq<Discovered>) {
    forall i, j :: 0 <= i < j < |urls| ==> !Better(urls[j], urls[i])
  }

  /** When the better sources come first, every entry kept is the best of its URL. */
  lemma BestFirstKeepsBest(urls: seq<Discovered>, before: set<string>, spelling: string)
    requires BestFirst(urls) && spelling in Leaders(urls, before)
    ensures Best(urls, spelling).Some? && BestOfAll(urls, Best(urls, spelling).value)
  {
    var i := LeaderIsFirst(urls, before, spelling);
    var first := urls[i];
    BestIsBest(urls, spelling, first);
    forall x | x in urls && Folded(Spelling(x)) == Folded(spelling) ensures !Better(x, first) {
      var j :| 0 <= j < |urls| && urls[j] == x;
      assert j >= i;
    }
    KeptIsBestIff(urls, spelling);
  }

  lemma AllBest(urls: seq<Discovered>, before: set<string>, r: seq<Discovered>)
    requires var leaders := Leaders(urls, before);
      |r| == |leaders| && forall i :: 0 <= i < |r| ==> Best(urls, leaders[i]) == Some(r[i])
    ensures BestFirst(urls) ==> forall d :: d in r ==> BestOfAll(urls, d)
  {
    var leaders := Leaders(urls, before);
    if BestFirst(urls) {
      forall i | 0 <= i < |r| ensures BestOfAll(urls, r[i]) {
        BestFirstKeepsBest(urls, before, leaders[i]);
      }
    }
  }

  /** When a find is made: links in the page before its canonical and alternate links, against their priority. */
  function Stage(source: string): nat {
    if source == "internal_link" then 4 else if source == "meta" then 5 else Priority(source)
  }

  /** As discovery lists its finds. */
  predicate AsDiscovered(urls: seq<Discovered>) {
    && (forall d :: d in urls ==> Stage(d.source) <= 5)
    && forall i, j :: 0 <= i < j < |urls| ==> Stage(urls[i].source) <= Stage(urls[j].source)
  }

  /** Found first as a link in the page, and then among the canonical and alternate links, but never so spelt there. */
  ghost predicate Outspelt(urls: seq<Discovered>, spelling: string) {
    && (exists i: nat :: FirstAt(urls, spelling, i) && urls[i].source == "internal_link")
    && (exists d :: d in urls && Folded(Spelling(d)) == Folded(spelling) && d.source == "meta")
    && (forall d :: d in urls && Spelling(d) == spelling ==> d.source != "meta")
  }

  lemma Ranks(source: string)
    requires Stage(source) <= 5
    ensures Stage(source) == (if Priority(source) == 5 then 4 else if Priority(source) == 4 then 5 else Priority(source))
    ensures Priority(source) <= 5
    ensures (source == "internal_link" <==> Priority(source) == 5) && (source == "meta" <==> Priority(source) == 4)
  {
  }

  /** The other finds of a URL are made no earlier than its first. */
  lemma FirstIsEarliest(urls: seq<Discovered>, spelling: string, i: nat, x: Discovered)
    requires AsDiscovered(urls) && FirstAt(urls, spelling, i) && x in urls && Folded(Spelling(x)) == Folded(spelling)
    ensures Stage(urls[i].source) <= Stage(x.source) <= 5
  {
    var j :| 0 <= j < |urls| && urls[j] == x;
    assert j >= i;
  }

  /** Anything but a link in the page is, if found first, already the best. */
  lemma FirstIsBest(urls: seq<Discovered>, spelling: string, i: nat)
    requires AsDiscovered(urls) && FirstAt(urls, spelling, i)
    requires Priority(urls[i].source) != 5
      || forall d :: d in urls && Folded(Spelling(d)) == Folded(spelling) ==> Priority(d.source) != 4
    ensures BestOfAll(urls, urls[i])
  {
    forall x | x in urls && Folded(Spelling(x)) == Folded(spelling) ensures !Better(x, urls[i]) {
      FirstIsEarliest(urls, spelling, i, x);
      assert urls[i] in urls;
      Ranks(urls[i].source);
      Ranks(x.source);
    }
  }

  /** After a link in the page nothing beats a canonical or alternate link. */
  lemma MetaIsBest(urls: seq<Discovered>, spelling: string, i: nat, m: Discovered)
    requires AsDiscovered(urls) && FirstAt(urls, spelling, i) && Priority(urls[i].source) == 5
    requires m in urls && Folded(Spelling(m)) == Folded(spelling) && Priority(m.source) == 4
    ensures BestOfAll(urls, m)
  {
    forall x | x in urls && Folded(Spelling(x)) == Folded(spelling) ensures !Better(x, m) {
      FirstIsEarliest(urls, spelling, i, x);
      assert urls[i] in urls;
      Ranks(urls[i].source);
      Ranks(x.source);
    }
  }

  /** In the order discovery makes its finds this is the only way to keep an entry that is not the best of its URL. */
  lemma KeptIsBestAsDiscovered(urls: seq<Discovered>, before: set<string>, spelling: string)
    requires AsDiscovered(urls) && spelling in Leaders(urls, before)
    ensures Best(urls, spelling).Some?
    ensures BestOfAll(urls, Best(urls, spelling).value) <==> !Outspelt(urls, spelling)
  {
    var i := LeaderIsFirst(urls, before, spelling);
    assert urls[i] in urls && Spelling(urls[i]) == spelling;
    BestIsBest(urls, spelling, urls[i]);
    if Outspelt(urls, spelling) {
      OutspeltIsWorse(urls, spelling);
    } else {
      KeptIsBestIff(urls, spelling);
      OtherwiseBest(urls, spelling, i);
    }
  }

  lemma OutspeltIsWorse(urls: seq<Discovered>, spelling: string)
    requires AsDiscovered(urls) && Outspelt(urls, spelling) && Best(urls, spelling).Some?
    ensures !BestOfAll(urls, Best(urls, spelling).value)
  {
    BestFrom(urls, spelling);
    var kept := Best(urls, spelling).value;
    var i: nat :| FirstAt(urls, spelling, i) && urls[i].source == "internal_link";
    var m :| m in urls && Folded(Spelling(m)) == Folded(spelling) && m.source == "meta";
    FirstIsEarliest(urls, spelling, i, kept);
    Ranks(kept.source);
    assert Better(m, kept);
  }

  lemma OtherwiseBest(urls: seq<Discovered>, spelling: string, i: nat)
    requires AsDiscovered(urls) && FirstAt(urls, spelling, i) && !Outspelt(urls, spelling)
    ensures exists x :: x in urls && Spelling(x) == spelling && BestOfAll(urls, x)
  {
    assert urls[i] in urls;
    Ranks(urls[i].source);
    if Priority(urls[i].source) != 5 || forall d :: d in urls && Folded(Spelling(d)) == Folded(spelling) ==> Priority(d.source) != 4 {
      FirstIsBest(urls, spelling, i);
    } else {
      var d :| d in urls && Folded(Spelling(d)) == Folded(spelling) && Priority(d.source) == 4;
      Ranks(d.source);
      var m :| m in urls && Spelling(m) == spelling && m.source == "meta";
      MetaIsBest(urls, spelling, i, m);
    }
  }

  lemma SpeltApart(a: string, b: string, i: nat)
    requires i < |a| == |b| && a[i] != b[i] && a[|a| - 1] != '/' && b[|b| - 1] != '/'
    requires forall k :: 0 <= k < |a| ==> LowerChar(a[k]) == LowerChar(b[k])
    ensures Rstrip(a) == a != b == Rstrip(b) && Lower(a) == Lower(b)
  {
  }

  /** For instance a link to a page, and the page's canonical link spelt with another capital. */
  lemma CaseHidesCanonical() returns (link: Discovered, canonical: Discovered)
    ensures link == Discovered("http://a/B", "internal_link") && canonical == Discovered("http://a/b", "meta")
    ensures var urls := [link, canonical];
      && AsDiscovered(urls) && Leaders(urls, {}) == [Spelling(link)]
      && Best(urls, Spelling(link)) == Some(link) && !BestOfAll(urls, link)
  {
    link, canonical := Discovered("http://a/B", "internal_link"), Discovered("http://a/b", "meta");
    SpeltApart(link.url, canonical.url, 9);
    CaseHidesBest(link, canonical);
  }
}
