/** The recursive sitemap crawl: a depth-first search of a possibly cyclic link graph, cut off at a page limit. */
module SitemapCrawl {
  import opened Strings

  type Url = string

  /** What fetching a sitemap yields: nothing usable, or its <loc> texts and its nested sitemap links. */
  datatype Page = Missing | Sitemap(locs: seq<Url>, subs: seq<Url>)

  /** Whether `word` stands in `s` at position `i`, whatever the case of the letters in `s`. */
  predicate StandsAt(word: string, s: string, i: nat) {
    i + |word| <= |s| && forall k | 0 <= k < |word| :: LowerChar(s[i + k]) == word[k]
  }

  predicate MentionsSitemap(s: string) {
    exists i | 0 <= i <= |s| :: StandsAt("sitemap", s, i)
  }

  /**
   * The site as the crawler sees it: `fetch` downloads and parses, `origin` is the scheme and host
   * part of a URL, and `normalize` makes a <loc> text absolute against the URL it was found under.
   */
  datatype Web = Web(fetch: Url -> Page, origin: Url -> string, normalize: (Url, Url) -> Url) {

    /** The address actually requested for a link. */
    function Resolve(url: Url): Url {
      if EndsWith(url, ".xml") || MentionsSitemap(url) then url else origin(url) + "/sitemap.xml"
    }

    function Subs(site: Url): seq<Url> {
      match fetch(site)
      case Missing => []
      case Sitemap(_, subs) => subs
    }

    /** The page addresses that following `link` contributes. */
    function Locs(link: Url): seq<Url> {
      match fetch(Resolve(link))
      case Missing => []
      case Sitemap(locs, _) => seq(|locs|, i requires 0 <= i < |locs| => normalize(locs[i], link))
    }

    /** `sites` is a finite set of sitemaps that links never leave. */
    ghost predicate Closed(sites: set<Url>) {
      forall s, link :: s in sites && link in Subs(s) ==> Resolve(link) in sites
    }

    function Sites(links: seq<Url>): (r: seq<Url>) {
      seq(|links|, i requires 0 <= i < |links| => Resolve(links[i]))
    }
  }

  // ------------------------------------------------------------------ in plain strings

  predicate SpellsSitemap(w: string) {
    && |w| == 7 && w[0] in "sS" && w[1] in "iI" && w[2] in "tT" && w[3] in "eE"
    && w[4] in "mM" && w[5] in "aA" && w[6] in "pP"
  }

  /** A link that ends in ".xml" or has "sitemap" in it, in small letters or capitals. */
  ghost predicate NamesSitemap(link: Url) {
    || (|link| >= 4 && link[|link| - 4..] == ".xml")
    || exists i :: SpellsSitemapAt(link, i)
  }

  predicate SpellsSitemapAt(s: string, i: int) {
    0 <= i <= |s| - 7 && SpellsSitemap(s[i..i + 7])
  }

  /** What is requested for a link: the link itself, if it names a sitemap, or else the sitemap of its site. */
  ghost function AddressOf(origin: Url -> string, link: Url): Url {
    if NamesSitemap(link) then link else origin(link) + "/sitemap.xml"
  }

  /** A page that a fetched sitemap lists, made absolute against the link that led to it. */
  ghost predicate Lists(w: Web, site: Url, link: Url, page: Url) {
    w.fetch(site).Sitemap? && exists loc :: loc in w.fetch(site).locs && page == w.normalize(loc, link)
  }

  lemma SpelledAt(s: string, i: nat)
    requires i + 7 <= |s|
    ensures StandsAt("sitemap", s, i) <==> SpellsSitemap(s[i..i + 7])
  {
    var w, t := "sitemap", s[i..i + 7];
    assert w[0] == 's' && w[1] == 'i' && w[2] == 't' && w[3] == 'e' && w[4] == 'm' && w[5] == 'a' && w[6] == 'p';
    assert forall k :: 0 <= k < 7 ==> t[k] == s[i + k];
    if SpellsSitemap(t) {
      assert forall k :: 0 <= k < 7 ==> LowerChar(t[k]) == w[k];
    }
    if StandsAt(w, s, i) {
      forall k | 0 <= k < 7 ensures LowerChar(t[k]) == w[k] {
        assert LowerChar(s[i + k]) == w[k];
      }
    }
  }

  lemma ResolveIsAddress(w: Web, link: Url)
    ensures w.Resolve(link) == AddressOf(w.origin, link)
  {
    if MentionsSitemap(link) {
      var i :| 0 <= i <= |link| && StandsAt("sitemap", link, i);
      SpelledAt(link, i);
      assert SpellsSitemapAt(link, i);
    }
    if i :| SpellsSitemapAt(link, i) {
      SpelledAt(link, i);
    }
  }

  lemma LocsAreListed(w: Web, link: Url, page: Url)
    ensures page in w.Locs(link) <==> Lists(w, w.Resolve(link), link, page)
  {
    var found := w.fetch(w.Resolve(link));
    if found.Sitemap? {
      forall i | 0 <= i < |found.locs| ensures found.locs[i] in found.locs && w.Locs(link)[i] == w.normalize(found.locs[i], link) {
      }
    }
  }

  function SetOf(s: seq<Url>): set<Url> {
    set x | x in s
  }

  predicate NoRepeats(s: seq<Url>) {
    forall i, j :: 0 <= i < j < |s| ==> s[i] != s[j]
  }

  function Take(s: seq<Url>, n: nat): seq<Url> {
    if |s| <= n then s else s[..n]
  }

  // ------------------------------------------------------- the crawl without a limit

  /** The links an unlimited crawl from `link` follows to a sitemap not seen before, in order. */
  ghost function Visits(w: Web, link: Url, seen: set<Url>, all: set<Url>): (r: seq<Url>)
    requires w.Closed(all) && seen <= all && w.Resolve(link) in all
    ensures SetOf(w.Sites(r)) <= all - seen
    decreases all - seen, 0
  {
    var site := w.Resolve(link);
    if site in seen then []
    else
      var r := [link] + VisitsAll(w, w.Subs(site), seen + {site}, all);
      SitesAppend(w, [link], r[1..]);
      assert r == [link] + r[1..];
      r
  }

  ghost function VisitsAll(w: Web, links: seq<Url>, seen: set<Url>, all: set<Url>): (r: seq<Url>)
    requires w.Closed(all) && seen <= all
    requires forall link :: link in links ==> w.Resolve(link) in all
    ensures SetOf(w.Sites(r)) <= all - seen
    decreases all - seen, |links|
  {
    if links == [] then []
    else
      var first := Visits(w, links[0], seen, all);
      var rest := VisitsAll(w, links[1..], seen + SetOf(w.Sites(first)), all);
      SitesAppend(w, first, rest);
      first + rest
  }

  lemma SitesAppend(w: Web, a: seq<Url>, b: seq<Url>)
    ensures w.Sites(a + b) == w.Sites(a) + w.Sites(b)
    ensures SetOf(w.Sites(a + b)) == SetOf(w.Sites(a)) + SetOf(w.Sites(b))
  {
  }

  /** The pages listed by the sitemaps behind `links`, one sitemap after the other. */
  function Listing(w: Web, links: seq<Url>): seq<Url> {
    if links == [] then [] else w.Locs(links[0]) + Listing(w, links[1..])
  }

  lemma ListingCons(w: Web, link: Url, links: seq<Url>)
    ensures Listing(w, [link] + links) == w.Locs(link) + Listing(w, links)
  {
    assert ([link] + links)[1..] == links;
  }

  lemma InTurn(a: seq<Url>, b: seq<Url>, c: seq<Url>)
    ensures a + (b + c) == a + b + c
  {
  }

  lemma {:induction false} ListingAppend(w: Web, a: seq<Url>, b: seq<Url>)
    ensures Listing(w, a + b) == Listing(w, a) + Listing(w, b)
  {
    if a == [] {
      assert a + b == b;
    } else {
      ListingAppend(w, a[1..], b);
      ListingCons(w, a[0], a[1..]);
      ListingCons(w, a[0], a[1..] + b);
      InTurn(w.Locs(a[0]), Listing(w, a[1..]), Listing(w, b));
      InTurn([a[0]], a[1..], b);
      assert a == [a[0]] + a[1..];
    }
  }

  /** No sitemap is visited twice, however the links loop. */
  lemma {:induction false} VisitsOnce(w: Web, link: Url, seen: set<Url>, all: set<Url>)
    requires w.Closed(all) && seen <= all && w.Resolve(link) in all
    ensures NoRepeats(w.Sites(Visits(w, link, seen, all)))
    decreases all - seen, 0
  {
    var site := w.Resolve(link);
    if site !in seen {
      var rest := VisitsAll(w, w.Subs(site), seen + {site}, all);
      VisitsAllOnce(w, w.Subs(site), seen + {site}, all);
      SitesAppend(w, [link], rest);
      assert w.Sites([link]) == [site];
      assert site !in SetOf(w.Sites(rest));
    }
  }

  lemma {:induction false} VisitsAllOnce(w: Web, links: seq<Url>, seen: set<Url>, all: set<Url>)
    requires w.Closed(all) && seen <= all
    requires forall link :: link in links ==> w.Resolve(link) in all
    ensures NoRepeats(w.Sites(VisitsAll(w, links, seen, all)))
    decreases all - seen, |links|
  {
    if links != [] {
      var first := Visits(w, links[0], seen, all);
      var seen1 := seen + SetOf(w.Sites(first));
      var rest := VisitsAll(w, links[1..], seen1, all);
      VisitsOnce(w, links[0], seen, all);
      VisitsAllOnce(w, links[1..], seen1, all);
      SitesAppend(w, first, rest);
      var a, b := w.Sites(first), w.Sites(rest);
      forall i, j | 0 <= i < |a| && 0 <= j < |b| ensures a[i] != b[j] {
        assert a[i] in SetOf(a) && b[j] in SetOf(b);
      }
    }
  }

  // ------------------------------------------------------------------- reachability

  /** Following `links` one after the other leads from the sitemap `from` to the sitemap `to`. */
  ghost predicate IsPath(w: Web, from: Url, links: seq<Url>, to: Url)
    decreases |links|
  {
    if links == [] then from == to
    else links[0] in w.Subs(from) && IsPath(w, w.Resolve(links[0]), links[1..], to)
  }

  ghost predicate Reachable(w: Web, from: Url, to: Url) {
    exists links :: IsPath(w, from, links, to)
  }

  lemma {:induction false} PathOn(w: Web, from: Url, links: seq<Url>, site: Url, link: Url)
    requires IsPath(w, from, links, site) && link in w.Subs(site)
    ensures IsPath(w, from, links + [link], w.Resolve(link))
    decreases |links|
  {
    if links == [] {
      assert links + [link] == [link] && [link][1..] == [];
    } else {
      PathOn(w, w.Resolve(links[0]), links[1..], site, link);
      assert (links + [link])[1..] == links[1..] + [link];
    }
  }

  lemma ReachesOn(w: Web, from: Url, site: Url, link: Url)
    requires Reachable(w, from, site) && link in w.Subs(site)
    ensures Reachable(w, from, w.Resolve(link))
  {
    var links :| IsPath(w, from, links, site);
    PathOn(w, from, links, site, link);
  }

  lemma ReachableStep(w: Web, from: Url, link: Url, to: Url)
    requires link in w.Subs(from) && Reachable(w, w.Resolve(link), to)
    ensures Reachable(w, from, to)
  {
    var links :| IsPath(w, w.Resolve(link), links, to);
    assert ([link] + links)[1..] == links;
    assert IsPath(w, from, [link] + links, to);
  }

  lemma {:induction false} VisitsAreReachable(w: Web, link: Url, seen: set<Url>, all: set<Url>, site: Url)
    requires w.Closed(all) && seen <= all && w.Resolve(link) in all
    requires site in w.Sites(Visits(w, link, seen, all))
    ensures Reachable(w, w.Resolve(link), site)
    decreases all - seen, 0
  {
    var here := w.Resolve(link);
    var rest := VisitsAll(w, w.Subs(here), seen + {here}, all);
    SitesAppend(w, [link], rest);
    if site == here {
      assert IsPath(w, here, [], site);
    } else {
      var next := VisitsAllAreReachable(w, w.Subs(here), seen + {here}, all, site);
      ReachableStep(w, here, next, site);
    }
  }

  lemma {:induction false} VisitsAllAreReachable(
      w: Web, links: seq<Url>, seen: set<Url>, all: set<Url>, site: Url) returns (link: Url)
    requires w.Closed(all) && seen <= all
    requires forall link :: link in links ==> w.Resolve(link) in all
    requires site in w.Sites(VisitsAll(w, links, seen, all))
    ensures link in links && Reachable(w, w.Resolve(link), site)
    decreases all - seen, |links|
  {
    var first := Visits(w, links[0], seen, all);
    var seen1 := seen + SetOf(w.Sites(first));
    SitesAppend(w, first, VisitsAll(w, links[1..], seen1, all));
    if site in w.Sites(first) {
      link := links[0];
      VisitsAreReachable(w, link, seen, all, site);
    } else {
      link := VisitsAllAreReachable(w, links[1..], seen1, all, site);
    }
  }

  /** Everything linked from a newly visited sitemap has been seen by the end. */
  lemma {:induction false} VisitsClosed(w: Web, link: Url, seen: set<Url>, all: set<Url>)
    requires w.Closed(all) && seen <= all && w.Resolve(link) in all
    ensures var found := SetOf(w.Sites(Visits(w, link, seen, all)));
      && w.Resolve(link) in seen + found
      && (forall s, l :: s in found && l in w.Subs(s) ==> w.Resolve(l) in seen + found)
    decreases all - seen, 0
  {
    var here := w.Resolve(link);
    if here !in seen {
      var rest := VisitsAll(w, w.Subs(here), seen + {here}, all);
      VisitsAllClosed(w, w.Subs(here), seen + {here}, all);
      SitesAppend(w, [link], rest);
      assert w.Sites([link]) == [here];
    }
  }

  lemma {:induction false} VisitsAllClosed(w: Web, links: seq<Url>, seen: set<Url>, all: set<Url>)
    requires w.Closed(all) && seen <= all
    requires forall link :: link in links ==> w.Resolve(link) in all
    ensures var found := SetOf(w.Sites(VisitsAll(w, links, seen, all)));
      && (forall l :: l in links ==> w.Resolve(l) in seen + found)
      && (forall s, l :: s in found && l in w.Subs(s) ==> w.Resolve(l) in seen + found)
    decreases all - seen, |links|
  {
    if links != [] {
      var first := Visits(w, links[0], seen, all);
      var seen1 := seen + SetOf(w.Sites(first));
      var rest := VisitsAll(w, links[1..], seen1, all);
      VisitsClosed(w, links[0], seen, all);
      VisitsAllClosed(w, links[1..], seen1, all);
      SitesAppend(w, first, rest);
    }
  }

  lemma {:induction false} ClosedSetHoldsPath(w: Web, sites: set<Url>, from: Url, links: seq<Url>, to: Url)
    requires w.Closed(sites) && from in sites && IsPath(w, from, links, to)
    ensures to in sites
    decreases |links|
  {
    if links != [] {
      ClosedSetHoldsPath(w, sites, w.Resolve(links[0]), links[1..], to);
    }
  }

  /** From a clean start the crawl visits precisely the sitemaps reachable from its root. */
  lemma VisitsExactlyTheReachable(w: Web, link: Url, all: set<Url>, site: Url)
    requires w.Closed(all) && w.Resolve(link) in all
    ensures site in w.Sites(Visits(w, link, {}, all)) <==> Reachable(w, w.Resolve(link), site)
  {
    var visits := Visits(w, link, {}, all);
    if site in w.Sites(visits) {
      VisitsAreReachable(w, link, {}, all, site);
    }
    if Reachable(w, w.Resolve(link), site) {
      var links :| IsPath(w, w.Resolve(link), links, site);
      VisitsClosed(w, link, {}, all);
      ClosedSetHoldsPath(w, SetOf(w.Sites(visits)), w.Resolve(link), links, site);
    }
  }

  // ----------------------------------------------- a crawl part of the way through

  /** The state after following the first `n` links of `visits`. */
  ghost predicate After(w: Web, visits: seq<Url>, n: nat, seen0: set<Url>, seen: set<Url>,
                        requests0: seq<Url>, requests: seq<Url>) {
    && n <= |visits|
    && seen == seen0 + SetOf(w.Sites(visits[..n]))
    && requests == requests0 + w.Sites(visits[..n])
  }

  lemma Onwards(visits: seq<Url>, n: nat, below: seq<Url>, m: nat)
    requires n <= |visits| && m <= |below| && below <= visits[n..]
    ensures n + m <= |visits| && visits[..n + m] == visits[..n] + below[..m]
  {
    assert visits[n..][..m] == below[..m];
  }

  lemma SetsInTurn(a: set<Url>, b: set<Url>, c: set<Url>)
    ensures a + (b + c) == a + b + c
  {
  }

  lemma AfterThen(w: Web, visits: seq<Url>, n: nat, below: seq<Url>, m: nat, seen0: set<Url>, seen: set<Url>,
                  seen1: set<Url>, requests0: seq<Url>, requests: seq<Url>, requests1: seq<Url>)
    requires After(w, visits, n, seen0, seen, requests0, requests)
    requires After(w, below, m, seen, seen1, requests, requests1)
    requires below <= visits[n..]
    ensures seen <= seen1 && After(w, visits, n + m, seen0, seen1, requests0, requests1)
  {
    Onwards(visits, n, below, m);
    SitesAppend(w, visits[..n], below[..m]);
    InTurn(requests0, w.Sites(visits[..n]), w.Sites(below[..m]));
    SetsInTurn(seen0, SetOf(w.Sites(visits[..n])), SetOf(w.Sites(below[..m])));
  }

  /** The first nested crawl of several, and what is left after it. */
  lemma NextLink(w: Web, links: seq<Url>, k: nat, seen: set<Url>, all: set<Url>)
    requires w.Closed(all) && seen <= all && k < |links|
    requires forall link :: link in links ==> w.Resolve(link) in all
    ensures var below := Visits(w, links[k], seen, all);
      VisitsAll(w, links[k..], seen, all)
        == below + VisitsAll(w, links[k + 1..], seen + SetOf(w.Sites(below)), all)
  {
    assert links[k..][0] == links[k] && links[k..][1..] == links[k + 1..];
  }

  lemma ListingOne(w: Web, link: Url)
    ensures Listing(w, [link]) == w.Locs(link)
  {
    ListingCons(w, link, []);
    assert [link] + [] == [link];
  }

  lemma TakeThenTake(a: seq<Url>, b: seq<Url>, c: seq<Url>, max: nat)
    requires |a| < max
    ensures Take(a + b, max) == Take(a + Take(b, max), max)
    ensures |Take(a + b, max)| == max ==> Take(a + b + c, max) == Take(a + b, max)
  {
  }

  lemma LimitReached(w: Web, visits: seq<Url>, n: nat, max: nat)
    requires n <= |visits| && |Take(Listing(w, visits[..n]), max)| >= max
    ensures Take(Listing(w, visits), max) == Take(Listing(w, visits[..n]), max)
  {
    assert visits[..n] + visits[n..] == visits;
    ListingAppend(w, visits[..n], visits[n..]);
  }

  /** What was listed is the whole listing, up to the limit, and nothing but what the first `n` links list. */
  ghost predicate Listed(w: Web, visits: seq<Url>, n: nat, urls: seq<Url>, max: nat) {
    n <= |visits| && urls == Take(Listing(w, visits), max) == Take(Listing(w, visits[..n]), max)
  }

  /** Between two turns of the loop over `subs`: the first `k` are done and nothing was cut off. */
  ghost predicate Midway(w: Web, visits: seq<Url>, n: nat, subs: seq<Url>, k: nat, seen: set<Url>,
                         all: set<Url>, urls: seq<Url>, max: nat)
    requires w.Closed(all)
    requires forall link :: link in subs ==> w.Resolve(link) in all
  {
    && seen <= all && k <= |subs| && n <= |visits|
    && visits == visits[..n] + VisitsAll(w, subs[k..], seen, all)
    && urls == Take(Listing(w, visits[..n]), max)
  }

  /** The links still to follow are those below the next one and those after it. */
  lemma MidwaySplit(w: Web, visits: seq<Url>, n: nat, subs: seq<Url>, k: nat, seen: set<Url>, all: set<Url>,
                    urls: seq<Url>, max: nat)
    requires w.Closed(all)
    requires forall link :: link in subs ==> w.Resolve(link) in all
    requires Midway(w, visits, n, subs, k, seen, all, urls, max) && k < |subs|
    ensures var below := Visits(w, subs[k], seen, all);
      && visits == visits[..n] + below + VisitsAll(w, subs[k + 1..], seen + SetOf(w.Sites(below)), all)
      && below <= visits[n..] && visits[..n + |below|] == visits[..n] + below
  {
    NextLink(w, subs, k, seen, all);
    var below := Visits(w, subs[k], seen, all);
    var tail := VisitsAll(w, subs[k + 1..], seen + SetOf(w.Sites(below)), all);
    Joined(visits, n, below, tail);
  }

  lemma Joined(visits: seq<Url>, n: nat, below: seq<Url>, tail: seq<Url>)
    requires n <= |visits| && visits == visits[..n] + (below + tail)
    ensures visits == visits[..n] + below + tail && below <= visits[n..] && visits[..n + |below|] == visits[..n] + below
  {
    assert visits[n..] == below + tail;
  }

  lemma ListingCut(w: Web, a: seq<Url>, below: seq<Url>, tail: seq<Url>, urls: seq<Url>, subUrls: seq<Url>, max: nat)
    requires urls == Take(Listing(w, a), max) && |urls| < max && subUrls == Take(Listing(w, below), max)
    ensures |urls + subUrls| >= max ==> (urls + subUrls)[..max] == Take(Listing(w, a + below + tail), max)
    ensures |urls + subUrls| < max ==> urls + subUrls == Take(Listing(w, a + below), max)
  {
    ListingAppend(w, a, below);
    ListingAppend(w, a + below, tail);
    TakeThenTake(Listing(w, a), Listing(w, below), Listing(w, tail), max);
  }

  lemma MidwayNext(w: Web, visits: seq<Url>, n: nat, subs: seq<Url>, k: nat, seen: set<Url>, all: set<Url>,
                   urls: seq<Url>, max: nat, m: nat, seen1: set<Url>, subUrls: seq<Url>)
    requires w.Closed(all)
    requires forall link :: link in subs ==> w.Resolve(link) in all
    requires Midway(w, visits, n, subs, k, seen, all, urls, max) && k < |subs| && |urls| < max
    requires var below := Visits(w, subs[k], seen, all);
      && m <= |below| && subUrls == Take(Listing(w, below), max)
      && (|subUrls| < max ==> m == |below|) && seen1 == seen + SetOf(w.Sites(below[..m]))
    ensures Visits(w, subs[k], seen, all) <= visits[n..]
    ensures |urls + subUrls| >= max ==> (urls + subUrls)[..max] == Take(Listing(w, visits), max)
    ensures |urls + subUrls| < max ==>
      n + m <= |visits| && Midway(w, visits, n + m, subs, k + 1, seen1, all, urls + subUrls, max)
  {
    var below := Visits(w, subs[k], seen, all);
    var tail := VisitsAll(w, subs[k + 1..], seen + SetOf(w.Sites(below)), all);
    MidwaySplit(w, visits, n, subs, k, seen, all, urls, max);
    ListingCut(w, visits[..n], below, tail, urls, subUrls, max);
    assert m == |below| ==> below[..m] == below;
  }

  /** One turn of that loop, given what the nested crawl did. */
  lemma TurnTaken(w: Web, visits: seq<Url>, n: nat, subs: seq<Url>, k: nat, all: set<Url>, urls: seq<Url>, max: nat,
                  seen0: set<Url>, seen: set<Url>, requests0: seq<Url>, requests: seq<Url>,
                  m: nat, seen1: set<Url>, requests1: seq<Url>, subUrls: seq<Url>)
    requires w.Closed(all)
    requires forall link :: link in subs ==> w.Resolve(link) in all
    requires After(w, visits, n, seen0, seen, requests0, requests)
    requires Midway(w, visits, n, subs, k, seen, all, urls, max) && k < |subs| && |urls| < max
    requires var below := Visits(w, subs[k], seen, all);
      && After(w, below, m, seen, seen1, requests, requests1)
      && Listed(w, below, m, subUrls, max) && (|subUrls| < max ==> m == |below|)
    ensures seen <= seen1 && After(w, visits, n + m, seen0, seen1, requests0, requests1)
    ensures |urls + subUrls| >= max ==> Listed(w, visits, n + m, (urls + subUrls)[..max], max)
    ensures |urls + subUrls| < max ==> Midway(w, visits, n + m, subs, k + 1, seen1, all, urls + subUrls, max)
  {
    var below := Visits(w, subs[k], seen, all);
    MidwayNext(w, visits, n, subs, k, seen, all, urls, max, m, seen1, subUrls);
    AfterThen(w, visits, n, below, m, seen0, seen, seen1, requests0, requests, requests1);
    ListingCut(w, visits[..n], below[..m], [], urls, subUrls, max);
    Onwards(visits, n, below, m);
    assert visits[..n] + below[..m] + [] == visits[..n + m];
  }

  lemma MidwayDone(w: Web, visits: seq<Url>, n: nat, subs: seq<Url>, seen: set<Url>, all: set<Url>,
                   urls: seq<Url>, max: nat)
    requires w.Closed(all)
    requires forall link :: link in subs ==> w.Resolve(link) in all
    requires Midway(w, visits, n, subs, |subs|, seen, all, urls, max)
    ensures n == |visits| && Listed(w, visits, n, urls, max)
  {
    assert subs[|subs|..] == [];
    assert visits[..n] == visits;
  }

  /** Each listed page comes from a visited link, and every page of a visited link is listed. */
  lemma {:induction false} ListingHolds(w: Web, links: seq<Url>, page: Url)
    ensures page in Listing(w, links) <==> exists link :: link in links && page in w.Locs(link)
  {
    if links != [] {
      ListingHolds(w, links[1..], page);
      assert forall link :: link in links <==> link == links[0] || link in links[1..];
    }
  }

  // -------------------------------------------------------------- the crawler itself

  class Crawler {
    const web: Web
    const maxPages: nat
    /** The set handed down and shared by all nested calls. */
    var visited: set<Url>
    /** Every request sent, in order. */
    ghost var requests: seq<Url>

    constructor (web: Web, maxPages: nat)
      ensures this.web == web && this.maxPages == maxPages && visited == {} && requests == []
    {
      this.web, this.maxPages := web, maxPages;
      visited, requests := {}, [];
    }

    /**
     * The result is the unlimited listing cut at `maxPages`. The crawl follows the first `n` links of the
     * unlimited crawl; it stops short of the last one only when the limit is reached.
     */
    method FetchSitemaps(url: Url, ghost all: set<Url>) returns (urls: seq<Url>, ghost n: nat)
      requires web.Closed(all) && visited <= all && web.Resolve(url) in all
      modifies this
      ensures var visits := Visits(web, url, old(visited), all);
        && After(web, visits, n, old(visited), visited, old(requests), requests)
        && Listed(web, visits, n, urls, maxPages)
        && (|urls| < maxPages ==> n == |visits|) && (visits != [] ==> n > 0)
      decreases all - visited, 0
    {
      ghost var visits := Visits(web, url, visited, all);
      var sitemapUrl := web.Resolve(url);
      urls, n := [], 0;
      if sitemapUrl in visited {
        return;
      }
      ghost var seen0, requests0 := visited, requests;
      visited := visited + {sitemapUrl};
      requests := requests + [sitemapUrl];
      n := 1;
      assert visits == [url] + VisitsAll(web, web.Subs(sitemapUrl), visited, all);
      assert visits[..1] == [url] && web.Sites([url]) == [sitemapUrl];
      ListingOne(web, url);

      match web.fetch(sitemapUrl)
      case Missing =>
        assert visits == [url];
      case Sitemap(locs, subs) =>
        urls := ListPages(url, locs);
        assert subs[0..] == subs;
        urls, n := FollowSubs(subs, urls, visits, seen0, requests0, all);
    }

    /** The first loop: the pages a sitemap lists, as long as there is room. */
    method ListPages(url: Url, locs: seq<Url>) returns (urls: seq<Url>)
      requires var page := web.fetch(web.Resolve(url)); page.Sitemap? && page.locs == locs
      ensures urls == Take(web.Locs(url), maxPages)
    {
      urls := [];
      for i := 0 to |locs|
        invariant urls == Take(web.Locs(url)[..i], maxPages)
      {
        if |urls| >= maxPages {
          break;
        }
        urls := urls + [web.normalize(locs[i], url)];
      }
    }

    /** The second loop: the nested sitemaps, as long as there is room. */
    method FollowSubs(subs: seq<Url>, urls0: seq<Url>, ghost visits: seq<Url>,
                      ghost seen0: set<Url>, ghost requests0: seq<Url>, ghost all: set<Url>)
      returns (urls: seq<Url>, ghost n: nat)
      requires web.Closed(all)
      requires forall link :: link in subs ==> web.Resolve(link) in all
      requires After(web, visits, 1, seen0, visited, requests0, requests)
      requires Midway(web, visits, 1, subs, 0, visited, all, urls0, maxPages)
      modifies this
      ensures After(web, visits, n, seen0, visited, requests0, requests)
      ensures Listed(web, visits, n, urls, maxPages) && n > 0
      ensures |urls| < maxPages ==> n == |visits|
      decreases all - visited, 2
    {
      urls, n := urls0, 1;
      for k := 0 to |subs|
        invariant old(visited) <= visited && n > 0
        invariant After(web, visits, n, seen0, visited, requests0, requests)
        invariant Midway(web, visits, n, subs, k, visited, all, urls, maxPages)
      {
        if |urls| >= maxPages {
          LimitReached(web, visits, n, maxPages);
          return;
        }
        urls, n := FollowOne(subs, k, urls, n, visits, seen0, requests0, all);
        if |urls| >= maxPages {
          urls := urls[..maxPages];
          return;
        }
      }
      MidwayDone(web, visits, n, subs, visited, all, urls, maxPages);
    }

    /** One turn of that loop, up to its second check. */
    method FollowOne(subs: seq<Url>, k: nat, urls0: seq<Url>, ghost n0: nat, ghost visits: seq<Url>,
                     ghost seen0: set<Url>, ghost requests0: seq<Url>, ghost all: set<Url>)
      returns (urls: seq<Url>, ghost n: nat)
      requires web.Closed(all)
      requires forall link :: link in subs ==> web.Resolve(link) in all
      requires After(web, visits, n0, seen0, visited, requests0, requests)
      requires Midway(web, visits, n0, subs, k, visited, all, urls0, maxPages) && k < |subs| && |urls0| < maxPages
      modifies this
      ensures n >= n0 && old(visited) <= visited && After(web, visits, n, seen0, visited, requests0, requests)
      ensures |urls| >= maxPages ==> Listed(web, visits, n, urls[..maxPages], maxPages)
      ensures |urls| < maxPages ==> Midway(web, visits, n, subs, k + 1, visited, all, urls, maxPages)
      decreases all - visited, 1
    {
      ghost var seen, sent := visited, requests;
      var subUrls, m := FetchSitemaps(subs[k], all);
      TurnTaken(web, visits, n0, subs, k, all, urls0, maxPages, seen0, seen, requests0, sent, m, visited, requests, subUrls);
      urls, n := urls0 + subUrls, n0 + m;
    }

    /**
     * A crawl from a clean start, as discovery calls it. Nothing is requested twice or needlessly, at most
     * `maxPages` pages come back, each listed under a link that was followed; and unless the limit is reached, the
     * sitemaps visited are the reachable ones and no page listed under a link that was followed is missing.
     */
    method FetchSite(url: Url, ghost all: set<Url>) returns (urls: seq<Url>, ghost followed: seq<Url>)
      requires web.Closed(all) && web.Resolve(url) in all && visited == {} && requests == []
      modifies this
      ensures |urls| <= maxPages && urls == Take(Listing(web, followed), maxPages)
      ensures web.Sites(followed) == requests && NoRepeats(requests) && SetOf(requests) == visited
      ensures forall site :: site in visited ==> Reachable(web, web.Resolve(url), site)
      ensures forall page :: page in urls ==>
        exists link :: link in followed && Reachable(web, web.Resolve(url), web.Resolve(link)) && page in web.Locs(link)
      ensures |urls| < maxPages ==> forall site :: Reachable(web, web.Resolve(url), site) ==> site in visited
      ensures |urls| < maxPages ==> forall link, page :: link in followed && page in web.Locs(link) ==> page in urls
      ensures AskedPlainly(web, url, followed, requests, |urls| < maxPages)
      ensures BroughtPlainly(web, followed, requests, urls, |urls| < maxPages)
    {
      urls, followed := FetchFromStart(url, all);
      if |urls| < maxPages {
        forall site, link | site in requests && link in web.Subs(site) ensures web.Resolve(link) in requests {
          assert site in visited && Reachable(web, web.Resolve(url), site);
          ReachesOn(web, web.Resolve(url), site, link);
          assert web.Resolve(link) in visited;
        }
      }
      IsAskedPlainly(web, url, followed, requests, |urls| < maxPages);
      forall page | page in urls ensures exists link :: link in followed && page in web.Locs(link) {
        var link :| link in followed && Reachable(web, web.Resolve(url), web.Resolve(link)) && page in web.Locs(link);
      }
      IsBroughtPlainly(web, followed, requests, urls, |urls| < maxPages);
    }

    method FetchFromStart(url: Url, ghost all: set<Url>) returns (urls: seq<Url>, ghost followed: seq<Url>)
      requires web.Closed(all) && web.Resolve(url) in all && visited == {} && requests == []
      modifies this
      ensures |urls| <= maxPages && urls == Take(Listing(web, followed), maxPages)
      ensures web.Sites(followed) == requests && NoRepeats(requests) && SetOf(requests) == visited
      ensures followed != [] && followed[0] == url
      ensures forall site :: site in visited ==> Reachable(web, web.Resolve(url), site)
      ensures forall page :: page in urls ==>
        exists link :: link in followed && Reachable(web, web.Resolve(url), web.Resolve(link)) && page in web.Locs(link)
      ensures |urls| < maxPages ==> forall site :: Reachable(web, web.Resolve(url), site) ==> site in visited
      ensures |urls| < maxPages ==> forall link, page :: link in followed && page in web.Locs(link) ==> page in urls
    {
      ghost var root, visits := web.Resolve(url), Visits(web, url, {}, all);
      ghost var n;
      urls, n := FetchSitemaps(url, all);
      followed := visits[..n];
      VisitsOnce(web, url, {}, all);
      assert web.Sites(followed) == web.Sites(visits)[..n];
      forall site ensures site in web.Sites(visits) <==> Reachable(web, root, site) {
        VisitsExactlyTheReachable(web, url, all, site);
      }
      forall page | page in urls
        ensures exists link :: link in followed && Reachable(web, root, web.Resolve(link)) && page in web.Locs(link)
      {
        ListingHolds(web, followed, page);
        var link :| link in followed && page in web.Locs(link);
        LinkIsVisited(web, visits, link);
      }
      if |urls| < maxPages {
        assert followed == visits;
        forall link, page | link in followed && page in web.Locs(link) ensures page in urls {
          ListingHolds(web, visits, page);
        }
      }
    }
  }

  /**
   * What a crawl asks for, in plain strings: first the address of the start, then one address for each link followed.
   * If it was not cut off, a nested link of any sitemap asked for has been asked for, under its own address.
   */
  ghost predicate AskedPlainly(w: Web, start: Url, followed: seq<Url>, requests: seq<Url>, all: bool) {
    && |requests| == |followed| > 0 && requests[0] == AddressOf(w.origin, start)
    && (forall k :: 0 <= k < |followed| ==> requests[k] == AddressOf(w.origin, followed[k]))
    && (all ==> forall site, link :: site in requests && w.fetch(site).Sitemap? && link in w.fetch(site).subs ==>
         AddressOf(w.origin, link) in requests)
  }

  /** What it brings back: pages listed by the sitemaps asked for; and if it was not cut off, all of them. */
  ghost predicate BroughtPlainly(w: Web, followed: seq<Url>, requests: seq<Url>, urls: seq<Url>, all: bool)
    requires |requests| == |followed|
  {
    && (forall page :: page in urls ==> exists k :: 0 <= k < |followed| && Lists(w, requests[k], followed[k], page))
    && (all ==> forall k, page :: 0 <= k < |followed| && Lists(w, requests[k], followed[k], page) ==> page in urls)
  }

  lemma IsAskedPlainly(w: Web, start: Url, followed: seq<Url>, requests: seq<Url>, closed: bool)
    requires w.Sites(followed) == requests && followed != [] && followed[0] == start
    requires closed ==> forall site, link :: site in requests && link in w.Subs(site) ==> w.Resolve(link) in requests
    ensures AskedPlainly(w, start, followed, requests, closed)
  {
    forall k | 0 <= k < |followed| ensures requests[k] == AddressOf(w.origin, followed[k]) {
      ResolveIsAddress(w, followed[k]);
    }
    if closed {
      forall site, link | site in requests && w.fetch(site).Sitemap? && link in w.fetch(site).subs
        ensures AddressOf(w.origin, link) in requests
      {
        ResolveIsAddress(w, link);
        assert link in w.Subs(site);
      }
    }
  }

  lemma IsBroughtPlainly(w: Web, followed: seq<Url>, requests: seq<Url>, urls: seq<Url>, complete: bool)
    requires w.Sites(followed) == requests
    requires forall page :: page in urls ==> exists link :: link in followed && page in w.Locs(link)
    requires complete ==> forall link, page :: link in followed && page in w.Locs(link) ==> page in urls
    ensures BroughtPlainly(w, followed, requests, urls, complete)
  {
    forall page | page in urls ensures exists k :: 0 <= k < |followed| && Lists(w, requests[k], followed[k], page) {
      var link :| link in followed && page in w.Locs(link);
      var k :| 0 <= k < |followed| && followed[k] == link;
      LocsAreListed(w, link, page);
    }
    if complete {
      forall k, page | 0 <= k < |followed| && Lists(w, requests[k], followed[k], page) ensures page in urls {
        LocsAreListed(w, followed[k], page);
      }
    }
  }

  lemma LinkIsVisited(w: Web, visits: seq<Url>, link: Url)
    requires link in visits
    ensures w.Resolve(link) in w.Sites(visits)
  {
    var i :| 0 <= i < |visits| && visits[i] == link;
    assert w.Sites(visits)[i] == w.Resolve(link);
  }
}
