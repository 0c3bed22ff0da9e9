# Competitor intelligence platform: verified core

This project models the parts of the platform that decide something: how sitemaps are crawled, how requests are
rationed, how messages are retried, what the caches may answer, how the results of several parsing strategies are
merged, how duplicate entities are resolved, which parts of a page become segments, when two URLs are the same, what a
report says has changed, and how prices are extrapolated. Code that changes state is modelled as classes and methods with
loops; each is proved against a function, a history or a log that does not mention how the code goes about it, and what
the code is for is then proved about that.

`dafny verify dfyconfig.toml` checks everything.

| files | what they model |
|---|---|
| `EditDistance` | the two-row Levenshtein loop, as the least number of edits, with the laws of a metric |
| `Values`, `EntityModel`, `EntityMerge`, `EntityDedup`, `EntityReferences`, `EntityResolver` | name similarity, greedy clustering, merging in place, renaming, deduplication, and what happens to the prices that refer to services |
| `SitemapCrawl`, `DiscoveryDedup` | the recursive sitemap crawl over any link graph; dropping duplicate finds |
| `TokenBucket`, `TextbookBound`, `SlidingWindow` | the fetcher's token bucket, and when it keeps to the bound of a textbook one; the API's request limiter |
| `HttpCache`, `LruCache` | the cache of HTTP validators; the in-process cache and the parse memoiser on top |
| `QueueModel`, `MessageQueue` | the message queue as a state machine over any interleaving of workers, and the objects that refine it |
| `MergeModel`, `ParsedResult`, `ConfidenceLaws` | confidence-weighted merging into a result and its provenance store, and what the weights are made of |
| `LinearTrend`, `Smoothing` | the two price forecasts, over the reals |
| `TagTree`, `PageSegments`, `PagePruning` | page trees, the collecting passes, document order and pruning |
| `UrlPath`, `UrlQuery`, `UrlNormalizer` | the canonical form of URLs |
| `ListDiff` | the difference between two snapshots, applied, undone and shown to be shortest |
| `Common`, `Strings` | what several of these need |

## Where code and documentation differ

The code is followed; each of these is a lemma or a method of the model.

- The token bucket takes its refill time before it sleeps, so a sleep is credited twice: `rate + 2 * rate * T` requests
  can pass in time `T`, and for every whole rate some run attains that (`TextbookBound.BoundIsAttained`). The bound of a
  textbook bucket, `rate + rate * T`, holds for a rate of one half or more exactly while `rate * T < 1`, and for a lower
  rate, whose every call sleeps, exactly while `floor(rate * T / (1 - rate)) <= rate + rate * T`
  (`TextbookBound.TextbookIff`).
- The API's limiter answers as one that counts in a complete log, as long as no cleanup finds more than 10000 addresses
  active within its window (`SlidingWindow.RateLimitMiddleware.Serve`); then one is dropped, and can be let in again too
  soon, whatever the limit (`SlidingWindow.OverflowReadmits`).
- The HTTP cache is documented as LRU, but a store into a full cache evicts even when it only updates a page it has: then
  the cache ends one short, and a page that was itself the least recently used loses all that was known of it
  (`HttpCache.StoreWhenFull`); one other page stored twice pushes a page out of a cache for two
  (`HttpCache.OneRivalSuffices`). Removing and clearing leave time stamps behind without bound
  (`HttpCache.StampsPileUp`): exactly those of the pages removed and not dropped since (`HttpCache.LeftOver`).
- Deduplicating finds is documented as keeping the best source; it does so exactly when one of the best is spelt as the
  first is (`DiscoveryDedup.KeptIsBestIff`), and always when better sources come first
  (`DiscoveryDedup.BestFirstKeepsBest`). In the order discovery lists its finds, only a canonical or alternate link can be
  kept out, by a link in the page spelt with other capitals (`DiscoveryDedup.KeptIsBestAsDiscovered`,
  `DiscoveryDedup.CaseHidesCanonical`).
- The segmenter is documented as offering blocks inside `<main>`; they are collected, but never survive
  (`PagePruning.Segment`).
- References from prices to services survive resolution exactly when they are not padded variants of a name merged away
  (`EntityReferences.ReferencesSurvive`, `EntityReferences.LostIff`, `EntityReferences.UntrimmedReferenceLost`).
- Normalising a URL is idempotent exactly when the host has neither its default port nor `www.` twice
  (`UrlNormalizer.NormalizeStable`). An empty path and the root stay different (`UrlPath.SamePath`), though section 6.2.3
  of RFC 3986 treats them alike. A tracking parameter with a blank value is dropped but not recognised as tracking
  (`UrlQuery.BlankTrackingUnseen`).
- The cache key of a parse joins its parts with `:` and does not keep them apart, and other settings of the parser are not
  in it at all (`LruCache.KeysClash`). A call is answered with its own result unless an earlier call under its key found
  something else (`LruCache.CachedParser.Parse`). Where the cache has room and nothing expires, each call gets what the
  first under its key to find anything found, so all get their own results exactly when no call clashes with an earlier
  one (`LruCache.ParseAll`); of two calls that clash and differ, one order spoils the second (`LruCache.OneOrderSpoils`).
- Of nine of the thirteen lists of a merged result the provenance can miss items. It has an entry for every item exactly
  when each incoming item, in its turn, is a duplicate or has a value under the key it is filed by that no entry carries
  yet (`MergeModel.StaysPairedIff`, `MergeModel.RunStaysPairedIff`). Items without any key fail this, but so do keyed ones
  whose first key is present and empty, or whose second key clashes with an entry (`MergeModel.LooseListsCanPart`).
- Exponential smoothing, cut off at zero, continues a straight line only where the line is not below zero, and there only
  when it is flat, when nothing is smoothed and there are two values, or when it rises to zero just there
  (`Smoothing.FollowsLineIff`, `Smoothing.ForecastFollowsLine`).

## Model

| member | source | states |
|---|---|---|
| EditDistance.Levenshtein | app/parsers/resolution.py:149-162 | for all strings, the loop with its swap returns the least number of single-character inserts, deletes and substitutions that turn one into the other |
| EditDistance.LastCell | app/parsers/resolution.py:153-162 | the rolling two rows end with the value of the full recurrence, including the empty second string |
| EditDistance.NextCell | app/parsers/resolution.py:156-161 | one inner step extends a row of distances to prefixes by one correct cell |
| EditDistance.DistanceIsEditDistance | app/parsers/resolution.py:149-162 | the recurrence is the minimum over all edit scripts: one of that length exists and none is shorter |
| EditDistance.ScriptIsNoShorter | app/parsers/resolution.py:160-160 | no script of edits between two strings is shorter than the recurrence says |
| EditDistance.ShortestScript | app/parsers/resolution.py:160-160 | a script of exactly that length, built step by step |
| EditDistance.Symmetric | app/parsers/resolution.py:149-162 | the distance is symmetric, which is why swapping the arguments is harmless |
| EditDistance.ZeroIffEqual | app/parsers/resolution.py:149-162 | the distance is zero exactly between equal strings |
| EditDistance.TriangleInequality | app/parsers/resolution.py:149-162 | going by way of a third string is never shorter |
| EntityModel.FirstValueIsFirst | app/parsers/resolution.py:578-586 | the key of an item is the trimmed text of the first field, in order, that has any; an item has none exactly if no field does |
| EntityModel.StripTrims | app/parsers/resolution.py:583-583 | trimming takes all the spaces off both ends and nothing else |
| EntityModel.SimilaritySymmetric | app/parsers/resolution.py:165-212 | similarity does not depend on the order of the names, containment included |
| EntityModel.SimilarityBounds | app/parsers/resolution.py:165-212 | similarity lies between 0 and 1, and is 1 for equal nonempty names |
| EntityModel.SimilarIff | app/parsers/resolution.py:184-212 | names whose tokens differ are alike if and only if four fifths of the tokens of the one with fewer are in the other, or eleven twentieths of all are shared; a name strictly within another always is; and the exact measure |
| EntityModel.EmptyNamesAreUnlike | app/parsers/resolution.py:173-192 | an empty name, or one of which normalising leaves nothing, is like no other |
| EntityModel.LongestFirstSorts | app/parsers/resolution.py:462-462 | the sort puts longer names first and loses none |
| EntityModel.LongestFirstStable | app/parsers/resolution.py:462-462 | names of one length stay in the order of their items |
| EntityModel.ClustersPartition | app/parsers/resolution.py:447-477 | every item named well enough stands in exactly one cluster, once, and nothing else does; members resemble their seed and are no longer than it, and resemble no earlier seed |
| EntityModel.SeedsApart | app/parsers/resolution.py:464-477 | two seeds are below the threshold, whichever way round they are compared |
| EntityModel.EqualNamesTogether | app/parsers/resolution.py:464-477 | equal names never fall into different clusters, so the rename map is a function |
| EntityMerge.FirstHighest | app/parsers/resolution.py:589-612 | the canonical item is the first with the highest score |
| EntityMerge.CanonicalIsRichest | app/parsers/resolution.py:601-610 | no member of a cluster that is not marked has more fields that count than the canonical item, nor as many and a longer printed name; and it is the first such |
| EntityMerge.NewNameIs | app/parsers/resolution.py:610-610 | the name that others are renamed to is the canonical item's own, or its plan's, and only if both are empty that of the seed |
| EntityMerge.EnrichedIsUnion | app/parsers/resolution.py:508-518 | a field of the merged item is filled exactly when some member fills it; the canonical item's own values stay, and otherwise the first filled one in order is taken |
| EntityMerge.FirstFilledIs | app/parsers/resolution.py:508-518 | a field the canonical item lacks is taken from the first of the others to fill it |
| EntityMerge.MergeClusterAt | app/parsers/resolution.py:492-527 | where each item stands after its cluster is merged: enriched, marked or untouched |
| EntityMerge.MergeAllInside | app/parsers/resolution.py:479-485 | after all merges each item is what its own cluster made of it, as if no other cluster had been merged |
| EntityMerge.MergeAllOutside | app/parsers/resolution.py:479-485 | items in no cluster are untouched |
| EntityMerge.RenameInside | app/parsers/resolution.py:520-523 | a name is renamed exactly when its cluster is merged under another one, and then to the canonical name |
| EntityMerge.RenameOutside | app/parsers/resolution.py:520-523 | nothing else is renamed |
| EntityDedup.DedupKeys | app/parsers/resolution.py:550-570 | the keys left are those of the items not merged away, less those seen before |
| EntityDedup.DedupDistinct | app/parsers/resolution.py:550-570 | the keys left are pairwise distinct |
| EntityDedup.DedupOnlyDrops | app/parsers/resolution.py:550-570 | whatever is left was there before and not marked; only the mark is taken off |
| EntityDedup.DedupKeeps | app/parsers/resolution.py:550-570 | an unmarked item whose key no unmarked item before it has is never lost |
| EntityReferences.ReferencesSurvive | app/parsers/resolution.py:299-319 | a reference that named a service names a surviving one after clustering, merging, renaming and deduplication, if and only if it is not an untrimmed variant of a renamed name; names too short to compare included |
| EntityReferences.LostIff | app/parsers/resolution.py:520-543 | in terms of the services: a reference is lost if and only if it is untrimmed and, trimmed, names a member of a merged cluster whose canonical item has another name |
| EntityReferences.TrimmedReferencesSurvive | app/parsers/resolution.py:299-319 | a trimmed reference always survives |
| EntityReferences.PaddedReferenceLost | app/parsers/resolution.py:540-543 | every name renamed to another one leaves behind a lost reference, itself with a trailing space |
| EntityReferences.UntrimmedReferenceLost | app/parsers/resolution.py:540-543 | services "Tap" and "Tap plan", which the word tables make alike, and the reference "Tap " that is lost |
| EntityReferences.CanonicalSurvives | app/parsers/resolution.py:508-570 | the first of the richest items of every cluster survives under its own name; its filled fields are the union of its cluster's, its own values kept |
| EntityReferences.SurvivorsDistinct | app/parsers/resolution.py:299-319 | surviving services have pairwise distinct names |
| EntityReferences.NamesLeft | app/parsers/resolution.py:440-570 | a name is left exactly when an item of that name was not merged into another |
| EntityResolver.NamedItems | app/parsers/resolution.py:450-455 | the loop collects exactly the items with a long enough name, in order |
| EntityResolver.GrowClusters | app/parsers/resolution.py:464-477 | the nested loops assign each name to the first similar seed |
| EntityResolver.EnrichItem | app/parsers/resolution.py:510-518 | visiting the fields of a variant in any order fills exactly those the item lacks |
| EntityResolver.EnrichCanonical | app/parsers/resolution.py:508-518 | enriching in place by each variant in turn, never by the canonical item itself |
| EntityResolver.MergeOne | app/parsers/resolution.py:492-527 | merging one cluster in place: the whole new list and the added renames |
| EntityResolver.ClusterIndicesDistinct | app/parsers/resolution.py:464-477 | no item stands twice in one cluster |
| EntityResolver.ResolveList | app/parsers/resolution.py:440-485 | the list and the rename map after resolving, early returns included |
| EntityResolver.UpdateCrossReferences | app/parsers/resolution.py:534-543 | each reference found in the map is replaced, everything else is as it was |
| EntityResolver.DeduplicateList | app/parsers/resolution.py:550-570 | popping items while walking the list leaves exactly the deduplicated list |
| EntityResolver.Resolve | app/parsers/resolution.py:277-319 | services and pricing after the three phases |
| EntityResolver.PricesStillRefer | app/parsers/resolution.py:299-319 | every price left stems from a price there was, and names a surviving service if that one did and its reference is not lost |
| EntityResolver.PricesApart | app/parsers/resolution.py:550-570 | no two prices left name the same service |
| SitemapCrawl.Crawler.FetchSitemaps | app/collectors/discovery.py:180-243 | on any finite link graph, cycles included, the crawl ends; it returns the depth-first listing cut at the limit, and follows a prefix of the unlimited crawl, which lists all that is returned, and is all of it unless the limit is reached |
| SitemapCrawl.Crawler.FollowSubs | app/collectors/discovery.py:227-236 | the loop over nested sitemaps with its two cut-offs does the same from part of the way |
| SitemapCrawl.Crawler.FollowOne | app/collectors/discovery.py:230-235 | one nested crawl takes the loop one link further, or fills it to the limit |
| SitemapCrawl.Crawler.FetchSite | app/collectors/discovery.py:180-243 | nothing is requested twice; what comes back is the listing of the links followed, cut at the limit, each page from a reachable sitemap; below the limit the visited sitemaps are exactly the reachable ones, no page under a link that was followed is missing, and every nested link of a requested sitemap is requested: as it is, if it ends in .xml or has "sitemap" in it, or else as /sitemap.xml of its origin |
| SitemapCrawl.ResolveIsAddress | app/collectors/discovery.py:187-191 | the address requested for a link, in plain strings |
| SitemapCrawl.VisitsExactlyTheReachable | app/collectors/discovery.py:193-236 | an unlimited crawl visits a sitemap if and only if it is reachable from the root |
| SitemapCrawl.VisitsOnce | app/collectors/discovery.py:193-195 | no sitemap is visited twice however the links loop |
| SitemapCrawl.VisitsClosed | app/collectors/discovery.py:227-232 | everything linked from a visited sitemap has been seen by the end |
| SitemapCrawl.ListingHolds | app/collectors/discovery.py:216-225 | a page is listed if and only if some visited link lists it |
| DiscoveryDedup.DiscoveryEngine.Deduplicate | app/collectors/discovery.py:376-401 | one entry for each URL not seen before, whatever its case, in order of first sight, each the first of its spelling from the most trusted source; the best of its URL throughout when better sources come first |
| DiscoveryDedup.DiscoveryEngine.Consider | app/collectors/discovery.py:388-399 | one find is added, replaces the entry of its own spelling, or is dropped |
| DiscoveryDedup.LeadersFolded | app/collectors/discovery.py:388-399 | each URL not seen before has an entry, and no other has |
| DiscoveryDedup.LeadersApart | app/utilities/performance.py:83-104 | no two entries differ in case only |
| DiscoveryDedup.LeadersInOrder | app/collectors/discovery.py:386-401 | the entries come in the order their URLs were first found |
| Strings.RstripTakesSlashes | app/collectors/discovery.py:389-389 | exactly the slashes at the end of a URL go |
| Strings.LowerLetters | app/utilities/url_normalizer.py:97-98 | lower-casing takes each capital to its small letter and leaves the rest |
| DiscoveryDedup.BestIsBest | app/collectors/discovery.py:391-396 | no find of the same spelling has a better source than the one kept |
| DiscoveryDedup.BestIsFirstOfBest | app/collectors/discovery.py:378-396 | of each spelling the first find from the most trusted source is kept: robots, sitemap, nav, footer, meta, internal links and then any other |
| DiscoveryDedup.KeptIsBestIff | app/collectors/discovery.py:376-401 | the entry kept is the best of its URL, case aside, if and only if one of the best is spelt as the first is |
| DiscoveryDedup.BestFirstKeepsBest | app/collectors/discovery.py:376-401 | when better sources come first, every entry kept is the best of its URL, case aside |
| DiscoveryDedup.KeptIsBestAsDiscovered | app/collectors/discovery.py:66-80 | in the order discovery makes its finds, an entry kept is not the best of its URL if and only if an internal link came first and a meta link, never so spelt, came later |
| DiscoveryDedup.CaseHidesBest | app/collectors/discovery.py:390-396 | a find spelt with other capitals keeps out any better one |
| DiscoveryDedup.CaseHidesCanonical | app/collectors/discovery.py:378-396 | for instance an internal link keeps out the canonical link spelt with another capital |
| TokenBucket.RateLimiter.Acquire | app/collectors/fetcher.py:364-376 | the new state of the bucket and how long the caller sleeps |
| TokenBucket.RateLimiter.Serve | app/collectors/fetcher.py:358-376 | callers let in one after the other by the lock make a run of the bucket, whatever their times of arrival |
| TokenBucket.Credit | app/collectors/fetcher.py:366-376 | the potential argument: grants are paid by tokens, by the time since the last refill and by the time of the run, each once |
| TokenBucket.AdmissionBound | app/collectors/fetcher.py:364-376 | from any state, within any stretch of time at most rate + 2 * rate * length requests pass |
| TokenBucket.WindowBound | app/collectors/fetcher.py:358-376 | the same for any window of any run since construction |
| TextbookBound.BoundIsAttained | app/collectors/fetcher.py:366-374 | for every whole rate a run meets the bound with equality |
| TextbookBound.TextbookIff | app/collectors/fetcher.py:358-376 | for any rate and length, every run from construction has at most rate + rate * length grants if and only if a condition on rate and length holds |
| TextbookBound.WholeRates | app/collectors/fetcher.py:358-376 | for a whole rate, if and only if rate * length is below one |
| TextbookBound.ShortStretch | app/collectors/fetcher.py:364-376 | while less than a token is earned the textbook bound holds from any state and for any rate |
| TextbookBound.SlowStretch | app/collectors/fetcher.py:370-374 | below one token per second every call sleeps, and no more calls pass than their sleeps leave time for |
| SlidingWindow.RateLimitMiddleware.Dispatch | app/api/middleware.py:20-40 | the decision on pruned lists is the one a complete log gives, unless the overflow branch dropped the address within the last window; a rejection always is, so limit accepts lie within the last 60 seconds; no address is kept but those there were and the caller's; one is dropped for overflow exactly if a cleanup is due and finds more than 10000 active |
| SlidingWindow.RateLimitMiddleware.Serve | app/api/middleware.py:20-40 | a whole run answers as a limiter counting in the complete log, and any limit + 1 consecutive accepts are 60 seconds apart, as long as no address is dropped for overflow; that happens if and only if at some cleanup more than 10000 addresses are active by that log, and never while the known addresses and those of the run are at most 10000 |
| SlidingWindow.ActiveAgree | app/api/middleware.py:49-51 | while nothing was dropped the kept times and the complete log count equally many active addresses |
| SlidingWindow.OverflowReadmits | app/api/middleware.py:53-56 | for every positive limit, and just one address more than 10000, when each has used up its limit a cleanup drops one of them, which is let in again within 32 seconds |
| SlidingWindow.RateLimitMiddleware.Decide | app/api/middleware.py:29-38 | pruning, counting and appending for one address |
| SlidingWindow.RateLimitMiddleware.Cleanup | app/api/middleware.py:42-56 | stale addresses go, then the least recently active ones while more than 10000 are left, so none that goes was active later than one that stays; one is dropped for overflow exactly if more than that are active |
| SlidingWindow.RateLimitMiddleware.DropOverflow | app/api/middleware.py:53-56 | exactly the excess is dropped, oldest first |
| SlidingWindow.SpacedNext | app/api/middleware.py:29-38 | accepting keeps any limit + 1 consecutive accepts at least 60 seconds apart |
| SlidingWindow.Decision | app/api/middleware.py:29-31 | what counting the kept times says about the complete log |
| SlidingWindow.NeverDropped | app/api/middleware.py:20-38 | without overflow every address is spaced |
| HttpCache.HttpCacheLayer.constructor | app/collectors/fetcher.py:399-403 | an empty cache tracks an empty history |
| HttpCache.KnownAsGiven | app/collectors/fetcher.py:450-470 | of each validator of a page, the value known is that of the latest store since the page was last lost to give one that is not empty, or else that of the first such store |
| HttpCache.HttpCacheLayer.EvictExpired | app/collectors/fetcher.py:405-411 | exactly the expired pages go, from both dictionaries, and the others keep their order |
| HttpCache.HttpCacheLayer.Get | app/collectors/fetcher.py:413-427 | found exactly when cached and not expired, and then with each validator as the latest store since the page was last lost gave it, or else as the first did; never older than the time to live; whatever is owed is found |
| HttpCache.HttpCacheLayer.Store | app/collectors/fetcher.py:429-473 | the whole new cache; earlier validators stay where nothing is given, unless the call itself lost them; only expired pages and one with enough rivals are lost; fails exactly when there is no room for one page |
| HttpCache.HttpCacheLayer.MakeRoom | app/collectors/fetcher.py:438-446 | expired pages first, then the least recently used one |
| HttpCache.HttpCacheLayer.Remove | app/collectors/fetcher.py:515-517 | the page goes, its stamp stays, and the history is tracked on |
| HttpCache.HttpCacheLayer.Clear | app/collectors/fetcher.py:519-521 | all pages go, the stamps stay |
| HttpCache.TracksStored | app/collectors/fetcher.py:450-473 | storing keeps the cache exactly what the history knows, in order of use, within its limit, missing nothing owed, with exactly the stamps of the history, and for no more than its pages where nothing was removed |
| HttpCache.TracksHit | app/collectors/fetcher.py:426-427 | so does a hit |
| HttpCache.TracksExpired | app/collectors/fetcher.py:405-411 | so does dropping any expired pages in any order |
| HttpCache.TracksRemoved | app/collectors/fetcher.py:515-517 | so does removing a page |
| HttpCache.OldestHasRivals | app/collectors/fetcher.py:443-446 | the page evicted has as many rivals as there are other pages in the cache |
| HttpCache.RivalsUsedSince | app/collectors/fetcher.py:426-472 | the rivals of a page are the others found or stored since it last was itself |
| HttpCache.StoreWhenFull | app/collectors/fetcher.py:438-473 | a store into any full cache of unexpired pages takes out the least recently used, also when the page stored is in the cache, which then ends one short, or is the one taken out, which then keeps nothing of what was known |
| HttpCache.OneRivalSuffices | app/collectors/fetcher.py:438-446 | in a cache for two, one other page stored twice evicts |
| HttpCache.StampsPileUp | app/collectors/fetcher.py:515-517 | storing and removing pages leaves a stamp for each |
| HttpCache.LeftOver | app/collectors/fetcher.py:515-521 | the stamps without a page are exactly those of pages removed or cleared while cached and neither stored nor dropped since |
| LruCache.LRUCache.Get | app/utilities/performance.py:44-56 | returns nothing but the value last put, at most ttl old; returns it whenever fewer than max_size other keys were used since; a hit renews no stamp |
| LruCache.LRUCache.Put | app/utilities/performance.py:58-66 | stays within max_size, adds the value as most recent and invents nothing; fails exactly when there is no room |
| LruCache.LRUCache.Clear | app/utilities/performance.py:72-75 | empties the cache |
| LruCache.TracksStored | app/utilities/performance.py:58-66 | a put keeps the cache what the history of accesses says, so no key is evicted while fewer than max_size others were used |
| LruCache.TracksHit | app/utilities/performance.py:55-56 | so does a hit |
| LruCache.EvictedIsNotOwed | app/utilities/performance.py:63-64 | the key evicted has max_size rivals |
| LruCache.CachedParser.Parse | app/utilities/performance.py:164-207 | answers with the result of a call that was made under the same key, and with this call's own unless an earlier one under that key found something else; a remembered result is answered again; a result of None is parsed afresh |
| LruCache.ParseAll | app/utilities/performance.py:164-207 | in any run from an empty cache each call no earlier one clashes with gets its own result; where there is room and nothing expires each gets what was found first under its key, and all get their own if and only if none clashes with an earlier one |
| LruCache.FirstAnswersAreOwnIff | app/utilities/performance.py:196-204 | when calls are answered with what was found first under their keys, all get their own results if and only if none clashes with an earlier one |
| LruCache.KeysClash | app/utilities/performance.py:196-196 | two different calls with one key, and all calls that differ only in what the key leaves out |
| LruCache.KeysDiffer | app/utilities/performance.py:196-196 | calls that differ in only one of URL, page and strategies have different keys |
| LruCache.OneOrderSpoils | app/utilities/performance.py:196-204 | of any two calls that share a key and differ, made in one order or the other, the second gets the result of the first |
| LruCache.ParseClashing | app/utilities/performance.py:196-204 | where two calls clash and differ, the second is answered with the result of the first |
| QueueModel.RunInv | app/messagequeue/queue.py:139-194 | after any interleaving of publishers and workers every published message is in exactly one of queued, in flight, completed, failed and purged; queued ones are pending exactly if never retried and have retries left; deliveries stay within max_retries; the counters add up |
| QueueModel.ReachableInv | app/messagequeue/queue.py:319-404 | the same for every state the queue can get into |
| QueueModel.StepInv | app/messagequeue/queue.py:365-404 | each step of a worker or publisher keeps it |
| QueueModel.FinalStaysFinal | app/messagequeue/queue.py:157-194 | what is completed, given up or purged stays so and is not delivered again |
| QueueModel.GivenUpAfterThree | app/messagequeue/queue.py:167-183 | a message that had a handler is given up only after exactly three deliveries; until then, unless completed or purged, it waits or is being handled |
| QueueModel.AcceptedCompletes | app/messagequeue/queue.py:380-390 | without a purge, a message whose handler once accepts it is completed in the end |
| QueueModel.FailsOnlyWhenNeverAccepted | app/messagequeue/queue.py:365-404 | so what is given up, and was not refused, has had three deliveries, none of them accepted |
| QueueModel.NoneRefused | app/messagequeue/queue.py:373-378 | where every kind has a handler none is refused |
| QueueModel.FirstDeliveriesInOrder | app/messagequeue/queue.py:139-155 | messages are first delivered in publish order, whatever the interleaving |
| QueueModel.CleanCompletionsInOrder | app/messagequeue/queue.py:365-390 | with one worker, messages that never failed complete in publish order |
| QueueModel.CleanFromTheStart | app/messagequeue/queue.py:319-390 | the same for any run of publishers and one worker from the empty queue |
| QueueModel.ProcessNextCounts | app/messagequeue/queue.py:365-404 | a call on a non-empty queue consumes one message and acknowledges or rejects it |
| QueueModel.ProcessNextSpends | app/messagequeue/queue.py:167-183 | it uses up retries, whatever the handler answers |
| QueueModel.Drains | app/messagequeue/queue.py:365-413 | with nothing new published, three calls per queued message empty the queue, and then every message not purged is completed or given up |
| MessageQueue.InMemoryQueueBackend.Publish | app/messagequeue/queue.py:139-143 | the message joins the end of the queue |
| MessageQueue.InMemoryQueueBackend.Consume | app/messagequeue/queue.py:145-155 | the first message moves in flight, marked as processing; None exactly when the queue is empty |
| MessageQueue.InMemoryQueueBackend.Ack | app/messagequeue/queue.py:157-165 | an in-flight message is completed and leaves; others are untouched |
| MessageQueue.InMemoryQueueBackend.Nack | app/messagequeue/queue.py:167-183 | an in-flight message counts a retry and is put back or failed |
| MessageQueue.InMemoryQueueBackend.Purge | app/messagequeue/queue.py:189-194 | both stores are emptied, and the number queued is returned |
| MessageQueue.MessageQueue.Publish | app/messagequeue/queue.py:339-363 | publishing refines the state machine |
| MessageQueue.MessageQueue.StartNext | app/messagequeue/queue.py:367-378 | the part of a worker's call before the handler refines it, a missing handler included |
| MessageQueue.MessageQueue.FinishHandler | app/messagequeue/queue.py:380-404 | so does the part after it, for success, failure and exception |
| MessageQueue.MessageQueue.ProcessNext | app/messagequeue/queue.py:365-404 | an uninterrupted call, with its effect on the counters |
| MessageQueue.MessageQueue.ProcessAll | app/messagequeue/queue.py:406-413 | returning k acknowledged exactly k messages and rejected at most one; it stops early only at a rejection or an empty queue |
| MessageQueue.MessageQueue.Purge | app/messagequeue/queue.py:423-427 | purging refines the state machine: nothing is queued or in flight afterwards, and the number queued is returned |
| MergeModel.BestIsEarliestMaximum | app/parsers/strategy.py:505-517 | the value kept is the earliest of those offered with the greatest confidence |
| MergeModel.BestKeeps | app/parsers/strategy.py:317-319 | confidence never falls, and what is at least as confident as all offers stays |
| MergeModel.GroundTruthStays | app/parsers/strategy.py:466-486 | a value given at construction is never replaced by any run of merges |
| MergeModel.SocialTruthStays | app/parsers/strategy.py:519-526 | nor is a social link given at construction |
| MergeModel.ConfidenceBounds | app/parsers/strategy.py:96-160 | a computed confidence is positive and at most 0.999 |
| ConfidenceLaws.AgreementAdds | app/parsers/strategy.py:142-152 | each registered result with the same value adds 0.10 to what an offer is worth alone, up to three of them, cut at 0.999 |
| ConfidenceLaws.CompletenessAdds | app/parsers/strategy.py:131-140 | each field a result fills adds a seventh of 0.10 |
| ConfidenceLaws.ValidationAdds | app/parsers/strategy.py:154-160 | passing the check of its field adds 0.05 |
| ConfidenceLaws.TrustAdds | app/parsers/strategy.py:53-130 | by how much each class of strategies is trusted more than generic ones, by name or by name before a colon |
| ConfidenceLaws.SocialIsAlone | app/parsers/strategy.py:519-522 | a social link is worth what a scalar without agreement and check is, and an empty one nothing |
| ConfidenceLaws.ItemAdds | app/parsers/strategy.py:112-123 | an item is worth that and 0.15 in proportion to its filled fields |
| ConfidenceLaws.AgreementTurnsTheWinner | app/parsers/strategy.py:492-517 | a name that a generic and a semantic strategy agree on wins over one from the metadata, which would win over either alone |
| ConfidenceLaws.AgreementWins | app/parsers/strategy.py:142-152 | the two outcomes, with the agreeing result and without it |
| MergeModel.MergeInStep | app/parsers/strategy.py:528-576 | list and provenance of services, pricing, content and profiles stay equal index for index, without repeated keys |
| MergeModel.KeyedRunInStep | app/parsers/strategy.py:528-576 | they stay so over any run of merges, and the list is what the items of all parts in a row make of it |
| MergeModel.MergeKeepsFirstSeen | app/parsers/strategy.py:528-576 | from nothing, merging keeps just the first item under each key, in order of first sight |
| MergeModel.MergeLooseKeeps | app/parsers/strategy.py:581-615 | of the other nine lists the provenance is a subsequence, and no keyed item comes twice |
| MergeModel.LooseKeepsFirstSeen | app/parsers/strategy.py:593-615 | from nothing, such a list keeps just the items without a key and the first under each key, in order of first sight |
| MergeModel.LooseRunKeeps | app/parsers/strategy.py:581-615 | so over any run of merges |
| MergeModel.KeyedRunEntries | app/parsers/strategy.py:528-576 | every entry of the four lists holds an item of some part without its evidence, that part's strategy and the confidence of the item |
| MergeModel.LooseRunEntries | app/parsers/strategy.py:593-615 | and so does every entry of the nine |
| MergeModel.StaysPairedIff | app/parsers/strategy.py:593-615 | from equal lengths, a merge ends with equal lengths, and an entry for every item, if and only if each incoming item in its turn is a duplicate or passes both early returns of add_list_item |
| MergeModel.RunStaysPairedIff | app/parsers/strategy.py:581-615 | the same over any run of merges, for the items of all parts in a row |
| MergeModel.LooseListsCanPart | app/parsers/strategy.py:603-615 | three kinds of item that are kept without provenance: without a key, with an empty first key that hides the second, and with a second key that clashes with an entry |
| ParsedResult.ParsedResult.constructor | app/parsers/strategy.py:466-486 | values given at construction have provenance of confidence 1.0, and nothing else has |
| ParsedResult.ParsedResult.SetScalar | app/parsers/strategy.py:287-319 | raw value and provenance change together, only for a strictly more confident offer |
| ParsedResult.ParsedResult.MergeScalars | app/parsers/strategy.py:495-517 | every scalar has had its turn, and the two stores agree |
| ParsedResult.ParsedResult.MergeSocial | app/parsers/strategy.py:519-526 | so has every social link |
| ParsedResult.ParsedResult.MergeList | app/parsers/strategy.py:528-576 | one of the four lists after a merge, item for item, in step with its provenance, which only grows; no other list changes |
| ParsedResult.ParsedResult.MergeLooseList | app/parsers/strategy.py:593-615 | one of the nine lists and its provenance after a merge, entry for entry, with the condition under which it keeps an entry for every item; no other list changes |
| ParsedResult.ParsedResult.Merge | app/parsers/strategy.py:492-615 | one merge of all fields; the result is registered for later agreement |
| ParsedResult.ParsedResult.MergeAll | app/parsers/strategy.py:492-615 | after any sequence of merges each scalar and each social link is the best of the offers as computed at their turn; all thirteen lists and their provenance are what their own items make of them, no list holds two items of one natural key, and every item found has left its key behind, or itself if it may go without; and each of the nine keeps an entry for every item if and only if its items allow it |
| LinearTrend.LeastSquares | app/analytics/time_series.py:32-41 | no line has a smaller sum of squared residuals than the fitted one, and only it attains the minimum |
| LinearTrend.ErrorBeyondFit | app/analytics/time_series.py:32-41 | the error of any line exceeds that of the fit by the squared difference of the lines |
| LinearTrend.ResidualsBalance | app/analytics/time_series.py:37-41 | the residuals sum to zero |
| LinearTrend.ResidualsOrthogonal | app/analytics/time_series.py:34-41 | and are orthogonal to the index |
| LinearTrend.IndexDeviationPositive | app/analytics/time_series.py:35-36 | the denominator is positive from two values on, so the guard never acts |
| LinearTrend.ScoreNeedsNoClamp | app/analytics/time_series.py:50-52 | the residual sum is within the total, so clamping the score at zero never acts |
| LinearTrend.AffineIsExtrapolated | app/analytics/time_series.py:36-42 | values on a line are continued on that line |
| LinearTrend.VarianceIsErrorPerFreedom | app/analytics/time_series.py:44-45 | the variance is the squared error over all values but two, or over one |
| LinearTrend.TooFewForATrend | app/analytics/time_series.py:22-30 | with fewer than two values the one there is, or zero, is repeated |
| Smoothing.Smooth | app/analytics/time_series.py:67-70 | the loop computes the smoothed series |
| Smoothing.MeanDifference | app/analytics/time_series.py:73-77 | the mean of the last differences is the slope of one chord |
| Smoothing.TrendIsMeanDifference | app/analytics/time_series.py:73-77 | the trend is the mean of the last five differences, or of all if there are fewer, and zero for one value |
| Smoothing.ExponentialSmoothingForecast | app/analytics/time_series.py:61-90 | every prediction, cut off at zero, the empty series included |
| Smoothing.SmoothedWithin | app/analytics/time_series.py:67-70 | smoothing never leaves the range of the values |
| Smoothing.SmoothedLags | app/analytics/time_series.py:67-70 | on a line the smoothed value is short by a lag that depends on alpha and the position only |
| Smoothing.ForecastFallsShort | app/analytics/time_series.py:67-79 | and so is every forecast |
| Smoothing.AheadFollowsIff | app/analytics/time_series.py:61-79 | before the cut a line is continued if and only if it is flat, or alpha is one and there are two values |
| Smoothing.FollowsLineIff | app/analytics/time_series.py:61-90 | a prediction, cut off at zero, continues a line if and only if the line is not below zero there, and is flat, or alpha is one and there are two values, or it rises to zero just there; otherwise a rising line not below zero is predicted too low and a falling one too high |
| Smoothing.ForecastFollowsLine | app/analytics/time_series.py:61-90 | all predictions of a forecast continue a line if and only if its first and last point there are not below zero, and it is followed at all of them |
| TagTree.AncestorsFirst | app/parsers/page_segmenter.py:808-818 | in document order ancestors come before their descendants |
| TagTree.SiblingsInOrder | app/parsers/page_segmenter.py:808-818 | of two tags of one level the earlier comes first, with all that is below it |
| TagTree.Laminar | app/parsers/page_segmenter.py:843-844 | two tags around a third lie one within the other |
| TagTree.ParentIsNearest | app/parsers/page_segmenter.py:843-844 | the ancestors of a child are its parent and the ancestors of its parent |
| PageSegments.Collector.Add | app/parsers/page_segmenter.py:769-783 | an offered tag is a candidate once, exactly if it is a landmark or has 20 characters of text |
| PageSegments.Collector.AddAll | app/parsers/page_segmenter.py:785-806 | a pass adds exactly the offered tags that qualify, and those already there keep their depth |
| PageSegments.LandmarkPass | app/parsers/page_segmenter.py:785-789 | landmarks are collected wherever they stand |
| PageSegments.Passes | app/parsers/page_segmenter.py:785-806 | the four passes collect exactly the eligible tags, each once; the last adds nothing |
| PagePruning.DocumentOrder | app/parsers/page_segmenter.py:808-817 | the wanted tags are numbered by their place, though the loop stops early |
| PagePruning.CollectCandidates | app/parsers/page_segmenter.py:752-820 | the eligible tags in document order, none without a body |
| PagePruning.PostProcess | app/parsers/page_segmenter.py:822-846 | the loop with its covered identities, for any list |
| PagePruning.PruningIsExact | app/parsers/page_segmenter.py:822-846 | in document order, kept are exactly the landmarks and what lies inside no other candidate |
| PagePruning.DroppedIsCovered | app/parsers/page_segmenter.py:833-844 | whatever is dropped lies inside something kept |
| PagePruning.KeptAreApart | app/parsers/page_segmenter.py:833-844 | nothing kept lies inside anything kept, landmarks aside |
| PagePruning.Segment | app/parsers/page_segmenter.py:717-750 | the segments of any page are the landmarks, and the sections, articles and divs with 20 characters of text directly in the first body, if that stands in no landmark; each once, in document order, of depth 0; with no body or no candidate there is one fallback segment |
| UrlPath.SamePath | app/utilities/url_normalizer.py:108-113 | two paths normalise alike if and only if they name the same segments from the same start |
| UrlPath.NormalPathIdempotent | app/utilities/url_normalizer.py:108-113 | normalising a path twice changes nothing more |
| UrlPath.NormalPathShape | app/utilities/url_normalizer.py:108-113 | no double slash, and none at the end unless it is the root |
| UrlPath.NormalPathRenders | app/utilities/url_normalizer.py:108-113 | the canonical path is the one rendered from the segments |
| UrlQuery.SameQuery | app/utilities/url_normalizer.py:115-117 | two queries normalise alike if and only if they give every key but the tracking ones the same values in the same order |
| UrlQuery.NormalQueryValues | app/utilities/url_normalizer.py:115-117 | the values of every key are kept in order, except those of tracking keys, which go |
| UrlQuery.NormalQueryInOrder | app/utilities/url_normalizer.py:115-117 | the pairs come in the order of their keys, compared character by character |
| UrlQuery.NormalQueryIdempotent | app/utilities/url_normalizer.py:115-117 | normalising a query twice changes nothing more |
| UrlQuery.TrackingLosesValues | app/utilities/url_normalizer.py:176-182 | a URL counts as tracking if and only if normalising drops a parameter that is not blank |
| UrlQuery.BlankTrackingUnseen | app/utilities/url_normalizer.py:176-182 | a blank tracking parameter is dropped and not recognised |
| UrlNormalizer.SameUrl | app/utilities/url_normalizer.py:97-130 | two URLs normalise alike if and only if their schemes and parameters agree, their hosts spell the same one but for case, default port and "www.", and paths and queries say the same |
| UrlNormalizer.NormalHostIff | app/utilities/url_normalizer.py:97-106 | a host normalises to another if and only if it spells it: lower-cased, with or without "www." and default port, under the conditions that tell these forms apart |
| UrlNormalizer.FourSpellings | app/utilities/url_normalizer.py:97-106 | a host with neither has exactly four spellings |
| UrlNormalizer.PortsOfSchemes | app/utilities/url_normalizer.py:100-106 | http drops :80 and keeps :443, https the other way round, other schemes keep both, and "www." goes |
| UrlNormalizer.SpellingsOfPlainHost | app/utilities/url_normalizer.py:97-106 | the four spellings of a plain host under http and https |
| UrlNormalizer.NormalHostStable | app/utilities/url_normalizer.py:97-106 | normalising a host twice changes nothing more if and only if it has neither its default port nor "www." twice |
| UrlNormalizer.NormalizeStable | app/utilities/url_normalizer.py:97-130 | and the same condition decides it for whole URLs |
| ListDiff.KeyItems | app/services/reporting_service.py:242-252 | the loop keys the records, the last of each key counting and those without one left out |
| ListDiff.KeyedIsLast | app/services/reporting_service.py:242-252 | a key stands for the last record whose field prints as it, and for none exactly if it is empty or no record's does; a field that is missing or None prints as nothing |
| ListDiff.DiffLists | app/services/reporting_service.py:235-271 | the items are all changes between the keyed snapshots and nothing else, each once; additions first, then removals, then modifications |
| ListDiff.DiffLeadsAcross | app/services/reporting_service.py:254-271 | carrying the items out turns the one snapshot into the other |
| ListDiff.DiffLeadsBack | app/services/reporting_service.py:254-271 | read backwards they are a diff the other way, and lead back |
| ListDiff.EmptyIffSame | app/services/reporting_service.py:254-271 | there are none if and only if the snapshots are equal |
| ListDiff.DiffIsShortest | app/services/reporting_service.py:254-271 | no shorter list of changes leads across |

## Left out

- Foreign calls: HTTP, browsers, databases, Redis, the file system, language models and webhooks. A sitemap fetch is a total function from a URL to its links and pages; clocks are arguments that never go back.
- Floating point: numbers are reals, and the rounding of results is left out. Square roots, hence the confidence intervals and the standard deviation of the forecasts, are left out.
- SitemapCrawl.Crawler.FetchSitemaps: exceptions raised while resolving a link, and Python's recursion limit, are not modelled; lower-casing is that of ASCII.
- EntityModel.SimilaritySymmetric: the tokens a name normalises to are taken as given; the stop words and abbreviations are tables.
- EntityResolver.Resolve: covers services and the prices that refer to them; the other lists go through the same methods, but their references, the mapping to the service catalogue and a second reference field that holds a list are left out.
- EntityResolver.EnrichItem: dictionaries are values, so two positions of a list that share one dictionary are not modelled.
- DiscoveryDedup.DiscoveryEngine.Deduplicate: lower-casing is that of ASCII, and the count of skipped duplicates is left out.
- TokenBucket.RateLimiter.Acquire: the sleep is an answer to the caller, who waits at least that long before the lock is free again.
- SlidingWindow.RateLimitMiddleware.DropOverflow: among addresses last active at the same time any may go first.
- HttpCache.HttpCacheLayer.Get: returns the validators as a value, so the aliasing of the entry that a later store changes is left out, as are the wall-clock check of Cache-Control and the conditional headers.
- LruCache.CachedParser.Parse: the digest is taken to be injective, cached results are immutable, arguments are given by position, a parse has no effect but its result, and the lock is left out.
- MessageQueue.MessageQueue.ProcessNext: payloads, time stamps and log lines are left out; identifiers are fresh by assumption; the Redis backend is not part of this model.
- ParsedResult.ParsedResult.Merge: evidence such as DOM paths, pass numbers and the unused weight are left out, as are the format checks behind the validation bonus, which are a parameter, and the overall confidence.
- ParsedResult.ParsedResult.MergeSocial: agreement on a link is looked up under `social_` and its platform, which finds nothing; for a platform called `links` or `profiles` it would find another attribute, whose text no link is taken to equal.
- PagePruning.Segment: text nodes, the classification of segments and the fallback for exceptions are left out; the length of a tag's text is given with the tag.
- UrlNormalizer.SameUrl: URLs are given in parts with decoded queries; parsing, percent-encoding, resolving against a base and letters outside ASCII are left out.
- ListDiff.DiffLists: the loading of the two snapshots is left out.
- The tables of tracking parameters and of white space are taken over as they stand; no law says what is in them.
- Scoring, alerting, dashboards, migrations, the frontend and scripts: easy members or no invariant.
