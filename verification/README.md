# getgamepal core, modelled in Dafny

This project models the server-side core of getgamepal, a game discovery
site that sits in front of the IGDB metadata provider. It covers:

- the three-tier cache: memory, optional Redis and one JSON file per key,
  with hit/miss counters;
- the IGDB client: the access token with its 60-second early expiry, the
  sliding-window rate limiter and `queryIGDB`;
- the discovery section registry and its classics transform;
- both discovery aggregators: the newer `discover.ts` and the older
  `discovery.ts`. Each has cover-url formatting, the section metadata
  aggregate, section reads, the featured selection and the manual refresh;
- the game and franchise lookups;
- the monthly subscription catalogue, with its month-window route and its
  refresh route;
- the discover configuration cache and the discovery refresh route;
- the dashboard middleware;
- the pure display helpers of the game, search and discover pages.

Every operation is a pure function over an explicit state. `Cache.Tiers`
is the cache. `Client.Env` is the cache plus the process state the client
mutates: the held token, the limiter window, the rate-limit info, a
millisecond clock and a log of the requests sent. Everything outside the
process is a parameter:

- `Client.World` gives the identity endpoint's reply and, for each provider
  query, the provider's reply;
- the monthly catalogue file is a `Result` holding the parsed file or the
  error reading it;
- dates are given as the UTC year and month index;
- the classics cutoff is an integer.

The modules follow the source files: `Cache` (cache/index.ts), `Client`
(igdb/client.ts), `Sections` (igdb/sections.ts), `Discover`
(igdb/discover.ts), `Discovery` (igdb/discovery.ts), `Games` (games.ts),
`Franchises` (franchises.ts), `Monthly` (monthly/index.ts and the two
monthly routes), `DiscoverConfigCache`, `RefreshRoute`, `Middleware` and
`Presentation`. `Values`, `Strings`, `Seqs` and `Wrappers` are helpers.
`Values` holds the JSON values the cache stores and JavaScript
truthiness.

## Model

| member | source | states |
|---|---|---|
| Cache.Sanitize | src/lib/cache/index.ts:63-65 | Sanitising a key keeps its length. |
| Cache.FileNameChars | src/lib/cache/index.ts:63-65 | A cache file name is made of letters, digits and '_' up to the ".json" suffix. |
| Cache.FileNamesDiffer | src/lib/cache/index.ts:63-65 | Two keys of different lengths, or differing in a letter or digit, go to different files. |
| Cache.Get | src/lib/cache/index.ts:79-118 | A read returns what memory, then Redis when connected, then the key's file holds. A hit is promoted into memory and counts one hit; a miss counts one miss. No read changes what any later read sees. |
| Cache.Set | src/lib/cache/index.ts:120-146 | After a write the key reads back as the value. A key that differs and has a different file name reads as before. The counters are unchanged. |
| Cache.Delete | src/lib/cache/index.ts:148-169 | After a delete the key reads as absent. Every key with a different file name reads as before. |
| Cache.Keys | src/lib/cache/index.ts:171-177 | The keys listed are exactly the memory tier's keys, and each of them reads as present. |
| Cache.Clear | src/lib/cache/index.ts:179-209 | On a disk tier of ".json" files, every key reads as absent after a clear. Only files without the ".json" suffix survive, and the counters are reset. |
| Cache.OperationsPreserveWellFormed | src/lib/cache/index.ts:79-209 | get, set, delete and clear keep the disk tier made only of ".json" files. |
| Cache.GetCountsOnce | src/lib/cache/index.ts:83-115 | Each get adds exactly one to hits plus misses. |
| Cache.SetThenGet | src/lib/cache/index.ts:79-146 | A set followed by a get of the same key returns the value set, whether Redis is connected or not. |
| Cache.DeleteThenGet | src/lib/cache/index.ts:79-169 | A delete followed by a get returns null and counts a miss. |
| Cache.CollidingKeysShareDiskEntry | src/lib/cache/index.ts:63-65 | Two keys with the same sanitised name share one file. After setting one, a read of the other that misses memory and Redis returns the value. |
| Cache.CollidingKeysExist | src/lib/cache/index.ts:63-65 | The distinct keys "a:b" and "a_b" sanitise to the same name. |
| Cache.StaleRedisEntryAfterReconnect | src/lib/cache/index.ts:148-169 | A delete made while Redis is disconnected leaves the Redis entry. After reconnecting, the deleted value is served again. |
| Client.GetAccessToken | src/lib/igdb/client.ts:30-78 | An unexpired held token is returned with nothing else done. Otherwise an unexpired cached token is adopted. Otherwise exactly one credential exchange runs; its token expires 60 s before the provider says and is held and cached. An exchange that is refused fails with the held token and its expiry unchanged; the exchange and the cache read are counted. An empty granted token fails after being stored. Only the token's cache entry is written. |
| Client.Exchange | src/lib/igdb/client.ts:48-71 | One exchange is counted. A granted token is held and cached with expiry now + expires_in·1000 − 60000, and the call succeeds exactly when the token is non-empty. |
| Client.TokenIsReused | src/lib/igdb/client.ts:31-33 | After a call yields a non-empty token, the next call returns the same token without a cache read or an exchange. Two calls exchange credentials at most once. |
| Client.EmptyTokenIsAdoptedOnNextCall | src/lib/igdb/client.ts:61-71 | A grant without a token makes the first call raise. The empty token is already cached with a live expiry, so the second call returns it as valid without a new exchange. |
| Client.Prune | src/lib/igdb/client.ts:86-88 | Pruning drops only a prefix of the window, every dropped instant is older than now − 1000, and the first kept one is not. |
| Client.CheckRateLimit | src/lib/igdb/client.ts:83-100 | The new window is the pruned window plus the admission instant. Below 4 kept entries the call is admitted at once; otherwise it is admitted when the oldest kept entry is 1000 ms old. |
| Client.CheckRateLimitKeepsWindowSorted | src/lib/igdb/client.ts:83-100 | The limiter keeps its window sorted and never admits a call before any recorded instant. |
| Client.AdmitAll | src/lib/igdb/client.ts:83-100 | Successive admissions are never earlier than the calls they admit. |
| Client.LimiterAdmitsEveryCallAtTheBoundary | src/lib/igdb/client.ts:86-96 | After four admissions at t, any number of calls at t + 1000 are all admitted at t + 1000. The four old entries are exactly 1000 ms old and are not pruned, so the computed wait is 0. |
| Client.WindowFillsOnArrival | src/lib/igdb/client.ts:91-99 | Below four admissions a call at t proceeds at t and joins the window. |
| Client.ReplyResult | src/lib/igdb/client.ts:158-164 | A request succeeds exactly when the provider answers with a 2xx status, yielding the body. Any other status raises with that status. |
| Client.Dispatch | src/lib/igdb/client.ts:144-169 | A sent request is logged and its reply decides the result. The rate-limit headers are adopted. An ok body is cached under a non-empty key, and a failure writes nothing. |
| Client.Send | src/lib/igdb/client.ts:135-169 | A missing client id or token fails with nothing sent. Otherwise exactly this query is sent and its reply decides the result. Only the token entry and the given key are written. |
| Client.QueryIGDB | src/lib/igdb/client.ts:122-176 | A truthy value under a non-empty cache key is returned with no admission, token or request. A success with nothing sent happens only that way. A sent request yields its reply's result, and a success is cached under the key. |
| Client.QueryFailsOnErrorStatus | src/lib/igdb/client.ts:135-175 | When the cache does not answer, a non-ok reply always fails: either nothing was sent, or the query was sent and the call fails with that status after adopting its headers. No entry except the token's is written. |
| Sections.KeyOf | src/lib/igdb/discover.ts:12-14 | A section key is "discovery:" followed by the id. |
| Sections.KeepClassicGames | src/lib/igdb/sections.ts:101-113 | The classics filter keeps exactly the games released before the cutoff with more than 200 ratings. |
| Sections.ClassicsKeepOrder | src/lib/igdb/sections.ts:101-113 | The classics filter keeps the provider's order. |
| Sections.ClassicsMultiplicity | src/lib/igdb/sections.ts:101-113 | Each classic appears in the result as often as in the provider's list, and no other game appears. |
| Sections.ClassicsIdempotent | src/lib/igdb/sections.ts:101-113 | Filtering classics twice gives the same list as filtering once. |
| Sections.ApplyTransform | src/lib/igdb/sections.ts:101-113 | A section without a transform passes games through; the classics section filters them. |
| Sections.Transformed | src/lib/igdb/discover.ts:82-86 | A transform applies only to a list of games: anything else, or a section without a transform, passes through. A game list stays an ordered sub-list of itself. |
| Sections.GetSectionById | src/lib/igdb/sections.ts:131-133 | A section is found exactly when some registered section has the id, and the one found has that id. |
| Sections.GetSectionsMeta | src/lib/igdb/sections.ts:136-142 | One entry per registered section, in order, with its id, name and description. |
| Sections.SectionIdsDistinct | src/lib/igdb/sections.ts:28-128 | The six section ids are pairwise distinct. |
| Sections.OnlyClassicsTransforms | src/lib/igdb/sections.ts:28-128 | Only "classics" carries a transform. |
| Sections.GetSectionByIdFindsEachSection | src/lib/igdb/sections.ts:131-133 | Looking up each registered section's id finds that section. |
| Sections.DiscoveryKeysApart | src/lib/igdb/discover.ts:12-14 | The six section keys, the aggregate key and the last-refresh key never share a cache entry or a file. |
| Discover.RewriteCover | src/lib/igdb/discover.ts:22-30 | A game with a non-empty cover url gets only that url rewritten. Any other game is returned unchanged. |
| Discover.RewriteUrlKeepsOthers | src/lib/igdb/discover.ts:25-27 | A url holding neither "//images" nor "t_thumb" is not changed. |
| Discover.RewriteUrlProtocolRelative | src/lib/igdb/discover.ts:25-27 | A "//images" url without a thumbnail marker only gains "https:". |
| Discover.RewriteUrlSecure | src/lib/igdb/discover.ts:25-27 | An "https://images" url without a marker gains a second "https:", because the rewrite finds the "//images" inside its scheme. |
| Discover.RewriteUrlThumb | src/lib/igdb/discover.ts:25-27 | In a url without "//images", the first "t_thumb" becomes the size and the rest of the url is kept. |
| Discover.RewriteUrlProtocolRelativeThumb | src/lib/igdb/discover.ts:25-27 | A "//images" url whose first "t_thumb" is at i gains "https:", and that marker and only that one becomes the size. |
| Discover.FormatCoverUrl | src/lib/igdb/discover.ts:22-30 | The cover rewrite, with "t_thumb" becoming "t_cover_big_2x". |
| Discover.FormatCoverUrlNotIdempotent | src/lib/igdb/discover.ts:22-30 | Formatting twice is not formatting once: a "//images" url gains "https:" and then a second "https:". |
| Discover.FormatGames | src/lib/igdb/discover.ts:214-218 | Each game of a list is cover-formatted in place; anything but a game list gives no games. |
| Discover.RegistrySeparated | src/lib/igdb/discover.ts:12-14 | No two registry keys share an entry, and neither the token key nor the aggregate keys touch them. |
| Discover.Fresh | src/lib/igdb/discover.ts:76-86 | A section's fresh value exists exactly when its query succeeds. It is the transformed reply body. |
| Discover.FetchSection | src/lib/igdb/discover.ts:187-207 | After a miss, at most the section's query is sent. A success leaves the fresh list under the section key. A failure leaves the entry as it was, and only the token and section entries are written. |
| Discover.CountSectionCounts | src/lib/igdb/discover.ts:67-107 | A section's count is the length of the list it holds afterwards. A truthy entry is used with nothing sent; otherwise the entry is kept or refetched, with at most its query sent. |
| Discover.MissQueriesAgree | src/lib/igdb/discover.ts:67-107 | Which sections need fetching depends only on what their keys read. |
| Discover.ColdCountsFrame | src/lib/igdb/discover.ts:67-107 | The counting pass writes no key outside the sections' own keys and the token key. |
| Discover.ColdCountsAreLengths | src/lib/igdb/discover.ts:67-107 | Each count is the length of the list its section holds once the pass is over. |
| Discover.ColdCountsRefetched | src/lib/igdb/discover.ts:67-107 | Each section entry is kept, or, when it was not truthy, holds its fresh list. |
| Discover.ColdCountsSent | src/lib/igdb/discover.ts:67-107 | The pass only appends queries, and only for sections whose entries were not truthy, in order. |
| Discover.MetasOf | src/lib/igdb/discover.ts:100-106 | Each entry carries its section's id, name and description with its count and the timestamp. |
| Discover.RefreshStamp | src/lib/igdb/discover.ts:63-64 | The stamp is the cached last refresh time, or the current instant when none is truthy. |
| Discover.GetAllSectionsMeta | src/lib/igdb/discover.ts:51-125 | A truthy cached aggregate is returned with nothing changed. Otherwise one entry per registered section is built and cached. |
| Discover.ColdAllSectionsEntries | src/lib/igdb/discover.ts:63-107 | Built cold, the entries are the registered sections in order, each stamped with the last refresh time or the current instant. |
| Discover.ColdAllSectionsCounts | src/lib/igdb/discover.ts:67-107 | Built cold, each count is the length of the list its section holds afterwards. |
| Discover.ColdAllSectionsRefetched | src/lib/igdb/discover.ts:67-107 | Built cold, each section entry is kept or, when not truthy, refetched. |
| Discover.AllSectionsSent | src/lib/igdb/discover.ts:51-125 | The aggregate sends a section's query only when that section's entry was not truthy. |
| Discover.AllSectionsMetaFrame | src/lib/igdb/discover.ts:51-125 | The aggregate writes only section entries, the token and the aggregate itself. |
| Discover.Recount | src/lib/igdb/discover.ts:144-154 | Each entry gets the current length of its section's list and the stamp; the cache reads the same. |
| Discover.UpdateSectionMetaCounts | src/lib/igdb/discover.ts:130-166 | With a truthy aggregate of section entries cached, each entry is recounted and restamped and written back. Without a truthy aggregate nothing is written. Only the aggregate key changes. |
| Discover.FindMeta | src/lib/igdb/discover.ts:221-230 | An entry is found only in a list and carries the id. When none is found, no entry of the list has it. |
| Discover.Finish | src/lib/igdb/discover.ts:209-241 | A response exists exactly when the aggregate is a list. It carries the formatted games, the section's id, and a count equal to the number of games. |
| Discover.Respond | src/lib/igdb/discover.ts:221-239 | The response carries the section's id and a count equal to the number of games, whichever metadata entry it falls back to. Building it sends no request and changes no cache view. |
| Discover.GetSectionGames | src/lib/igdb/discover.ts:171-246 | An unregistered id yields null with nothing done. A response's section has the id and counts its games. A hit formats the cached list; a miss formats the section's fresh list. |
| Discover.AllSectionsMetaKeepsFreshEntry | src/lib/igdb/discover.ts:51-125 | A section entry that already holds its fresh list keeps it through the aggregate read. |
| Discover.RecountKeepsEntry | src/lib/igdb/discover.ts:202-206 | Recording the refresh time and recounting leave every section entry as it was. |
| Discover.SectionGamesMissEntry | src/lib/igdb/discover.ts:187-237 | After a miss that yields a response, the section entry holds the transformed list, which overwrote the raw list. |
| Discover.SectionGamesHitSendsNoQueryForIt | src/lib/igdb/discover.ts:180-221 | On a section hit, no query for that section is sent. The only queries sent are those of missing sections that the aggregate build fetches. |
| Discover.IdsOf | src/lib/igdb/discover.ts:259-264 | The ids listed are exactly the ids of the entries. |
| Discover.PickFeaturedEntries | src/lib/igdb/discover.ts:259-264 | Every featured id is a registered id of the walked list, with at most `limit` games and at least one when `limit` is positive. Earlier entries for unlisted ids are kept. |
| Discover.PickFeaturedWarm | src/lib/igdb/discover.ts:259-264 | On a warm cache the loop sends nothing, keeps what reads see, and builds exactly the map of each listed id with games to its first `limit` games. |
| Discover.SectionReader | src/lib/igdb/discover.ts:171-246 | The section read never moves the clock back. |
| Discover.SectionReaderRegisteredOnly | src/lib/igdb/discover.ts:175-178 | Only registered sections ever yield games. |
| Discover.WarmGames | src/lib/igdb/discover.ts:175-218 | An unregistered id has no warm games. |
| Discover.SectionGamesWarm | src/lib/igdb/discover.ts:181-241 | On a warm cache a section read sends nothing, changes no read, and yields the cached list formatted. |
| Discover.SectionReaderReadsWarm | src/lib/igdb/discover.ts:171-246 | On any cache that reads like a warm one, the section read yields that cache's warm games. |
| Discover.GetFeaturedGames | src/lib/igdb/discover.ts:251-277 | There is a response exactly when the walked aggregate is iterable. An aggregate that is not a list of section entries features nothing. |
| Discover.FeaturedEntries | src/lib/igdb/discover.ts:251-277 | Every featured id is a registered section of the walked list, with at most `limit` games and at least one when `limit` is positive. |
| Discover.FeaturedWarm | src/lib/igdb/discover.ts:251-277 | With the aggregate and every section cached, the result is the cached section list and exactly the warm featured map. |
| Discover.FeaturedWarmSendsNothing | src/lib/igdb/discover.ts:251-277 | With everything cached, the featured read sends no request and changes no read. |
| Discover.RefreshSectionsFrame | src/lib/igdb/discover.ts:294-325 | The refresh loop writes nothing outside the sections' own keys and the token. |
| Discover.RefreshSectionsEntries | src/lib/igdb/discover.ts:294-325 | After the loop, each section entry is absent or holds its fresh list, and it is absent whenever the provider fails. |
| Discover.RefreshAllSections | src/lib/igdb/discover.ts:282-337 | The refresh always reports success. |
| Discover.RefreshAllSectionsOutcome | src/lib/igdb/discover.ts:282-337 | After a refresh the aggregate is absent, because the recount finds nothing to update. The last refresh time is the instant the refresh started. Every section entry is absent or holds its fresh list. |
| Discover.RefreshAllSectionsStage | src/lib/igdb/discover.ts:286-325 | Before the recount, the aggregate is gone, the refresh time is the instant the refresh started, and every section entry is absent or holds its fresh list. |
| Discovery.FormatCoverUrl | src/lib/igdb/discovery.ts:22-30 | The cover rewrite, with "t_thumb" becoming "t_cover_big". |
| Discovery.FormatGames | src/lib/igdb/discovery.ts:127-131 | Each game of a list is cover-formatted; anything but a game list gives no games. |
| Discovery.CountCached | src/lib/igdb/discovery.ts:62-73 | Each entry counts what its section holds in the cache and is stamped, without changing any read. |
| Discovery.GetAllSectionsMeta | src/lib/igdb/discovery.ts:49-87 | A truthy cached aggregate is returned unchanged. Otherwise a list of section entries is built and cached, and nothing is ever sent. |
| Discovery.ColdAllSectionsEntries | src/lib/igdb/discovery.ts:62-76 | Built cold, there is one entry per registered section, counting what the section held before the call. |
| Discovery.AllSectionsMetaFrame | src/lib/igdb/discovery.ts:49-87 | Only the aggregate key is written. |
| Discovery.CountsAreCachedLengths | src/lib/igdb/discovery.ts:70 | A count is the cached list's length, and 0 without a truthy entry. |
| Discovery.AllSectionsMetaSettles | src/lib/igdb/discovery.ts:49-87 | A second read right after a cold one returns the aggregate the first built and changes nothing. |
| Discovery.GetSectionGames | src/lib/igdb/discovery.ts:92-152 | An unregistered id yields null. A response's section comes from the registry and counts the games. |
| Discovery.SectionGamesWarm | src/lib/igdb/discovery.ts:100-145 | A hit yields the cached list formatted, stamped with the last refresh time, and sends nothing. |
| Discovery.SectionGamesMiss | src/lib/igdb/discovery.ts:108-145 | After a miss, a response carries the fresh list formatted. The entry then holds that list and the refresh time is the response's stamp. A sent query that succeeds always gives a response. |
| Discovery.SectionReaderRegisteredOnly | src/lib/igdb/discovery.ts:92-99 | Only registered sections yield games. |
| Discovery.GetFeaturedGames | src/lib/igdb/discovery.ts:157-180 | There is a response exactly when the section list is iterable, and it returns that list as first read. |
| Discovery.FeaturedEntries | src/lib/igdb/discovery.ts:157-180 | Every featured id is a registered section of the returned list, with at most `limit` games. |
| Discovery.RefreshSectionsFrame | src/lib/igdb/discovery.ts:188-205 | The loop writes nothing outside the sections' keys and the token. |
| Discovery.RefreshSectionsEntries | src/lib/igdb/discovery.ts:188-205 | A completed loop leaves every fresh list cached. A failed one stops at a failing section: the sections before it are refreshed, and it and the rest are untouched. |
| Discovery.RefreshAllSectionsOutcome | src/lib/igdb/discovery.ts:185-218 | true means every section holds its fresh list, and the refresh time recorded is the instant the loop finished, which is also the final instant. false means a prefix was refreshed and the refresh time was not touched. A truthy aggregate survives either way. |
| Games.GameKeyApart | src/lib/games.ts:9 | A game's key never shares an entry with the token key. |
| Games.ProcessGame | src/lib/games.ts:40-66 | Reshaping keeps every field but the screenshots and franchises. Screenshots default to [], the main franchise is cut to id and name, and each listed franchise is cut likewise. |
| Games.ProcessGameIdempotent | src/lib/games.ts:40-66 | Reshaping twice equals reshaping once. |
| Games.GetGameById | src/lib/games.ts:8-72 | A truthy cached value is returned with nothing sent. On a miss, the game's query is sent. A non-empty reply yields its first game reshaped, which is cached. Any other reply yields null and stays cached. |
| Games.NotFoundIsCachedAsEmptyList | src/lib/games.ts:12-34 | An unknown game yields null, but the provider's empty list stays cached and is truthy. The next call returns that empty list, not null. |
| Games.FoundGameIsServedFromCache | src/lib/games.ts:12-16 | A non-null answer is served by the next call from the cache with no request. |
| Games.GetPopularGames | src/lib/games.ts:78-88 | The provider's reply, or [] when it is falsy. Only the token entry is ever written. |
| Franchises.FranchiseKeyApart | src/lib/franchises.ts:9 | A franchise page key never shares an entry with the token key. |
| Franchises.GetFranchiseById | src/lib/franchises.ts:8-92 | A truthy cached page is returned with nothing sent. Every built page is cached under its key, and nothing else but the token is written. |
| Franchises.FetchGames | src/lib/franchises.ts:63-89 | A success sends the games query, builds the page from the franchise header and the games the provider lists, and caches it. |
| Franchises.Record | src/lib/franchises.ts:27-32 | A franchise record exists exactly when the reply is a non-empty franchise list. |
| Franchises.FranchisePageContents | src/lib/franchises.ts:27-89 | A page built on a miss carries the record's header with the requested number and exactly the provider's games, in order. A franchise without games costs one request. |
| Franchises.FetchPageUnknown | src/lib/franchises.ts:29-32 | A franchise the provider does not return yields null. |
| Franchises.FetchPageNoGames | src/lib/franchises.ts:40-53 | A franchise without games gets a page with none, after one request. |
| Franchises.FetchPageWithGames | src/lib/franchises.ts:55-89 | A franchise with games gets a page of exactly the provider's games, after two requests. |
| Franchises.FetchPageGamesStage | src/lib/franchises.ts:29-63 | When a franchise with games is found, its lookup is the one request sent before the games query. |
| Franchises.UnknownFranchiseWritesNothing | src/lib/franchises.ts:29-32 | A null answer comes only from an unknown franchise, and only the token entry is written. |
| Franchises.PageIsServedFromCache | src/lib/franchises.ts:11-16 | A page once built is served by the next call with no request. |
| Monthly.PeriodKeyReadsBack | src/lib/monthly/index.ts:19-22 | A period key is the year's digits, '-', then two digits whose value is the month. |
| Monthly.PeriodKeyIsPeriodIff | src/app/api/monthly-games/refresh/route.ts:7-27 | For a month of the year, the key matches the YYYY-MM pattern exactly when the year has four digits. |
| Monthly.TwoDigitYearKey | src/app/api/monthly-games/refresh/route.ts:7-10 | Year 99 gives "99-01", which the pattern rejects. |
| Monthly.PeriodKeyInjective | src/lib/monthly/index.ts:19-22 | Distinct months of the year have distinct period keys. |
| Monthly.ReadPeriodMap | src/lib/monthly/index.ts:24-33 | A truthy cached map is used without reading the file. Otherwise the parsed file is cached and returned, and an unreadable file raises. Only the map's key is written, and one cache read is counted. |
| Monthly.GetMonth | src/lib/monthly/index.ts:35-51 | A truthy cached record is returned with one read. Otherwise the map is read as well and a found record is cached. Only the map and month keys are written. |
| Monthly.GetMonthFromMap | src/lib/monthly/index.ts:35-51 | On a miss, the result is null for a period absent from the map, and otherwise the record of the map's entries for the period. |
| Monthly.ForProvider | src/lib/monthly/index.ts:59-63 | The entries kept are those of the provider, in order, and no others. |
| Monthly.ForProviderMultiplicity | src/lib/monthly/index.ts:59-63 | Each of the provider's entries is kept as many times as the record lists it, and no other entry is kept. |
| Monthly.GetMonthForProvider | src/lib/monthly/index.ts:53-65 | A missing record gives null. With no provider the record is returned unchanged; otherwise only that provider's entries are kept. |
| Monthly.ForProviderIdempotent | src/lib/monthly/index.ts:59-63 | Filtering by provider twice equals filtering once. |
| Monthly.CurrentYearMonth | src/lib/monthly/index.ts:67-72 | The one-based month of the UTC month index, with the UTC year. |
| Monthly.WindowSize | src/app/api/monthly-games/route.ts:9-15 | The window is 12 months by default, the parsed count when positive, and empty otherwise. |
| Monthly.MonthsToFetch | src/app/api/monthly-games/route.ts:14-30 | One target per month of the window, the i-th being i months back, normalised into 1..12 with its period key. |
| Monthly.WindowPeriodsDistinct | src/app/api/monthly-games/route.ts:14-30 | The periods of a window never repeat. |
| Monthly.MonthKeysApart | src/lib/monthly/index.ts:39-41 | The records of two different months never share a cache entry. |
| Monthly.MonthKeyApartFromMap | src/lib/monthly/index.ts:24-41 | A month record never shares an entry with the period map. |
| Monthly.FetchMonths | src/app/api/monthly-games/route.ts:32-41 | Successful reads give one result per target, named by its period, each read counted in the cache statistics. |
| Monthly.FetchMonthsColdFailure | src/lib/monthly/index.ts:24-33 | With no map cached and an unreadable file, the window writes nothing. |
| Monthly.GetMonthFromCatalogue | src/lib/monthly/index.ts:35-65 | An uncached month is read from the catalogue the map serves, and the map still serves it afterwards. |
| Monthly.FetchMonthsFromCatalogue | src/app/api/monthly-games/route.ts:32-41 | From a readable catalogue with no month cached, every read succeeds with the catalogue's entries for its period. |
| Monthly.NonEmptyMonths | src/app/api/monthly-games/route.ts:44-49 | Only months with at least one entry are listed. |
| Monthly.NonEmptyMonthsExactly | src/app/api/monthly-games/route.ts:44-49 | With distinct periods, exactly the months with entries are listed, each with its entries. |
| Monthly.WindowResponseInWindow | src/app/api/monthly-games/route.ts:14-49 | Every month listed is a month of the window. |
| Monthly.WindowFromCatalogue | src/app/api/monthly-games/route.ts:14-49 | From a readable catalogue with nothing cached, a window month is listed exactly when the catalogue has entries for it, with exactly those entries. |
| Monthly.MonthlyGames | src/app/api/monthly-games/route.ts:5-61 | The route answers 200 or 500. A 200 lists only non-empty window months, and from a readable uncached catalogue it lists exactly the window months the catalogue fills. A 500 lists nothing, and with a cold map and an unreadable file it writes nothing. |
| Monthly.RefreshPeriod | src/app/api/monthly-games/refresh/route.ts:12-47 | A given period is accepted exactly when it matches YYYY-MM. Otherwise year and month are accepted exactly when both are numbers and the month is in 1..12. Otherwise the current month is used. |
| Monthly.RefreshMonthly | src/app/api/monthly-games/refresh/route.ts:12-65 | A bad period gets 400 and changes nothing. Otherwise both the map and the month entries are deleted and reported, and nothing else changes. |
| Monthly.RefreshYearMonthMatchesPattern | src/app/api/monthly-games/refresh/route.ts:29-50 | A four-digit year with a valid month is accepted, and its key matches the pattern. |
| Monthly.RefreshThenGetMonthReadsFile | src/app/api/monthly-games/refresh/route.ts:49-53 | After refreshing a month, the next read of it reflects what the catalogue file now says. |
| DiscoverConfigCache.ReadDiscoverConfig | src/lib/discover-config/index.ts:7-13 | A truthy cached configuration is returned unchanged. Otherwise the shipped one is cached and returned. Either way the key then holds the truthy result. |
| DiscoverConfigCache.SecondReadHits | src/lib/discover-config/index.ts:7-13 | An immediate second read returns the first read's configuration from the cache. |
| DiscoverConfigCache.RefreshConfig | src/app/api/discover/config/refresh/route.ts:6-13 | The configuration key is deleted and reported, and nothing else changes. |
| DiscoverConfigCache.ReadAfterRefreshServesShipped | src/app/api/discover/config/refresh/route.ts:6-13 | After the refresh route, the next read serves and caches the shipped configuration. |
| RefreshRoute.UnsetKeyRefusesAll | src/app/api/discover/refresh/route.ts:8-19 | With the secret unset or empty, every request is refused. |
| RefreshRoute.AdmittedIffKeyMatches | src/app/api/discover/refresh/route.ts:8-19 | A request is admitted exactly when it carries the configured, non-empty secret. |
| RefreshRoute.Report | src/app/api/discover/refresh/route.ts:34-42 | The report carries the last refresh time and counters that include its own read. |
| RefreshRoute.Post | src/app/api/discover/refresh/route.ts:5-56 | A refused request gets 401 with nothing run. A failed refresh gets 500. A successful one gets the report read after it. |
| RefreshRoute.AdmittedPostReportsRefreshStart | src/app/api/discover/refresh/route.ts:22-42 | Backed by the discover refresh, an admitted request always gets 200 and reports the instant the refresh started. |
| RefreshRoute.Get | src/app/api/discover/refresh/route.ts:59-81 | The report without a key check. It sends nothing and leaves the clock alone. |
| Middleware.Decide | src/middleware.ts:4-27 | Paths outside "/dashboard" pass. A redirect only happens under it, goes to the login page and carries the original path. |
| Middleware.DashboardPassesIffSessionCookie | src/middleware.ts:11-26 | A dashboard request passes exactly when some cookie name starts with "sb-" or a "supabase-auth-token" cookie is present. |
| Middleware.DashboardsIsGuarded | src/middleware.ts:6-22 | "/dashboards" is also guarded, because the prefix test is a plain string prefix. |
| Presentation.CoverSrc | src/components/GameCover.tsx:19-25 | There is a source exactly when the url is non-empty, and it always starts with "http". |
| Presentation.CoverSrcParts | src/components/GameCover.tsx:19-25 | The rewritten url follows "https:" when protocol-relative, nothing when it starts with "http", and "https://" otherwise. |
| Presentation.CoverSrcKeepsFinishedUrl | src/components/GameCover.tsx:19-25 | An "http…" url without a thumbnail marker is kept as it is. |
| Presentation.CardCover | src/app/discover/page.tsx:37-39 | A card has a cover exactly when the game has a non-empty url, and a url without "t_thumb" is kept. |
| Presentation.CardCoverLength | src/app/discover/page.tsx:37-39 | A card url is four characters longer exactly when the game's holds "t_thumb". |
| Presentation.Developers | src/components/GamePageContent.tsx:258-267 | There is a developer list exactly when the game lists companies, and it is no longer than that list. |
| Presentation.Publishers | src/components/GamePageContent.tsx:270-279 | There is a publisher list exactly when the game lists companies, and it is no longer than that list. |
| Presentation.CreditsAreFlaggedCompanies | src/components/GamePageContent.tsx:258-279 | The developers and publishers are exactly the companies flagged as such. A company flagged as both appears in both lists. |
| Presentation.AllDevelopersListedInOrder | src/components/GamePageContent.tsx:258-267 | When every company develops, all are listed, in order. |
| Presentation.DevelopersAreFlaggedEntries | src/components/GamePageContent.tsx:258-267 | The developers are the companies of the developer-flagged entries, in the game's order, each entry as many times as it is listed. |
| Presentation.PublishersAreFlaggedEntries | src/components/GamePageContent.tsx:270-279 | The publishers are the companies of the publisher-flagged entries, in the game's order, each entry as many times as it is listed. |
| Presentation.PlatformLabels | src/app/discover/page.tsx:18-27 | At most three labels, none of them empty. |
| Presentation.PlatformLabelsMembership | src/app/discover/page.tsx:18-27 | A label shows exactly when one of the first three platforms has it as abbreviation, or as name without one. |
| Presentation.FormatPlatforms | src/app/discover/page.tsx:18-27 | No platforms shows "Unknown platform". |
| Presentation.FormatPlatformsUsesFirstThree | src/app/discover/page.tsx:18-27 | Platforms past the third never show. |
| Presentation.UnlabelledPlatformsShowNothing | src/app/discover/page.tsx:18-27 | Platforms without any label show as "", not "Unknown platform". |
| Presentation.ValidSections | src/app/discover/page.tsx:148-151 | Only non-null sections holding games are kept. |
| Presentation.ValidSectionsMembership | src/app/discover/page.tsx:148-151 | A section is kept exactly when it is among the data and holds a game. |
| Presentation.ValidSectionsAppend | src/app/discover/page.tsx:148-151 | Filtering a concatenation filters each part and keeps the order. |
| Presentation.PlatformNames | src/components/GameSearchResult.tsx:31-36 | There is a line exactly when platforms are given. Up to three names are joined; more get "...". |
| Presentation.PlatformNamesTruncates | src/components/GameSearchResult.tsx:31-36 | More than three platforms show the first three's line followed by "...". |
| Presentation.NoPlatformsShowEmpty | src/components/GameSearchResult.tsx:31-36 | An empty platform list shows as "", not null. |

## Left out

- Entry expiry (TTL) in every cache tier is not modelled. Entries live until they are deleted or cleared.
- Network I/O, JSON parsing and `parseInt` are parameters: provider replies come from `Client.World`, the catalogue file is a `Result`, and query parameters arrive parsed.
- Concurrency is not modelled. Interleaved requests, in-flight cache writes and the fire-and-forget Redis and file writes each run to completion in order.
- Console logging, the `try`/`catch` blocks whose body cannot raise in the model, and the text of provider queries are not modelled. A query is named only by its kind and argument.
- The order of the keys in the featured map is not modelled, because the model uses a Dafny map.
- Instants are integers, ISO time stamps are the opaque value `Stamp(now)`, and the classics cutoff is a parameter. Floating point and date formatting are not modelled.
- Client.QueryIGDB: `World.api` is deterministic and `World.tokenReply` is a single reply per run, so a refetch of the same query gets the same reply. In particular, Discover.RefreshAllSections refetches each section and gets the same reply its earlier fetch got.
- Client.CheckRateLimit: the timer is taken to fire exactly at the oldest kept instant plus 1000 ms, whereas a real timer fires at that instant or later. `Env.now` advances only through the limiter.
- Sections.Transformed: only game lists count as arrays. A reply that is another kind of array is passed through untransformed.
- Discover.FormatGames: only game lists are formatted. Any other reply formats to no games.
- Games.GetGameById: a truthy reply that is not a list of games yields null. The source does not return null for such a reply. An object or number reply passes the `length === 0` test, because its `length` is undefined. Its element 0 is then undefined, and reading `game.name` throws, so `getGameById` rejects. A string reply is taken as a game: its first character is reshaped and returned. A non-empty list of franchise or metadata records has its first record reshaped and returned.
- Franchises.GetFranchiseById: a truthy reply that is not a non-empty franchise list yields null, through Franchises.Record. The source does not return null for such a reply. An object or number reply passes the `length === 0` test at franchises.ts:29, and reading `franchise.name` of its undefined element 0 throws. A string reply has its first character used as the franchise and gets an empty page. A non-empty list of other records has its first record used as the franchise: a page is built from it, empty when it carries no `games`.
- Franchises.FetchGames: only a games reply that is a game list builds a page. A list of franchise or section metadata records raises `Malformed`. The source maps any array, so such a list becomes a page of those records, each with its `cover` set to null, and the page is cached. Replies that are not arrays raise in both, because a string, number, object or null cannot be mapped.
- Discovery.FormatGames: only game lists are formatted. A list of franchise or section metadata records formats to no games. The source maps any `Array.isArray` value through `formatCoverUrl`, which returns a record without a cover unchanged.
- Discover.UpdateSectionMetaCounts: a truthy aggregate that is not a list of section metadata entries is left as it is. The source spreads any iterable aggregate, such as a game list or a string. It reads "discovery:" plus each element's `id` (undefined for a character), and writes back the rebuilt list with the counts and the refresh time.
- Discover.GetFeaturedGames: the default `limit` of 3 is not modelled. The caller always passes `limit`.
- Cache.Sanitize: replaces each Unicode scalar value with one '_'. The source works on UTF-16 code units, so a character outside the basic plane becomes "__" there.
- Monthly.FetchMonths: the window's reads run one after another rather than through `Promise.all`. The first failure fails the route, as a rejected `Promise.all` does.
- Monthly.MonthlyGames: the `[year]/[month]` route and the refresh route's `catch` → 500 path are not modelled.
- The refresh routes' own `catch` → 500 paths are not modelled. Their bodies raise only from I/O.
- The middleware's `matcher` configuration and the URL encoding of the redirect parameter are not modelled. The redirect carries the raw path.
- Client.UpdateRateLimitInfo has no contract of its own. What it records is stated through Client.Dispatch and Client.QueryIGDB.
- The Supabase library calls, the rating and date formatting of the discover page, and the React rendering are not modelled.
