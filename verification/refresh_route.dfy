/**
 * The discovery refresh route: `POST` refreshes every section when the
 * request carries the shared secret, `GET` reports the last refresh time
 * and the cache counters to anyone.
 */
module RefreshRoute {
  import opened Wrappers
  import opened Values
  import opened Sections
  import opened Client
  import Cache
  import Discover

  /** The response: its HTTP status and, on success, the last refresh time (None for null) and the cache counters. */
  datatype Response = Response(status: int, lastRefresh: Option<Value>, stats: Option<Cache.Stats>)

  /**
   * The guard: a request is refused when its "x-api-key" header is missing
   * (None) or empty, or differs from the configured key, an unset key
   * (None) differing from every header.
   */
  predicate Refused(header: Option<string>, expected: Option<string>) {
    header.None? || header.value == "" || Some(header.value) != expected
  }

  /** With the key unset or empty, every request is refused. */
  lemma UnsetKeyRefusesAll(header: Option<string>, expected: Option<string>)
    requires expected.None? || expected == Some("")
    ensures Refused(header, expected)
  {
  }

  /** A request is let through exactly when it carries the configured key and that key is not empty. */
  lemma AdmittedIffKeyMatches(header: Option<string>, expected: Option<string>)
    ensures !Refused(header, expected) <==> expected.Some? && expected.value != "" && header == expected
  {
  }

  /** The last refresh time and the counters, read after `e`: `getLastRefreshTime()` then `getStats()`. */
  function Report(e: Env): (r: (Response, Env))
    ensures r.0.status == 200 && r.0.lastRefresh == Cache.View(e.cache, LastRefreshKey)
    ensures r.0.stats == Some(Cache.GetStats(r.1.cache))
    ensures r.0.stats.value.hits + r.0.stats.value.misses == e.cache.hits + e.cache.misses + 1
    ensures forall k {:trigger Cache.View(r.1.cache, k)} :: Cache.View(r.1.cache, k) == Cache.View(e.cache, k)
  {
    Cache.GetCountsOnce(e.cache, LastRefreshKey);
    var last := Lookup(e, LastRefreshKey);
    (Response(200, last.value, Some(Cache.GetStats(last.env.cache))), last.env)
  }

  /**
   * `POST`, with `refresh` standing for `refreshAllSections`: a refused
   * request gets 401 and nothing runs; otherwise the refresh runs, a false
   * outcome gets 500, and a true one the report read after it.
   */
  function Post(e: Env, header: Option<string>, expected: Option<string>, refresh: Env -> Discover.Refreshed): (r: (Response, Env))
    ensures Refused(header, expected) ==> r == (Response(401, None, None), e)
    ensures !Refused(header, expected) && !refresh(e).ok ==> r == (Response(500, None, None), refresh(e).env)
    ensures !Refused(header, expected) && refresh(e).ok ==> r == Report(refresh(e).env)
    ensures r.0.status in {200, 401, 500}
  {
    if Refused(header, expected) then (Response(401, None, None), e)
    else
      var run := refresh(e);
      if !run.ok then (Response(500, None, None), run.env)
      else Report(run.env)
  }

  /**
   * With the section refresh of the discover page behind it, an admitted
   * `POST` always succeeds and reports the instant the refresh started.
   */
  lemma AdmittedPostReportsRefreshStart(e: Env, w: World, cutoff: int, header: Option<string>, expected: Option<string>)
    requires !Refused(header, expected)
    ensures var r := Post(e, header, expected, (env: Env) => Discover.RefreshAllSections(env, w, cutoff)).0;
            r.status == 200 && r.lastRefresh == Some(Stamp(e.now))
  {
    Discover.RefreshAllSectionsOutcome(e, w, cutoff);
  }

  /** `GET`: the report, with no key check. */
  function Get(e: Env): (r: (Response, Env))
    ensures r.0.status == 200 && r.0.lastRefresh == Cache.View(e.cache, LastRefreshKey)
    ensures r.1.now == e.now && r.1.sent == e.sent
  {
    Report(e)
  }
}
