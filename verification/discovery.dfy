/**
 * The older discovery aggregator, kept alongside the newer one: the same
 * cache keys and section registry, but a metadata aggregate built from the
 * cache alone, a section read that never touches the aggregate, a featured
 * selection that returns the section list it walked, and a manual refresh
 * that stops at the first failing section.
 */
module Discovery {
  import opened Wrappers
  import opened Values
  import opened Seqs
  import opened Sections
  import opened Client
  import Cache
  import Discover

  // ---------------------------------------------------------------- covers

  /** `formatCoverUrl` of this aggregator: the cover rewrite to the "t_cover_big" size. */
  function FormatCoverUrl(g: Game): (r: Game)
    ensures r == g.(cover := r.cover)
    ensures g.cover.None? || g.cover.value.url == "" ==> r == g
    ensures g.cover.Some? && g.cover.value.url != "" ==>
              r.cover == Some(g.cover.value.(url := Discover.RewriteUrl(g.cover.value.url, "t_cover_big")))
  {
    Discover.RewriteCover(g, "t_cover_big")
  }

  /** The games of a section value, cover-formatted; anything but a game list gives none. */
  function FormatGames(v: Value): (r: seq<Game>)
    ensures v.Games? ==> |r| == |v.games| && forall i :: 0 <= i < |r| ==> r[i] == FormatCoverUrl(v.games[i])
    ensures !v.Games? ==> r == []
  {
    if v.Games? then Map(v.games, FormatCoverUrl) else []
  }

  // ---------------------------------------------------------------- the metadata aggregate

  /** The entry of the aggregate for section `s` when cache `c` is read at instant `now`. */
  function MetaFor(s: Section, c: Cache.Tiers, now: int): SectionMeta {
    SectionMeta(s.id, s.name, s.description, CountOf(ViewOrNull(c, KeyOf(s.id))),
                OrElse(Cache.View(c, LastRefreshKey), Stamp(now)))
  }

  datatype MetaList = MetaList(metas: seq<SectionMeta>, env: Env)

  /**
   * The loop of the cold `getAllSectionsMeta`: per section, one read of its
   * entry and one of the last refresh time; no fetch.
   */
  function CountCached(e: Env, secs: seq<Section>): (r: MetaList)
    decreases |secs|
    ensures |r.metas| == |secs|
    ensures forall i :: 0 <= i < |secs| ==> r.metas[i] == MetaFor(secs[i], e.cache, e.now)
    ensures r.env == e.(cache := r.env.cache) && forall k {:trigger Cache.View(r.env.cache, k)} :: Cache.View(r.env.cache, k) == Cache.View(e.cache, k)
  {
    if secs == [] then MetaList([], e)
    else
      var got := Lookup(e, KeyOf(secs[0].id));
      var stamp := Discover.RefreshStamp(got.env);
      var m := SectionMeta(secs[0].id, secs[0].name, secs[0].description, CountOf(got.value.GetOr(Null)), stamp.value);
      var rest := CountCached(stamp.env, secs[1..]);
      MetaList([m] + rest.metas, rest.env)
  }

  /**
   * `getAllSectionsMeta`: a truthy cached aggregate as it is; otherwise one
   * entry per registered section, in order, counting the list the section
   * holds in the cache, and the aggregate is cached. The provider is never
   * asked.
   */
  function GetAllSectionsMeta(e: Env): (r: Discover.Valued)
    ensures Hit(e.cache, AllSectionsKey) ==>
              r.value == Cache.View(e.cache, AllSectionsKey).value && Discover.SameViews(r.env.cache, e.cache)
    ensures !Hit(e.cache, AllSectionsKey) ==> r.value.Metas? && Cache.View(r.env.cache, AllSectionsKey) == Some(r.value)
    ensures r.env == e.(cache := r.env.cache)
  {
    var agg := Lookup(e, AllSectionsKey);
    if agg.value.Some? && Truthy(agg.value.value) then Discover.Valued(agg.value.value, agg.env)
    else
      var cold := CountCached(agg.env, Registry);
      Discover.Valued(Metas(cold.metas), Store(cold.env, AllSectionsKey, Metas(cold.metas)))
  }

  /**
   * Built cold, the aggregate has one entry per registered section, in
   * order, counting what the section's entry held before the call and
   * stamped with the last refresh time, or the current instant when none is
   * cached.
   */
  lemma ColdAllSectionsEntries(e: Env)
    requires !Hit(e.cache, AllSectionsKey)
    ensures var r := GetAllSectionsMeta(e).value;
            |r.metas| == |Registry| && forall i :: 0 <= i < |Registry| ==> r.metas[i] == MetaFor(Registry[i], e.cache, e.now)
  {
    var agg := Lookup(e, AllSectionsKey);
    var cold := CountCached(agg.env, Registry);
    assert GetAllSectionsMeta(e).value == Metas(cold.metas);
    forall i | 0 <= i < |Registry|
      ensures cold.metas[i] == MetaFor(Registry[i], e.cache, e.now)
    {
      assert Cache.View(agg.env.cache, KeyOf(Registry[i].id)) == Cache.View(e.cache, KeyOf(Registry[i].id));
      assert Cache.View(agg.env.cache, LastRefreshKey) == Cache.View(e.cache, LastRefreshKey);
    }
  }

  /** `getAllSectionsMeta` of this aggregator writes nothing but the aggregate. */
  lemma AllSectionsMetaFrame(e: Env)
    ensures forall k {:trigger Cache.View(GetAllSectionsMeta(e).env.cache, k)} :: Cache.Apart(k, AllSectionsKey) ==> Cache.View(GetAllSectionsMeta(e).env.cache, k) == Cache.View(e.cache, k)
  {
  }

  /** A count is the length of the section's cached list, and 0 when the entry holds nothing truthy. */
  lemma CountsAreCachedLengths(s: Section, c: Cache.Tiers, now: int)
    ensures Hit(c, KeyOf(s.id)) ==> MetaFor(s, c, now).count == CountOf(Cache.View(c, KeyOf(s.id)).value)
    ensures !Hit(c, KeyOf(s.id)) ==> MetaFor(s, c, now).count == 0
  {
  }

  /** A second read right after a cold one returns the aggregate the first one built, and changes nothing. */
  lemma AllSectionsMetaSettles(e: Env)
    ensures var first := GetAllSectionsMeta(e);
            var second := GetAllSectionsMeta(first.env);
            Truthy(first.value) ==> second.value == first.value && Discover.SameViews(second.env.cache, first.env.cache)
  {
  }

  // ---------------------------------------------------------------- one section's games

  /**
   * `getSectionGames(id)`: null for an unregistered id; otherwise the
   * section's cached list if truthy, else a fetch (null when it raises)
   * followed by a new last refresh time. The section entry of the response
   * is built from the registry, never from the aggregate.
   */
  function GetSectionGames(e: Env, w: World, cutoff: int, id: string): (r: Discover.Response)
    ensures GetSectionById(id).None? ==> r == Discover.Response(None, e)
    ensures r.value.Some? ==>
              var s := GetSectionById(id).value;
              var m := r.value.value.section;
              && m.id == id && m.name == s.name && m.description == s.description
              && m.count == |r.value.value.games|
    ensures r.env.now >= e.now
  {
    match GetSectionById(id)
    case None => Discover.Response(None, e)
    case Some(s) =>
      var got := Lookup(e, KeyOf(s.id));
      if got.value.Some? && Truthy(got.value.value) then
        var games := FormatGames(got.value.value);
        var stamp := Discover.RefreshStamp(got.env);
        Discover.Response(Some(Discover.DiscoveryResponse(SectionMeta(s.id, s.name, s.description, |games|, stamp.value), games)), stamp.env)
      else
        var f := Discover.FetchSection(got.env, w, cutoff, s);
        if f.result.Failure? then Discover.Response(None, f.env)
        else
          var refreshed := Store(f.env, LastRefreshKey, Stamp(f.env.now));
          var games := FormatGames(f.result.value);
          Discover.Response(Some(Discover.DiscoveryResponse(SectionMeta(s.id, s.name, s.description, |games|, Stamp(refreshed.now)), games)), refreshed)
  }

  /**
   * A section read of this aggregator answered by the cache: the cached
   * games formatted, stamped with the last refresh time, nothing sent and no
   * entry changed.
   */
  lemma SectionGamesWarm(e: Env, w: World, cutoff: int, id: string)
    requires GetSectionById(id).Some? && Hit(e.cache, KeyOf(id))
    ensures var r := GetSectionGames(e, w, cutoff, id);
            && r.value.Some?
            && r.value.value.games == FormatGames(Cache.View(e.cache, KeyOf(id)).value)
            && r.value.value.section.lastUpdated == OrElse(Cache.View(e.cache, LastRefreshKey), Stamp(e.now))
            && r.env.sent == e.sent && Discover.SameViews(r.env.cache, e.cache)
  {
  }

  /**
   * A section read of this aggregator that misses: a response carries the
   * section's fresh list, formatted; the entry then holds that list and the
   * refresh time is the response's timestamp. When the query was sent and
   * the provider answered, there is a response.
   */
  lemma SectionGamesMiss(e: Env, w: World, cutoff: int, id: string)
    requires GetSectionById(id).Some? && !Hit(e.cache, KeyOf(id))
    ensures var r := GetSectionGames(e, w, cutoff, id);
            var f := Discover.Fresh(w, cutoff, GetSectionById(id).value);
            && (r.value.Some? ==>
                  && f.Success? && r.value.value.games == FormatGames(f.value)
                  && Cache.View(r.env.cache, KeyOf(id)) == Some(f.value)
                  && Cache.View(r.env.cache, LastRefreshKey) == Some(r.value.value.section.lastUpdated))
            && (f.Success? && |r.env.sent| > |e.sent| ==> r.value.Some?)
  {
    var s := GetSectionById(id).value;
    Discover.RegisteredKeyApart(s);
    var got := Lookup(e, KeyOf(s.id));
    var f := Discover.FetchSection(got.env, w, cutoff, s);
    if f.result.Success? {
      var refreshed := Store(f.env, LastRefreshKey, Stamp(f.env.now));
      assert Cache.View(refreshed.cache, KeyOf(id)) == Cache.View(f.env.cache, KeyOf(id));
    }
  }

  // ---------------------------------------------------------------- featured games

  /** `getSectionGames` of this aggregator, as its featured loop calls it. */
  function SectionReader(w: World, cutoff: int): (get: (Env, string) -> Discover.Response)
    ensures Discover.Monotone(get)
  {
    (e: Env, id: string) => GetSectionGames(e, w, cutoff, id)
  }

  /** The reader yields games only for registered sections. */
  lemma SectionReaderRegisteredOnly(w: World, cutoff: int)
    ensures Discover.RegisteredOnly(SectionReader(w, cutoff))
  {
  }

  /**
   * `getFeaturedGames(limit)` of this aggregator: walk the section list,
   * collect each section's first `limit` games, and return the section list
   * as first read, without reading it again. A list whose entries are not
   * section metadata (or a string) adds nothing; any other value makes the
   * walk raise and the call yields null.
   */
  function GetFeaturedGames(e: Env, w: World, cutoff: int, limit: int): (r: Discover.FeaturedOut)
    ensures r.value.Some? <==> Discover.Iterable(GetAllSectionsMeta(e).value)
    ensures r.value.Some? ==> r.value.value.sections == GetAllSectionsMeta(e).value
    ensures r.value.Some? && !GetAllSectionsMeta(e).value.Metas? ==> r.value.value.featured == map[]
    ensures r.env.now >= e.now
  {
    var first := GetAllSectionsMeta(e);
    if !Discover.Iterable(first.value) then Discover.FeaturedOut(None, first.env)
    else
      var picked := if first.value.Metas? then Discover.PickFeatured(first.env, SectionReader(w, cutoff), first.value.metas, limit, map[])
                    else Discover.Picked(map[], first.env);
      Discover.FeaturedOut(Some(Discover.Featured(first.value, picked.featured)), picked.env)
  }

  /**
   * Every featured id is a registered section listed in the returned
   * section list, with at most `limit` games, and at least one when `limit`
   * is positive.
   */
  lemma FeaturedEntries(e: Env, w: World, cutoff: int, limit: int)
    ensures var r := GetFeaturedGames(e, w, cutoff, limit).value;
            r.Some? ==> forall k :: k in r.value.featured ==>
              r.value.sections.Metas? && Discover.Featurable(k, r.value.featured[k], r.value.sections.metas, limit)
  {
    var first := GetAllSectionsMeta(e);
    if first.value.Metas? {
      SectionReaderRegisteredOnly(w, cutoff);
      Discover.PickFeaturedEntries(first.env, SectionReader(w, cutoff), first.value.metas, limit, map[]);
    }
  }

  // ---------------------------------------------------------------- manual refresh

  /**
   * The loop of `refreshAllSections` of this aggregator: each section's
   * query is sent without a cache key and the transformed result stored
   * under the section's key; the first failure ends the loop with false.
   */
  function RefreshSections(e: Env, w: World, cutoff: int, secs: seq<Section>): (r: Discover.Refreshed)
    ensures r.env.now >= e.now
    decreases |secs|
  {
    if secs == [] then Discover.Refreshed(true, e)
    else
      var q := QueryIGDB(e, w, SectionQuery(secs[0].id), None);
      if q.result.Failure? then Discover.Refreshed(false, q.env)
      else RefreshSections(Store(q.env, KeyOf(secs[0].id), Transformed(secs[0], q.result.value, cutoff)), w, cutoff, secs[1..])
  }

  /** The first `n` sections of `secs` hold their fresh lists in cache `c`. */
  predicate FreshUpTo(c: Cache.Tiers, w: World, cutoff: int, secs: seq<Section>, n: int) {
    forall i :: 0 <= i < n && i < |secs| ==>
      Discover.Fresh(w, cutoff, secs[i]).Success? && Cache.View(c, KeyOf(secs[i].id)) == Some(Discover.Fresh(w, cutoff, secs[i]).value)
  }

  /** The sections of `secs` from index `n` on read the same in caches `c0` and `c1`. */
  predicate KeptFrom(c0: Cache.Tiers, c1: Cache.Tiers, secs: seq<Section>, n: int) {
    forall i :: n <= i < |secs| && 0 <= i ==> Cache.View(c1, KeyOf(secs[i].id)) == Cache.View(c0, KeyOf(secs[i].id))
  }

  /** The refresh loop writes no key outside the sections' own keys. */
  lemma {:induction false} RefreshSectionsFrame(e: Env, w: World, cutoff: int, secs: seq<Section>)
    ensures forall k {:trigger Cache.View(RefreshSections(e, w, cutoff, secs).env.cache, k)} :: Discover.Outside(k, secs) ==> Cache.View(RefreshSections(e, w, cutoff, secs).env.cache, k) == Cache.View(e.cache, k)
    decreases |secs|
  {
    if secs != [] {
      var q := QueryIGDB(e, w, SectionQuery(secs[0].id), None);
      if q.result.Success? {
        var next := Store(q.env, KeyOf(secs[0].id), Transformed(secs[0], q.result.value, cutoff));
        RefreshSectionsFrame(next, w, cutoff, secs[1..]);
        assert forall k :: Discover.Outside(k, secs) ==> Discover.Outside(k, secs[1..]) by {
          assert forall i :: 0 <= i < |secs| - 1 ==> secs[1..][i] == secs[i + 1];
        }
      }
    }
  }

  /**
   * A refresh that completes leaves every section's fresh list in the
   * cache; one that fails stops at some section `n`, whose query failed:
   * the sections before it hold their fresh lists, and it and the ones
   * after it are untouched.
   */
  lemma {:induction false} RefreshSectionsEntries(e: Env, w: World, cutoff: int, secs: seq<Section>)
    requires Discover.Separated(secs)
    ensures var r := RefreshSections(e, w, cutoff, secs);
            && (r.ok ==> FreshUpTo(r.env.cache, w, cutoff, secs, |secs|))
            && (!r.ok ==> exists n :: 0 <= n < |secs| && FreshUpTo(r.env.cache, w, cutoff, secs, n) && KeptFrom(e.cache, r.env.cache, secs, n)
)
    decreases |secs|
  {
    if secs != [] {
      Discover.SeparatedTail(secs);
      assert Discover.KeyApartFromOthers(secs[0]);
      var key := KeyOf(secs[0].id);
      var q := QueryIGDB(e, w, SectionQuery(secs[0].id), None);
      var r := RefreshSections(e, w, cutoff, secs);
      if q.result.Failure? {
        assert FreshUpTo(r.env.cache, w, cutoff, secs, 0);
        assert KeptFrom(e.cache, r.env.cache, secs, 0) by {
          forall i | 0 <= i < |secs|
            ensures Cache.View(r.env.cache, KeyOf(secs[i].id)) == Cache.View(e.cache, KeyOf(secs[i].id))
          {
            if i > 0 {
              assert Cache.Apart(KeyOf(secs[i].id), TokenKey) by { assert Discover.KeyApartFromOthers(secs[i]); }
            }
          }
        }
      } else {
        var next := Store(q.env, key, Transformed(secs[0], q.result.value, cutoff));
        RefreshSectionsEntries(next, w, cutoff, secs[1..]);
        RefreshSectionsFrame(next, w, cutoff, secs[1..]);
        assert Cache.View(r.env.cache, key) == Some(Discover.Fresh(w, cutoff, secs[0]).value);
        if r.ok {
          forall i | 1 <= i < |secs|
            ensures Cache.View(r.env.cache, KeyOf(secs[i].id)) == Some(Discover.Fresh(w, cutoff, secs[i]).value)
            ensures Discover.Fresh(w, cutoff, secs[i]).Success?
          {
            assert secs[1..][i - 1] == secs[i];
          }
        } else {
          var n :| 0 <= n < |secs| - 1 && FreshUpTo(r.env.cache, w, cutoff, secs[1..], n) && KeptFrom(next.cache, r.env.cache, secs[1..], n);
          assert FreshUpTo(r.env.cache, w, cutoff, secs, n + 1) by {
            forall i | 1 <= i < n + 1
              ensures Cache.View(r.env.cache, KeyOf(secs[i].id)) == Some(Discover.Fresh(w, cutoff, secs[i]).value)
              ensures Discover.Fresh(w, cutoff, secs[i]).Success?
            {
              assert secs[1..][i - 1] == secs[i];
            }
          }
          assert KeptFrom(e.cache, r.env.cache, secs, n + 1) by {
            forall i | n + 1 <= i < |secs|
              ensures Cache.View(r.env.cache, KeyOf(secs[i].id)) == Cache.View(e.cache, KeyOf(secs[i].id))
            {
              assert secs[1..][i - 1] == secs[i];
              assert Discover.KeyApartFromOthers(secs[i]);
              assert Cache.Apart(KeyOf(secs[i].id), key);
            }
          }
        }
      }
    }
  }

  /**
   * `refreshAllSections` of this aggregator: refresh every section; on the
   * first failure return false at once, with neither the refresh time nor
   * the aggregate touched; otherwise record the refresh time, read the
   * aggregate (building it when it is not cached) and return true.
   */
  function RefreshAllSections(e: Env, w: World, cutoff: int): (r: Discover.Refreshed)
    ensures r.env.now >= e.now
  {
    var loop := RefreshSections(e, w, cutoff, Registry);
    if !loop.ok then loop
    else
      var stamped := Store(loop.env, LastRefreshKey, Stamp(loop.env.now));
      Discover.Refreshed(true, GetAllSectionsMeta(stamped).env)
  }

  /**
   * A refresh that returns true leaves every registered section holding its
   * fresh list and a refresh time recorded; one that returns false stops at
   * a failing section, with the sections before it refreshed, the rest and
   * the refresh time untouched. The aggregate is never deleted: a truthy
   * cached aggregate is still there afterwards.
   */
  lemma RefreshAllSectionsOutcome(e: Env, w: World, cutoff: int)
    ensures var r := RefreshAllSections(e, w, cutoff);
            && (r.ok ==> FreshUpTo(r.env.cache, w, cutoff, Registry, |Registry|)
                         && Cache.View(r.env.cache, LastRefreshKey) == Some(Stamp(r.env.now))
                         && r.env.now == RefreshSections(e, w, cutoff, Registry).env.now)
            && (!r.ok ==> Cache.View(r.env.cache, LastRefreshKey) == Cache.View(e.cache, LastRefreshKey)
                          && exists n :: 0 <= n < |Registry| && FreshUpTo(r.env.cache, w, cutoff, Registry, n)
                                         && KeptFrom(e.cache, r.env.cache, Registry, n))
            && (Hit(e.cache, AllSectionsKey) ==> Cache.View(r.env.cache, AllSectionsKey) == Cache.View(e.cache, AllSectionsKey))
  {
    Discover.RegistrySeparated();
    AggregateKeysApart();
    var loop := RefreshSections(e, w, cutoff, Registry);
    RefreshSectionsFrame(e, w, cutoff, Registry);
    RefreshSectionsEntries(e, w, cutoff, Registry);
    if loop.ok {
      var stamped := Store(loop.env, LastRefreshKey, Stamp(loop.env.now));
      AllSectionsMetaFrame(stamped);
      forall i | 0 <= i < |Registry|
        ensures Cache.View(stamped.cache, KeyOf(Registry[i].id)) == Cache.View(loop.env.cache, KeyOf(Registry[i].id))
      {
        assert Discover.KeyApartFromOthers(Registry[i]);
      }
    }
  }
}
