/**
 * The game lookups shared by the game page and its API route: one game by
 * id, cached under "game-detail-<id>" and reshaped before it is cached, and
 * the popular games list.
 */
module Games {
  import opened Wrappers
  import opened Values
  import opened Seqs
  import opened Client
  import Cache

  /** The cache key of a game's detail record. */
  function GameKey(gameId: string): (r: string)
    ensures |r| == |gameId| + 12 && r[..12] == "game-detail-"
  {
    "game-detail-" + gameId
  }

  /** No game key shares an entry with the token key. */
  lemma GameKeyApart(gameId: string)
    ensures Cache.Apart(GameKey(gameId), TokenKey)
  {
    Cache.FileNamesDiffer(GameKey(gameId), TokenKey, 0);
  }

  /** A franchise cut down to its id and name. */
  function Brief(f: Franchise): Franchise {
    Franchise(f.id, f.name, None, None, None)
  }

  /**
   * The record `getGameById` caches and returns: the cover kept as it is
   * (null when absent), the screenshots kept or [] when absent, the main
   * franchise cut to its id and name (null when absent), and every listed
   * franchise cut the same way ([] when absent).
   */
  function ProcessGame(g: Game): (r: Game)
    ensures r.id == g.id && r.name == g.name && r.cover == g.cover && r.firstReleaseDate == g.firstReleaseDate
    ensures r.totalRatingCount == g.totalRatingCount && r.platforms == g.platforms && r.involvedCompanies == g.involvedCompanies
    ensures r.screenshots.Some? && (g.screenshots.Some? ==> r.screenshots == g.screenshots) && (g.screenshots.None? ==> r.screenshots.value == [])
    ensures g.franchise.None? <==> r.franchise.None?
    ensures g.franchise.Some? ==> r.franchise.value.id == g.franchise.value.id && r.franchise.value.name == g.franchise.value.name
                                  && r.franchise.value.slug.None? && r.franchise.value.url.None? && r.franchise.value.games.None?
    ensures r.franchises.Some? && (g.franchises.None? ==> r.franchises.value == [])
    ensures g.franchises.Some? ==>
              && |r.franchises.value| == |g.franchises.value|
              && forall i :: 0 <= i < |g.franchises.value| ==>
                   r.franchises.value[i].id == g.franchises.value[i].id && r.franchises.value[i].name == g.franchises.value[i].name
  {
    g.(screenshots := Some(g.screenshots.GetOr([])),
       franchise := if g.franchise.Some? then Some(Brief(g.franchise.value)) else None,
       franchises := Some(Map(g.franchises.GetOr([]), Brief)))
  }

  /** Reshaping a record that is already reshaped changes nothing. */
  lemma ProcessGameIdempotent(g: Game)
    ensures ProcessGame(ProcessGame(g)) == ProcessGame(g)
  {
    var p := ProcessGame(g);
    assert Map(p.franchises.value, Brief) == p.franchises.value;
  }

  /** The reply of the provider that is a game found: a non-empty list of games. */
  predicate Found(v: Value) {
    v.Games? && |v.games| > 0
  }

  /**
   * `getGameById(gameId)`: a truthy value cached under the game's key is
   * returned as it is; otherwise the provider is asked with the game's key
   * as cache key, a reply that is not a non-empty game list yields null
   * (the reply stays cached), and the reshaped first game overwrites the
   * raw reply under the key and is returned. A provider failure raises.
   */
  function GetGameById(e: Env, w: World, gameId: string): (r: Out<Value>)
    ensures Hit(e.cache, GameKey(gameId)) ==>
              && r.result == Success(Cache.View(e.cache, GameKey(gameId)).value)
              && r.env.sent == e.sent && forall k {:trigger Cache.View(r.env.cache, k)} :: Cache.View(r.env.cache, k) == Cache.View(e.cache, k)
    ensures !Hit(e.cache, GameKey(gameId)) && r.result.Success? ==>
              var reply := ReplyResult(w.api(GameById(gameId)));
              && r.env.sent == e.sent + [GameById(gameId)] && reply.Success?
              && (Found(reply.value) ==> r.result.value == GameDetail(ProcessGame(reply.value.games[0])))
              && (!Found(reply.value) ==> r.result.value == Null)
              && Cache.View(r.env.cache, GameKey(gameId)) == Some(if Found(reply.value) then r.result.value else reply.value)
    ensures r.result.Failure? ==> forall k {:trigger Cache.View(r.env.cache, k)} :: Cache.Apart(k, TokenKey) ==> Cache.View(r.env.cache, k) == Cache.View(e.cache, k)
    ensures forall k {:trigger Cache.View(r.env.cache, k)} :: Cache.Apart(k, TokenKey) && Cache.Apart(k, GameKey(gameId)) ==> Cache.View(r.env.cache, k) == Cache.View(e.cache, k)
  {
    var key := GameKey(gameId);
    var got := Lookup(e, key);
    if got.value.Some? && Truthy(got.value.value) then Out(Success(got.value.value), got.env)
    else
      var q := QueryIGDB(got.env, w, GameById(gameId), Some(key));
      if q.result.Failure? then q
      else if !Found(q.result.value) then Out(Success(Null), q.env)
      else
        var processed := GameDetail(ProcessGame(q.result.value.games[0]));
        Out(Success(processed), Store(q.env, key, processed))
  }

  /**
   * A game the provider does not know yields null, but the empty list the
   * provider sent stays cached under the game's key, and an empty list is
   * truthy: the next call returns that list instead of null.
   */
  lemma NotFoundIsCachedAsEmptyList(e: Env, w: World, gameId: string)
    requires !Hit(e.cache, GameKey(gameId))
    requires w.api(GameById(gameId)).Reply? && w.api(GameById(gameId)).body == Games([])
    requires GetGameById(e, w, gameId).result.Success?
    ensures var first := GetGameById(e, w, gameId);
            && first.result == Success(Null)
            && GetGameById(first.env, w, gameId).result == Success(Games([]))
  {
  }

  /** A call that returns something other than null leaves it cached: the next call returns it with no request. */
  lemma FoundGameIsServedFromCache(e: Env, w: World, gameId: string)
    requires GetGameById(e, w, gameId).result.Success?
    requires GetGameById(e, w, gameId).result.value != Null
    ensures var first := GetGameById(e, w, gameId);
            var second := GetGameById(first.env, w, gameId);
            second.result == first.result && second.env.sent == first.env.sent
  {
  }

  /**
   * `getPopularGames()`: the provider's reply, or [] when the reply is
   * falsy; a provider failure raises. No cache key is given, so no entry
   * but the token's is ever written.
   */
  function GetPopularGames(e: Env, w: World): (r: Out<Value>)
    ensures r.result.Success? ==>
              && ReplyResult(w.api(PopularGames)).Success?
              && r.result.value == OrElse(Some(ReplyResult(w.api(PopularGames)).value), Games([]))
              && Truthy(r.result.value)
    ensures forall k {:trigger Cache.View(r.env.cache, k)} :: Cache.Apart(k, TokenKey) ==> Cache.View(r.env.cache, k) == Cache.View(e.cache, k)
  {
    var q := QueryIGDB(e, w, PopularGames, None);
    if q.result.Failure? then q
    else Out(Success(OrElse(Some(q.result.value), Games([]))), q.env)
  }
}
