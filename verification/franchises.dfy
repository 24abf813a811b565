/**
 * The franchise page lookup: a franchise and its games by franchise id,
 * cached as one response under "franchise-games-<id>". Two provider
 * queries, neither with a cache key: the franchise record, then its games.
 */
module Franchises {
  import opened Wrappers
  import opened Values
  import opened Client
  import Cache
  import Seqs

  /** The cache key of a franchise page. */
  function FranchiseKey(franchiseId: string): (r: string)
    ensures |r| == |franchiseId| + 16 && r[..16] == "franchise-games-"
  {
    "franchise-games-" + franchiseId
  }

  /** No franchise key shares an entry with the token key. */
  lemma FranchiseKeyApart(franchiseId: string)
    ensures Cache.Apart(FranchiseKey(franchiseId), TokenKey)
  {
    Cache.FileNamesDiffer(FranchiseKey(franchiseId), TokenKey, 0);
  }

  /** The page header of franchise `f` requested as `numericId` (`Number(franchiseId)`). */
  function Header(f: Franchise, numericId: int): FranchiseHeader {
    FranchiseHeader(numericId, f.name, f.slug, f.url)
  }

  /** The ids of the games a franchise record lists; none when the field is absent. */
  function GameIdsOf(f: Franchise): seq<int> {
    f.games.GetOr([])
  }

  /**
   * `getFranchiseById(franchiseId)`, with `numericId` the number the id
   * parses to: a truthy cached page is returned as it is; otherwise the
   * franchise is asked for, an answer that is not a non-empty franchise list
   * yields null, a franchise without games gets a page with no games, and
   * otherwise its games are asked for and the page of the franchise's header
   * and those games is built. Every page is cached under the key it was
   * looked up by. A provider failure raises, and so does a games reply that
   * is not an array (a string, a number, an object or null cannot be mapped).
   * A games reply that is a list of other records also raises here, where
   * the source would make a page of those records.
   */
  function GetFranchiseById(e: Env, w: World, franchiseId: string, numericId: int): (r: Out<Value>)
    ensures Hit(e.cache, FranchiseKey(franchiseId)) ==>
              && r.result == Success(Cache.View(e.cache, FranchiseKey(franchiseId)).value)
              && r.env.sent == e.sent && forall k {:trigger Cache.View(r.env.cache, k)} :: Cache.View(r.env.cache, k) == Cache.View(e.cache, k)
    ensures r.result.Success? && r.result.value.FranchisePage? ==>
              Cache.View(r.env.cache, FranchiseKey(franchiseId)) == Some(r.result.value)
    ensures forall k {:trigger Cache.View(r.env.cache, k)} :: Cache.Apart(k, TokenKey) && Cache.Apart(k, FranchiseKey(franchiseId)) ==> Cache.View(r.env.cache, k) == Cache.View(e.cache, k)
  {
    FranchiseKeyApart(franchiseId);
    var key := FranchiseKey(franchiseId);
    var got := Lookup(e, key);
    if got.value.Some? && Truthy(got.value.value) then Out(Success(got.value.value), got.env)
    else FetchPage(got.env, w, key, franchiseId, numericId)
  }

  /** The miss path of `getFranchiseById`: the franchise query, then the page, cached under `key`. */
  function FetchPage(e: Env, w: World, key: string, franchiseId: string, numericId: int): (r: Out<Value>)
    requires Cache.Apart(key, TokenKey)
    ensures r.result.Success? && r.result.value.FranchisePage? ==> Cache.View(r.env.cache, key) == Some(r.result.value)
    ensures r.result.Success? && r.result.value == Null ==>
              forall k {:trigger Cache.View(r.env.cache, k)} :: Cache.Apart(k, TokenKey) ==> Cache.View(r.env.cache, k) == Cache.View(e.cache, k)
    ensures forall k {:trigger Cache.View(r.env.cache, k)} :: Cache.Apart(k, TokenKey) && Cache.Apart(k, key) ==> Cache.View(r.env.cache, k) == Cache.View(e.cache, k)
  {
    var fq := QueryIGDB(e, w, FranchiseById(franchiseId), None);
    if fq.result.Failure? then fq
    else
      if !fq.result.value.Franchises? || |fq.result.value.franchises| == 0 then Out(Success(Null), fq.env)
      else
        var f := fq.result.value.franchises[0];
        if |GameIdsOf(f)| == 0 then
          var page := FranchisePage(Header(f, numericId), []);
          Out(Success(page), Store(fq.env, key, page))
        else FetchGames(fq.env, w, key, f, numericId)
  }

  /** The games stage of the miss path: the franchise's games, made into its page and cached under `key`. */
  function FetchGames(e: Env, w: World, key: string, f: Franchise, numericId: int): (r: Out<Value>)
    ensures r.result.Success? ==>
              var reply := ReplyResult(w.api(FranchiseGames(GameIdsOf(f))));
              && reply.Success? && reply.value.Games?
              && r.result.value == FranchisePage(Header(f, numericId), reply.value.games)
              && r.env.sent == e.sent + [FranchiseGames(GameIdsOf(f))]
              && Cache.View(r.env.cache, key) == Some(r.result.value)
    ensures forall k {:trigger Cache.View(r.env.cache, k)} :: Cache.Apart(k, TokenKey) && Cache.Apart(k, key) ==> Cache.View(r.env.cache, k) == Cache.View(e.cache, k)
  {
    var gq := QueryIGDB(e, w, FranchiseGames(GameIdsOf(f)), None);
    if gq.result.Failure? then gq
    else if !gq.result.value.Games? then Out(Failure(Malformed), gq.env)
    else
      assert gq.env.sent == e.sent + [FranchiseGames(GameIdsOf(f))];
      var page := FranchisePage(Header(f, numericId), gq.result.value.games);
      Out(Success(page), Store(gq.env, key, page))
  }

  /** The franchise record the provider answers for `franchiseId`, if it answers with one. */
  function Record(w: World, franchiseId: string): (r: Option<Franchise>)
    ensures r.Some? <==> var reply := ReplyResult(w.api(FranchiseById(franchiseId)));
                         reply.Success? && reply.value.Franchises? && |reply.value.franchises| > 0
  {
    var reply := ReplyResult(w.api(FranchiseById(franchiseId)));
    if reply.Success? && reply.value.Franchises? && |reply.value.franchises| > 0 then Some(reply.value.franchises[0]) else None
  }

  /**
   * On a miss, a page carries the header of the franchise record, with the
   * requested numeric id, and exactly the games the provider lists for the
   * franchise, in the provider's order; a franchise without games gets none
   * and costs one request only.
   */
  lemma FranchisePageContents(e: Env, w: World, franchiseId: string, numericId: int)
    requires !Hit(e.cache, FranchiseKey(franchiseId))
    ensures var r := GetFranchiseById(e, w, franchiseId, numericId);
            r.result.Success? && r.result.value.FranchisePage? ==> PageOfRecord(e, w, franchiseId, numericId, r)
  {
    FranchiseKeyApart(franchiseId);
    var key := FranchiseKey(franchiseId);
    var got := Lookup(e, key);
    assert GetFranchiseById(e, w, franchiseId, numericId) == FetchPage(got.env, w, key, franchiseId, numericId);
    match Record(w, franchiseId)
    case None => FetchPageUnknown(got.env, w, key, franchiseId, numericId);
    case Some(f) =>
      if |GameIdsOf(f)| == 0 {
        FetchPageNoGames(got.env, w, key, franchiseId, numericId);
      } else {
        FetchPageWithGames(got.env, w, key, franchiseId, numericId);
      }
  }

  /** The page `r` carries what the provider says of the franchise, and its requests follow the sent log of `e`. */
  predicate PageOfRecord(e: Env, w: World, franchiseId: string, numericId: int, r: Out<Value>)
    requires r.result.Success? && r.result.value.FranchisePage?
  {
    && Record(w, franchiseId).Some?
    && var f := Record(w, franchiseId).value;
       && r.result.value.franchise == FranchiseHeader(numericId, f.name, f.slug, f.url)
       && (|GameIdsOf(f)| == 0 ==> r.result.value.pageGames == [] && r.env.sent == e.sent + [FranchiseById(franchiseId)])
       && (|GameIdsOf(f)| > 0 ==>
             var reply := ReplyResult(w.api(FranchiseGames(GameIdsOf(f))));
             && reply.Success? && reply.value.Games? && r.result.value.pageGames == reply.value.games
             && r.env.sent == e.sent + [FranchiseById(franchiseId), FranchiseGames(GameIdsOf(f))])
  }

  /** A franchise the provider does not answer with can only come out as null. */
  lemma FetchPageUnknown(e: Env, w: World, key: string, franchiseId: string, numericId: int)
    requires Cache.Apart(key, TokenKey) && Record(w, franchiseId).None?
    ensures var r := FetchPage(e, w, key, franchiseId, numericId);
            r.result.Success? ==> r.result.value == Null
  {
    var fq := QueryIGDB(e, w, FranchiseById(franchiseId), None);
    if fq.result.Success? {
      assert fq.result == ReplyResult(w.api(FranchiseById(franchiseId)));
    }
  }

  /** A franchise without games gets a page with none, after its one request. */
  lemma FetchPageNoGames(e: Env, w: World, key: string, franchiseId: string, numericId: int)
    requires Cache.Apart(key, TokenKey) && Record(w, franchiseId).Some? && |GameIdsOf(Record(w, franchiseId).value)| == 0
    ensures var r := FetchPage(e, w, key, franchiseId, numericId);
            r.result.Success? ==>
              && r.result.value == FranchisePage(Header(Record(w, franchiseId).value, numericId), [])
              && r.env.sent == e.sent + [FranchiseById(franchiseId)]
  {
    var fq := QueryIGDB(e, w, FranchiseById(franchiseId), None);
    if fq.result.Success? {
      assert fq.result == ReplyResult(w.api(FranchiseById(franchiseId)));
      assert fq.env.sent == e.sent + [FranchiseById(franchiseId)];
    }
  }

  /** A franchise with games gets a page of exactly the games the provider lists, after two requests. */
  lemma FetchPageWithGames(e: Env, w: World, key: string, franchiseId: string, numericId: int)
    requires Cache.Apart(key, TokenKey) && Record(w, franchiseId).Some? && |GameIdsOf(Record(w, franchiseId).value)| > 0
    ensures var r := FetchPage(e, w, key, franchiseId, numericId);
            var f := Record(w, franchiseId).value;
            var reply := ReplyResult(w.api(FranchiseGames(GameIdsOf(f))));
            r.result.Success? ==>
              && reply.Success? && reply.value.Games?
              && r.result.value == FranchisePage(Header(f, numericId), reply.value.games)
              && r.env.sent == e.sent + [FranchiseById(franchiseId), FranchiseGames(GameIdsOf(f))]
  {
    var r := FetchPage(e, w, key, franchiseId, numericId);
    if r.result.Success? {
      var f := Record(w, franchiseId).value;
      var mid := FetchPageGamesStage(e, w, key, franchiseId, numericId);
      var g := FetchGames(mid, w, key, f, numericId);
      assert g.env.sent == mid.sent + [FranchiseGames(GameIdsOf(f))];
      Seqs.SnocTwice(e.sent, FranchiseById(franchiseId), FranchiseGames(GameIdsOf(f)));
    }
  }

  /**
   * A successful miss for a franchise with games passes through the games
   * stage, entered after exactly the franchise request.
   */
  lemma FetchPageGamesStage(e: Env, w: World, key: string, franchiseId: string, numericId: int) returns (mid: Env)
    requires Cache.Apart(key, TokenKey) && Record(w, franchiseId).Some? && |GameIdsOf(Record(w, franchiseId).value)| > 0
    requires FetchPage(e, w, key, franchiseId, numericId).result.Success?
    ensures mid.sent == e.sent + [FranchiseById(franchiseId)]
    ensures FetchPage(e, w, key, franchiseId, numericId) == FetchGames(mid, w, key, Record(w, franchiseId).value, numericId)
  {
    var fq := QueryIGDB(e, w, FranchiseById(franchiseId), None);
    assert fq.result == ReplyResult(w.api(FranchiseById(franchiseId)));
    mid := fq.env;
  }

  /** An unknown franchise yields null and writes no cache entry but the token's. */
  lemma UnknownFranchiseWritesNothing(e: Env, w: World, franchiseId: string, numericId: int)
    requires !Hit(e.cache, FranchiseKey(franchiseId))
    ensures var r := GetFranchiseById(e, w, franchiseId, numericId);
            (r.result.Success? && r.result.value == Null) ==>
              && Record(w, franchiseId).None?
              && forall k :: Cache.Apart(k, TokenKey) ==> Cache.View(r.env.cache, k) == Cache.View(e.cache, k)
  {
    FranchiseKeyApart(franchiseId);
    var key := FranchiseKey(franchiseId);
    var got := Lookup(e, key);
    assert GetFranchiseById(e, w, franchiseId, numericId) == FetchPage(got.env, w, key, franchiseId, numericId);
    if Record(w, franchiseId).Some? {
      if |GameIdsOf(Record(w, franchiseId).value)| == 0 {
        FetchPageNoGames(got.env, w, key, franchiseId, numericId);
      } else {
        FetchPageWithGames(got.env, w, key, franchiseId, numericId);
      }
    }
  }

  /** A page once built is served from the cache by the next call, with no request. */
  lemma PageIsServedFromCache(e: Env, w: World, franchiseId: string, numericId: int)
    requires GetFranchiseById(e, w, franchiseId, numericId).result.Success?
    requires GetFranchiseById(e, w, franchiseId, numericId).result.value.FranchisePage?
    ensures var first := GetFranchiseById(e, w, franchiseId, numericId);
            var second := GetFranchiseById(first.env, w, franchiseId, numericId);
            second.result == first.result && second.env.sent == first.env.sent
  {
  }
}
