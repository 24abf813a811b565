/**
 * The metadata-provider client: the process-wide access token with its
 * 60-second early expiry, the sliding-window rate limiter, and `queryIGDB`,
 * the single path every provider request takes.
 *
 * The process state the client mutates (held token, limiter window,
 * rate-limit info) and the cache are threaded through an explicit `Env`.
 * The identity endpoint and the provider endpoint are oracles in `World`;
 * each request a run issues is appended to `Env.sent`.
 */
module Client {
  import opened Wrappers
  import opened Values
  import Cache

  const MaxRequestsPerSecond := 4
  const WindowMs := 1000
  const SafetyMarginMs := 60000
  const TokenKey := "igdb_access_token"

  /** Which provider query is sent. The query text itself is opaque. */
  datatype Query =
    | SectionQuery(sectionId: string)
    | GameById(gameId: string)
    | FranchiseById(franchiseId: string)
    | FranchiseGames(gameIds: seq<int>)
    | PopularGames

  function Endpoint(q: Query): string {
    if q.FranchiseById? then "franchises" else "games"
  }

  /** The x-ratelimit-limit/-remaining/-reset headers, when all three are present. */
  datatype RateHeaders = RateHeaders(limit: int, remaining: int, reset: int)

  /** The outcome of one HTTP request to the provider (the body already parsed). */
  datatype HttpReply = NetworkError | Reply(status: int, headers: Option<RateHeaders>, body: Value)

  /** The outcome of the client-credentials exchange with the identity endpoint. */
  datatype TokenReply =
    | TokenUnreachable
    | TokenRejected(status: int)
    | TokenGranted(accessToken: string, expiresIn: int)   // "" when the body has no access_token

  /** Everything outside the process: configuration and the two remote endpoints. */
  datatype World = World(clientIdSet: bool, tokenReply: TokenReply, api: Query -> HttpReply)

  datatype RateLimitInfo = RateLimitInfo(limit: int, remaining: int, reset: int)

  datatype Env = Env(
    cache: Cache.Tiers,
    accessToken: string,   // "" for none
    tokenExpiry: int,
    window: seq<int>,      // admission instants, oldest first
    info: RateLimitInfo,
    now: int,              // the clock, in milliseconds
    sent: seq<Query>,      // provider requests issued so far
    exchanges: nat)        // credential exchanges performed so far

  /** The result of a client operation and the environment after it. */
  datatype Out<+T> = Out(result: Result<T, Error>, env: Env)

  /** A cache read made by a client operation: the value found and the environment after it. */
  datatype Looked = Looked(value: Option<Value>, env: Env)

  /** `cacheManager.get(key)` on the environment's cache. */
  function Lookup(e: Env, key: string): (r: Looked)
    ensures r.value == Cache.View(e.cache, key)
    ensures forall k {:trigger Cache.View(r.env.cache, k)} :: Cache.View(r.env.cache, k) == Cache.View(e.cache, k)
    ensures r.env == e.(cache := r.env.cache)
  {
    var read := Cache.Get(e.cache, key);
    Looked(read.value, e.(cache := read.cache))
  }

  /** `cacheManager.set(key, v)` on the environment's cache, at the current instant. */
  function Store(e: Env, key: string, v: Value): (r: Env)
    ensures Cache.View(r.cache, key) == Some(v)
    ensures forall k {:trigger Cache.View(r.cache, k)} :: Cache.Apart(k, key) ==> Cache.View(r.cache, k) == Cache.View(e.cache, k)
    ensures r == e.(cache := r.cache)
  {
    e.(cache := Cache.Set(e.cache, key, v, e.now))
  }

  /** `cacheManager.delete(key)` on the environment's cache. */
  function Remove(e: Env, key: string): (r: Env)
    ensures Cache.View(r.cache, key) == None
    ensures forall k {:trigger Cache.View(r.cache, k)} :: Cache.Apart(k, key) ==> Cache.View(r.cache, k) == Cache.View(e.cache, k)
    ensures r == e.(cache := r.cache)
  {
    e.(cache := Cache.Delete(e.cache, key))
  }

  /** A truthy value is cached under `key`: the test every cache-first lookup makes. */
  predicate Hit(c: Cache.Tiers, key: string) {
    Cache.View(c, key).Some? && Truthy(Cache.View(c, key).value)
  }

  /** The value a read of `key` yields, with a miss read as `null`. */
  function ViewOrNull(c: Cache.Tiers, key: string): Value {
    Cache.View(c, key).GetOr(Null)
  }

  predicate IsOk(status: int) {
    200 <= status <= 299
  }

  // ---------------------------------------------------------------- token

  predicate HeldTokenValid(e: Env) {
    e.accessToken != "" && e.now < e.tokenExpiry
  }

  /** The cache holds a token record that has not expired at `now`. */
  predicate CachedTokenValid(c: Cache.Tiers, now: int) {
    var v := Cache.View(c, TokenKey);
    v.Some? && v.value.TokenRecord? && now < v.value.expiry
  }

  /**
   * `getAccessToken`: the held token while it is unexpired; otherwise an
   * unexpired token from the cache; otherwise a credential exchange whose
   * token expires 60 s before the provider says it does.
   */
  function GetAccessToken(e: Env, w: World): (r: Out<string>)
    ensures HeldTokenValid(e) ==> r == Out(Success(e.accessToken), e)
    ensures r.env.exchanges == e.exchanges + (if HeldTokenValid(e) || CachedTokenValid(e.cache, e.now) then 0 else 1)
    ensures !HeldTokenValid(e) && CachedTokenValid(e.cache, e.now) ==>
              && r.result == Success(Cache.View(e.cache, TokenKey).value.token)
              && r.env.tokenExpiry == Cache.View(e.cache, TokenKey).value.expiry
    ensures r.result.Success? && r.env.exchanges == e.exchanges ==>
              r.env.accessToken == r.result.value && e.now < r.env.tokenExpiry
    ensures r.env.exchanges > e.exchanges && w.tokenReply.TokenGranted? ==>
              && r.env.accessToken == w.tokenReply.accessToken
              && r.env.tokenExpiry == e.now + w.tokenReply.expiresIn * 1000 - SafetyMarginMs
              && Cache.View(r.env.cache, TokenKey) == Some(TokenRecord(r.env.accessToken, r.env.tokenExpiry))
              && (r.result.Success? <==> w.tokenReply.accessToken != "")
    ensures r.env.exchanges > e.exchanges && !w.tokenReply.TokenGranted? ==>
              r.result == Failure(AuthFailed) && r.env.accessToken == e.accessToken && r.env.tokenExpiry == e.tokenExpiry
    ensures r.result.Success? ==> r.result.value == r.env.accessToken
    ensures r.result.Failure? ==> r.result.error in {AuthFailed, EmptyToken}
    ensures forall k {:trigger Cache.View(r.env.cache, k)} :: Cache.Apart(k, TokenKey) ==> Cache.View(r.env.cache, k) == Cache.View(e.cache, k)
    ensures r.env.window == e.window && r.env.info == e.info && r.env.now == e.now && r.env.sent == e.sent
  {
    if HeldTokenValid(e) then Out(Success(e.accessToken), e)
    else
      var read := Cache.Get(e.cache, TokenKey);
      var e1 := e.(cache := read.cache);
      if read.value.Some? && read.value.value.TokenRecord? && e.now < read.value.value.expiry then
        var cached := read.value.value;
        Out(Success(cached.token), e1.(accessToken := cached.token, tokenExpiry := cached.expiry))
      else Exchange(e1, w)
  }

  /** The client-credentials exchange, with the token it grants held and cached. */
  function Exchange(e: Env, w: World): (r: Out<string>)
    ensures r.env.exchanges == e.exchanges + 1
    ensures w.tokenReply.TokenGranted? ==>
              && r.env.accessToken == w.tokenReply.accessToken
              && r.env.tokenExpiry == e.now + w.tokenReply.expiresIn * 1000 - SafetyMarginMs
              && Cache.View(r.env.cache, TokenKey) == Some(TokenRecord(r.env.accessToken, r.env.tokenExpiry))
              && (r.result.Success? <==> w.tokenReply.accessToken != "")
              && (r.result.Failure? ==> r.result.error == EmptyToken)
    ensures !w.tokenReply.TokenGranted? ==>
              r.result == Failure(AuthFailed) && r.env.accessToken == e.accessToken && r.env.tokenExpiry == e.tokenExpiry
    ensures r.result.Success? ==> r.result.value == r.env.accessToken
    ensures forall k {:trigger Cache.View(r.env.cache, k)} :: Cache.Apart(k, TokenKey) ==> Cache.View(r.env.cache, k) == Cache.View(e.cache, k)
    ensures r.env.window == e.window && r.env.info == e.info && r.env.now == e.now && r.env.sent == e.sent
  {
    var e2 := e.(exchanges := e.exchanges + 1);
    match w.tokenReply
    case TokenUnreachable => Out(Failure(AuthFailed), e2)
    case TokenRejected(_) => Out(Failure(AuthFailed), e2)
    case TokenGranted(token, expiresIn) =>
      var expiry := e.now + expiresIn * 1000 - SafetyMarginMs;
      var e3 := e2.(accessToken := token, tokenExpiry := expiry,
                    cache := Cache.Set(e2.cache, TokenKey, TokenRecord(token, expiry), e.now));
      if token == "" then Out(Failure(EmptyToken), e3) else Out(Success(token), e3)
  }

  /**
   * Once a call has produced a token that is still valid, the next call
   * returns the same token without a cache read or an exchange: two calls
   * in a row exchange credentials at most once.
   */
  lemma TokenIsReused(e: Env, w: World)
    requires w.tokenReply.TokenGranted? ==> w.tokenReply.expiresIn > 60
    requires GetAccessToken(e, w).result.Success? && GetAccessToken(e, w).result.value != ""
    ensures var r1 := GetAccessToken(e, w);
            GetAccessToken(r1.env, w) == Out(Success(r1.result.value), r1.env)
    ensures GetAccessToken(GetAccessToken(e, w).env, w).env.exchanges <= e.exchanges + 1
  {
    var r1 := GetAccessToken(e, w);
    assert HeldTokenValid(r1.env);
  }

  /**
   * A granted body without an access token raises, but the empty token has
   * already been cached with a live expiry; the next call adopts it from the
   * cache and returns the empty token as valid, without raising.
   */
  lemma EmptyTokenIsAdoptedOnNextCall(e: Env, expiresIn: int, api: Query -> HttpReply)
    requires !HeldTokenValid(e) && !CachedTokenValid(e.cache, e.now)
    requires expiresIn > 60
    ensures var w := World(true, TokenGranted("", expiresIn), api);
            var r1 := GetAccessToken(e, w);
            var r2 := GetAccessToken(r1.env, w);
            r1.result == Failure(EmptyToken) && r2.result == Success("") && r2.env.exchanges == r1.env.exchanges
  {
    var w := World(true, TokenGranted("", expiresIn), api);
    var r1 := GetAccessToken(e, w);
    assert r1 == Exchange(e.(cache := Cache.Get(e.cache, TokenKey).cache), w);
    assert r1.env.exchanges == e.exchanges + 1;
    assert !HeldTokenValid(r1.env);
    assert CachedTokenValid(r1.env.cache, r1.env.now);
  }

  // ---------------------------------------------------------------- rate limiter

  /** The window without its leading timestamps older than `now - 1000`. */
  function Prune(window: seq<int>, now: int): (r: seq<int>)
    ensures |r| <= |window| && r == window[|window| - |r|..]
    ensures forall i :: 0 <= i < |window| - |r| ==> window[i] < now - WindowMs
    ensures |r| > 0 ==> r[0] >= now - WindowMs
  {
    if |window| > 0 && window[0] < now - WindowMs then Prune(window[1..], now) else window
  }

  /** An admission: the limiter's new window and the instant the caller proceeds. */
  datatype Admission = Admission(window: seq<int>, at: int)

  /**
   * `checkRateLimit` at clock `now`: prune, and when 4 or more timestamps
   * remain wait until the oldest is 1000 ms old; then record the instant.
   * The timer is taken to fire exactly when due.
   */
  function CheckRateLimit(window: seq<int>, now: int): (r: Admission)
    ensures var kept := Prune(window, now);
            && r.window == kept + [r.at]
            && r.at >= now
            && (|kept| < MaxRequestsPerSecond ==> r.at == now)
            && (|kept| >= MaxRequestsPerSecond ==> r.at >= kept[0] + WindowMs)
            && (r.at == now || r.at == kept[0] + WindowMs)
  {
    var kept := Prune(window, now);
    var at :=
      if |kept| >= MaxRequestsPerSecond then
        var waitTime := WindowMs - (now - kept[0]);
        if waitTime > 0 then now + waitTime else now
      else now;
    Admission(kept + [at], at)
  }

  predicate Sorted(s: seq<int>) {
    forall i, j :: 0 <= i < j < |s| ==> s[i] <= s[j]
  }

  /** Appending an instant no earlier than every element keeps a sorted window sorted. */
  lemma SortedAppend(s: seq<int>, at: int)
    requires Sorted(s) && forall i :: 0 <= i < |s| ==> s[i] <= at
    ensures Sorted(s + [at]) && forall i :: 0 <= i < |s + [at]| ==> (s + [at])[i] <= at
  {
  }

  /** The limiter keeps its window sorted and never admits before the clock. */
  lemma CheckRateLimitKeepsWindowSorted(window: seq<int>, now: int)
    requires Sorted(window)
    requires forall i :: 0 <= i < |window| ==> window[i] <= now
    ensures var r := CheckRateLimit(window, now);
            Sorted(r.window) && forall i :: 0 <= i < |r.window| ==> r.window[i] <= r.at
  {
    var r := CheckRateLimit(window, now);
    var kept := Prune(window, now);
    var d := |window| - |kept|;
    assert Sorted(kept) by {
      forall i, j | 0 <= i < j < |kept| ensures kept[i] <= kept[j] {
        assert kept[i] == window[d + i] && kept[j] == window[d + j];
      }
    }
    assert forall i :: 0 <= i < |kept| ==> kept[i] <= r.at by {
      forall i | 0 <= i < |kept| ensures kept[i] <= r.at {
        assert kept[i] == window[d + i];
      }
    }
    SortedAppend(kept, r.at);
  }

  /** Admission instants of successive calls made at the instants `calls`. */
  function AdmitAll(window: seq<int>, calls: seq<int>): (r: seq<int>)
    ensures |r| == |calls|
    ensures forall i :: 0 <= i < |calls| ==> r[i] >= calls[i]
    decreases |calls|
  {
    if |calls| == 0 then []
    else
      var a := CheckRateLimit(window, calls[0]);
      [a.at] + AdmitAll(a.window, calls[1..])
  }

  function Repeat(x: int, n: nat): (r: seq<int>)
    ensures |r| == n && forall i :: 0 <= i < n ==> r[i] == x
  {
    if n == 0 then [] else [x] + Repeat(x, n - 1)
  }

  /**
   * The limiter does not cap admissions at 4 per second. After four
   * admissions at instant t, any number of calls at t + 1000 are all admitted
   * at t + 1000: the four timestamps are exactly 1000 ms old, so they are not
   * pruned, and the computed wait is 0.
   */
  lemma {:induction false} LimiterAdmitsEveryCallAtTheBoundary(t: int, n: nat, k: nat)
    ensures AdmitAll(Repeat(t, 4) + Repeat(t + 1000, k), Repeat(t + 1000, n)) == Repeat(t + 1000, n)
  {
    if n > 0 {
      var w := Repeat(t, 4) + Repeat(t + 1000, k);
      assert Prune(w, t + 1000) == w;
      var a := CheckRateLimit(w, t + 1000);
      assert a.at == t + 1000;
      assert a.window == Repeat(t, 4) + Repeat(t + 1000, k + 1);
      assert Repeat(t + 1000, n)[1..] == Repeat(t + 1000, n - 1);
      LimiterAdmitsEveryCallAtTheBoundary(t, n - 1, k + 1);
    }
  }

  /**
   * Below four admissions the limiter never waits: a call at instant t on a
   * window of k < 4 admissions, all at t, proceeds at t and joins the window.
   * Starting from an empty window, four calls at t thus reach the window that
   * `LimiterAdmitsEveryCallAtTheBoundary` starts from.
   */
  lemma WindowFillsOnArrival(t: int, k: nat)
    requires k < MaxRequestsPerSecond
    ensures CheckRateLimit(Repeat(t, k), t) == Admission(Repeat(t, k + 1), t)
  {
    var win := Repeat(t, k);
    assert Prune(win, t) == win;
    assert Repeat(t, k + 1) == Repeat(t, k) + [t] by { RepeatSnoc(t, k); }
  }

  lemma {:induction false} RepeatSnoc(x: int, n: nat)
    ensures Repeat(x, n + 1) == Repeat(x, n) + [x]
  {
    if n > 0 {
      RepeatSnoc(x, n - 1);
      assert Repeat(x, n + 1) == [x] + (Repeat(x, n - 1) + [x]);
    }
  }

  // ---------------------------------------------------------------- query

  /** `updateRateLimitInfo`: adopt the three headers, reset converted from seconds to ms. */
  function UpdateRateLimitInfo(info: RateLimitInfo, headers: Option<RateHeaders>): RateLimitInfo {
    match headers
    case Some(h) => RateLimitInfo(h.limit, h.remaining, h.reset * 1000)
    case None => info
  }

  predicate Keyed(cacheKey: Option<string>) {
    cacheKey.Some? && cacheKey.value != ""
  }

  /**
   * What a sent request yields: a network failure or a non-ok status
   * raises; an ok reply yields its parsed body.
   */
  function ReplyResult(reply: HttpReply): (r: Result<Value, Error>)
    ensures r.Success? <==> reply.Reply? && IsOk(reply.status)
    ensures r.Success? ==> r.value == reply.body
    ensures reply.Reply? && !IsOk(reply.status) ==> r == Failure(ProviderStatus(reply.status))
  {
    match reply
    case NetworkError => Failure(ProviderUnreachable)
    case Reply(status, _, body) => if IsOk(status) then Success(body) else Failure(ProviderStatus(status))
  }

  function ReplyHeaders(reply: HttpReply): Option<RateHeaders> {
    if reply.Reply? then reply.headers else None
  }

  /** The request itself, once admitted and authenticated: log it, read the reply, store an ok body. */
  function Dispatch(e: Env, w: World, q: Query, cacheKey: Option<string>): (r: Out<Value>)
    ensures r.env.sent == e.sent + [q]
    ensures r.result == ReplyResult(w.api(q))
    ensures r.env.info == UpdateRateLimitInfo(e.info, ReplyHeaders(w.api(q)))
    ensures r.result.Success? && Keyed(cacheKey) ==> Cache.View(r.env.cache, cacheKey.value) == Some(r.result.value)
    ensures r.result.Failure? ==> r.env.cache == e.cache
    ensures forall k {:trigger Cache.View(r.env.cache, k)} :: (Keyed(cacheKey) ==> Cache.Apart(k, cacheKey.value)) ==> Cache.View(r.env.cache, k) == Cache.View(e.cache, k)
    ensures r.env.now == e.now && r.env.accessToken == e.accessToken && r.env.exchanges == e.exchanges
  {
    var e2 := e.(sent := e.sent + [q]);
    match w.api(q)
    case NetworkError => Out(Failure(ProviderUnreachable), e2)
    case Reply(status, headers, body) =>
      var e3 := e2.(info := UpdateRateLimitInfo(e2.info, headers));
      if !IsOk(status) then Out(Failure(ProviderStatus(status)), e3)
      else if Keyed(cacheKey) then Out(Success(body), e3.(cache := Cache.Set(e3.cache, cacheKey.value, body, e3.now)))
      else Out(Success(body), e3)
  }

  /** The part of `queryIGDB` after the cache check: admit, authenticate, then dispatch. */
  function Send(e: Env, w: World, q: Query, cacheKey: Option<string>): (r: Out<Value>)
    ensures r.env.sent == e.sent || r.env.sent == e.sent + [q]
    ensures r.result.Success? ==> r.env.sent == e.sent + [q]
    ensures !w.clientIdSet ==> r.result.Failure? && r.env.sent == e.sent
    ensures |r.env.sent| == |e.sent| ==> r.result.Failure? && r.result.error in {AuthFailed, EmptyToken, MissingClientId}
    ensures |r.env.sent| > |e.sent| ==>
              r.result == ReplyResult(w.api(q)) && r.env.info == UpdateRateLimitInfo(e.info, ReplyHeaders(w.api(q)))
    ensures r.result.Success? && Keyed(cacheKey) ==> Cache.View(r.env.cache, cacheKey.value) == Some(r.result.value)
    ensures r.result.Failure? ==> forall k {:trigger Cache.View(r.env.cache, k)} :: Cache.Apart(k, TokenKey) ==> Cache.View(r.env.cache, k) == Cache.View(e.cache, k)
    ensures forall k {:trigger Cache.View(r.env.cache, k)} :: Cache.Apart(k, TokenKey) && (Keyed(cacheKey) ==> Cache.Apart(k, cacheKey.value)) ==>
              Cache.View(r.env.cache, k) == Cache.View(e.cache, k)
    ensures r.env.now >= e.now
  {
    var adm := CheckRateLimit(e.window, e.now);
    var tok := GetAccessToken(e.(window := adm.window, now := adm.at), w);
    if tok.result.Failure? then Out(Failure(tok.result.error), tok.env)
    else if !w.clientIdSet then Out(Failure(MissingClientId), tok.env)
    else Dispatch(tok.env, w, q, cacheKey)
  }

  /**
   * `queryIGDB(endpoint, query, cacheKey?)`: a truthy cached value under a
   * (non-empty) cache key is returned with no admission, token or request;
   * otherwise the request is sent and a successful body is cached under the key.
   */
  function QueryIGDB(e: Env, w: World, q: Query, cacheKey: Option<string>): (r: Out<Value>)
    ensures Keyed(cacheKey) && Hit(e.cache, cacheKey.value) ==>
              && r.result == Success(Cache.View(e.cache, cacheKey.value).value)
              && r.env.sent == e.sent && r.env.window == e.window && r.env.exchanges == e.exchanges
              && r.env.accessToken == e.accessToken && r.env.now == e.now
              && forall k {:trigger Cache.View(r.env.cache, k)} :: Cache.View(r.env.cache, k) == Cache.View(e.cache, k)
    ensures r.env.sent == e.sent || r.env.sent == e.sent + [q]
    ensures |r.env.sent| > |e.sent| ==>
              r.result == ReplyResult(w.api(q)) && r.env.info == UpdateRateLimitInfo(e.info, ReplyHeaders(w.api(q)))
    ensures r.result.Success? && |r.env.sent| == |e.sent| ==> Keyed(cacheKey) && Hit(e.cache, cacheKey.value)
    ensures r.result.Success? && Keyed(cacheKey) ==> Cache.View(r.env.cache, cacheKey.value) == Some(r.result.value)
    ensures r.result.Failure? ==> forall k {:trigger Cache.View(r.env.cache, k)} :: Cache.Apart(k, TokenKey) ==> Cache.View(r.env.cache, k) == Cache.View(e.cache, k)
    ensures forall k {:trigger Cache.View(r.env.cache, k)} :: Cache.Apart(k, TokenKey) && (Keyed(cacheKey) ==> Cache.Apart(k, cacheKey.value)) ==>
              Cache.View(r.env.cache, k) == Cache.View(e.cache, k)
    ensures r.env.now >= e.now
  {
    if Keyed(cacheKey) then
      var read := Lookup(e, cacheKey.value);
      if read.value.Some? && Truthy(read.value.value) then Out(Success(read.value.value), read.env)
      else Send(read.env, w, q, cacheKey)
    else Send(e, w, q, cacheKey)
  }

  /**
   * When the cache does not answer, a non-ok provider status always raises:
   * either the request was never sent (no token, no client id) or it was,
   * and the call fails with that status after recording the reply's
   * rate-limit headers; no cache entry other than the token's is written.
   */
  lemma QueryFailsOnErrorStatus(e: Env, w: World, q: Query, cacheKey: Option<string>)
    requires !(Keyed(cacheKey) && Hit(e.cache, cacheKey.value))
    requires w.api(q).Reply? && !IsOk(w.api(q).status)
    ensures var r := QueryIGDB(e, w, q, cacheKey);
            && r.result.Failure?
            && (r.result.error in {AuthFailed, EmptyToken, MissingClientId} ||
                (r.result.error == ProviderStatus(w.api(q).status)
                 && r.env.sent == e.sent + [q]
                 && r.env.info == UpdateRateLimitInfo(e.info, w.api(q).headers)))
            && forall k :: Cache.Apart(k, TokenKey) ==> Cache.View(r.env.cache, k) == Cache.View(e.cache, k)
  {
    var r := QueryIGDB(e, w, q, cacheKey);
    if Keyed(cacheKey) {
      assert r == Send(Lookup(e, cacheKey.value).env, w, q, cacheKey);
    }
    assert r.result.Failure?;
  }
}
