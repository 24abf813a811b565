/**
 * The discover page's configuration: the copy cached under
 * "discover-config", or else the configuration shipped with the
 * application, which is then cached; and the route that clears it.
 */
module DiscoverConfigCache {
  import opened Wrappers
  import opened Values
  import opened Client
  import Cache

  /** The one key the configuration is read from, written to and cleared under. */
  const ConfigKey := "discover-config"

  /** A read of the configuration and the environment after it. */
  datatype ConfigRead = ConfigRead(config: Value, env: Env)

  /**
   * `readDiscoverConfig()`, with `shipped` the configuration bundled with the
   * application: a truthy cached value as it is, otherwise `shipped`, which
   * is written under the key first.
   */
  function ReadDiscoverConfig(e: Env, shipped: DiscoverConfig): (r: ConfigRead)
    ensures Hit(e.cache, ConfigKey) ==>
              && r.config == Cache.View(e.cache, ConfigKey).value
              && forall k {:trigger Cache.View(r.env.cache, k)} :: Cache.View(r.env.cache, k) == Cache.View(e.cache, k)
    ensures !Hit(e.cache, ConfigKey) ==>
              && r.config == Config(shipped)
              && forall k {:trigger Cache.View(r.env.cache, k)} :: Cache.Apart(k, ConfigKey) ==> Cache.View(r.env.cache, k) == Cache.View(e.cache, k)
    ensures Cache.View(r.env.cache, ConfigKey) == Some(r.config) && Truthy(r.config)
    ensures r.env == e.(cache := r.env.cache)
  {
    var got := Lookup(e, ConfigKey);
    if got.value.Some? && Truthy(got.value.value) then ConfigRead(got.value.value, got.env)
    else ConfigRead(Config(shipped), Store(got.env, ConfigKey, Config(shipped)))
  }

  /** Whatever the first read returns, an immediate second read returns it again from the cache. */
  lemma SecondReadHits(e: Env, shipped: DiscoverConfig)
    ensures var first := ReadDiscoverConfig(e, shipped);
            var second := ReadDiscoverConfig(first.env, shipped);
            && Hit(first.env.cache, ConfigKey)
            && second.config == first.config
            && forall k :: Cache.View(second.env.cache, k) == Cache.View(first.env.cache, k)
  {
  }

  datatype Cleared = Cleared(keys: seq<string>, env: Env)

  /** `POST` of the configuration refresh route: the configuration's key is deleted and reported. */
  function RefreshConfig(e: Env): (r: Cleared)
    ensures r.keys == [ConfigKey]
    ensures Cache.View(r.env.cache, ConfigKey) == None
    ensures forall k {:trigger Cache.View(r.env.cache, k)} :: Cache.Apart(k, ConfigKey) ==> Cache.View(r.env.cache, k) == Cache.View(e.cache, k)
  {
    Cleared([ConfigKey], Remove(e, ConfigKey))
  }

  /** The refresh route clears the key the reader uses: the next read serves the shipped configuration and caches it. */
  lemma ReadAfterRefreshServesShipped(e: Env, shipped: DiscoverConfig)
    ensures var r := ReadDiscoverConfig(RefreshConfig(e).env, shipped);
            && r.config == Config(shipped)
            && Cache.View(r.env.cache, ConfigKey) == Some(Config(shipped))
  {
  }
}
