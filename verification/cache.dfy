/**
 * The three-tier cache: an in-process memory tier, an optional shared Redis
 * tier and an on-disk tier with one JSON file per key, plus hit/miss counters.
 *
 * Every operation is a pure state transformer over `Tiers`. Redis is present
 * only through the `redisConnected` flag: while it is false, the Redis map is
 * neither read nor written. Entry expiry (TTL) is not modelled.
 */
module Cache {
  import opened Wrappers
  import opened Values
  import opened Strings

  datatype Tiers = Tiers(
    memory: map<string, Value>,
    redis: map<string, Value>,
    disk: map<string, Value>,   // keyed by file name, see FileName
    redisConnected: bool,
    hits: nat,
    misses: nat,
    lastRefresh: int)           // instant of the last set or clear

  datatype Stats = Stats(hits: nat, misses: nat, lastRefresh: int)

  /** The result of a read: the value found (None for null) and the new cache state. */
  datatype Read = Read(value: Option<Value>, cache: Tiers)

  function Empty(redisConnected: bool, now: int): Tiers {
    Tiers(map[], map[], map[], redisConnected, 0, 0, now)
  }

  /** The character `c` stands for in a file name: itself if it is a letter or digit, else '_'. */
  function SanitizeChar(c: char): char {
    if IsAlphanumeric(c) then c else '_'
  }

  /** `key.replace(/[^a-z0-9]/gi, "_")`: every character outside [A-Za-z0-9] becomes '_'. */
  function Sanitize(key: string): (r: string)
    ensures |r| == |key|
  {
    seq(|key|, i requires 0 <= i < |key| => SanitizeChar(key[i]))
  }

  /** The name of the file that holds `key` in the cache directory. */
  function FileName(key: string): (r: string)
    ensures |r| == |key| + 5 && EndsWith(r, ".json")
  {
    Sanitize(key) + ".json"
  }

  /** A file name keeps the key's length and holds only letters, digits and '_' before ".json". */
  lemma FileNameChars(key: string)
    ensures forall i :: 0 <= i < |key| ==> IsAlphanumeric(FileName(key)[i]) || FileName(key)[i] == '_'
  {
  }

  /** Two keys that never touch each other's entries: distinct, and stored in distinct files. */
  predicate Apart(a: string, b: string) {
    a != b && FileName(a) != FileName(b)
  }

  /** Keys of different lengths, or differing in an alphanumeric character, are apart. */
  lemma FileNamesDiffer(a: string, b: string, i: nat)
    requires |a| != |b| || (i < |a| == |b| && IsAlphanumeric(a[i]) && a[i] != b[i])
    ensures Apart(a, b)
  {
    if |a| == |b| {
      assert FileName(a)[i] != FileName(b)[i];
    }
  }

  /** Every file of the disk tier is one the cache wrote: its name ends in ".json". */
  ghost predicate WellFormed(c: Tiers) {
    forall f :: f in c.disk ==> EndsWith(f, ".json")
  }

  /**
   * What a read of `key` yields: the memory entry, else the Redis entry when
   * Redis is connected, else the disk file of the key's sanitised name.
   */
  function View(c: Tiers, key: string): Option<Value> {
    if key in c.memory then Some(c.memory[key])
    else if c.redisConnected && key in c.redis then Some(c.redis[key])
    else if FileName(key) in c.disk then Some(c.disk[FileName(key)])
    else None
  }

  /** `cacheManager.get(key)`. */
  function Get(c: Tiers, key: string): (r: Read)
    ensures r.value == View(c, key)
    ensures forall k {:trigger View(r.cache, k)} :: View(r.cache, k) == View(c, k)
    ensures key in c.memory ==> r.cache == c.(hits := c.hits + 1)
    ensures r.value.Some? ==> key in r.cache.memory && r.cache.memory[key] == r.value.value
    ensures r.value.Some? ==> r.cache.hits == c.hits + 1 && r.cache.misses == c.misses
    ensures r.value.None? ==> r.cache.hits == c.hits && r.cache.misses == c.misses + 1
    ensures r.cache.redis == c.redis && r.cache.disk == c.disk && r.cache.redisConnected == c.redisConnected
    ensures r.cache.lastRefresh == c.lastRefresh
  {
    if key in c.memory then
      Read(Some(c.memory[key]), c.(hits := c.hits + 1))
    else if c.redisConnected && key in c.redis then
      var v := c.redis[key];
      Read(Some(v), c.(memory := c.memory[key := v], hits := c.hits + 1))
    else if FileName(key) in c.disk then
      var v := c.disk[FileName(key)];
      Read(Some(v), c.(memory := c.memory[key := v], hits := c.hits + 1))
    else
      Read(None, c.(misses := c.misses + 1))
  }

  /** `cacheManager.set(key, value)` at instant `now`: memory, then Redis if connected, then disk. */
  function Set(c: Tiers, key: string, v: Value, now: int): (r: Tiers)
    ensures View(r, key) == Some(v)
    ensures forall k {:trigger View(r, k)} :: k != key && FileName(k) != FileName(key) ==> View(r, k) == View(c, k)
    ensures r.hits == c.hits && r.misses == c.misses && r.redisConnected == c.redisConnected
    ensures r.lastRefresh == now
  {
    c.(memory := c.memory[key := v],
       redis := if c.redisConnected then c.redis[key := v] else c.redis,
       disk := c.disk[FileName(key) := v],
       lastRefresh := now)
  }

  /** `cacheManager.delete(key)`: every tier drops the key (Redis only while connected). */
  function Delete(c: Tiers, key: string): (r: Tiers)
    ensures View(r, key) == None
    ensures forall k {:trigger View(r, k)} :: FileName(k) != FileName(key) ==> View(r, k) == View(c, k)
    ensures r.hits == c.hits && r.misses == c.misses && r.redisConnected == c.redisConnected
    ensures r.lastRefresh == c.lastRefresh
  {
    c.(memory := c.memory - {key},
       redis := if c.redisConnected then c.redis - {key} else c.redis,
       disk := c.disk - {FileName(key)})
  }

  /** `cacheManager.keys()`: the keys of the memory tier only. */
  function Keys(c: Tiers): (r: set<string>)
    ensures forall k :: k in r ==> View(c, k).Some?
    ensures forall k :: k in r <==> k in c.memory
  {
    c.memory.Keys
  }

  /**
   * `cacheManager.clear()` at instant `now`: flush memory and (if connected)
   * Redis, remove every ".json" file, reset the counters.
   */
  function Clear(c: Tiers, now: int): (r: Tiers)
    ensures WellFormed(c) ==> forall k {:trigger View(r, k)} :: View(r, k) == None
    ensures forall f :: f in r.disk ==> f in c.disk && !EndsWith(f, ".json")
    ensures r.hits == 0 && r.misses == 0 && r.redisConnected == c.redisConnected
  {
    c.(memory := map[],
       redis := if c.redisConnected then map[] else c.redis,
       disk := map f | f in c.disk && !EndsWith(f, ".json") :: c.disk[f],
       hits := 0, misses := 0, lastRefresh := now)
  }

  /** `cacheManager.getStats()`: a copy of the counters. */
  function GetStats(c: Tiers): Stats {
    Stats(c.hits, c.misses, c.lastRefresh)
  }

  /** Every cache operation keeps the disk tier made of ".json" files only. */
  lemma OperationsPreserveWellFormed(c: Tiers, key: string, v: Value, now: int)
    requires WellFormed(c)
    ensures WellFormed(Get(c, key).cache)
    ensures WellFormed(Set(c, key, v, now))
    ensures WellFormed(Delete(c, key))
    ensures WellFormed(Clear(c, now))
  {
  }

  /** How many reads the counters record. */
  function Reads(c: Tiers): nat {
    c.hits + c.misses
  }

  /** A get raises exactly one of the two counters by exactly one. */
  lemma GetCountsOnce(c: Tiers, key: string)
    ensures var r := Get(c, key).cache; r.hits + r.misses == c.hits + c.misses + 1
    ensures Reads(Get(c, key).cache) == Reads(c) + 1
  {
  }

  /** set(k, v) then get(k) returns v, with Redis connected or not. */
  lemma SetThenGet(c: Tiers, key: string, v: Value, now: int)
    ensures Get(Set(c, key, v, now), key).value == Some(v)
  {
  }

  /** delete(k) then get(k) returns null and counts a miss. */
  lemma DeleteThenGet(c: Tiers, key: string)
    ensures var r := Get(Delete(c, key), key); r.value == None && r.cache.misses == c.misses + 1
  {
  }

  /**
   * Two keys with the same sanitised name share a file: after set(k1, v),
   * a read of k2 that misses memory and Redis is served v.
   */
  lemma CollidingKeysShareDiskEntry(c: Tiers, k1: string, k2: string, v: Value, now: int)
    requires Sanitize(k1) == Sanitize(k2)
    requires k1 == k2 || k2 !in c.memory
    requires k1 == k2 || !c.redisConnected || k2 !in c.redis
    ensures FileName(k1) == FileName(k2)
    ensures Get(Set(c, k1, v, now), k2).value == Some(v)
  {
  }

  /** Such keys exist: "a:b" and "a_b" are different keys stored in one file. */
  lemma CollidingKeysExist()
    ensures "a:b" != "a_b" && Sanitize("a:b") == Sanitize("a_b")
  {
    assert Sanitize("a:b") == Sanitize("a_b");
  }

  /**
   * A delete made while Redis is disconnected leaves the Redis entry behind:
   * once the connection comes back, the deleted value is served again.
   */
  lemma StaleRedisEntryAfterReconnect(c: Tiers, key: string)
    requires !c.redisConnected && key in c.redis
    ensures View(Delete(c, key), key) == None
    ensures View(Delete(c, key).(redisConnected := true), key) == Some(c.redis[key])
  {
  }
}
