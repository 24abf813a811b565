/**
 * The discovery aggregator behind the discover page and the `/api/discover` routes:
 * cover-url formatting, the section-metadata aggregate with its game
 * counts, one section's games, the featured selection and the manual
 * refresh. All state lives in the client environment; the provider is the
 * `World` oracle, and `cutoff` is the classics transform's cutoff.
 */
module Discover {
  import opened Wrappers
  import opened Values
  import opened Strings
  import opened Seqs
  import opened Sections
  import opened Client
  import Cache

  // ---------------------------------------------------------------- covers

  /** The url rewrite of a cover: the first "//images" to "https://images", then the first "t_thumb" to `size`. */
  function RewriteUrl(url: string, size: string): string {
    ReplaceFirst(ReplaceFirst(url, "//images", "https://images"), "t_thumb", size)
  }

  /**
   * The cover rewrite both aggregators apply, with the size `size` the
   * thumbnail marker becomes: a game with a non-empty cover url gets its url
   * rewritten and keeps its cover id; any other game is returned unchanged.
   */
  function RewriteCover(g: Game, size: string): (r: Game)
    ensures r == g.(cover := r.cover)
    ensures g.cover.None? || g.cover.value.url == "" ==> r == g
    ensures g.cover.Some? && g.cover.value.url != "" ==>
              r.cover == Some(g.cover.value.(url := RewriteUrl(g.cover.value.url, size)))
  {
    if g.cover.Some? && g.cover.value.url != "" then
      var url := ReplaceFirst(g.cover.value.url, "//images", "https://images");
      g.(cover := Some(g.cover.value.(url := ReplaceFirst(url, "t_thumb", size))))
    else g
  }

  /** A url holding neither "//images" nor "t_thumb" comes out of the rewrite unchanged. */
  lemma RewriteUrlKeepsOthers(url: string, size: string)
    requires !Contains(url, "//images") && !Contains(url, "t_thumb")
    ensures RewriteUrl(url, size) == url
  {
  }

  /** "t_thumb" holds no ':', so putting "https:" in front of a url cannot create one. */
  lemma SchemeAddsNoThumb(url: string)
    requires !Contains(url, "t_thumb")
    ensures !Contains("https:" + url, "t_thumb")
  {
    var s := "https:" + url;
    assert forall k :: 0 <= k < 7 ==> "t_thumb"[k] != ':';
    forall i | 0 <= i <= |s|
      ensures !OccursAt(s, "t_thumb", i)
    {
      if 6 <= i <= |s| - 7 {
        assert s[i..i + 7] == url[i - 6..i - 6 + 7];
        assert !OccursAt(url, "t_thumb", i - 6);
        assert !OccursAt(s, "t_thumb", i);
      } else if i < 6 && i + 7 <= |s| {
        assert s[i..i + 7][5 - i] == s[5] == ':';
        assert !OccursAt(s, "t_thumb", i);
      }
    }
  }

  /**
   * A url whose first "//images" sits right after a prefix `pre` that holds
   * none, with "https:" + the url equal to `pre` + "https://images" + the
   * rest, comes out of the rewrite as "https:" + the url when it holds no
   * "t_thumb".
   */
  lemma RewriteUrlAt(url: string, size: string, i: nat)
    requires OccursAt(url, "//images", i) && forall j :: 0 <= j < i ==> !OccursAt(url, "//images", j)
    requires url[..i] + "https://images" + url[i + 8..] == "https:" + url
    requires !Contains(url, "t_thumb")
    ensures RewriteUrl(url, size) == "https:" + url
  {
    SchemeAddsNoThumb(url);
  }

  /** A protocol-relative "//images" url without a thumbnail marker only gains the "https:" scheme. */
  lemma RewriteUrlProtocolRelative(url: string, size: string)
    requires StartsWith(url, "//images") && !Contains(url, "t_thumb")
    ensures RewriteUrl(url, size) == "https:" + url
  {
    assert url == url[..8] + url[8..];
    RewriteUrlAt(url, size, 0);
  }

  /**
   * An "https://images" url without a thumbnail marker gains a second
   * "https:": the rewrite finds the "//images" inside the scheme it wrote.
   */
  lemma RewriteUrlSecure(url: string, size: string)
    requires StartsWith(url, "https://images") && !Contains(url, "t_thumb")
    ensures RewriteUrl(url, size) == "https:" + url
  {
    assert url[6..14] == "//images";
    forall j | 0 <= j < 6
      ensures !OccursAt(url, "//images", j)
    {
      assert url[j..j + 8][6 - j] == url[6] == '/';
      assert url[j..j + 8][5 - j] == url[5] == ':';
    }
    assert url[..6] == "https:";
    assert url == url[..14] + url[14..];
    RewriteUrlAt(url, size, 6);
  }

  /** A url without "//images" whose first "t_thumb" sits at `i` gets `size` in its place and nothing else. */
  lemma RewriteUrlThumb(url: string, size: string, i: nat)
    requires !Contains(url, "//images")
    requires OccursAt(url, "t_thumb", i) && forall j :: 0 <= j < i ==> !OccursAt(url, "t_thumb", j)
    ensures RewriteUrl(url, size) == url[..i] + size + url[i + 7..]
  {
  }

  /**
   * The provider's usual cover url: a protocol-relative "//images" url whose
   * first "t_thumb" sits at `i` gains the "https:" scheme and has that marker
   * replaced by `size`.
   */
  lemma RewriteUrlProtocolRelativeThumb(url: string, size: string, i: nat)
    requires StartsWith(url, "//images")
    requires OccursAt(url, "t_thumb", i) && forall j :: 0 <= j < i ==> !OccursAt(url, "t_thumb", j)
    ensures RewriteUrl(url, size) == "https:" + url[..i] + size + url[i + 7..]
  {
    var s := "https:" + url;
    SchemeOfProtocolRelative(url);
    SchemeShiftsThumb(url, i);
    assert s[..i + 6] == "https:" + url[..i];
    assert s[i + 13..] == url[i + 7..];
  }

  /** The first step of the rewrite puts "https:" in front of a protocol-relative "//images" url. */
  lemma SchemeOfProtocolRelative(url: string)
    requires StartsWith(url, "//images")
    ensures ReplaceFirst(url, "//images", "https://images") == "https:" + url
  {
    assert OccursAt(url, "//images", 0);
    var rest := url[8..];
    assert url == "//images" + rest;
    assert url[..0] + "https://images" + url[8..] == "https://images" + rest;
    assert "https:" + url == "https://images" + rest;
  }

  /** Putting "https:" in front of a url moves its first "t_thumb" six places on and creates no earlier one. */
  lemma SchemeShiftsThumb(url: string, i: nat)
    requires OccursAt(url, "t_thumb", i) && forall j :: 0 <= j < i ==> !OccursAt(url, "t_thumb", j)
    ensures OccursAt("https:" + url, "t_thumb", i + 6)
    ensures forall j :: 0 <= j < i + 6 ==> !OccursAt("https:" + url, "t_thumb", j)
  {
    var s := "https:" + url;
    assert s[i + 6..i + 13] == url[i..i + 7];
    assert forall k :: 0 <= k < 7 ==> "t_thumb"[k] != ':';
    forall j | 0 <= j < i + 6
      ensures !OccursAt(s, "t_thumb", j)
    {
      if 6 <= j {
        assert s[j..j + 7] == url[j - 6..j - 6 + 7];
        assert !OccursAt(url, "t_thumb", j - 6);
      } else {
        assert s[j..j + 7][5 - j] == s[5] == ':';
        assert "t_thumb"[5 - j] != ':';
      }
    }
  }

  /** `formatCoverUrl`: the cover rewrite to the "t_cover_big_2x" size. */
  function FormatCoverUrl(g: Game): (r: Game)
    ensures r == g.(cover := r.cover)
    ensures g.cover.None? || g.cover.value.url == "" ==> r == g
    ensures g.cover.Some? && g.cover.value.url != "" ==>
              r.cover == Some(g.cover.value.(url := RewriteUrl(g.cover.value.url, "t_cover_big_2x")))
  {
    RewriteCover(g, "t_cover_big_2x")
  }

  /**
   * `formatCoverUrl` is not idempotent: a protocol-relative "//images" url
   * without a thumbnail marker gains "https:" on the first application and
   * a second "https:" on the next one.
   */
  lemma FormatCoverUrlNotIdempotent(g: Game)
    requires g.cover.Some? && StartsWith(g.cover.value.url, "//images") && !Contains(g.cover.value.url, "t_thumb")
    ensures FormatCoverUrl(g).cover.value.url == "https:" + g.cover.value.url
    ensures FormatCoverUrl(FormatCoverUrl(g)).cover.value.url == "https:" + ("https:" + g.cover.value.url)
    ensures FormatCoverUrl(FormatCoverUrl(g)) != FormatCoverUrl(g)
  {
    var url := g.cover.value.url;
    var g1 := FormatCoverUrl(g);
    RewriteUrlProtocolRelative(url, "t_cover_big_2x");
    assert g1.cover.value.url == "https:" + url;
    SchemeMakesSecure(url);
    var g2 := FormatCoverUrl(g1);
    RewriteUrlSecure("https:" + url, "t_cover_big_2x");
    assert g2.cover.value.url == "https:" + ("https:" + url);
    assert |g2.cover.value.url| != |g1.cover.value.url|;
  }

  /** Putting "https:" before a "//images" url without a thumbnail marker gives a secure one, still without a marker. */
  lemma SchemeMakesSecure(url: string)
    requires StartsWith(url, "//images") && !Contains(url, "t_thumb")
    ensures StartsWith("https:" + url, "https://images") && !Contains("https:" + url, "t_thumb")
  {
    var u := "https:" + url;
    assert u[..14] == "https:" + url[..8];
    SchemeAddsNoThumb(url);
  }

  /** The games of a section value, cover-formatted; anything but a game list gives none. */
  function FormatGames(v: Value): (r: seq<Game>)
    ensures v.Games? ==> |r| == |v.games| && forall i :: 0 <= i < |r| ==> r[i] == FormatCoverUrl(v.games[i])
    ensures !v.Games? ==> r == []
  {
    if v.Games? then Map(v.games, FormatCoverUrl) else []
  }

  // ---------------------------------------------------------------- keys

  /** The token key is apart from every discovery key. */
  lemma TokenKeyApart()
    ensures forall i :: 0 <= i < |Registry| ==> Cache.Apart(KeyOf(Registry[i].id), TokenKey) && Cache.Apart(TokenKey, KeyOf(Registry[i].id))
    ensures Cache.Apart(AllSectionsKey, TokenKey) && Cache.Apart(TokenKey, AllSectionsKey)
    ensures Cache.Apart(LastRefreshKey, TokenKey) && Cache.Apart(TokenKey, LastRefreshKey)
  {
    forall i | 0 <= i < |Registry|
      ensures Cache.Apart(KeyOf(Registry[i].id), TokenKey) && Cache.Apart(TokenKey, KeyOf(Registry[i].id))
    {
      Cache.FileNamesDiffer(KeyOf(Registry[i].id), TokenKey, 0);
    }
    Cache.FileNamesDiffer(AllSectionsKey, TokenKey, 0);
    Cache.FileNamesDiffer(LastRefreshKey, TokenKey, 0);
  }

  /** The key of `s` is apart from the token key and from both aggregate keys. */
  predicate KeyApartFromOthers(s: Section) {
    Cache.Apart(KeyOf(s.id), TokenKey) && Cache.Apart(KeyOf(s.id), AllSectionsKey) && Cache.Apart(KeyOf(s.id), LastRefreshKey)
  }

  /** Sections whose keys never share a cache entry with each other or with the other keys. */
  ghost predicate Separated(secs: seq<Section>) {
    && (forall i, j :: 0 <= i < |secs| && 0 <= j < |secs| && i != j ==> Cache.Apart(KeyOf(secs[i].id), KeyOf(secs[j].id)))
    && (forall i :: 0 <= i < |secs| ==> KeyApartFromOthers(secs[i]))
  }

  /** A key no entry of the sections `secs` and no token write can touch. */
  ghost predicate Outside(k: string, secs: seq<Section>) {
    Cache.Apart(k, TokenKey) && forall i :: 0 <= i < |secs| ==> Cache.Apart(k, KeyOf(secs[i].id))
  }

  /** The registry's keys are separated, and the aggregate keys lie outside them. */
  lemma RegistrySeparated()
    ensures Separated(Registry)
    ensures Outside(AllSectionsKey, Registry) && Outside(LastRefreshKey, Registry)
  {
    DiscoveryKeysApart();
    TokenKeyApart();
  }

  lemma SeparatedTail(secs: seq<Section>)
    requires secs != [] && Separated(secs)
    ensures Separated(secs[1..])
    ensures Outside(KeyOf(secs[0].id), secs[1..])
    ensures forall k :: Outside(k, secs) ==> Outside(k, secs[1..]) && Cache.Apart(k, KeyOf(secs[0].id))
  {
    assert forall i :: 0 <= i < |secs| - 1 ==> secs[1..][i] == secs[i + 1];
  }

  // ---------------------------------------------------------------- fetching a section

  /** What the provider's reply to a section's query makes of that section: the transformed body. */
  function Fresh(w: World, cutoff: int, s: Section): (r: Result<Value, Error>)
    ensures r.Success? <==> ReplyResult(w.api(SectionQuery(s.id))).Success?
    ensures r.Success? ==> r.value == Transformed(s, ReplyResult(w.api(SectionQuery(s.id))).value, cutoff)
  {
    match ReplyResult(w.api(SectionQuery(s.id)))
    case Success(v) => Success(Transformed(s, v, cutoff))
    case Failure(err) => Failure(err)
  }

  /**
   * What a cache-first pass over section `s` may do to its entry: the entry
   * stays as it was, or, when it was not truthy, it holds the fresh list.
   */
  predicate Refetched(c0: Cache.Tiers, c1: Cache.Tiers, w: World, cutoff: int, s: Section) {
    || Cache.View(c1, KeyOf(s.id)) == Cache.View(c0, KeyOf(s.id))
    || (!Hit(c0, KeyOf(s.id)) && Fresh(w, cutoff, s).Success? && Cache.View(c1, KeyOf(s.id)) == Some(Fresh(w, cutoff, s).value))
  }

  /**
   * The fetch both `getSectionGames` and the cold `getAllSectionsMeta` make
   * after a section miss: `queryIGDB` under the section key, then the
   * transform, whose result overwrites the raw list `queryIGDB` cached.
   */
  function FetchSection(e: Env, w: World, cutoff: int, s: Section): (r: Out<Value>)
    requires !Hit(e.cache, KeyOf(s.id))
    ensures r.env.sent == e.sent || r.env.sent == e.sent + [SectionQuery(s.id)]
    ensures |r.env.sent| > |e.sent| ==> r.result == Fresh(w, cutoff, s)
    ensures r.result.Success? ==> r.result == Fresh(w, cutoff, s) && Cache.View(r.env.cache, KeyOf(s.id)) == Some(r.result.value)
    ensures r.result.Failure? && Cache.Apart(KeyOf(s.id), TokenKey) ==>
              Cache.View(r.env.cache, KeyOf(s.id)) == Cache.View(e.cache, KeyOf(s.id))
    ensures forall k {:trigger Cache.View(r.env.cache, k)} :: Cache.Apart(k, TokenKey) && Cache.Apart(k, KeyOf(s.id)) ==> Cache.View(r.env.cache, k) == Cache.View(e.cache, k)
    ensures r.env.now >= e.now
  {
    var key := KeyOf(s.id);
    var q := QueryIGDB(e, w, SectionQuery(s.id), Some(key));
    if q.result.Failure? then q
    else if s.transform.Some? && q.result.value.Games? then
      var t := Transformed(s, q.result.value, cutoff);
      Out(Success(t), Store(q.env, key, t))
    else q
  }

  // ---------------------------------------------------------------- the metadata aggregate

  datatype Counted = Counted(count: nat, env: Env)

  /**
   * One section of the cold `getAllSectionsMeta` loop: its cached list if
   * truthy, else a fresh fetch; the count is the list's length, 0 when the
   * fetch raises. What it counts and sends is stated by `CountSectionCounts`.
   */
  function CountSection(e: Env, w: World, cutoff: int, s: Section): (r: Counted)
    ensures forall k {:trigger Cache.View(r.env.cache, k)} :: Cache.Apart(k, TokenKey) && Cache.Apart(k, KeyOf(s.id)) ==> Cache.View(r.env.cache, k) == Cache.View(e.cache, k)
    ensures r.env.now >= e.now
  {
    var got := Lookup(e, KeyOf(s.id));
    if got.value.Some? && Truthy(got.value.value) then Counted(CountOf(got.value.value), got.env)
    else
      var f := FetchSection(got.env, w, cutoff, s);
      if f.result.Failure? then Counted(0, f.env) else Counted(CountOf(f.result.value), f.env)
  }

  /**
   * The count is the length of the list the section holds afterwards; a
   * truthy entry is used as it is, with nothing sent; otherwise the entry is
   * kept or refetched, with at most the section's query sent.
   */
  lemma CountSectionCounts(e: Env, w: World, cutoff: int, s: Section)
    requires Cache.Apart(KeyOf(s.id), TokenKey)
    ensures var r := CountSection(e, w, cutoff, s);
            && r.count == CountOf(ViewOrNull(r.env.cache, KeyOf(s.id)))
            && (Hit(e.cache, KeyOf(s.id)) ==>
                  r.env == e.(cache := r.env.cache) && forall k :: Cache.View(r.env.cache, k) == Cache.View(e.cache, k))
            && Refetched(e.cache, r.env.cache, w, cutoff, s)
            && (r.env.sent == e.sent || (!Hit(e.cache, KeyOf(s.id)) && r.env.sent == e.sent + [SectionQuery(s.id)]))
  {
  }

  /** The queries for the sections of `secs` whose entries are not truthy in `c`, in order. */
  function MissQueries(c: Cache.Tiers, secs: seq<Section>): seq<Query>
  {
    if secs == [] then []
    else (if Hit(c, KeyOf(secs[0].id)) then [] else [SectionQuery(secs[0].id)]) + MissQueries(c, secs[1..])
  }

  lemma {:induction false} MissQueriesAgree(c1: Cache.Tiers, c2: Cache.Tiers, secs: seq<Section>)
    requires forall i :: 0 <= i < |secs| ==> Cache.View(c1, KeyOf(secs[i].id)) == Cache.View(c2, KeyOf(secs[i].id))
    ensures MissQueries(c1, secs) == MissQueries(c2, secs)
  {
    if secs != [] {
      assert forall i :: 0 <= i < |secs| - 1 ==> secs[1..][i] == secs[i + 1];
      MissQueriesAgree(c1, c2, secs[1..]);
    }
  }

  datatype CountList = CountList(counts: seq<nat>, env: Env)

  /** The counting loop of the cold `getAllSectionsMeta` over the sections `secs`, in order. */
  function ColdCounts(e: Env, w: World, cutoff: int, secs: seq<Section>): (r: CountList)
    ensures |r.counts| == |secs|
    ensures r.env.now >= e.now
    decreases |secs|
  {
    if secs == [] then CountList([], e)
    else
      var c := CountSection(e, w, cutoff, secs[0]);
      var rest := ColdCounts(c.env, w, cutoff, secs[1..]);
      CountList([c.count] + rest.counts, rest.env)
  }

  /** The entries of the cold aggregate: each section's identity with its count and the timestamp. */
  function MetasOf(secs: seq<Section>, counts: seq<nat>, stamp: Value): (r: seq<SectionMeta>)
    requires |counts| == |secs|
    ensures |r| == |secs|
    ensures forall i :: 0 <= i < |secs| ==> r[i] == SectionMeta(secs[i].id, secs[i].name, secs[i].description, counts[i], stamp)
  {
    seq(|secs|, i requires 0 <= i < |secs| => SectionMeta(secs[i].id, secs[i].name, secs[i].description, counts[i], stamp))
  }

  /** The counting pass writes no key outside the sections' own keys. */
  lemma {:induction false} ColdCountsFrame(e: Env, w: World, cutoff: int, secs: seq<Section>)
    ensures var r := ColdCounts(e, w, cutoff, secs);
            forall k :: Outside(k, secs) ==> Cache.View(r.env.cache, k) == Cache.View(e.cache, k)
    decreases |secs|
  {
    if secs != [] {
      var c := CountSection(e, w, cutoff, secs[0]);
      ColdCountsFrame(c.env, w, cutoff, secs[1..]);
      var r := ColdCounts(e, w, cutoff, secs);
      var rest := ColdCounts(c.env, w, cutoff, secs[1..]);
      assert r.env == rest.env;
      forall k | Outside(k, secs)
        ensures Cache.View(r.env.cache, k) == Cache.View(e.cache, k)
      {
        assert forall i :: 0 <= i < |secs| - 1 ==> secs[1..][i] == secs[i + 1];
        assert Outside(k, secs[1..]);
        assert Cache.View(rest.env.cache, k) == Cache.View(c.env.cache, k);
      }
    }
  }

  /** Every count is the length of the list its section holds once the pass is over. */
  lemma {:induction false} ColdCountsAreLengths(e: Env, w: World, cutoff: int, secs: seq<Section>)
    requires Separated(secs)
    ensures var r := ColdCounts(e, w, cutoff, secs);
            forall i :: 0 <= i < |secs| ==> r.counts[i] == CountOf(ViewOrNull(r.env.cache, KeyOf(secs[i].id)))
    decreases |secs|
  {
    if secs != [] {
      SeparatedTail(secs);
      CountSectionCounts(e, w, cutoff, secs[0]);
      var c := CountSection(e, w, cutoff, secs[0]);
      ColdCountsAreLengths(c.env, w, cutoff, secs[1..]);
      ColdCountsFrame(c.env, w, cutoff, secs[1..]);
      var r := ColdCounts(e, w, cutoff, secs);
      forall i | 1 <= i < |secs|
        ensures r.counts[i] == CountOf(ViewOrNull(r.env.cache, KeyOf(secs[i].id)))
      {
        assert secs[1..][i - 1] == secs[i];
      }
    }
  }

  /** Each section entry is left as it was, or, when it was not truthy, holds the section's fresh list. */
  lemma {:induction false} ColdCountsRefetched(e: Env, w: World, cutoff: int, secs: seq<Section>)
    requires Separated(secs)
    ensures var r := ColdCounts(e, w, cutoff, secs);
            forall i :: 0 <= i < |secs| ==> Refetched(e.cache, r.env.cache, w, cutoff, secs[i])
    decreases |secs|
  {
    if secs != [] {
      SeparatedTail(secs);
      CountSectionCounts(e, w, cutoff, secs[0]);
      var c := CountSection(e, w, cutoff, secs[0]);
      ColdCountsRefetched(c.env, w, cutoff, secs[1..]);
      ColdCountsFrame(c.env, w, cutoff, secs[1..]);
      var r := ColdCounts(e, w, cutoff, secs);
      forall i | 1 <= i < |secs|
        ensures Refetched(e.cache, r.env.cache, w, cutoff, secs[i])
      {
        assert secs[1..][i - 1] == secs[i];
        assert Cache.View(c.env.cache, KeyOf(secs[i].id)) == Cache.View(e.cache, KeyOf(secs[i].id));
      }
    }
  }

  /** The counting pass only appends queries, and only for sections whose entries were not truthy. */
  lemma {:induction false} ColdCountsSent(e: Env, w: World, cutoff: int, secs: seq<Section>)
    requires Separated(secs)
    ensures ExtendsWithin(e.sent, ColdCounts(e, w, cutoff, secs).env.sent, MissQueries(e.cache, secs))
    decreases |secs|
  {
    if secs != [] {
      SeparatedTail(secs);
      CountSectionCounts(e, w, cutoff, secs[0]);
      var c := CountSection(e, w, cutoff, secs[0]);
      var first := if Hit(e.cache, KeyOf(secs[0].id)) then [] else [SectionQuery(secs[0].id)];
      assert ExtendsWithin(e.sent, c.env.sent, first);
      ColdCountsSent(c.env, w, cutoff, secs[1..]);
      forall i | 0 <= i < |secs| - 1
        ensures Cache.View(c.env.cache, KeyOf(secs[1..][i].id)) == Cache.View(e.cache, KeyOf(secs[1..][i].id))
      {
        assert secs[1..][i] == secs[i + 1];
      }
      MissQueriesAgree(c.env.cache, e.cache, secs[1..]);
      ExtendsWithinTrans(e.sent, c.env.sent, ColdCounts(e, w, cutoff, secs).env.sent, first, MissQueries(e.cache, secs[1..]));
    }
  }

  /** A value read or built by an aggregator, with the environment after it. */
  datatype Valued = Valued(value: Value, env: Env)

  /** `getLastRefreshTime() || new Date().toISOString()`. */
  function RefreshStamp(e: Env): (r: Valued)
    ensures r.value == OrElse(Cache.View(e.cache, LastRefreshKey), Stamp(e.now))
    ensures r.env == e.(cache := r.env.cache) && forall k {:trigger Cache.View(r.env.cache, k)} :: Cache.View(r.env.cache, k) == Cache.View(e.cache, k)
  {
    var last := Lookup(e, LastRefreshKey);
    Valued(OrElse(last.value, Stamp(e.now)), last.env)
  }

  /**
   * `getAllSectionsMeta`: a truthy cached aggregate as it is; otherwise one
   * entry per registered section, in order, stamped with the last refresh
   * time, and the aggregate is cached. The counts, the entries the cold
   * path writes and the queries it sends are stated by the lemmas below.
   */
  function GetAllSectionsMeta(e: Env, w: World, cutoff: int): (r: Valued)
    ensures Hit(e.cache, AllSectionsKey) ==>
              && r.value == Cache.View(e.cache, AllSectionsKey).value
              && r.env == e.(cache := r.env.cache) && forall k {:trigger Cache.View(r.env.cache, k)} :: Cache.View(r.env.cache, k) == Cache.View(e.cache, k)
    ensures !Hit(e.cache, AllSectionsKey) ==>
              && r.value.Metas? && |r.value.metas| == |Registry|
              && Cache.View(r.env.cache, AllSectionsKey) == Some(r.value)
    ensures r.env.now >= e.now
  {
    var agg := Lookup(e, AllSectionsKey);
    if agg.value.Some? && Truthy(agg.value.value) then Valued(agg.value.value, agg.env)
    else
      var stamp := RefreshStamp(agg.env);
      var cold := ColdCounts(stamp.env, w, cutoff, Registry);
      var metas := MetasOf(Registry, cold.counts, stamp.value);
      Valued(Metas(metas), Store(cold.env, AllSectionsKey, Metas(metas)))
  }

  /**
   * Cold, the entries of `getAllSectionsMeta` are the registered sections in
   * order, each stamped with the last refresh time, or the current instant
   * when none is cached.
   */
  lemma ColdAllSectionsEntries(e: Env, w: World, cutoff: int)
    requires !Hit(e.cache, AllSectionsKey)
    ensures var r := GetAllSectionsMeta(e, w, cutoff);
            forall i :: 0 <= i < |Registry| ==>
              && r.value.metas[i].id == Registry[i].id && r.value.metas[i].name == Registry[i].name
              && r.value.metas[i].description == Registry[i].description
              && r.value.metas[i].lastUpdated == OrElse(Cache.View(e.cache, LastRefreshKey), Stamp(e.now))
  {
  }

  /** Cold, each entry of `getAllSectionsMeta` counts the list its section holds afterwards. */
  lemma ColdAllSectionsCounts(e: Env, w: World, cutoff: int)
    requires !Hit(e.cache, AllSectionsKey)
    ensures var r := GetAllSectionsMeta(e, w, cutoff);
            forall i :: 0 <= i < |Registry| ==> r.value.metas[i].count == CountOf(ViewOrNull(r.env.cache, KeyOf(Registry[i].id)))
  {
    RegistrySeparated();
    var agg := Lookup(e, AllSectionsKey);
    var stamp := RefreshStamp(agg.env);
    ColdCountsAreLengths(stamp.env, w, cutoff, Registry);
    AggregateStoreKeepsSections(ColdCounts(stamp.env, w, cutoff, Registry).env, GetAllSectionsMeta(e, w, cutoff).value);
  }

  /** Cold, `getAllSectionsMeta` keeps each section entry or, when it was not truthy, refetches it. */
  lemma ColdAllSectionsRefetched(e: Env, w: World, cutoff: int)
    requires !Hit(e.cache, AllSectionsKey)
    ensures var r := GetAllSectionsMeta(e, w, cutoff);
            forall i :: 0 <= i < |Registry| ==> Refetched(e.cache, r.env.cache, w, cutoff, Registry[i])
  {
    RegistrySeparated();
    var agg := Lookup(e, AllSectionsKey);
    var stamp := RefreshStamp(agg.env);
    ColdCountsRefetched(stamp.env, w, cutoff, Registry);
    AggregateStoreKeepsSections(ColdCounts(stamp.env, w, cutoff, Registry).env, GetAllSectionsMeta(e, w, cutoff).value);
  }

  /** `getAllSectionsMeta` sends the query of a section only when that section's entry was not truthy. */
  lemma AllSectionsSent(e: Env, w: World, cutoff: int)
    ensures ExtendsWithin(e.sent, GetAllSectionsMeta(e, w, cutoff).env.sent, MissQueries(e.cache, Registry))
  {
    var agg := Lookup(e, AllSectionsKey);
    if agg.value.Some? && Truthy(agg.value.value) {
      assert GetAllSectionsMeta(e, w, cutoff).env.sent == e.sent;
      assert e.sent[..|e.sent|] == e.sent;
    } else {
      RegistrySeparated();
      var stamp := RefreshStamp(agg.env);
      var cold := ColdCounts(stamp.env, w, cutoff, Registry);
      ColdCountsSent(stamp.env, w, cutoff, Registry);
      MissQueriesAgree(stamp.env.cache, e.cache, Registry);
      assert GetAllSectionsMeta(e, w, cutoff).env.sent == cold.env.sent;
    }
  }

  /** Storing the aggregate leaves every section entry as it was. */
  lemma AggregateStoreKeepsSections(e: Env, v: Value)
    ensures forall i :: 0 <= i < |Registry| ==>
              Cache.View(Store(e, AllSectionsKey, v).cache, KeyOf(Registry[i].id)) == Cache.View(e.cache, KeyOf(Registry[i].id))
  {
    RegistrySeparated();
    forall i | 0 <= i < |Registry|
      ensures Cache.View(Store(e, AllSectionsKey, v).cache, KeyOf(Registry[i].id)) == Cache.View(e.cache, KeyOf(Registry[i].id))
    {
      assert KeyApartFromOthers(Registry[i]);
    }
  }

  /** `getAllSectionsMeta` writes nothing but section entries and the aggregate. */
  lemma AllSectionsMetaFrame(e: Env, w: World, cutoff: int)
    ensures var r := GetAllSectionsMeta(e, w, cutoff);
            forall k :: Outside(k, Registry) && Cache.Apart(k, AllSectionsKey) ==> Cache.View(r.env.cache, k) == Cache.View(e.cache, k)
  {
    var agg := Lookup(e, AllSectionsKey);
    var stamp := RefreshStamp(agg.env);
    ColdCountsFrame(stamp.env, w, cutoff, Registry);
  }

  /** A metadata entry with its count and timestamp brought up to date against cache `c`. */
  function Recounted(m: SectionMeta, c: Cache.Tiers, stamp: Value): SectionMeta {
    m.(count := CountOf(ViewOrNull(c, KeyOf(m.id))), lastUpdated := stamp)
  }

  datatype MetaList = MetaList(metas: seq<SectionMeta>, env: Env)

  /** The loop of `updateSectionMetaCounts`, one cache read per entry. */
  function Recount(e: Env, metas: seq<SectionMeta>, stamp: Value): (r: MetaList)
    decreases |metas|
    ensures |r.metas| == |metas|
    ensures forall i :: 0 <= i < |metas| ==> r.metas[i] == Recounted(metas[i], e.cache, stamp)
    ensures r.env == e.(cache := r.env.cache) && forall k {:trigger Cache.View(r.env.cache, k)} :: Cache.View(r.env.cache, k) == Cache.View(e.cache, k)
  {
    if metas == [] then MetaList([], e)
    else
      var got := Lookup(e, KeyOf(metas[0].id));
      var m := metas[0].(count := CountOf(got.value.GetOr(Null)), lastUpdated := stamp);
      var rest := Recount(got.env, metas[1..], stamp);
      MetaList([m] + rest.metas, rest.env)
  }

  /**
   * `updateSectionMetaCounts`: when a truthy aggregate is cached, every entry
   * gets the current length of its section's list and the last refresh time,
   * and the aggregate is written back. Only a list of section metadata is
   * recounted; an aggregate of any other shape is left as it is.
   */
  function UpdateSectionMetaCounts(e: Env): (r: Env)
    ensures !Hit(e.cache, AllSectionsKey) ==> Cache.View(r.cache, AllSectionsKey) == Cache.View(e.cache, AllSectionsKey)
    ensures Hit(e.cache, AllSectionsKey) && Cache.View(e.cache, AllSectionsKey).value.Metas? ==>
              var ms := Cache.View(e.cache, AllSectionsKey).value.metas;
              var stamp := OrElse(Cache.View(e.cache, LastRefreshKey), Stamp(e.now));
              var v := Cache.View(r.cache, AllSectionsKey);
              && v.Some? && v.value.Metas? && |v.value.metas| == |ms|
              && forall i :: 0 <= i < |ms| ==> v.value.metas[i] == Recounted(ms[i], e.cache, stamp)
    ensures forall k {:trigger Cache.View(r.cache, k)} :: Cache.Apart(k, AllSectionsKey) ==> Cache.View(r.cache, k) == Cache.View(e.cache, k)
    ensures r == e.(cache := r.cache)
  {
    var agg := Lookup(e, AllSectionsKey);
    if agg.value.Some? && Truthy(agg.value.value) then
      var stamp := RefreshStamp(agg.env);
      match agg.value.value
      case Metas(ms) =>
        var counted := Recount(stamp.env, ms, stamp.value);
        Store(counted.env, AllSectionsKey, Metas(counted.metas))
      case _ => stamp.env
    else agg.env
  }

  // ---------------------------------------------------------------- one section's games

  datatype DiscoveryResponse = DiscoveryResponse(section: SectionMeta, games: seq<Game>)

  /** A response of `getSectionGames` (None for null), with the environment after it. */
  datatype Response = Response(value: Option<DiscoveryResponse>, env: Env)

  /** `allSections.find(s => s.id === id)` on an aggregate that is a list. */
  function FindMeta(all: Value, id: string): (r: Option<SectionMeta>)
    ensures r.Some? ==> all.Metas? && r.value in all.metas && r.value.id == id
    ensures r.None? && all.Metas? ==> forall i :: 0 <= i < |all.metas| ==> all.metas[i].id != id
  {
    if all.Metas? then Find(all.metas, (m: SectionMeta) => m.id == id) else None
  }

  /**
   * The tail of `getSectionGames`: the games formatted, the section's entry
   * of the aggregate or else a fallback built from the registry entry, and
   * the count replaced by the number of games. An aggregate that is not a
   * list makes `find` raise, and the call yields null.
   */
  function Finish(e: Env, w: World, cutoff: int, s: Section, v: Value, fromCache: bool): (r: Response)
    ensures r.value.Some? <==> IsArray(GetAllSectionsMeta(e, w, cutoff).value)
    ensures r.value.Some? ==>
              && r.value.value.games == FormatGames(v)
              && r.value.value.section.id == s.id && r.value.value.section.count == |FormatGames(v)|
    ensures var all := GetAllSectionsMeta(e, w, cutoff);
            r.env.sent == all.env.sent && forall k {:trigger Cache.View(r.env.cache, k)} :: Cache.View(r.env.cache, k) == Cache.View(all.env.cache, k)
    ensures r.env.now >= e.now
  {
    var all := GetAllSectionsMeta(e, w, cutoff);
    if !IsArray(all.value) then Response(None, all.env)
    else Respond(all, s, FormatGames(v), fromCache)
  }

  /**
   * The response once the aggregate `all` is known to be a list: the
   * section's entry of it, or else the fallback built from the registry
   * entry, with the count replaced by the number of games.
   */
  function Respond(all: Valued, s: Section, games: seq<Game>, fromCache: bool): (r: Response)
    ensures r.value.Some? && r.value.value.games == games
    ensures r.value.value.section.id == s.id && r.value.value.section.count == |games|
    ensures r.env.sent == all.env.sent && r.env.now == all.env.now
    ensures forall k {:trigger Cache.View(r.env.cache, k)} :: Cache.View(r.env.cache, k) == Cache.View(all.env.cache, k)
  {
    var found := FindMeta(all.value, s.id);
    if found.Some? then Response(Some(DiscoveryResponse(found.value.(count := |games|), games)), all.env)
    else
      var stamp := if fromCache then RefreshStamp(all.env) else Valued(Stamp(all.env.now), all.env);
      Response(Some(DiscoveryResponse(SectionMeta(s.id, s.name, s.description, |games|, stamp.value), games)), stamp.env)
  }

  /**
   * `getSectionGames(id)`: null for an unregistered id; otherwise the
   * section's cached list if truthy, else a fetch (null when it raises)
   * followed by a new last refresh time and a recount of the aggregate.
   */
  function GetSectionGames(e: Env, w: World, cutoff: int, id: string): (r: Response)
    ensures GetSectionById(id).None? ==> r == Response(None, e)
    ensures r.value.Some? ==> r.value.value.section.id == id && r.value.value.section.count == |r.value.value.games|
    ensures r.value.Some? && Hit(e.cache, KeyOf(id)) ==> r.value.value.games == FormatGames(Cache.View(e.cache, KeyOf(id)).value)
    ensures r.value.Some? && !Hit(e.cache, KeyOf(id)) ==>
              var f := Fresh(w, cutoff, GetSectionById(id).value);
              f.Success? && r.value.value.games == FormatGames(f.value)
    ensures r.env.now >= e.now
  {
    match GetSectionById(id)
    case None => Response(None, e)
    case Some(s) =>
      var got := Lookup(e, KeyOf(s.id));
      if got.value.Some? && Truthy(got.value.value) then Finish(got.env, w, cutoff, s, got.value.value, true)
      else
        var f := FetchSection(got.env, w, cutoff, s);
        if f.result.Failure? then Response(None, f.env)
        else
          var refreshed := Store(f.env, LastRefreshKey, Stamp(f.env.now));
          Finish(UpdateSectionMetaCounts(refreshed), w, cutoff, s, f.result.value, false)
  }

  /** A registered section's key is apart from the token key and from both aggregate keys. */
  lemma RegisteredKeyApart(s: Section)
    requires s in Registry
    ensures KeyApartFromOthers(s)
  {
    RegistrySeparated();
    var i :| 0 <= i < |Registry| && Registry[i] == s;
    assert KeyApartFromOthers(Registry[i]);
  }

  /** A section entry that already holds the section's fresh list keeps it through `getAllSectionsMeta`. */
  lemma AllSectionsMetaKeepsFreshEntry(e: Env, w: World, cutoff: int, s: Section)
    requires s in Registry && Fresh(w, cutoff, s).Success?
    requires Cache.View(e.cache, KeyOf(s.id)) == Some(Fresh(w, cutoff, s).value)
    ensures Cache.View(GetAllSectionsMeta(e, w, cutoff).env.cache, KeyOf(s.id)) == Some(Fresh(w, cutoff, s).value)
  {
    if !Hit(e.cache, AllSectionsKey) {
      ColdAllSectionsRefetched(e, w, cutoff);
      var i :| 0 <= i < |Registry| && Registry[i] == s;
      assert Refetched(e.cache, GetAllSectionsMeta(e, w, cutoff).env.cache, w, cutoff, Registry[i]);
    }
  }

  /** Recording the refresh time and recounting the aggregate leave every section entry as it was. */
  lemma RecountKeepsEntry(e: Env, s: Section)
    requires s in Registry
    ensures var r := UpdateSectionMetaCounts(Store(e, LastRefreshKey, Stamp(e.now)));
            Cache.View(r.cache, KeyOf(s.id)) == Cache.View(e.cache, KeyOf(s.id))
  {
    RegistrySeparated();
    var i :| 0 <= i < |Registry| && Registry[i] == s;
    assert KeyApartFromOthers(Registry[i]);
  }

  /**
   * After a miss that yields a response, the section's entry holds the
   * transformed list: the transform's result overwrites the raw list the
   * fetch cached, and nothing later in the call touches the entry.
   */
  lemma SectionGamesMissEntry(e: Env, w: World, cutoff: int, id: string)
    requires GetSectionById(id).Some? && !Hit(e.cache, KeyOf(id))
    requires GetSectionGames(e, w, cutoff, id).value.Some?
    ensures var f := Fresh(w, cutoff, GetSectionById(id).value);
            f.Success? && Cache.View(GetSectionGames(e, w, cutoff, id).env.cache, KeyOf(id)) == Some(f.value)
  {
    var s := GetSectionById(id).value;
    var got := Lookup(e, KeyOf(s.id));
    var f := FetchSection(got.env, w, cutoff, s);
    RecountKeepsEntry(f.env, s);
    var refreshed := Store(f.env, LastRefreshKey, Stamp(f.env.now));
    AllSectionsMetaKeepsFreshEntry(UpdateSectionMetaCounts(refreshed), w, cutoff, s);
  }

  /** The queries of sections whose entries are not truthy never include one for a section whose entry is. */
  lemma {:induction false} MissQueriesSkipHits(c: Cache.Tiers, secs: seq<Section>, id: string)
    requires Hit(c, KeyOf(id))
    ensures SectionQuery(id) !in MissQueries(c, secs)
  {
    if secs != [] {
      MissQueriesSkipHits(c, secs[1..], id);
    }
  }

  /** On a section cache hit, `getSectionGames` sends no query for that section. */
  lemma SectionGamesHitSendsNoQueryForIt(e: Env, w: World, cutoff: int, id: string)
    requires Hit(e.cache, KeyOf(id))
    ensures var r := GetSectionGames(e, w, cutoff, id);
            ExtendsWithin(e.sent, r.env.sent, MissQueries(e.cache, Registry)) && SectionQuery(id) !in r.env.sent[|e.sent|..]
  {
    if GetSectionById(id).Some? {
      var got := Lookup(e, KeyOf(id));
      AllSectionsSent(got.env, w, cutoff);
      MissQueriesAgree(got.env.cache, e.cache, Registry);
      MissQueriesSkipHits(e.cache, Registry, id);
      var r := GetSectionGames(e, w, cutoff, id);
      assert r.env.sent == GetAllSectionsMeta(got.env, w, cutoff).env.sent;
    }
  }

  // ---------------------------------------------------------------- featured games

  /** The featured map built so far, with the environment after it. */
  datatype Picked = Picked(featured: map<string, seq<Game>>, env: Env)

  /** The games of a response; none for null. */
  function GamesOf(r: Response): seq<Game> {
    if r.value.Some? then r.value.value.games else []
  }

  /** A reader of one section's games, as `getSectionGames` is; the clock never runs backwards. */
  ghost predicate Monotone(get: (Env, string) -> Response) {
    forall e: Env, id: string :: get(e, id).env.now >= e.now
  }

  /**
   * The loop of `getFeaturedGames` over the entries `metas`, with `get`
   * standing for `getSectionGames`: a response with at least one game puts
   * its first `limit` games under the entry's id, a later entry of the same
   * id overwriting an earlier one.
   */
  function PickFeatured(e: Env, get: (Env, string) -> Response, metas: seq<SectionMeta>, limit: int, acc: map<string, seq<Game>>): (r: Picked)
    requires Monotone(get)
    ensures r.env.now >= e.now
    decreases |metas|
  {
    if metas == [] then Picked(acc, e)
    else
      var games := GamesOf(get(e, metas[0].id));
      var next := if |games| > 0 then acc[metas[0].id := SliceTo(games, limit)] else acc;
      PickFeatured(get(e, metas[0].id).env, get, metas[1..], limit, next)
  }

  /** The ids of a list of section metadata. */
  function IdsOf(metas: seq<SectionMeta>): (r: set<string>)
    ensures forall i :: 0 <= i < |metas| ==> metas[i].id in r
    ensures forall k :: k in r ==> exists i :: 0 <= i < |metas| && metas[i].id == k
  {
    set i | 0 <= i < |metas| :: metas[i].id
  }

  /** The ids of a list are its head's id and the ids of its tail. */
  lemma IdsOfTail(metas: seq<SectionMeta>)
    requires metas != []
    ensures IdsOf(metas) == {metas[0].id} + IdsOf(metas[1..])
  {
    forall k | k in IdsOf(metas) ensures k in {metas[0].id} + IdsOf(metas[1..]) {
      var i :| 0 <= i < |metas| && metas[i].id == k;
      if i > 0 { assert metas[1..][i - 1].id == k; }
    }
    forall k | k in IdsOf(metas[1..]) ensures k in IdsOf(metas) {
      var i :| 0 <= i < |metas[1..]| && metas[1..][i].id == k;
      assert metas[i + 1].id == k;
    }
  }

  /** A reader that yields games only for registered sections, as `getSectionGames` does. */
  ghost predicate RegisteredOnly(get: (Env, string) -> Response) {
    forall e: Env, id: string :: |GamesOf(get(e, id))| > 0 ==> GetSectionById(id).Some?
  }

  /** A featured entry as the loop makes one: a registered id of `metas`, at most `limit` games, at least one when `limit` is positive. */
  predicate Featurable(k: string, games: seq<Game>, metas: seq<SectionMeta>, limit: int) {
    && GetSectionById(k).Some? && k in IdsOf(metas)
    && (limit >= 0 ==> |games| <= limit)
    && (limit > 0 ==> |games| > 0)
  }

  /** Every entry of `r` is an entry of `acc` kept as it was, or a featurable entry for `metas`. */
  predicate Covers(r: map<string, seq<Game>>, acc: map<string, seq<Game>>, metas: seq<SectionMeta>, limit: int) {
    forall k :: k in r ==> (k in acc && r[k] == acc[k]) || Featurable(k, r[k], metas, limit)
  }

  /** Every entry of `acc` whose id `metas` does not list is in `r` unchanged. */
  predicate Keeps(r: map<string, seq<Game>>, acc: map<string, seq<Game>>, metas: seq<SectionMeta>) {
    forall k :: k in acc && k !in IdsOf(metas) ==> k in r && r[k] == acc[k]
  }

  /**
   * One step of the loop keeps both invariants: `next` is `acc`, or `acc`
   * with the head's id mapped to a featurable entry.
   */
  lemma CoversStep(r: map<string, seq<Game>>, acc: map<string, seq<Game>>, next: map<string, seq<Game>>, metas: seq<SectionMeta>, limit: int)
    requires metas != []
    requires next == acc || (metas[0].id in next && next == acc[metas[0].id := next[metas[0].id]]
                             && Featurable(metas[0].id, next[metas[0].id], metas, limit))
    requires Covers(r, next, metas[1..], limit) && Keeps(r, next, metas[1..])
    ensures Covers(r, acc, metas, limit) && Keeps(r, acc, metas)
  {
    IdsOfTail(metas);
  }

  /**
   * Every entry of the loop's map is an entry of `acc` kept as it was, or one
   * the loop made for a registered id listed in `metas`; an id of `acc` that
   * `metas` does not list keeps its games.
   */
  lemma {:induction false} PickFeaturedEntries(e: Env, get: (Env, string) -> Response, metas: seq<SectionMeta>, limit: int, acc: map<string, seq<Game>>)
    requires Monotone(get) && RegisteredOnly(get)
    ensures var r := PickFeatured(e, get, metas, limit, acc).featured;
            Covers(r, acc, metas, limit) && Keeps(r, acc, metas)
    decreases |metas|
  {
    if metas != [] {
      var games := GamesOf(get(e, metas[0].id));
      var next := if |games| > 0 then acc[metas[0].id := SliceTo(games, limit)] else acc;
      PickFeaturedEntries(get(e, metas[0].id).env, get, metas[1..], limit, next);
      CoversStep(PickFeatured(get(e, metas[0].id).env, get, metas[1..], limit, next).featured, acc, next, metas, limit);
    }
  }

  /** Reads see the same entries in both caches. */
  ghost predicate SameViews(c1: Cache.Tiers, c2: Cache.Tiers) {
    forall k {:trigger Cache.View(c1, k)} :: Cache.View(c1, k) == Cache.View(c2, k)
  }

  /** The aggregate is a truthy list and, if `id` is registered, its section entry is truthy. */
  ghost predicate WarmFor(c: Cache.Tiers, id: string) {
    && Hit(c, AllSectionsKey) && IsArray(Cache.View(c, AllSectionsKey).value)
    && (GetSectionById(id).Some? ==> Hit(c, KeyOf(id)))
  }

  /** Every entry among `metas` is warm in `c`. */
  ghost predicate Warm(c: Cache.Tiers, metas: seq<SectionMeta>) {
    forall i :: 0 <= i < |metas| ==> WarmFor(c, metas[i].id)
  }

  /**
   * A reader that, on any cache reading as `c0` and warm for the id, sends
   * nothing, keeps what reads see, and yields the games `val` gives the id.
   */
  ghost predicate ReadsAs(get: (Env, string) -> Response, c0: Cache.Tiers, val: string -> seq<Game>) {
    forall e: Env, id: string :: SameViews(e.cache, c0) && WarmFor(c0, id) ==>
      && get(e, id).env.sent == e.sent
      && SameViews(get(e, id).env.cache, c0)
      && GamesOf(get(e, id)) == val(id)
  }

  /** Each id of `ids` with at least one game under `val`, mapped to its first `limit` games. */
  ghost function Featuring(ids: set<string>, val: string -> seq<Game>, limit: int): map<string, seq<Game>> {
    map k | k in ids && |val(k)| > 0 :: SliceTo(val(k), limit)
  }

  /** Nothing placed before a map leaves it as it is. */
  lemma EmptyUnion(m: map<string, seq<Game>>)
    ensures map[] + m == m
  {
  }

  /** Adding one id: its entry, if any, placed before the rest's map. */
  lemma FeaturingStep(ids: set<string>, k0: string, val: string -> seq<Game>, limit: int, acc: map<string, seq<Game>>)
    ensures var next := if |val(k0)| > 0 then acc[k0 := SliceTo(val(k0), limit)] else acc;
            next + Featuring(ids, val, limit) == acc + Featuring({k0} + ids, val, limit)
  {
  }

  /** On a warm cache the loop sends nothing, keeps what reads see and builds exactly the featured map `val` gives. */
  lemma {:induction false} PickFeaturedWarm(e: Env, get: (Env, string) -> Response, c0: Cache.Tiers, val: string -> seq<Game>,
                                            metas: seq<SectionMeta>, limit: int, acc: map<string, seq<Game>>)
    requires Monotone(get) && ReadsAs(get, c0, val)
    requires SameViews(e.cache, c0) && Warm(c0, metas)
    ensures var r := PickFeatured(e, get, metas, limit, acc);
            && r.env.sent == e.sent && SameViews(r.env.cache, c0)
            && r.featured == acc + Featuring(IdsOf(metas), val, limit)
    decreases |metas|
  {
    if metas != [] {
      var id := metas[0].id;
      assert WarmFor(c0, metas[0].id);
      var next := if |val(id)| > 0 then acc[id := SliceTo(val(id), limit)] else acc;
      assert Warm(c0, metas[1..]) by {
        forall i | 0 <= i < |metas[1..]| ensures WarmFor(c0, metas[1..][i].id) {
          assert WarmFor(c0, metas[i + 1].id);
        }
      }
      PickFeaturedWarm(get(e, id).env, get, c0, val, metas[1..], limit, next);
      IdsOfTail(metas);
      FeaturingStep(IdsOf(metas[1..]), id, val, limit, acc);
    }
  }

  /** `getSectionGames` against world `w` and cutoff `cutoff`, as the featured loop calls it. */
  function SectionReader(w: World, cutoff: int): (get: (Env, string) -> Response)
    ensures Monotone(get)
  {
    (e: Env, id: string) => GetSectionGames(e, w, cutoff, id)
  }

  /** The reader of `getSectionGames` yields games only for registered sections. */
  lemma SectionReaderRegisteredOnly(w: World, cutoff: int)
    ensures RegisteredOnly(SectionReader(w, cutoff))
  {
  }

  /** The games a warm read of section `id` formats from cache `c`: none for an unregistered id. */
  function WarmGames(c: Cache.Tiers): (games: string -> seq<Game>)
    ensures forall id :: GetSectionById(id).None? ==> games(id) == []
  {
    (id: string) => if GetSectionById(id).Some? then FormatGames(ViewOrNull(c, KeyOf(id))) else []
  }

  /** On a warm cache, `getSectionGames` answers from the cache: nothing sent, no entry changed. */
  lemma SectionGamesWarm(e: Env, w: World, cutoff: int, id: string)
    requires WarmFor(e.cache, id)
    ensures var r := GetSectionGames(e, w, cutoff, id);
            && r.env.sent == e.sent && SameViews(r.env.cache, e.cache)
            && GamesOf(r) == WarmGames(e.cache)(id)
  {
    if GetSectionById(id).Some? {
      var got := Lookup(e, KeyOf(id));
      assert Hit(got.env.cache, AllSectionsKey);
    }
  }

  /** Reads that see the same entries agree on warmth and on the warm games. */
  lemma WarmAgrees(c1: Cache.Tiers, c2: Cache.Tiers, id: string)
    requires SameViews(c1, c2)
    ensures WarmFor(c1, id) == WarmFor(c2, id)
    ensures WarmGames(c1)(id) == WarmGames(c2)(id)
  {
    assert Cache.View(c1, AllSectionsKey) == Cache.View(c2, AllSectionsKey);
    assert Cache.View(c1, KeyOf(id)) == Cache.View(c2, KeyOf(id));
  }

  /** The reader of `getSectionGames` reads a warm cache as the warm games of that cache. */
  lemma SectionReaderReadsWarm(w: World, cutoff: int, c0: Cache.Tiers)
    ensures ReadsAs(SectionReader(w, cutoff), c0, WarmGames(c0))
  {
    forall e: Env, id: string | SameViews(e.cache, c0) && WarmFor(c0, id)
      ensures var r := SectionReader(w, cutoff)(e, id);
              r.env.sent == e.sent && SameViews(r.env.cache, c0) && GamesOf(r) == WarmGames(c0)(id)
    {
      WarmAgrees(e.cache, c0, id);
      SectionGamesWarm(e, w, cutoff, id);
    }
  }

  /**
   * The featured map a warm cache yields, stated without the loop: every
   * registered id among `metas` whose cached list formats to at least one
   * game, mapped to the first `limit` of those games.
   */
  ghost function WarmFeatured(c: Cache.Tiers, metas: seq<SectionMeta>, limit: int): map<string, seq<Game>> {
    Featuring(IdsOf(metas), WarmGames(c), limit)
  }

  /** A response of `getFeaturedGames`: the section list and the featured games by section id. */
  datatype Featured = Featured(sections: Value, featured: map<string, seq<Game>>)

  datatype FeaturedOut = FeaturedOut(value: Option<Featured>, env: Env)

  /** Values a `for ... of` loop can walk: lists and strings. */
  predicate Iterable(v: Value) {
    IsArray(v) || v.Text? || v.Stamp?
  }

  /**
   * `getFeaturedGames(limit)`: walk the section list, collect each section's
   * first `limit` games, then read the section list again for the response.
   * A list whose entries are not section metadata (or a string) walks
   * entries without a section id, which add nothing; any other value makes
   * the walk raise and the call yields null.
   */
  function GetFeaturedGames(e: Env, w: World, cutoff: int, limit: int): (r: FeaturedOut)
    ensures r.value.Some? <==> Iterable(GetAllSectionsMeta(e, w, cutoff).value)
    ensures r.value.Some? && !GetAllSectionsMeta(e, w, cutoff).value.Metas? ==> r.value.value.featured == map[]
    ensures r.env.now >= e.now
  {
    var first := GetAllSectionsMeta(e, w, cutoff);
    if !Iterable(first.value) then FeaturedOut(None, first.env)
    else
      var picked := if first.value.Metas? then PickFeatured(first.env, SectionReader(w, cutoff), first.value.metas, limit, map[])
                    else Picked(map[], first.env);
      var again := GetAllSectionsMeta(picked.env, w, cutoff);
      FeaturedOut(Some(Featured(again.value, picked.featured)), again.env)
  }

  /**
   * Every featured id is a registered section listed in the section list
   * walked, with at most `limit` games, and at least one when `limit` is
   * positive.
   */
  lemma FeaturedEntries(e: Env, w: World, cutoff: int, limit: int)
    ensures var first := GetAllSectionsMeta(e, w, cutoff).value;
            var r := GetFeaturedGames(e, w, cutoff, limit).value;
            r.Some? ==> forall k :: k in r.value.featured ==>
              first.Metas? && Featurable(k, r.value.featured[k], first.metas, limit)
  {
    var first := GetAllSectionsMeta(e, w, cutoff);
    if first.value.Metas? {
      SectionReaderRegisteredOnly(w, cutoff);
      PickFeaturedEntries(first.env, SectionReader(w, cutoff), first.value.metas, limit, map[]);
    }
  }

  /** The featured loop run from the first read of the section list, on a warm cache. */
  lemma FeaturedWarmLoop(e: Env, w: World, cutoff: int, limit: int)
    requires Cache.View(e.cache, AllSectionsKey).Some? && Cache.View(e.cache, AllSectionsKey).value.Metas?
    requires Warm(e.cache, Cache.View(e.cache, AllSectionsKey).value.metas)
    ensures var first := GetAllSectionsMeta(e, w, cutoff);
            var metas := Cache.View(e.cache, AllSectionsKey).value.metas;
            var picked := PickFeatured(first.env, SectionReader(w, cutoff), metas, limit, map[]);
            && first.value == Metas(metas) && first.env.now >= e.now
            && picked.env.sent == e.sent && SameViews(picked.env.cache, e.cache)
            && picked.featured == WarmFeatured(e.cache, metas, limit)
  {
    var metas := Cache.View(e.cache, AllSectionsKey).value.metas;
    assert metas == [] || WarmFor(e.cache, metas[0].id);
    assert Hit(e.cache, AllSectionsKey);
    var first := GetAllSectionsMeta(e, w, cutoff);
    SectionReaderReadsWarm(w, cutoff, e.cache);
    PickFeaturedWarm(first.env, SectionReader(w, cutoff), e.cache, WarmGames(e.cache), metas, limit, map[]);
    EmptyUnion(WarmFeatured(e.cache, metas, limit));
  }

  /**
   * With the aggregate and every section cached, `getFeaturedGames` returns
   * the cached section list and features exactly the warm featured map.
   */
  lemma FeaturedWarm(e: Env, w: World, cutoff: int, limit: int)
    requires Cache.View(e.cache, AllSectionsKey).Some? && Cache.View(e.cache, AllSectionsKey).value.Metas?
    requires Warm(e.cache, Cache.View(e.cache, AllSectionsKey).value.metas)
    ensures GetFeaturedGames(e, w, cutoff, limit).value
              == Some(Featured(Cache.View(e.cache, AllSectionsKey).value,
                               WarmFeatured(e.cache, Cache.View(e.cache, AllSectionsKey).value.metas, limit)))
  {
    var metas := Cache.View(e.cache, AllSectionsKey).value.metas;
    FeaturedWarmLoop(e, w, cutoff, limit);
    var first := GetAllSectionsMeta(e, w, cutoff);
    var picked := PickFeatured(first.env, SectionReader(w, cutoff), metas, limit, map[]);
    assert Hit(picked.env.cache, AllSectionsKey) by {
      assert Cache.View(picked.env.cache, AllSectionsKey) == Cache.View(e.cache, AllSectionsKey);
    }
  }

  /** With the aggregate and every section cached, `getFeaturedGames` sends no request and keeps what reads see. */
  lemma FeaturedWarmSendsNothing(e: Env, w: World, cutoff: int, limit: int)
    requires Cache.View(e.cache, AllSectionsKey).Some? && Cache.View(e.cache, AllSectionsKey).value.Metas?
    requires Warm(e.cache, Cache.View(e.cache, AllSectionsKey).value.metas)
    ensures var r := GetFeaturedGames(e, w, cutoff, limit);
            r.env.sent == e.sent && SameViews(r.env.cache, e.cache)
  {
    var metas := Cache.View(e.cache, AllSectionsKey).value.metas;
    FeaturedWarmLoop(e, w, cutoff, limit);
    var first := GetAllSectionsMeta(e, w, cutoff);
    var picked := PickFeatured(first.env, SectionReader(w, cutoff), metas, limit, map[]);
    assert Hit(picked.env.cache, AllSectionsKey) by {
      assert Cache.View(picked.env.cache, AllSectionsKey) == Cache.View(e.cache, AllSectionsKey);
    }
  }

  // ---------------------------------------------------------------- manual refresh

  /**
   * The loop of `refreshAllSections` over the sections `secs`: each entry is
   * deleted, the section's query is sent without a cache key, and on success
   * the transformed result is stored; a failure leaves the entry deleted.
   */
  function RefreshSections(e: Env, w: World, cutoff: int, secs: seq<Section>): (r: Env)
    ensures r.now >= e.now
    decreases |secs|
  {
    if secs == [] then e
    else
      var key := KeyOf(secs[0].id);
      var q := QueryIGDB(Remove(e, key), w, SectionQuery(secs[0].id), None);
      var next := if q.result.Success? then Store(q.env, key, Transformed(secs[0], q.result.value, cutoff)) else q.env;
      RefreshSections(next, w, cutoff, secs[1..])
  }

  /** The refresh loop writes no key outside the sections' own keys. */
  lemma {:induction false} RefreshSectionsFrame(e: Env, w: World, cutoff: int, secs: seq<Section>)
    ensures forall k {:trigger Cache.View(RefreshSections(e, w, cutoff, secs).cache, k)} :: Outside(k, secs) ==> Cache.View(RefreshSections(e, w, cutoff, secs).cache, k) == Cache.View(e.cache, k)
    decreases |secs|
  {
    if secs != [] {
      var key := KeyOf(secs[0].id);
      var q := QueryIGDB(Remove(e, key), w, SectionQuery(secs[0].id), None);
      var next := if q.result.Success? then Store(q.env, key, Transformed(secs[0], q.result.value, cutoff)) else q.env;
      RefreshSectionsFrame(next, w, cutoff, secs[1..]);
      assert forall k :: Outside(k, secs) ==> Outside(k, secs[1..]) by {
        assert forall i :: 0 <= i < |secs| - 1 ==> secs[1..][i] == secs[i + 1];
      }
    }
  }

  /** What one refresh leaves under a section's key: nothing, or the section's fresh list. */
  predicate RefreshedEntry(c: Cache.Tiers, w: World, cutoff: int, s: Section) {
    var f := Fresh(w, cutoff, s);
    (f.Failure? ==> Cache.View(c, KeyOf(s.id)) == None) &&
    (f.Success? ==> Cache.View(c, KeyOf(s.id)) in {None, Some(f.value)})
  }

  /**
   * After the refresh loop, every section's entry is absent or holds the
   * section's fresh list, and it is absent whenever the provider fails.
   */
  lemma {:induction false} RefreshSectionsEntries(e: Env, w: World, cutoff: int, secs: seq<Section>)
    requires Separated(secs)
    ensures forall i :: 0 <= i < |secs| ==> RefreshedEntry(RefreshSections(e, w, cutoff, secs).cache, w, cutoff, secs[i])
    decreases |secs|
  {
    if secs != [] {
      SeparatedTail(secs);
      var key := KeyOf(secs[0].id);
      var q := QueryIGDB(Remove(e, key), w, SectionQuery(secs[0].id), None);
      var next := if q.result.Success? then Store(q.env, key, Transformed(secs[0], q.result.value, cutoff)) else q.env;
      assert KeyApartFromOthers(secs[0]);
      assert RefreshedEntry(next.cache, w, cutoff, secs[0]);
      RefreshSectionsEntries(next, w, cutoff, secs[1..]);
      RefreshSectionsFrame(next, w, cutoff, secs[1..]);
      forall i | 1 <= i < |secs|
        ensures RefreshedEntry(RefreshSections(e, w, cutoff, secs).cache, w, cutoff, secs[i])
      {
        assert secs[1..][i - 1] == secs[i];
      }
    }
  }

  datatype Refreshed = Refreshed(ok: bool, env: Env)

  /**
   * `refreshAllSections`: delete the aggregate, record the refresh time,
   * refresh every section, then recount the aggregate. The result is always
   * true.
   */
  function RefreshAllSections(e: Env, w: World, cutoff: int): (r: Refreshed)
    ensures r.ok
    ensures r.env.now >= e.now
  {
    var cleared := Remove(e, AllSectionsKey);
    var stamped := Store(cleared, LastRefreshKey, Stamp(cleared.now));
    Refreshed(true, UpdateSectionMetaCounts(RefreshSections(stamped, w, cutoff, Registry)))
  }

  /**
   * After a refresh the aggregate is absent, because the recount finds no
   * aggregate to update; the last refresh time is the instant the refresh
   * started; and every section entry is absent or holds its fresh list.
   */
  lemma RefreshAllSectionsOutcome(e: Env, w: World, cutoff: int)
    ensures var r := RefreshAllSections(e, w, cutoff).env;
            && Cache.View(r.cache, AllSectionsKey) == None
            && Cache.View(r.cache, LastRefreshKey) == Some(Stamp(e.now))
            && forall i :: 0 <= i < |Registry| ==> RefreshedEntry(r.cache, w, cutoff, Registry[i])
  {
    RegistrySeparated();
    AggregateKeysApart();
    var fetched := RefreshAllSectionsStage(e, w, cutoff);
    forall i | 0 <= i < |Registry|
      ensures RefreshedEntry(UpdateSectionMetaCounts(fetched).cache, w, cutoff, Registry[i])
    {
      assert KeyApartFromOthers(Registry[i]);
    }
  }

  /** The state the refresh loop reaches, before the recount: aggregate gone, stamp set, entries refreshed. */
  lemma RefreshAllSectionsStage(e: Env, w: World, cutoff: int) returns (fetched: Env)
    ensures RefreshAllSections(e, w, cutoff).env == UpdateSectionMetaCounts(fetched)
    ensures Cache.View(fetched.cache, AllSectionsKey) == None
    ensures Cache.View(fetched.cache, LastRefreshKey) == Some(Stamp(e.now))
    ensures forall i :: 0 <= i < |Registry| ==> RefreshedEntry(fetched.cache, w, cutoff, Registry[i])
  {
    RegistrySeparated();
    AggregateKeysApart();
    var cleared := Remove(e, AllSectionsKey);
    var stamped := Store(cleared, LastRefreshKey, Stamp(cleared.now));
    RefreshSectionsFrame(stamped, w, cutoff, Registry);
    RefreshSectionsEntries(stamped, w, cutoff, Registry);
    fetched := RefreshSections(stamped, w, cutoff, Registry);
  }

}
