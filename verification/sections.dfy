/**
 * The registry of discovery sections: six sections, each with an id, a
 * display name and description, an opaque provider query, and, for
 * "classics" only, a transform applied to the games the query returns.
 * Also the cache keys under which both discovery aggregators store them.
 */
module Sections {
  import opened Wrappers
  import opened Values
  import opened Seqs
  import Strings
  import Cache

  /** The only transform a section carries: the classics filter. */
  datatype Transform = KeepClassics

  datatype Section = Section(id: string, name: string, description: string, transform: Option<Transform>)

  /** What `getSectionsMeta` yields for one section. */
  datatype SectionInfo = SectionInfo(id: string, name: string, description: string)

  /** The registry, in display order. */
  const Registry: seq<Section> := [
    Section("upcoming", "Upcoming Games", "Games releasing in the next 3 months", None),
    Section("trending", "Trending Games", "Popular games from the last month", None),
    Section("topRated", "Top Rated Games", "Highest-rated games released in the last year", None),
    Section("hidden-gems", "Hidden Gems", "Highly-rated games with lower popularity/recognition", None),
    Section("classics", "Classic Games", "Influential games from previous generations", Some(KeepClassics)),
    Section("recent-releases", "Recent Releases", "Games released in the last 30 days", None)
  ]

  const Prefix := "discovery:"
  const AllSectionsKey := KeyOf("all_sections")
  const LastRefreshKey := KeyOf("last_refresh")

  /** The cache key of a section's game list. */
  function KeyOf(id: string): (r: string)
    ensures |r| == |Prefix| + |id| && r[..|Prefix|] == Prefix && r[|Prefix|..] == id
  {
    Prefix + id
  }

  /**
   * A game the classics transform keeps: a (truthy) release date before the
   * cutoff and a total rating count above 200. `cutoff` is the Unix time, in
   * seconds, of the instant 60 months before the process started.
   */
  predicate IsClassic(g: Game, cutoff: int) {
    && g.firstReleaseDate.Some? && g.firstReleaseDate.value != 0 && g.firstReleaseDate.value < cutoff
    && g.totalRatingCount.Some? && g.totalRatingCount.value > 200
  }

  /** The classics transform: `games.filter(isClassic)`. */
  function KeepClassicGames(games: seq<Game>, cutoff: int): (r: seq<Game>)
    ensures |r| <= |games|
    ensures forall i :: 0 <= i < |r| ==> IsClassic(r[i], cutoff)
    ensures forall g :: g in r <==> g in games && IsClassic(g, cutoff)
  {
    FilterMembership(games, g => IsClassic(g, cutoff));
    Filter(games, g => IsClassic(g, cutoff))
  }

  /** The classics transform keeps the provider's order: its result is a subsequence of its input. */
  lemma ClassicsKeepOrder(games: seq<Game>, cutoff: int)
    ensures IsSubsequence(KeepClassicGames(games, cutoff), games)
  {
    FilterIsSubsequence(games, g => IsClassic(g, cutoff));
  }

  /** The classics transform keeps each classic as many times as the provider listed it, and no other game. */
  lemma ClassicsMultiplicity(games: seq<Game>, cutoff: int)
    ensures forall g :: multiset(KeepClassicGames(games, cutoff))[g] == if IsClassic(g, cutoff) then multiset(games)[g] else 0
  {
    FilterMultiplicity(games, g => IsClassic(g, cutoff));
  }

  /** Applying the classics transform twice gives what applying it once gives. */
  lemma ClassicsIdempotent(games: seq<Game>, cutoff: int)
    ensures KeepClassicGames(KeepClassicGames(games, cutoff), cutoff) == KeepClassicGames(games, cutoff)
  {
    FilterIdempotent(games, g => IsClassic(g, cutoff));
  }

  /** The section's transform applied to a game list (the identity without one). */
  function ApplyTransform(s: Section, games: seq<Game>, cutoff: int): (r: seq<Game>)
    ensures s.transform.None? ==> r == games
    ensures s.transform.Some? ==> r == KeepClassicGames(games, cutoff)
  {
    match s.transform
    case None => games
    case Some(KeepClassics) => KeepClassicGames(games, cutoff)
  }

  /**
   * `section.transform && Array.isArray(v) ? section.transform(v) : v`: the
   * transform applies only to a game list.
   */
  function Transformed(s: Section, v: Value, cutoff: int): (r: Value)
    ensures !v.Games? || s.transform.None? ==> r == v
    ensures v.Games? ==> r.Games? && IsSubsequence(r.games, v.games)
  {
    if v.Games? && s.transform.Some? then
      ClassicsKeepOrder(v.games, cutoff);
      Games(ApplyTransform(s, v.games, cutoff))
    else if v.Games? then
      SubsequenceOfItself(v.games);
      v
    else v
  }

  /**
   * The first section of `secs` with id `id`. The id is part of the
   * termination measure so that the verifier evaluates the search on the
   * registry only for a literal id.
   */
  function FindSection(secs: seq<Section>, id: string): (r: Option<Section>)
    ensures r.Some? <==> exists i :: 0 <= i < |secs| && secs[i].id == id
    ensures r.Some? ==> exists i :: 0 <= i < |secs| && secs[i] == r.value && r.value.id == id
                                    && forall j :: 0 <= j < i ==> secs[j].id != id
    decreases |secs|, |id|
  {
    if secs == [] then None
    else if secs[0].id == id then Some(secs[0])
    else
      var r := FindSection(secs[1..], id);
      assert r.Some? ==> exists i :: 1 <= i < |secs| && secs[i] == r.value && forall j :: 0 <= j < i ==> secs[j].id != id by {
        if r.Some? {
          var i :| 0 <= i < |secs[1..]| && secs[1..][i] == r.value && forall j :: 0 <= j < i ==> secs[1..][j].id != id;
          assert secs[i + 1] == r.value;
          assert forall j :: 1 <= j < i + 1 ==> secs[j].id != id by {
            forall j | 1 <= j < i + 1 ensures secs[j].id != id { assert secs[1..][j - 1] == secs[j]; }
          }
        }
      }
      assert r.None? ==> forall i :: 1 <= i < |secs| ==> secs[i].id != id by {
        if r.None? {
          forall i | 1 <= i < |secs| ensures secs[i].id != id { assert secs[1..][i - 1] == secs[i]; }
        }
      }
      r
  }

  /** `getSectionById(id)`: the first registered section with that id. */
  function GetSectionById(id: string): (r: Option<Section>)
    ensures r.Some? <==> exists i :: 0 <= i < |Registry| && Registry[i].id == id
    ensures r.Some? ==> r.value in Registry && r.value.id == id
  {
    FindSection(Registry, id)
  }

  /** `getSectionsMeta()`: id, name and description of every section, in registry order. */
  function GetSectionsMeta(): (r: seq<SectionInfo>)
    ensures |r| == |Registry|
    ensures forall i :: 0 <= i < |r| ==>
              r[i].id == Registry[i].id && r[i].name == Registry[i].name && r[i].description == Registry[i].description
  {
    Map(Registry, (s: Section) => SectionInfo(s.id, s.name, s.description))
  }

  /** The six section ids are pairwise distinct. */
  lemma SectionIdsDistinct()
    ensures forall i, j :: 0 <= i < j < |Registry| ==> Registry[i].id != Registry[j].id
  {
  }

  /** Only the "classics" section carries a transform. */
  lemma OnlyClassicsTransforms()
    ensures forall i :: 0 <= i < |Registry| ==> (Registry[i].transform.Some? <==> Registry[i].id == "classics")
  {
  }

  /** Every registered section is what `getSectionById` finds for its id. */
  lemma GetSectionByIdFindsEachSection()
    ensures forall i :: 0 <= i < |Registry| ==> GetSectionById(Registry[i].id) == Some(Registry[i])
  {
    SectionIdsDistinct();
    forall i | 0 <= i < |Registry|
      ensures GetSectionById(Registry[i].id) == Some(Registry[i])
    {
      var r := GetSectionById(Registry[i].id);
      assert r.value in Registry;
    }
  }

  /** Section ids of different lengths, or differing in an alphanumeric character, give keys that are apart. */
  lemma IdsApart(a: string, b: string, i: nat)
    requires |a| != |b| || (i < |a| == |b| && Strings.IsAlphanumeric(a[i]) && a[i] != b[i])
    ensures Cache.Apart(KeyOf(a), KeyOf(b))
  {
    if |a| == |b| {
      assert KeyOf(a)[|Prefix| + i] == a[i] && KeyOf(b)[|Prefix| + i] == b[i];
    }
    Cache.FileNamesDiffer(KeyOf(a), KeyOf(b), |Prefix| + i);
  }

  /**
   * No two of the discovery cache keys share a file: the six section keys,
   * the aggregate key and the last-refresh key are pairwise apart.
   */
  lemma DiscoveryKeysApart()
    ensures forall i, j :: 0 <= i < |Registry| && 0 <= j < |Registry| && i != j ==>
              Cache.Apart(KeyOf(Registry[i].id), KeyOf(Registry[j].id))
    ensures forall i :: 0 <= i < |Registry| ==>
              && Cache.Apart(KeyOf(Registry[i].id), AllSectionsKey) && Cache.Apart(AllSectionsKey, KeyOf(Registry[i].id))
              && Cache.Apart(KeyOf(Registry[i].id), LastRefreshKey) && Cache.Apart(LastRefreshKey, KeyOf(Registry[i].id))
    ensures Cache.Apart(AllSectionsKey, LastRefreshKey) && Cache.Apart(LastRefreshKey, AllSectionsKey)
  {
    SectionKeysApart();
    SectionKeysApartFromOthers();
    AggregateKeysApart();
  }

  lemma AggregateKeysApart()
    ensures Cache.Apart(AllSectionsKey, LastRefreshKey) && Cache.Apart(LastRefreshKey, AllSectionsKey)
  {
    IdsApart("all_sections", "last_refresh", 0);
  }

  lemma SectionKeysApart()
    ensures forall i, j :: 0 <= i < |Registry| && 0 <= j < |Registry| && i != j ==>
              Cache.Apart(KeyOf(Registry[i].id), KeyOf(Registry[j].id))
  {
    forall i, j | 0 <= i < |Registry| && 0 <= j < |Registry| && i != j
      ensures Cache.Apart(KeyOf(Registry[i].id), KeyOf(Registry[j].id))
    {
      var a, b := Registry[i].id, Registry[j].id;
      // four ids have eight characters; they differ in the first, or, for
      // "trending" and "topRated", in the second
      if |a| == |b| {
        var d := if a[0] == b[0] then 1 else 0;
        IdsApart(a, b, d);
      } else {
        IdsApart(a, b, 0);
      }
    }
  }

  lemma SectionKeysApartFromOthers()
    ensures forall i :: 0 <= i < |Registry| ==>
              && Cache.Apart(KeyOf(Registry[i].id), AllSectionsKey) && Cache.Apart(AllSectionsKey, KeyOf(Registry[i].id))
              && Cache.Apart(KeyOf(Registry[i].id), LastRefreshKey) && Cache.Apart(LastRefreshKey, KeyOf(Registry[i].id))
  {
    forall i | 0 <= i < |Registry|
      ensures Cache.Apart(KeyOf(Registry[i].id), AllSectionsKey) && Cache.Apart(AllSectionsKey, KeyOf(Registry[i].id))
      ensures Cache.Apart(KeyOf(Registry[i].id), LastRefreshKey) && Cache.Apart(LastRefreshKey, KeyOf(Registry[i].id))
    {
      assert |KeyOf(Registry[i].id)| != |AllSectionsKey|;
    }
  }
}
