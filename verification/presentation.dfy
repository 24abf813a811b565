/**
 * The pure helpers that shape provider data for display: the cover url
 * normaliser of the cover component, the developer and publisher lists of
 * the game page, the platform labels and cover of the discover page's game
 * cards with the page's filter of empty sections, and the platform line of
 * a search result.
 */
module Presentation {
  import opened Wrappers
  import opened Values
  import opened Strings
  import opened Seqs
  import Discover

  const Thumb := "t_thumb"
  const CoverBig := "t_cover_big"
  const CoverBig2x := "t_cover_big_2x"

  // ---------------------------------------------------------------- cover urls

  /** Replacing the first occurrence changes the length by the difference of the two patterns, or not at all. */
  lemma ReplaceFirstLength(s: string, pat: string, rep: string)
    ensures |ReplaceFirst(s, pat, rep)| == if Contains(s, pat) then |s| - |pat| + |rep| else |s|
  {
    match IndexOf(s, pat)
    case None =>
    case Some(i) =>
  }

  /** "t_thumb" cannot overlap a leading "http", so rewriting it keeps the protocol prefix. */
  lemma ReplaceThumbKeepsHttp(s: string, rep: string)
    requires StartsWith(s, "http")
    ensures StartsWith(ReplaceFirst(s, Thumb, rep), "http")
  {
    match IndexOf(s, Thumb)
    case None =>
    case Some(i) =>
      assert s[i] == s[i..i + 7][0] == 't' && s[i + 1] == s[i..i + 7][1] == '_';
      assert s[0] == s[..4][0] == 'h' && s[1] == s[..4][1] == 't' && s[2] == s[..4][2] == 't' && s[3] == s[..4][3] == 'p';
      assert (s[..i] + rep + s[i + 7..])[..4] == s[..4];
  }

  /**
   * `formattedCoverUrl` of the cover component, with "" for an absent url:
   * none for an absent url; otherwise the first "t_thumb" becomes
   * "t_cover_big_2x", and a protocol-relative url gets "https:" in front, a
   * url starting with "http" is kept as it is (plain http is not upgraded),
   * and any other url gets "https://" in front.
   */
  function CoverSrc(url: string): (r: Option<string>)
    ensures r.None? <==> url == ""
    ensures r.Some? ==> StartsWith(r.value, "http")
  {
    var rewritten := ReplaceFirst(url, Thumb, CoverBig2x);
    if url == "" then None
    else if StartsWith(url, "//") then
      assert ("https:" + rewritten)[..4] == "http";
      Some("https:" + rewritten)
    else if StartsWith(url, "http") then
      ReplaceThumbKeepsHttp(url, CoverBig2x);
      Some(rewritten)
    else
      assert ("https://" + rewritten)[..4] == "http";
      Some("https://" + rewritten)
  }

  /**
   * A non-empty url comes out as the url with its first "t_thumb" rewritten,
   * behind "https:" when it is protocol-relative, behind nothing when it
   * starts with "http", and behind "https://" otherwise.
   */
  lemma CoverSrcParts(url: string)
    requires url != ""
    ensures var rewritten := ReplaceFirst(url, Thumb, CoverBig2x);
            var prefix := if StartsWith(url, "//") then "https:" else if StartsWith(url, "http") then "" else "https://";
            CoverSrc(url) == Some(prefix + rewritten)
  {
    if StartsWith(url, "http") {
      assert url[0] == url[..4][0] == 'h';
      assert "" + ReplaceFirst(url, Thumb, CoverBig2x) == ReplaceFirst(url, Thumb, CoverBig2x);
      assert url[..2][0] == 'h';
    }
  }

  /** A url that already starts with "http" and holds no "t_thumb" is returned unchanged. */
  lemma CoverSrcKeepsFinishedUrl(url: string)
    requires StartsWith(url, "http") && !Contains(url, Thumb)
    ensures CoverSrc(url) == Some(url)
  {
    CoverSrcParts(url);
    assert url[..2][0] == url[..4][0] == 'h';
    assert "" + url == url;
  }

  /** The cover of a game card: the url with its first "t_thumb" made "t_cover_big", or no image without a url. */
  function CardCover(g: Game): (r: Option<string>)
    ensures r.None? <==> g.cover.None? || g.cover.value.url == ""
    ensures r.Some? && !Contains(g.cover.value.url, Thumb) ==> r.value == g.cover.value.url
  {
    if g.cover.Some? && g.cover.value.url != "" then Some(ReplaceFirst(g.cover.value.url, Thumb, CoverBig)) else None
  }

  /** A card's cover url is four characters longer than the game's exactly when the game's holds "t_thumb". */
  lemma CardCoverLength(g: Game)
    requires CardCover(g).Some?
    ensures |CardCover(g).value| == |g.cover.value.url| + (if Contains(g.cover.value.url, Thumb) then 4 else 0)
  {
    ReplaceFirstLength(g.cover.value.url, Thumb, CoverBig);
  }

  // ---------------------------------------------------------------- developers and publishers

  /** `{ id, name }` of an involved company's company. */
  datatype CompanyRef = CompanyRef(id: int, name: string)

  function RefOf(c: InvolvedCompany): CompanyRef {
    CompanyRef(c.company.id, c.company.name)
  }

  predicate IsDeveloper(c: InvolvedCompany) {
    c.developer
  }

  predicate IsPublisher(c: InvolvedCompany) {
    c.publisher
  }

  /** `getDevelopers(game)`: undefined without involved companies, otherwise the developer-flagged ones, in order. */
  function Developers(g: Game): (r: Option<seq<CompanyRef>>)
    ensures r.None? <==> g.involvedCompanies.None?
    ensures r.Some? ==> |r.value| <= |g.involvedCompanies.value|
  {
    if g.involvedCompanies.None? then None
    else Some(Map(Filter(g.involvedCompanies.value, IsDeveloper), RefOf))
  }

  /** `getPublishers(game)`: the same projection over the publisher flag. */
  function Publishers(g: Game): (r: Option<seq<CompanyRef>>)
    ensures r.None? <==> g.involvedCompanies.None?
    ensures r.Some? ==> |r.value| <= |g.involvedCompanies.value|
  {
    if g.involvedCompanies.None? then None
    else Some(Map(Filter(g.involvedCompanies.value, IsPublisher), RefOf))
  }

  /** A projection of `flagged` entries lists the company of an entry exactly when that entry is flagged. */
  lemma CreditedMembership(cs: seq<InvolvedCompany>, flagged: InvolvedCompany -> bool)
    ensures forall x :: x in Map(Filter(cs, flagged), RefOf) <==> exists c :: c in cs && flagged(c) && RefOf(c) == x
  {
    FilterMembership(cs, flagged);
    var kept := Filter(cs, flagged);
    forall x | x in Map(kept, RefOf)
      ensures exists c :: c in cs && flagged(c) && RefOf(c) == x
    {
      var i :| 0 <= i < |kept| && Map(kept, RefOf)[i] == x;
      assert kept[i] in kept;
    }
    forall x | exists c :: c in cs && flagged(c) && RefOf(c) == x
      ensures x in Map(kept, RefOf)
    {
      var c :| c in cs && flagged(c) && RefOf(c) == x;
      assert c in kept;
      var i :| 0 <= i < |kept| && kept[i] == c;
      assert Map(kept, RefOf)[i] == x;
    }
  }

  /**
   * The developers listed are exactly the companies of the developer-flagged
   * entries, and likewise for publishers; a company flagged as both is in
   * both lists.
   */
  lemma CreditsAreFlaggedCompanies(g: Game)
    requires g.involvedCompanies.Some?
    ensures forall x :: x in Developers(g).value <==> exists c :: c in g.involvedCompanies.value && c.developer && RefOf(c) == x
    ensures forall x :: x in Publishers(g).value <==> exists c :: c in g.involvedCompanies.value && c.publisher && RefOf(c) == x
    ensures forall c :: c in g.involvedCompanies.value && c.developer && c.publisher ==>
              RefOf(c) in Developers(g).value && RefOf(c) in Publishers(g).value
  {
    CreditedMembership(g.involvedCompanies.value, IsDeveloper);
    CreditedMembership(g.involvedCompanies.value, IsPublisher);
  }

  /** When every entry is a developer, the developers are all the companies, in the order given. */
  lemma AllDevelopersListedInOrder(g: Game)
    requires g.involvedCompanies.Some?
    requires forall i :: 0 <= i < |g.involvedCompanies.value| ==> g.involvedCompanies.value[i].developer
    ensures Developers(g) == Some(Map(g.involvedCompanies.value, RefOf))
  {
    FilterKeepsAll(g.involvedCompanies.value, IsDeveloper);
  }

  /**
   * The developers are the companies of the developer-flagged entries, in the
   * order the game lists them: each such entry is kept as many times as it
   * is listed, and no other entry is kept.
   */
  lemma DevelopersAreFlaggedEntries(g: Game)
    requires g.involvedCompanies.Some?
    ensures var cs := g.involvedCompanies.value;
            var kept := Filter(cs, IsDeveloper);
            && Developers(g).value == Map(kept, RefOf)
            && IsSubsequence(kept, cs)
            && (forall c :: multiset(kept)[c] == if c.developer then multiset(cs)[c] else 0)
            && IsSubsequence(Developers(g).value, Map(cs, RefOf))
  {
    var cs := g.involvedCompanies.value;
    FilterIsSubsequence(cs, IsDeveloper);
    FilterMultiplicity(cs, IsDeveloper);
    MapKeepsSubsequence(Filter(cs, IsDeveloper), cs, RefOf);
  }

  /** The publishers are the companies of the publisher-flagged entries, in order and with their multiplicity. */
  lemma PublishersAreFlaggedEntries(g: Game)
    requires g.involvedCompanies.Some?
    ensures var cs := g.involvedCompanies.value;
            var kept := Filter(cs, IsPublisher);
            && Publishers(g).value == Map(kept, RefOf)
            && IsSubsequence(kept, cs)
            && (forall c :: multiset(kept)[c] == if c.publisher then multiset(cs)[c] else 0)
            && IsSubsequence(Publishers(g).value, Map(cs, RefOf))
  {
    var cs := g.involvedCompanies.value;
    FilterIsSubsequence(cs, IsPublisher);
    FilterMultiplicity(cs, IsPublisher);
    MapKeepsSubsequence(Filter(cs, IsPublisher), cs, RefOf);
  }

  // ---------------------------------------------------------------- platform labels

  /** `p.abbreviation || p.name`. */
  function Label(p: Platform): string {
    if p.abbreviation != "" then p.abbreviation else p.name
  }

  predicate NonEmpty(s: string) {
    s != ""
  }

  /** The non-empty labels of the first three platforms, in order. */
  function PlatformLabels(ps: seq<Platform>): (r: seq<string>)
    ensures |r| <= 3 && forall i :: 0 <= i < |r| ==> r[i] != ""
  {
    Filter(Map(SliceTo(ps, 3), Label), NonEmpty)
  }

  /** `formatPlatforms(platforms)` of the discover page. */
  function FormatPlatforms(platforms: Option<seq<Platform>>): (r: string)
    ensures platforms.None? || platforms.value == [] ==> r == "Unknown platform"
  {
    if platforms.None? || platforms.value == [] then "Unknown platform"
    else Join(PlatformLabels(platforms.value), ", ")
  }

  /** A label is shown exactly when one of the first three platforms has it as its abbreviation, or as its name without an abbreviation. */
  lemma PlatformLabelsMembership(ps: seq<Platform>)
    ensures forall s :: s in PlatformLabels(ps) <==>
              s != "" && exists i :: 0 <= i < |ps| && i < 3 && Label(ps[i]) == s
  {
    var firsts := SliceTo(ps, 3);
    FilterMembership(Map(firsts, Label), NonEmpty);
    forall s | s in Map(firsts, Label)
      ensures exists i :: 0 <= i < |ps| && i < 3 && Label(ps[i]) == s
    {
      var i :| 0 <= i < |firsts| && Map(firsts, Label)[i] == s;
      assert firsts[i] == ps[i];
    }
    forall s | exists i :: 0 <= i < |ps| && i < 3 && Label(ps[i]) == s
      ensures s in Map(firsts, Label)
    {
      var i :| 0 <= i < |ps| && i < 3 && Label(ps[i]) == s;
      assert Map(firsts, Label)[i] == s;
    }
  }

  /** Platforms past the third never show. */
  lemma FormatPlatformsUsesFirstThree(ps: seq<Platform>)
    requires |ps| > 3
    ensures FormatPlatforms(Some(ps)) == FormatPlatforms(Some(ps[..3]))
  {
    assert SliceTo(ps, 3) == ps[..3];
    assert SliceTo(ps[..3], 3) == ps[..3];
  }

  /** Platforms with neither abbreviation nor name are dropped, so a list of only such platforms shows as "". */
  lemma UnlabelledPlatformsShowNothing(ps: seq<Platform>)
    requires ps != []
    requires forall i :: 0 <= i < |ps| ==> Label(ps[i]) == ""
    ensures FormatPlatforms(Some(ps)) == ""
  {
    FilterKeepsNone(Map(SliceTo(ps, 3), Label), NonEmpty);
  }

  // ---------------------------------------------------------------- the discover page's sections

  /** `validSectionsData`: the responses that are not null and hold at least one game, in order. */
  function ValidSections(data: seq<Option<Discover.DiscoveryResponse>>): (r: seq<Discover.DiscoveryResponse>)
    ensures |r| <= |data|
    ensures forall i :: 0 <= i < |r| ==> |r[i].games| > 0
  {
    if data == [] then []
    else (if data[0].Some? && |data[0].value.games| > 0 then [data[0].value] else []) + ValidSections(data[1..])
  }

  /** A response is kept exactly when it is among the data and holds a game. */
  lemma {:induction false} ValidSectionsMembership(data: seq<Option<Discover.DiscoveryResponse>>)
    ensures forall x :: x in ValidSections(data) <==> Some(x) in data && |x.games| > 0
  {
    if data != [] {
      ValidSectionsMembership(data[1..]);
      assert data == [data[0]] + data[1..];
    }
  }

  /** Filtering a concatenation filters each part and keeps them in order. */
  lemma {:induction false} ValidSectionsAppend(a: seq<Option<Discover.DiscoveryResponse>>, b: seq<Option<Discover.DiscoveryResponse>>)
    ensures ValidSections(a + b) == ValidSections(a) + ValidSections(b)
  {
    if a != [] {
      assert (a + b)[1..] == a[1..] + b;
      ValidSectionsAppend(a[1..], b);
    } else {
      assert a + b == b;
    }
  }

  // ---------------------------------------------------------------- a search result's platforms

  function Name(p: Platform): string {
    p.name
  }

  /** `platformNames` of a search result: null without platforms, else the first three names joined by ", ", then "..." when more follow. */
  function PlatformNames(platforms: Option<seq<Platform>>): (r: Option<string>)
    ensures r.None? <==> platforms.None?
    ensures platforms.Some? && |platforms.value| <= 3 ==> r == Some(Join(Map(platforms.value, Name), ", "))
    ensures platforms.Some? && |platforms.value| > 3 ==> EndsWith(r.value, "...")
  {
    match platforms
    case None => None
    case Some(ps) =>
      var names := Join(Map(SliceTo(ps, 3), Name), ", ");
      if |ps| > 3 then
        assert (names + "...")[|names|..] == "...";
        Some(names + "...")
      else
        assert SliceTo(ps, 3) == ps;
        Some(names)
  }

  /** More than three platforms show as the first three's line followed by "...". */
  lemma PlatformNamesTruncates(ps: seq<Platform>)
    requires |ps| > 3
    ensures PlatformNames(Some(ps)) == Some(PlatformNames(Some(ps[..3])).value + "...")
  {
    assert SliceTo(ps, 3) == ps[..3];
  }

  /** An empty platform list shows as the empty string, not as null. */
  lemma NoPlatformsShowEmpty()
    ensures PlatformNames(Some([])) == Some("")
  {
  }
}
