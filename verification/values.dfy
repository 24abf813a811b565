/**
 * The records that flow between the metadata provider, the cache and the
 * pages: the provider's game and franchise records, the discovery section
 * metadata, the monthly subscription catalogue, and `Value`, the type of
 * everything the cache stores.
 *
 * The provider's optional string fields that are only ever tested for
 * truthiness (a cover url, a platform name or abbreviation) are plain
 * strings, with "" standing for both "absent" and "empty"; optional fields
 * whose absence is observable in the output are `Option`s.
 */
module Values {
  import opened Wrappers

  datatype Cover = Cover(id: int, url: string)

  datatype Platform = Platform(id: int, name: string, abbreviation: string)

  datatype Company = Company(id: int, name: string)

  datatype InvolvedCompany = InvolvedCompany(id: int, company: Company, developer: bool, publisher: bool)

  datatype Screenshot = Screenshot(id: int, url: string)

  /** A franchise record of the provider; `games` lists the ids of its games. */
  datatype Franchise = Franchise(id: int, name: string, slug: Option<string>, games: Option<seq<int>>, url: Option<string>)

  /** A game record as the provider returns it (the fields the application reads). */
  datatype Game = Game(
    id: int,
    name: string,
    cover: Option<Cover>,
    firstReleaseDate: Option<int>,
    totalRatingCount: Option<int>,
    platforms: Option<seq<Platform>>,
    involvedCompanies: Option<seq<InvolvedCompany>>,
    screenshots: Option<seq<Screenshot>>,
    franchise: Option<Franchise>,
    franchises: Option<seq<Franchise>>)

  /** Client-facing metadata of one discovery section. */
  datatype SectionMeta = SectionMeta(id: string, name: string, description: string, count: int, lastUpdated: Value)

  /** The `franchise` part of a franchise page response. */
  datatype FranchiseHeader = FranchiseHeader(id: int, name: string, slug: Option<string>, url: Option<string>)

  datatype MonthlyGame = MonthlyGame(igdbId: int, startDate: string, endDate: Option<string>, notes: Option<string>)

  /** One subscription service's games for one month; `tier` is only set for PlayStation Plus. */
  datatype ProviderEntry = ProviderEntry(provider: string, tier: Option<string>, games: seq<MonthlyGame>)

  datatype MonthRecord = MonthRecord(year: int, month: int, period: string, entries: seq<ProviderEntry>)

  datatype DiscoverConfig = DiscoverConfig(excludedTrendingGameIDs: seq<int>, curatedSeriesIDs: seq<int>)

  /**
   * A value as stored in the cache (serialisation through Redis and disk is
   * the identity). `Stamp(ms)` is the ISO-8601 string `toISOString` yields for
   * the instant `ms`.
   */
  datatype Value =
    | Null
    | Num(n: int)
    | Text(s: string)
    | Stamp(ms: int)
    | Games(games: seq<Game>)
    | Franchises(franchises: seq<Franchise>)
    | Metas(metas: seq<SectionMeta>)
    | TokenRecord(token: string, expiry: int)
    | GameDetail(game: Game)
    | FranchisePage(franchise: FranchiseHeader, pageGames: seq<Game>)
    | PeriodMap(periods: map<string, seq<ProviderEntry>>)
    | Month(record: MonthRecord)
    | Config(config: DiscoverConfig)

  /** What an operation can raise. */
  datatype Error =
    | AuthFailed           // the credential exchange failed
    | EmptyToken           // the credential exchange granted no token
    | MissingClientId
    | ProviderUnreachable
    | ProviderStatus(status: int)
    | Unreadable           // the monthly catalogue file could not be read or parsed
    | Malformed            // a value of a shape the caller cannot read (a TypeError in JavaScript)

  /**
   * JavaScript truthiness: `null`, `0` and `""` are falsy; every array (even
   * an empty one) and every object is truthy.
   */
  predicate Truthy(v: Value) {
    match v
    case Null => false
    case Num(n) => n != 0
    case Text(s) => s != ""
    case _ => true
  }

  /** `Array.isArray(v)`. */
  predicate IsArray(v: Value) {
    v.Games? || v.Franchises? || v.Metas?
  }

  /** `v?.length || 0`: the length of an array or string, 0 for anything else. */
  function CountOf(v: Value): (r: nat)
    ensures v.Games? ==> r == |v.games|
    ensures !Truthy(v) ==> r == 0
  {
    match v
    case Text(s) => |s|
    case Stamp(_) => 24  // "YYYY-MM-DDTHH:mm:ss.sssZ"
    case Games(gs) => |gs|
    case Franchises(fs) => |fs|
    case Metas(ms) => |ms|
    case _ => 0
  }

  /** `a || b` on values. */
  function OrElse(a: Option<Value>, b: Value): (r: Value)
    ensures a.Some? && Truthy(a.value) ==> r == a.value
    ensures !(a.Some? && Truthy(a.value)) ==> r == b
  {
    if a.Some? && Truthy(a.value) then a.value else b
  }
}
