/**
 * The monthly subscription catalogue: which games each subscription
 * service offers in each calendar month. The catalogue file is read once and
 * cached as a period map; each month record is cached on its own. The
 * month-window route walks back from the current month; the refresh route
 * validates a period and drops the two cache entries built from it.
 *
 * The catalogue file is a parameter: its parsed content, or the error
 * reading or parsing it raises.
 */
module Monthly {
  import opened Wrappers
  import opened Values
  import opened Strings
  import opened Seqs
  import opened Client
  import Cache

  type Periods = map<string, seq<ProviderEntry>>

  const PeriodMapKey := "monthly-games-period-map"

  /** The cache key of one month's record. */
  function MonthKey(period: string): (r: string)
    ensures |r| == |period| + 14 && r[..14] == "monthly-games-"
  {
    "monthly-games-" + period
  }

  // ---------------------------------------------------------------- period keys

  /** `getPeriodKey(year, month)` (and `toPeriod`): the year, '-', and the month padded to two digits. */
  function PeriodKey(year: int, month: int): string {
    IntToString(year) + "-" + PadStart2(IntToString(month))
  }

  /** The two characters `PeriodKey` writes for a month of the year. */
  function MonthDigits(month: int): (r: string)
    requires 1 <= month <= 12
  {
    [DigitChar(month / 10), DigitChar(month % 10)]
  }

  /** For a month of the year, the padded month is its two digits: "01" to "12". */
  lemma PaddedMonth(month: int)
    requires 1 <= month <= 12
    ensures PadStart2(IntToString(month)) == MonthDigits(month)
  {
    if month >= 10 {
      assert NatToString(month) == NatToString(month / 10) + [DigitChar(month % 10)];
      assert NatToString(month / 10) == [DigitChar(1)];
    }
  }

  /** The value of a digit character. */
  function DigitValue(c: char): (d: int)
    requires IsDigit(c)
    ensures 0 <= d < 10
  {
    c as int - '0' as int
  }

  lemma DigitValueOfDigitChar(d: nat)
    requires d < 10
    ensures DigitValue(DigitChar(d)) == d
  {
  }

  /** The month a period key names: the value of its last two digits. */
  function MonthOfPeriod(p: string): (m: int)
    requires |p| >= 2 && IsDigit(p[|p| - 2]) && IsDigit(p[|p| - 1])
  {
    10 * DigitValue(p[|p| - 2]) + DigitValue(p[|p| - 1])
  }

  /**
   * A period key of a month of the year reads back: the year's digits, then
   * '-', then two digits whose value is the month.
   */
  lemma PeriodKeyReadsBack(year: int, month: int)
    requires 1 <= month <= 12
    ensures var p := PeriodKey(year, month);
            && |p| == |IntToString(year)| + 3
            && p[..|p| - 3] == IntToString(year) && p[|p| - 3] == '-'
            && IsDigit(p[|p| - 2]) && IsDigit(p[|p| - 1]) && MonthOfPeriod(p) == month
  {
    PaddedMonth(month);
    SplitKey(IntToString(year), MonthDigits(month));
    MonthDigitsValue(month);
  }

  /** A key of the form `ys + "-" + md` with two trailing characters splits back into its parts. */
  lemma SplitKey(ys: string, md: string)
    requires |md| == 2
    ensures var p := ys + "-" + md;
            |p| == |ys| + 3 && p[..|p| - 3] == ys && p[|p| - 3] == '-' && p[|p| - 2] == md[0] && p[|p| - 1] == md[1]
  {
  }

  /** The two digits of a month of the year read back as that month. */
  lemma MonthDigitsValue(month: int)
    requires 1 <= month <= 12
    ensures 10 * DigitValue(MonthDigits(month)[0]) + DigitValue(MonthDigits(month)[1]) == month
  {
    if month < 10 {
      assert month / 10 == 0 && month % 10 == month;
    } else {
      assert month / 10 == 1 && month % 10 == month - 10;
    }
    DigitValueOfDigitChar(month / 10);
    DigitValueOfDigitChar(month % 10);
  }

  /** The period pattern `^\d{4}-(0[1-9]|1[0-2])$`. */
  predicate IsPeriod(s: string) {
    && |s| == 7
    && IsDigit(s[0]) && IsDigit(s[1]) && IsDigit(s[2]) && IsDigit(s[3])
    && s[4] == '-'
    && ((s[5] == '0' && '1' <= s[6] <= '9') || (s[5] == '1' && '0' <= s[6] <= '2'))
  }

  /**
   * For a month of the year, the key `toPeriod` builds matches the period
   * pattern exactly when the year has four digits: the year itself is never
   * range-checked.
   */
  lemma PeriodKeyIsPeriodIff(year: int, month: int)
    requires 1 <= month <= 12
    ensures IsPeriod(PeriodKey(year, month)) <==> 1000 <= year <= 9999
  {
    PaddedMonth(month);
    MonthDigitsMatch(month);
    IsPeriodOfParts(IntToString(year), MonthDigits(month));
    FourDigitYear(year);
  }

  /** The two-digit months "01" to "12" are exactly what the month part of the pattern admits. */
  predicate MonthPattern(md: string) {
    |md| == 2 && ((md[0] == '0' && '1' <= md[1] <= '9') || (md[0] == '1' && '0' <= md[1] <= '2'))
  }

  lemma MonthDigitsMatch(month: int)
    requires 1 <= month <= 12
    ensures MonthPattern(MonthDigits(month))
  {
    if month < 10 {
      assert month / 10 == 0 && month % 10 == month;
    } else {
      assert month / 10 == 1 && month % 10 == month - 10;
    }
  }

  /** A key made of a year part, '-' and a valid month part matches the pattern iff the year part is four digits. */
  lemma IsPeriodOfParts(ys: string, md: string)
    requires MonthPattern(md)
    ensures IsPeriod(ys + "-" + md) <==> |ys| == 4 && IsDigit(ys[0]) && IsDigit(ys[1]) && IsDigit(ys[2]) && IsDigit(ys[3])
  {
    var p := ys + "-" + md;
    if |ys| == 4 {
      assert p[4] == '-' && p[5] == md[0] && p[6] == md[1];
      assert p[..4] == ys;
    }
  }

  /** A year is written as four digits exactly when it lies in 1000..9999. */
  lemma FourDigitYear(year: int)
    ensures var ys := IntToString(year);
            |ys| == 4 && IsDigit(ys[0]) && IsDigit(ys[1]) && IsDigit(ys[2]) && IsDigit(ys[3]) <==> 1000 <= year <= 9999
  {
    if year >= 0 {
      NatToStringHasFourDigits(year);
    }
  }

  /** A two-digit year yields the key "99-01", which the period pattern rejects. */
  lemma TwoDigitYearKey()
    ensures PeriodKey(99, 1) == "99-01" && !IsPeriod(PeriodKey(99, 1))
  {
    assert NatToString(99) == NatToString(9) + [DigitChar(9)];
  }

  // ---------------------------------------------------------------- the catalogue

  /** The periods a cached value lists; a value that is not a period map lists none. */
  function PeriodsOf(v: Value): Periods {
    if v.PeriodMap? then v.periods else map[]
  }

  /**
   * `readPeriodMap()`: a truthy cached value as it is, without reading the
   * file; otherwise the parsed file, which is cached. A file that cannot be
   * read or parsed raises.
   */
  function ReadPeriodMap(e: Env, file: Result<Periods, Error>): (r: Out<Value>)
    ensures Hit(e.cache, PeriodMapKey) ==>
              r.result == Success(Cache.View(e.cache, PeriodMapKey).value) && forall k {:trigger Cache.View(r.env.cache, k)} :: Cache.View(r.env.cache, k) == Cache.View(e.cache, k)
    ensures !Hit(e.cache, PeriodMapKey) && file.Success? ==>
              r.result == Success(PeriodMap(file.value)) && Cache.View(r.env.cache, PeriodMapKey) == Some(PeriodMap(file.value))
    ensures !Hit(e.cache, PeriodMapKey) && file.Failure? ==> r.result == Failure(file.error)
    ensures forall k {:trigger Cache.View(r.env.cache, k)} :: Cache.Apart(k, PeriodMapKey) ==> Cache.View(r.env.cache, k) == Cache.View(e.cache, k)
    ensures r.env == e.(cache := r.env.cache)
    ensures Cache.Reads(r.env.cache) == Cache.Reads(e.cache) + 1
  {
    Cache.GetCountsOnce(e.cache, PeriodMapKey);
    var got := Lookup(e, PeriodMapKey);
    if got.value.Some? && Truthy(got.value.value) then Out(Success(got.value.value), got.env)
    else if file.Failure? then Out(Failure(file.error), got.env)
    else Out(Success(PeriodMap(file.value)), Store(got.env, PeriodMapKey, PeriodMap(file.value)))
  }

  /**
   * `getMonth(year, month)`: a truthy cached record as it is, without
   * consulting the period map; otherwise null when the period is absent
   * from the map, and else the record of the period's entries, which is
   * cached.
   */
  function GetMonth(e: Env, file: Result<Periods, Error>, year: int, month: int): (r: Out<Value>)
    ensures var key := MonthKey(PeriodKey(year, month));
            Hit(e.cache, key) ==> r.result == Success(Cache.View(e.cache, key).value) && forall k {:trigger Cache.View(r.env.cache, k)} :: Cache.View(r.env.cache, k) == Cache.View(e.cache, k)
    ensures r.result.Success? && r.result.value.Month? ==> Cache.View(r.env.cache, MonthKey(PeriodKey(year, month))) == Some(r.result.value)
    ensures forall k {:trigger Cache.View(r.env.cache, k)} :: Cache.Apart(k, PeriodMapKey) && Cache.Apart(k, MonthKey(PeriodKey(year, month))) ==>
              Cache.View(r.env.cache, k) == Cache.View(e.cache, k)
    ensures r.env == e.(cache := r.env.cache)
    ensures Cache.Reads(r.env.cache) == Cache.Reads(e.cache) + if Hit(e.cache, MonthKey(PeriodKey(year, month))) then 1 else 2
  {
    var period := PeriodKey(year, month);
    var key := MonthKey(period);
    Cache.GetCountsOnce(e.cache, key);
    var got := Lookup(e, key);
    if got.value.Some? && Truthy(got.value.value) then Out(Success(got.value.value), got.env)
    else
      var pm := ReadPeriodMap(got.env, file);
      if pm.result.Failure? then pm
      else if period !in PeriodsOf(pm.result.value) then Out(Success(Null), pm.env)
      else
        var record := Month(MonthRecord(year, month, period, PeriodsOf(pm.result.value)[period]));
        Out(Success(record), Store(pm.env, key, record))
  }

  /**
   * On a miss, `getMonth` answers from the period map: null when the period
   * is absent, else the record of the year, month, period and the map's
   * entries for it.
   */
  lemma GetMonthFromMap(e: Env, file: Result<Periods, Error>, year: int, month: int)
    requires !Hit(e.cache, MonthKey(PeriodKey(year, month)))
    ensures var r := GetMonth(e, file, year, month);
            var pm := ReadPeriodMap(e, file);
            var p := PeriodKey(year, month);
            && (pm.result.Failure? ==> r.result == pm.result)
            && (pm.result.Success? && p !in PeriodsOf(pm.result.value) ==> r.result == Success(Null))
            && (pm.result.Success? && p in PeriodsOf(pm.result.value) ==>
                  r.result == Success(Month(MonthRecord(year, month, p, PeriodsOf(pm.result.value)[p]))))
  {
    var got := Lookup(e, MonthKey(PeriodKey(year, month)));
    var pm1 := ReadPeriodMap(got.env, file);
    var pm := ReadPeriodMap(e, file);
    assert Cache.View(got.env.cache, PeriodMapKey) == Cache.View(e.cache, PeriodMapKey);
    assert pm1.result == pm.result;
  }

  /** The entries of a record that belong to `provider`, in order. */
  function ForProvider(entries: seq<ProviderEntry>, provider: string): (r: seq<ProviderEntry>)
    ensures IsSubsequence(r, entries)
    ensures forall x :: x in r <==> x in entries && x.provider == provider
  {
    FilterMembership(entries, (x: ProviderEntry) => x.provider == provider);
    FilterIsSubsequence(entries, (x: ProviderEntry) => x.provider == provider);
    Filter(entries, (x: ProviderEntry) => x.provider == provider)
  }

  /** The provider's entries are kept as many times as the record lists them, and no other entry is kept. */
  lemma ForProviderMultiplicity(entries: seq<ProviderEntry>, provider: string)
    ensures forall x :: multiset(ForProvider(entries, provider))[x] == if x.provider == provider then multiset(entries)[x] else 0
  {
    FilterMultiplicity(entries, (x: ProviderEntry) => x.provider == provider);
  }

  /**
   * `getMonthForProvider(year, month, provider)`: null when there is no
   * record; the record unchanged when no provider is given ("" stands for
   * none); otherwise the record with only that provider's entries. A cached
   * value that is not a record has no entries to filter, and the call raises.
   */
  function GetMonthForProvider(e: Env, file: Result<Periods, Error>, year: int, month: int, provider: string): (r: Out<Value>)
    ensures var m := GetMonth(e, file, year, month);
            && (m.result.Failure? ==> r.result == m.result)
            && (m.result.Success? && !Truthy(m.result.value) ==> r.result == Success(Null))
            && (m.result.Success? && Truthy(m.result.value) && provider == "" ==> r.result == m.result)
            && (m.result.Success? && m.result.value.Month? && provider != "" ==>
                  var rec := m.result.value.record;
                  r.result == Success(Month(rec.(entries := ForProvider(rec.entries, provider)))))
    ensures r.env == GetMonth(e, file, year, month).env
  {
    var m := GetMonth(e, file, year, month);
    if m.result.Failure? then m
    else if !Truthy(m.result.value) then Out(Success(Null), m.env)
    else if provider == "" then m
    else if !m.result.value.Month? then Out(Failure(Malformed), m.env)
    else
      var rec := m.result.value.record;
      Out(Success(Month(rec.(entries := ForProvider(rec.entries, provider)))), m.env)
  }

  /** Filtering a record by provider keeps its year, month and period, and filtering twice changes nothing more. */
  lemma ForProviderIdempotent(entries: seq<ProviderEntry>, provider: string)
    ensures ForProvider(ForProvider(entries, provider), provider) == ForProvider(entries, provider)
  {
    FilterIdempotent(entries, (x: ProviderEntry) => x.provider == provider);
  }

  /** The UTC calendar year and the zero-based month index of an instant, as the date library reports them. */
  datatype UtcDate = UtcDate(year: int, monthIndex: int)

  /** `getCurrentYearMonth(base)`: the UTC year and the one-based month. */
  function CurrentYearMonth(base: UtcDate): (r: (int, int))
    requires 0 <= base.monthIndex <= 11
    ensures r.0 == base.year && 1 <= r.1 <= 12 && r.1 - 1 == base.monthIndex
  {
    (base.year, base.monthIndex + 1)
  }

  // ---------------------------------------------------------------- the month window

  /** The "months" query parameter: absent, or what `parseInt` makes of it. */
  datatype MonthsParam = Absent | Parsed(n: int) | NotANumber

  /** How many months the window holds: 12 by default, none for a non-number or a non-positive count. */
  function WindowSize(p: MonthsParam): (n: nat)
    ensures p.Absent? ==> n == 12
    ensures p.Parsed? && p.n > 0 ==> n == p.n
    ensures p.NotANumber? || (p.Parsed? && p.n <= 0) ==> n == 0
  {
    match p
    case Absent => 12
    case Parsed(n) => if n > 0 then n else 0
    case NotANumber => 0
  }

  datatype Target = Target(year: int, month: int, period: string)

  /** The month `back` months before `month` of `year`, computed by calendar arithmetic. */
  function StepBack(year: int, month: int, back: int): (t: Target)
  {
    var total := year * 12 + (month - 1) - back;
    Target(total / 12, total % 12 + 1, PeriodKey(total / 12, total % 12 + 1))
  }

  /** `t` is the month `back` months before `month` of `year`, normalised into 1..12, with its period key. */
  predicate IsStepBack(year: int, month: int, back: int, t: Target) {
    && 1 <= t.month <= 12
    && t.year * 12 + t.month == year * 12 + month - back
    && t.period == PeriodKey(t.year, t.month)
  }

  /**
   * The loop of the month-window route: for i = 0 .. size-1, the month i
   * months back, normalised into 1..12 by borrowing years.
   */
  method MonthsToFetch(year: int, month: int, p: MonthsParam) returns (targets: seq<Target>)
    requires 1 <= month <= 12
    ensures |targets| == WindowSize(p)
    ensures forall i :: 0 <= i < |targets| ==> IsStepBack(year, month, i, targets[i])
    ensures forall i :: 0 <= i < |targets| ==> targets[i] == StepBack(year, month, i)
  {
    var size := match p case Absent => 12 case Parsed(n) => n case NotANumber => 0;
    targets := [];
    var i := 0;
    while i < size
      invariant 0 <= i <= WindowSize(p)
      invariant |targets| == i
      invariant forall j :: 0 <= j < i ==> IsStepBack(year, month, j, targets[j])
    {
      var targetMonth := month - i;
      var targetYear := year;
      while targetMonth < 1
        invariant targetYear * 12 + targetMonth == year * 12 + month - i
        invariant targetMonth <= 12
        decreases -targetMonth
      {
        targetMonth := targetMonth + 12;
        targetYear := targetYear - 1;
      }
      var t := Target(targetYear, targetMonth, PeriodKey(targetYear, targetMonth));
      assert IsStepBack(year, month, i, t);
      targets := targets + [t];
      i := i + 1;
    }
    forall i | 0 <= i < |targets|
      ensures targets[i] == StepBack(year, month, i)
    {
      StepBackUnique(year, month, i, targets[i]);
    }
  }

  /** A month in 1..12 with the right month count is the one `StepBack` computes. */
  lemma StepBackUnique(year: int, month: int, back: int, t: Target)
    requires IsStepBack(year, month, back, t)
    ensures t == StepBack(year, month, back)
  {
    DivModTwelve(year * 12 + (month - 1) - back, t.year, t.month - 1);
  }

  /** Euclidean division by twelve recovers the year and the month index a month count is made of. */
  lemma DivModTwelve(total: int, y: int, m: int)
    requires 0 <= m < 12 && total == y * 12 + m
    ensures total / 12 == y && total % 12 == m
  {
  }

  /** Two different steps back name different months, so the periods of a window never repeat. */
  lemma WindowPeriodsDistinct(year: int, month: int, i: int, j: int)
    requires i != j
    ensures StepBack(year, month, i).period != StepBack(year, month, j).period
  {
    var a := StepBack(year, month, i);
    var b := StepBack(year, month, j);
    StepBackCounts(year, month, i);
    StepBackCounts(year, month, j);
    if a.period == b.period {
      PeriodKeyInjective(a.year, a.month, b.year, b.month);
    }
  }

  /** `StepBack` names a month of the year, `back` months before `month` of `year`. */
  lemma StepBackCounts(year: int, month: int, back: int)
    ensures var t := StepBack(year, month, back);
            && 1 <= t.month <= 12 && t.year * 12 + t.month == year * 12 + month - back
            && t.period == PeriodKey(t.year, t.month)
  {
  }

  /** Period keys of months of the year are distinct for distinct months. */
  lemma PeriodKeyInjective(y1: int, m1: int, y2: int, m2: int)
    requires 1 <= m1 <= 12 && 1 <= m2 <= 12
    requires PeriodKey(y1, m1) == PeriodKey(y2, m2)
    ensures y1 == y2 && m1 == m2
  {
    PeriodKeyReadsBack(y1, m1);
    PeriodKeyReadsBack(y2, m2);
    IntToStringInjective(y1, y2);
  }

  lemma IntToStringInjective(a: int, b: int)
    requires IntToString(a) == IntToString(b)
    ensures a == b
  {
    if a >= 0 && b >= 0 {
      NatToStringInjective(a, b);
    } else if a < 0 && b < 0 {
      assert NatToString(-a) == IntToString(a)[1..];
      NatToStringInjective(-a, -b);
    }
  }

  lemma {:induction false} NatToStringInjective(a: nat, b: nat)
    requires NatToString(a) == NatToString(b)
    ensures a == b
    decreases a
  {
    if a < 10 && b < 10 {
      DigitValueOfDigitChar(a);
      DigitValueOfDigitChar(b);
    } else if a >= 10 && b >= 10 {
      var sa := NatToString(a);
      assert sa[..|sa| - 1] == NatToString(a / 10);
      assert NatToString(b)[..|sa| - 1] == NatToString(b / 10);
      NatToStringInjective(a / 10, b / 10);
      DigitValueOfDigitChar(a % 10);
      DigitValueOfDigitChar(b % 10);
      assert sa[|sa| - 1] == DigitChar(a % 10);
      assert NatToString(b)[|sa| - 1] == DigitChar(b % 10);
    }
  }

  // ---------------------------------------------------------------- the month-window response

  datatype MonthEntries = MonthEntries(period: string, entries: seq<ProviderEntry>)

  /** The entries a provider-filtered read yields for the window: `data?.entries ?? []`. */
  function EntriesOf(v: Value): seq<ProviderEntry> {
    if v.Month? then v.record.entries else []
  }

  /** The reads of the window, one after another; the first failure fails the whole route, and the state it reached stays. */
  function FetchMonths(e: Env, file: Result<Periods, Error>, targets: seq<Target>, provider: string): (r: Out<seq<MonthEntries>>)
    ensures r.result.Success? ==> |r.result.value| == |targets| && forall i :: 0 <= i < |targets| ==> r.result.value[i].period == targets[i].period
    ensures r.env == e.(cache := r.env.cache)
    ensures Cache.Reads(r.env.cache) >= Cache.Reads(e.cache) + if r.result.Success? then |targets| else 1
    decreases |targets|
  {
    if targets == [] then Out(Success([]), e)
    else
      var t := targets[0];
      var m := GetMonthForProvider(e, file, t.year, t.month, provider);
      if m.result.Failure? then Out(Failure(m.result.error), m.env)
      else
        var rest := FetchMonths(m.env, file, targets[1..], provider);
        if rest.result.Failure? then rest
        else Out(Success([MonthEntries(t.period, EntriesOf(m.result.value))] + rest.result.value), rest.env)
  }

  /**
   * With no truthy period map cached and a catalogue file that cannot be
   * read, a month read stores nothing: every read view stays as it was.
   */
  lemma GetMonthColdFailure(e: Env, file: Result<Periods, Error>, year: int, month: int)
    requires !Hit(e.cache, PeriodMapKey) && file.Failure?
    ensures var r := GetMonth(e, file, year, month);
            forall k :: Cache.View(r.env.cache, k) == Cache.View(e.cache, k)
  {
    var got := Lookup(e, MonthKey(PeriodKey(year, month)));
    assert Cache.View(got.env.cache, PeriodMapKey) == Cache.View(e.cache, PeriodMapKey);
  }

  /** The same holds for the whole window, whether or not it fails: a cold period map with an unreadable file writes nothing. */
  lemma {:induction false} FetchMonthsColdFailure(e: Env, file: Result<Periods, Error>, targets: seq<Target>, provider: string)
    requires !Hit(e.cache, PeriodMapKey) && file.Failure?
    ensures var r := FetchMonths(e, file, targets, provider);
            forall k :: Cache.View(r.env.cache, k) == Cache.View(e.cache, k)
    decreases |targets|
  {
    if targets != [] {
      var t := targets[0];
      GetMonthColdFailure(e, file, t.year, t.month);
      var m := GetMonthForProvider(e, file, t.year, t.month, provider);
      assert Cache.View(m.env.cache, PeriodMapKey) == Cache.View(e.cache, PeriodMapKey);
      FetchMonthsColdFailure(m.env, file, targets[1..], provider);
    }
  }

  // ---------------------------------------------------------------- month keys

  /** `s` is made of digits and '-' only. */
  predicate DigitsAndDashes(s: string) {
    forall i :: 0 <= i < |s| ==> IsDigit(s[i]) || s[i] == '-'
  }

  lemma DigitsAndDashesAppend(a: string, b: string)
    requires DigitsAndDashes(a) && DigitsAndDashes(b)
    ensures DigitsAndDashes(a + b)
  {
    assert forall i :: |a| <= i < |a + b| ==> (a + b)[i] == b[i - |a|];
  }

  /** An integer is written with digits and a leading '-' at most. */
  lemma IntToStringChars(n: int)
    ensures DigitsAndDashes(IntToString(n))
  {
    if n < 0 {
      DigitsAndDashesAppend("-", NatToString(-n));
    }
  }

  /** A period key of a month of the year is made of digits and '-' only. */
  lemma PeriodKeyChars(year: int, month: int)
    requires 1 <= month <= 12
    ensures DigitsAndDashes(PeriodKey(year, month))
  {
    PaddedMonth(month);
    IntToStringChars(year);
    DigitsAndDashesAppend(IntToString(year), "-");
    DigitsAndDashesAppend(IntToString(year) + "-", MonthDigits(month));
  }

  /** A month key never shares an entry with the period map's key. */
  lemma MonthKeyApartFromMap(year: int, month: int)
    requires 1 <= month <= 12
    ensures Cache.Apart(MonthKey(PeriodKey(year, month)), PeriodMapKey)
  {
    var key := MonthKey(PeriodKey(year, month));
    if |key| == |PeriodMapKey| {
      PeriodKeyChars(year, month);
      assert key[14] == PeriodKey(year, month)[0];
      Cache.FileNamesDiffer(PeriodMapKey, key, 14);
    } else {
      Cache.FileNamesDiffer(key, PeriodMapKey, 0);
    }
  }

  /** Two different strings of one length differ at some index. */
  lemma FirstDifference(p: string, q: string) returns (i: nat)
    requires |p| == |q| && p != q
    ensures i < |p| && p[i] != q[i]
  {
    i := 0;
    while i < |p| && p[i] == q[i]
      invariant i <= |p| && forall j :: 0 <= j < i ==> p[j] == q[j]
    {
      i := i + 1;
    }
    if i == |p| {
      assert false;
    }
  }

  /** Two different strings of digits and dashes behind one prefix never share an entry. */
  lemma DashedKeysApart(pre: string, p: string, q: string)
    requires DigitsAndDashes(p) && DigitsAndDashes(q) && p != q
    ensures Cache.Apart(pre + p, pre + q)
  {
    var a, b := pre + p, pre + q;
    if |p| == |q| {
      var i := FirstDifference(p, q);
      assert a[|pre| + i] == p[i] && b[|pre| + i] == q[i];
      if IsDigit(p[i]) {
        Cache.FileNamesDiffer(a, b, |pre| + i);
      } else {
        Cache.FileNamesDiffer(b, a, |pre| + i);
      }
    } else {
      Cache.FileNamesDiffer(a, b, 0);
    }
  }

  /** The month keys of two different months of the year never share an entry. */
  lemma MonthKeysApart(y1: int, m1: int, y2: int, m2: int)
    requires 1 <= m1 <= 12 && 1 <= m2 <= 12
    requires PeriodKey(y1, m1) != PeriodKey(y2, m2)
    ensures Cache.Apart(MonthKey(PeriodKey(y1, m1)), MonthKey(PeriodKey(y2, m2)))
  {
    PeriodKeyChars(y1, m1);
    PeriodKeyChars(y2, m2);
    DashedKeysApart("monthly-games-", PeriodKey(y1, m1), PeriodKey(y2, m2));
  }

  // ---------------------------------------------------------------- the window from the catalogue

  /** The entries the window reports for `period` when the catalogue is `ps`: the period's entries, filtered to `provider` unless it is "". */
  function CatalogueEntries(ps: Periods, period: string, provider: string): seq<ProviderEntry> {
    if period !in ps then [] else if provider == "" then ps[period] else ForProvider(ps[period], provider)
  }

  /** A read of the period map in `c` sees the catalogue `ps`: nothing truthy is cached (the file is read), or `ps` is. */
  predicate Serves(c: Cache.Tiers, ps: Periods) {
    !Hit(c, PeriodMapKey) || Cache.View(c, PeriodMapKey) == Some(PeriodMap(ps))
  }

  /** What `getMonth` makes of the catalogue `ps` for a month: its record, or null when the period is absent. */
  function MonthOf(ps: Periods, year: int, month: int): Value {
    var p := PeriodKey(year, month);
    if p in ps then Month(MonthRecord(year, month, p, ps[p])) else Null
  }

  /** A month whose record is not cached is read from the catalogue the period map serves. */
  lemma GetMonthReadsCatalogue(e: Env, ps: Periods, year: int, month: int)
    requires Serves(e.cache, ps) && !Hit(e.cache, MonthKey(PeriodKey(year, month)))
    ensures GetMonth(e, Success(ps), year, month).result == Success(MonthOf(ps, year, month))
  {
    GetMonthFromMap(e, Success(ps), year, month);
    assert ReadPeriodMap(e, Success(ps)).result == Success(PeriodMap(ps));
  }

  /** After such a read the period map still serves the catalogue: it was either left alone or filled from the file. */
  lemma GetMonthKeepsServing(e: Env, ps: Periods, year: int, month: int)
    requires 1 <= month <= 12
    requires Serves(e.cache, ps) && !Hit(e.cache, MonthKey(PeriodKey(year, month)))
    ensures Serves(GetMonth(e, Success(ps), year, month).env.cache, ps)
  {
    var got := Lookup(e, MonthKey(PeriodKey(year, month)));
    var pm := ReadPeriodMap(got.env, Success(ps));
    assert Cache.View(got.env.cache, PeriodMapKey) == Cache.View(e.cache, PeriodMapKey);
    assert Serves(pm.env.cache, ps);
    MonthKeyApartFromMap(year, month);
    assert Cache.View(GetMonth(e, Success(ps), year, month).env.cache, PeriodMapKey) == Cache.View(pm.env.cache, PeriodMapKey);
  }

  /**
   * A month whose record is not cached is read from the catalogue: the
   * read yields the catalogue's entries for it, and the period map then
   * still serves the catalogue.
   */
  lemma GetMonthFromCatalogue(e: Env, ps: Periods, year: int, month: int, provider: string)
    requires 1 <= month <= 12
    requires Serves(e.cache, ps) && !Hit(e.cache, MonthKey(PeriodKey(year, month)))
    ensures var m := GetMonthForProvider(e, Success(ps), year, month, provider);
            && m.result.Success? && EntriesOf(m.result.value) == CatalogueEntries(ps, PeriodKey(year, month), provider)
            && Serves(m.env.cache, ps)
  {
    GetMonthReadsCatalogue(e, ps, year, month);
    GetMonthKeepsServing(e, ps, year, month);
    var p := PeriodKey(year, month);
    var m := GetMonthForProvider(e, Success(ps), year, month, provider);
    if p !in ps {
      assert m.result == Success(Null);
    } else if provider == "" {
      assert m.result == Success(Month(MonthRecord(year, month, p, ps[p])));
    } else {
      var rec := MonthRecord(year, month, p, ps[p]);
      assert m.result == Success(Month(rec.(entries := ForProvider(ps[p], provider))));
    }
  }

  /** Targets whose periods are the keys of their months of the year, all different. */
  predicate DistinctMonths(targets: seq<Target>) {
    && (forall i :: 0 <= i < |targets| ==> 1 <= targets[i].month <= 12 && targets[i].period == PeriodKey(targets[i].year, targets[i].month))
    && (forall i, j :: 0 <= i < j < |targets| ==> targets[i].period != targets[j].period)
  }

  /** A month read leaves the record of every other month as it was. */
  lemma GetMonthKeepsOtherMonth(e: Env, file: Result<Periods, Error>, t: Target, u: Target, provider: string)
    requires 1 <= t.month <= 12 && t.period == PeriodKey(t.year, t.month)
    requires 1 <= u.month <= 12 && u.period == PeriodKey(u.year, u.month)
    requires t.period != u.period
    ensures var m := GetMonthForProvider(e, file, t.year, t.month, provider);
            Cache.View(m.env.cache, MonthKey(u.period)) == Cache.View(e.cache, MonthKey(u.period))
  {
    MonthKeyApartFromMap(u.year, u.month);
    MonthKeysApart(u.year, u.month, t.year, t.month);
  }

  /** The first read of a window leaves the remaining months uncached, and they stay distinct months. */
  lemma TailStaysUncached(e: Env, ps: Periods, targets: seq<Target>, provider: string)
    requires targets != [] && DistinctMonths(targets)
    requires forall i :: 0 <= i < |targets| ==> !Hit(e.cache, MonthKey(targets[i].period))
    ensures var m := GetMonthForProvider(e, Success(ps), targets[0].year, targets[0].month, provider);
            && DistinctMonths(targets[1..])
            && forall i :: 0 <= i < |targets| - 1 ==> !Hit(m.env.cache, MonthKey(targets[1..][i].period))
  {
    var t := targets[0];
    var tail := targets[1..];
    var m := GetMonthForProvider(e, Success(ps), t.year, t.month, provider);
    assert forall i :: 0 <= i < |tail| ==> tail[i] == targets[i + 1];
    forall i | 0 <= i < |tail|
      ensures !Hit(m.env.cache, MonthKey(tail[i].period))
    {
      GetMonthKeepsOtherMonth(e, Success(ps), t, tail[i], provider);
    }
  }

  /**
   * A window whose first read yields the catalogue's entries and whose
   * remaining reads do too yields the catalogue's entries throughout.
   */
  lemma FetchMonthsCons(e: Env, ps: Periods, targets: seq<Target>, provider: string)
    requires targets != []
    requires var m := GetMonthForProvider(e, Success(ps), targets[0].year, targets[0].month, provider);
             && m.result.Success? && EntriesOf(m.result.value) == CatalogueEntries(ps, targets[0].period, provider)
             && var rest := FetchMonths(m.env, Success(ps), targets[1..], provider);
                && rest.result.Success?
                && forall i :: 0 <= i < |targets| - 1 ==> rest.result.value[i].entries == CatalogueEntries(ps, targets[1..][i].period, provider)
    ensures var r := FetchMonths(e, Success(ps), targets, provider);
            && r.result.Success?
            && forall i :: 0 <= i < |targets| ==> r.result.value[i].entries == CatalogueEntries(ps, targets[i].period, provider)
  {
    var t := targets[0];
    var m := GetMonthForProvider(e, Success(ps), t.year, t.month, provider);
    var rest := FetchMonths(m.env, Success(ps), targets[1..], provider).result.value;
    var head := MonthEntries(t.period, EntriesOf(m.result.value));
    assert FetchMonths(e, Success(ps), targets, provider).result == Success([head] + rest);
    forall i | 1 <= i < |targets|
      ensures ([head] + rest)[i].entries == CatalogueEntries(ps, targets[i].period, provider)
    {
      assert ([head] + rest)[i] == rest[i - 1];
      assert targets[1..][i - 1] == targets[i];
    }
  }

  /**
   * When the catalogue file is readable and no month of the window is
   * cached, the window's reads all succeed and each yields the catalogue's
   * entries for its period.
   */
  lemma {:induction false} FetchMonthsFromCatalogue(e: Env, ps: Periods, targets: seq<Target>, provider: string)
    requires Serves(e.cache, ps) && DistinctMonths(targets)
    requires forall i :: 0 <= i < |targets| ==> !Hit(e.cache, MonthKey(targets[i].period))
    ensures var r := FetchMonths(e, Success(ps), targets, provider);
            && r.result.Success?
            && forall i :: 0 <= i < |targets| ==> r.result.value[i].entries == CatalogueEntries(ps, targets[i].period, provider)
    decreases |targets|
  {
    if targets != [] {
      var t := targets[0];
      GetMonthFromCatalogue(e, ps, t.year, t.month, provider);
      TailStaysUncached(e, ps, targets, provider);
      var m := GetMonthForProvider(e, Success(ps), t.year, t.month, provider);
      FetchMonthsFromCatalogue(m.env, ps, targets[1..], provider);
      FetchMonthsCons(e, ps, targets, provider);
    }
  }

  /** The `months` object of the response: each period with at least one entry, a later result overriding an earlier one. */
  function NonEmptyMonths(results: seq<MonthEntries>): (r: map<string, seq<ProviderEntry>>)
    ensures forall k :: k in r ==> |r[k]| > 0
    decreases |results|
  {
    if results == [] then map[]
    else
      var init := NonEmptyMonths(results[..|results| - 1]);
      var last := results[|results| - 1];
      if |last.entries| > 0 then init[last.period := last.entries] else init
  }

  /**
   * With distinct periods, the response lists exactly the periods with at
   * least one entry, each with its entries.
   */
  lemma {:induction false} NonEmptyMonthsExactly(results: seq<MonthEntries>)
    requires forall i, j :: 0 <= i < j < |results| ==> results[i].period != results[j].period
    ensures forall i :: 0 <= i < |results| && |results[i].entries| > 0 ==>
              results[i].period in NonEmptyMonths(results) && NonEmptyMonths(results)[results[i].period] == results[i].entries
    ensures forall k :: k in NonEmptyMonths(results) ==> exists i :: 0 <= i < |results| && results[i].period == k && |results[i].entries| > 0
    decreases |results|
  {
    if results != [] {
      var init := results[..|results| - 1];
      NonEmptyMonthsExactly(init);
      var last := results[|results| - 1];
      forall k | k in NonEmptyMonths(results)
        ensures exists i :: 0 <= i < |results| && results[i].period == k && |results[i].entries| > 0
      {
        if !(k == last.period && |last.entries| > 0) {
          var i :| 0 <= i < |init| && init[i].period == k && |init[i].entries| > 0;
          assert results[i] == init[i];
        }
      }
      forall i | 0 <= i < |results| - 1 && |results[i].entries| > 0
        ensures results[i].period in NonEmptyMonths(results) && NonEmptyMonths(results)[results[i].period] == results[i].entries
      {
        assert init[i] == results[i];
      }
    }
  }

  /** The period of the month `back` months before the current month of `now`. */
  function WindowPeriod(now: UtcDate, back: int): string
    requires 0 <= now.monthIndex <= 11
  {
    StepBack(CurrentYearMonth(now).0, CurrentYearMonth(now).1, back).period
  }

  /** The window's periods never repeat. */
  lemma WindowPeriodsDistinctAt(now: UtcDate, i: int, j: int)
    requires 0 <= now.monthIndex <= 11 && i != j
    ensures WindowPeriod(now, i) != WindowPeriod(now, j)
  {
    WindowPeriodsDistinct(CurrentYearMonth(now).0, CurrentYearMonth(now).1, i, j);
  }

  /** The months the window loop computes from the current month are the window's periods, in order. */
  lemma WindowTargets(now: UtcDate, year: int, month: int, targets: seq<Target>)
    requires 0 <= now.monthIndex <= 11 && (year, month) == CurrentYearMonth(now)
    requires forall i :: 0 <= i < |targets| ==> targets[i] == StepBack(year, month, i)
    ensures forall i :: 0 <= i < |targets| ==> targets[i].period == WindowPeriod(now, i)
  {
  }

  /**
   * The months of the response are periods of the window: with each result
   * named after the window's month at its position, every period the
   * response lists is one of them.
   */
  lemma NonEmptyMonthsInWindow(now: UtcDate, results: seq<MonthEntries>)
    requires 0 <= now.monthIndex <= 11
    requires forall i :: 0 <= i < |results| ==> results[i].period == WindowPeriod(now, i)
    ensures forall k :: k in NonEmptyMonths(results) ==> exists i :: 0 <= i < |results| && WindowPeriod(now, i) == k
  {
    forall i, j | 0 <= i < j < |results|
      ensures results[i].period != results[j].period
    {
      WindowPeriodsDistinctAt(now, i, j);
    }
    NonEmptyMonthsExactly(results);
  }

  /**
   * With each result named after the window's month at its position and
   * holding the catalogue's entries for it, the response lists a window
   * period exactly when the catalogue has entries for it, with those entries.
   */
  lemma WindowMonthsExactly(now: UtcDate, results: seq<MonthEntries>, ps: Periods, provider: string)
    requires 0 <= now.monthIndex <= 11
    requires forall i :: 0 <= i < |results| ==> results[i].period == WindowPeriod(now, i)
    requires forall i :: 0 <= i < |results| ==> results[i].entries == CatalogueEntries(ps, WindowPeriod(now, i), provider)
    ensures forall i :: 0 <= i < |results| ==>
              var k := WindowPeriod(now, i);
              && (k in NonEmptyMonths(results) <==> |CatalogueEntries(ps, k, provider)| > 0)
              && (k in NonEmptyMonths(results) ==> NonEmptyMonths(results)[k] == CatalogueEntries(ps, k, provider))
  {
    forall i, j | 0 <= i < j < |results|
      ensures results[i].period != results[j].period
    {
      WindowPeriodsDistinctAt(now, i, j);
    }
    NonEmptyMonthsExactly(results);
    forall i | 0 <= i < |results| && WindowPeriod(now, i) in NonEmptyMonths(results)
      ensures |CatalogueEntries(ps, WindowPeriod(now, i), provider)| > 0
    {
      var j :| 0 <= j < |results| && results[j].period == WindowPeriod(now, i) && |results[j].entries| > 0;
      if j != i {
        WindowPeriodsDistinctAt(now, i, j);
      }
    }
  }

  /** No month of the first `size` months of the window has a truthy record cached. */
  predicate WindowUncached(c: Cache.Tiers, now: UtcDate, size: nat)
    requires 0 <= now.monthIndex <= 11
  {
    forall i :: 0 <= i < size ==> !Hit(c, MonthKey(WindowPeriod(now, i)))
  }

  /** The targets the window loop computes for the current month of `now`. */
  predicate WindowOf(now: UtcDate, targets: seq<Target>)
    requires 0 <= now.monthIndex <= 11
  {
    forall i :: 0 <= i < |targets| ==> targets[i] == StepBack(CurrentYearMonth(now).0, CurrentYearMonth(now).1, i)
  }

  /** The window's targets are distinct months named by their period keys. */
  lemma WindowDistinctMonths(now: UtcDate, targets: seq<Target>)
    requires 0 <= now.monthIndex <= 11 && WindowOf(now, targets)
    ensures DistinctMonths(targets)
    ensures forall i :: 0 <= i < |targets| ==> targets[i].period == WindowPeriod(now, i)
  {
    var (year, month) := CurrentYearMonth(now);
    WindowTargets(now, year, month, targets);
    forall i | 0 <= i < |targets|
      ensures 1 <= targets[i].month <= 12 && targets[i].period == PeriodKey(targets[i].year, targets[i].month)
    {
      StepBackCounts(year, month, i);
    }
    forall i, j | 0 <= i < j < |targets|
      ensures targets[i].period != targets[j].period
    {
      WindowPeriodsDistinctAt(now, i, j);
    }
  }

  /** Every month the response lists is one of the window's. */
  lemma WindowResponseInWindow(e: Env, file: Result<Periods, Error>, now: UtcDate, targets: seq<Target>, provider: string)
    requires 0 <= now.monthIndex <= 11 && WindowOf(now, targets)
    ensures var f := FetchMonths(e, file, targets, provider);
            f.result.Success? ==> forall k :: k in NonEmptyMonths(f.result.value) ==>
              exists i :: 0 <= i < |targets| && WindowPeriod(now, i) == k
  {
    var f := FetchMonths(e, file, targets, provider);
    if f.result.Success? {
      WindowDistinctMonths(now, targets);
      NonEmptyMonthsInWindow(now, f.result.value);
    }
  }

  /**
   * From a readable catalogue with no month of the window cached, the
   * response lists each window month that has entries, with exactly those
   * entries.
   */
  lemma WindowFromCatalogue(e: Env, ps: Periods, now: UtcDate, targets: seq<Target>, provider: string)
    requires 0 <= now.monthIndex <= 11 && WindowOf(now, targets)
    requires Serves(e.cache, ps) && WindowUncached(e.cache, now, |targets|)
    ensures var f := FetchMonths(e, Success(ps), targets, provider);
            && f.result.Success?
            && forall i :: 0 <= i < |targets| ==>
                 var k := WindowPeriod(now, i);
                 && (k in NonEmptyMonths(f.result.value) <==> |CatalogueEntries(ps, k, provider)| > 0)
                 && (k in NonEmptyMonths(f.result.value) ==> NonEmptyMonths(f.result.value)[k] == CatalogueEntries(ps, k, provider))
  {
    WindowDistinctMonths(now, targets);
    FetchMonthsFromCatalogue(e, ps, targets, provider);
    WindowMonthsExactly(now, FetchMonths(e, Success(ps), targets, provider).result.value, ps, provider);
  }

  datatype MonthsReply = MonthsReply(status: int, months: map<string, seq<ProviderEntry>>)

  /**
   * The month-window route: the window of `p` months back from the current
   * month (`now`), each month read for `provider` ("" for all), and the
   * non-empty months returned; a failing read yields status 500 and keeps
   * the state the reads reached. From a readable catalogue with no month of
   * the window cached, the response lists each window month that has
   * entries, with exactly those entries.
   */
  method MonthlyGames(e: Env, file: Result<Periods, Error>, now: UtcDate, p: MonthsParam, provider: string)
    returns (reply: MonthsReply, e': Env)
    requires 0 <= now.monthIndex <= 11
    ensures reply.status == 200 || reply.status == 500
    ensures reply.status == 200 ==> forall k :: k in reply.months ==> |reply.months[k]| > 0
    ensures reply.status == 200 ==> forall k :: k in reply.months ==>
              exists i :: 0 <= i < WindowSize(p) && WindowPeriod(now, i) == k
    ensures reply.status == 500 ==> reply.months == map[] && Cache.Reads(e'.cache) > Cache.Reads(e.cache)
    ensures reply.status == 500 && !Hit(e.cache, PeriodMapKey) && file.Failure? ==>
              forall k :: Cache.View(e'.cache, k) == Cache.View(e.cache, k)
    ensures e' == e.(cache := e'.cache)
    ensures file.Success? && Serves(e.cache, file.value) && WindowUncached(e.cache, now, WindowSize(p)) ==>
              && reply.status == 200
              && forall i :: 0 <= i < WindowSize(p) ==>
                   var k := WindowPeriod(now, i);
                   && (k in reply.months <==> |CatalogueEntries(file.value, k, provider)| > 0)
                   && (k in reply.months ==> reply.months[k] == CatalogueEntries(file.value, k, provider))
  {
    var (year, month) := CurrentYearMonth(now);
    var targets := MonthsToFetch(year, month, p);
    assert WindowOf(now, targets);
    var fetched := FetchMonths(e, file, targets, provider);
    WindowResponseInWindow(e, file, now, targets, provider);
    if !Hit(e.cache, PeriodMapKey) && file.Failure? {
      FetchMonthsColdFailure(e, file, targets, provider);
    }
    if file.Success? && Serves(e.cache, file.value) && WindowUncached(e.cache, now, WindowSize(p)) {
      WindowFromCatalogue(e, file.value, now, targets, provider);
    }
    e' := fetched.env;
    if fetched.result.Failure? {
      return MonthsReply(500, map[]), e';
    }
    reply := MonthsReply(200, NonEmptyMonths(fetched.result.value));
  }

  // ---------------------------------------------------------------- the refresh route

  /** A year or month query parameter: missing or empty, or given with what `parseInt` makes of it (None for NaN). */
  datatype NumParam = Missing | Given(parsed: Option<int>)

  datatype RefreshReply = RefreshReply(status: int, cleared: seq<string>)

  /**
   * The period the refresh route clears, or None for a 400: a non-empty
   * period parameter must match the pattern; otherwise a given year and
   * month must be numbers with the month in 1..12; otherwise the current
   * month.
   */
  function RefreshPeriod(periodParam: string, year: NumParam, month: NumParam, now: UtcDate): (r: Option<string>)
    requires 0 <= now.monthIndex <= 11
    ensures periodParam != "" ==> (r.Some? <==> IsPeriod(periodParam)) && (r.Some? ==> r.value == periodParam)
    ensures periodParam == "" && year.Given? && month.Given? ==>
              (r.Some? <==> year.parsed.Some? && month.parsed.Some? && 1 <= month.parsed.value <= 12)
              && (r.Some? ==> r.value == PeriodKey(year.parsed.value, month.parsed.value))
    ensures periodParam == "" && !(year.Given? && month.Given?) ==> r == Some(PeriodKey(now.year, now.monthIndex + 1))
  {
    if periodParam != "" then
      if IsPeriod(periodParam) then Some(periodParam) else None
    else if year.Given? && month.Given? then
      if year.parsed.None? || month.parsed.None? || month.parsed.value < 1 || month.parsed.value > 12 then None
      else Some(PeriodKey(year.parsed.value, month.parsed.value))
    else
      var (y, m) := CurrentYearMonth(now);
      Some(PeriodKey(y, m))
  }

  /** `POST` of the refresh route: 400 for a bad period; otherwise both cache entries built from the period are deleted. */
  function RefreshMonthly(e: Env, periodParam: string, year: NumParam, month: NumParam, now: UtcDate): (r: (RefreshReply, Env))
    requires 0 <= now.monthIndex <= 11
    ensures var p := RefreshPeriod(periodParam, year, month, now);
            && (p.None? ==> r == (RefreshReply(400, []), e))
            && (p.Some? ==>
                  && r.0 == RefreshReply(200, [PeriodMapKey, MonthKey(p.value)])
                  && Cache.View(r.1.cache, PeriodMapKey) == None && Cache.View(r.1.cache, MonthKey(p.value)) == None
                  && forall k {:trigger Cache.View(r.1.cache, k)} :: Cache.Apart(k, PeriodMapKey) && Cache.Apart(k, MonthKey(p.value)) ==> Cache.View(r.1.cache, k) == Cache.View(e.cache, k))
  {
    match RefreshPeriod(periodParam, year, month, now)
    case None => (RefreshReply(400, []), e)
    case Some(period) =>
      var cleared := Remove(Remove(e, PeriodMapKey), MonthKey(period));
      (RefreshReply(200, [PeriodMapKey, MonthKey(period)]), cleared)
  }

  /** A period that the refresh route accepts from the year/month path of a month of the year, with a four-digit year, matches the period pattern. */
  lemma RefreshYearMonthMatchesPattern(y: int, m: int, now: UtcDate)
    requires 0 <= now.monthIndex <= 11 && 1 <= m <= 12 && 1000 <= y <= 9999
    ensures RefreshPeriod("", Given(Some(y)), Given(Some(m)), now) == Some(PeriodKey(y, m))
    ensures IsPeriod(PeriodKey(y, m))
  {
    PeriodKeyIsPeriodIff(y, m);
  }

  /**
   * After a refresh of a month, the next read of that month consults the
   * catalogue file again: its result is what the file now says.
   */
  lemma RefreshThenGetMonthReadsFile(e: Env, file: Result<Periods, Error>, y: int, m: int, now: UtcDate)
    requires 0 <= now.monthIndex <= 11 && 1 <= m <= 12
    ensures var after := RefreshMonthly(e, "", Given(Some(y)), Given(Some(m)), now).1;
            var r := GetMonth(after, file, y, m);
            var p := PeriodKey(y, m);
            && (file.Failure? ==> r.result == Failure(file.error))
            && (file.Success? && p !in file.value ==> r.result == Success(Null))
            && (file.Success? && p in file.value ==> r.result == Success(Month(MonthRecord(y, m, p, file.value[p]))))
  {
    var after := RefreshMonthly(e, "", Given(Some(y)), Given(Some(m)), now).1;
    GetMonthFromMap(after, file, y, m);
  }
}
