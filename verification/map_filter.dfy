/** The map page's filter chain (app/map/page.tsx): a restaurant is kept when
    it passes the search, list, cuisine, country, ranking-tier and distance
    stages. The great-circle distance is the parameter `dist`. */
module MapFilter {
  import opened Optional
  import opened Seqs
  import opened Types
  import Store

  /** `toLowerCase` on one character; only A-Z are mapped. */
  function LowerChar(c: char): char {
    if 'A' <= c <= 'Z' then (c as int + 32) as char else c
  }

  function Lower(s: string): (r: string)
    ensures |r| == |s|
    ensures forall i :: 0 <= i < |s| ==> r[i] == LowerChar(s[i])
  {
    if |s| == 0 then "" else [LowerChar(s[0])] + Lower(s[1..])
  }

  /** `needle` occurs in `hay` at position `i`. */
  ghost predicate OccursAt(hay: string, needle: string, i: int) {
    0 <= i && i + |needle| <= |hay| && hay[i..i + |needle|] == needle
  }

  /** `hay.includes(needle)`, scanning start positions left to right. */
  function Includes(hay: string, needle: string): (b: bool)
    ensures b <==> exists i :: OccursAt(hay, needle, i)
    decreases |hay|
  {
    if |needle| > |hay| then
      assert forall i :: !OccursAt(hay, needle, i);
      false
    else if hay[..|needle|] == needle then
      assert OccursAt(hay, needle, 0);
      true
    else
      var b := Includes(hay[1..], needle);
      IncludesShift(hay, needle);
      b
  }

  /** Occurrences in `hay[1..]` are the occurrences in `hay` past position 0. */
  lemma IncludesShift(hay: string, needle: string)
    requires |hay| > 0 && !OccursAt(hay, needle, 0)
    ensures (exists i :: OccursAt(hay[1..], needle, i)) <==> (exists i :: OccursAt(hay, needle, i))
  {
    if exists i :: OccursAt(hay[1..], needle, i) {
      var i :| OccursAt(hay[1..], needle, i);
      assert hay[1..][i..i + |needle|] == hay[i + 1..i + 1 + |needle|];
      assert OccursAt(hay, needle, i + 1);
    }
    if exists i :: OccursAt(hay, needle, i) {
      var i :| OccursAt(hay, needle, i);
      assert i != 0;
      assert hay[1..][i - 1..i - 1 + |needle|] == hay[i..i + |needle|];
      assert OccursAt(hay[1..], needle, i - 1);
    }
  }

  /** Search stage: an empty query passes; otherwise the lower-cased query
      must occur in the lower-cased name, city, country or cuisine. */
  predicate MatchesSearch(r: Restaurant, search: string) {
    search == "" ||
      var q := Lower(search);
      Includes(Lower(r.name), q) || Includes(Lower(r.city), q)
        || Includes(Lower(r.country), q) || Includes(Lower(r.cuisine), q)
  }

  /** A field matches a query when the lower-cased query occurs in the
      lower-cased field. */
  ghost predicate FieldMatches(field: string, search: string) {
    exists i :: OccursAt(Lower(field), Lower(search), i)
  }

  /** A non-empty query matches exactly when it occurs, ignoring ASCII case,
      in the name, the city, the country or the cuisine. */
  lemma SearchIsCaseInsensitiveSubstring(r: Restaurant, search: string)
    requires search != ""
    ensures MatchesSearch(r, search) <==>
      FieldMatches(r.name, search) || FieldMatches(r.city, search)
      || FieldMatches(r.country, search) || FieldMatches(r.cuisine, search)
  {
  }

  /** Queries differing only in ASCII case select the same restaurants. */
  lemma SearchIgnoresQueryCase(r: Restaurant, q1: string, q2: string)
    requires Lower(q1) == Lower(q2)
    ensures MatchesSearch(r, q1) == MatchesSearch(r, q2)
  {
    assert |q1| == |Lower(q1)|;
  }

  /** List stage; a restaurant on both lists passes whatever is selected. */
  predicate PassesList(r: Restaurant, lists: seq<ListKind>) {
    |lists| == 0 || r.list == BothLists || r.list in lists
  }

  predicate PassesCuisine(r: Restaurant, cuisines: seq<string>) {
    |cuisines| == 0 || r.cuisine in cuisines
  }

  predicate PassesCountry(r: Restaurant, countries: seq<string>) {
    |countries| == 0 || r.country in countries
  }

  /** `tierLimits[tier]`. */
  function TierLimit(t: RankingTier): Option<int> {
    match t
    case AllTiers => None
    case Top10 => Some(10)
    case Top25 => Some(25)
    case Top50 => Some(50)
    case Top100 => Some(100)
  }

  predicate PassesTier(r: Restaurant, t: RankingTier) {
    TierLimit(t).None? || r.rank <= TierLimit(t).value
  }

  /** Distance stage: active only with both a maximum and a user location;
      a maximum of 0 is active. */
  predicate PassesDistance(r: Restaurant, maxDistance: Option<real>, user: Option<Coordinates>,
                           dist: (Coordinates, Coordinates) -> real) {
    maxDistance.None? || user.None? || !(dist(user.value, r.coordinates) > maxDistance.value)
  }

  predicate Passes(r: Restaurant, f: FilterState, user: Option<Coordinates>,
                   dist: (Coordinates, Coordinates) -> real) {
    && MatchesSearch(r, f.search)
    && PassesList(r, f.lists)
    && PassesCuisine(r, f.cuisines)
    && PassesCountry(r, f.countries)
    && PassesTier(r, f.rankingTier)
    && PassesDistance(r, f.maxDistance, user, dist)
  }

  /** The filter callback, as one value so that every use names the same function. */
  function Keep(f: FilterState, user: Option<Coordinates>,
                dist: (Coordinates, Coordinates) -> real): Restaurant -> bool {
    r => Passes(r, f, user, dist)
  }

  /** `filteredRestaurants`: the restaurants passing every stage, in their
      original order, none duplicated or invented. */
  function FilterRestaurants(rs: seq<Restaurant>, f: FilterState, user: Option<Coordinates>,
                             dist: (Coordinates, Coordinates) -> real): (out: seq<Restaurant>)
    ensures Subsequence(out, rs)
    ensures multiset(out) <= multiset(rs)
    ensures forall r :: r in out <==> r in rs && Passes(r, f, user, dist)
  {
    var out := Filter(rs, Keep(f, user, dist));
    SubsequenceMultiset(out, rs);
    out
  }

  /** With an empty search, no list, cuisine or country selected, tier `all`
      and no maximum distance, every restaurant is kept, in order. */
  lemma AllPassSettingsKeepEverything(rs: seq<Restaurant>, f: FilterState, user: Option<Coordinates>,
                                      dist: (Coordinates, Coordinates) -> real)
    requires f.search == "" && f.lists == [] && f.cuisines == [] && f.countries == []
    requires f.rankingTier == AllTiers && f.maxDistance.None?
    ensures FilterRestaurants(rs, f, user, dist) == rs
  {
    FilterAll(rs, Keep(f, user, dist));
  }

  /** The store's default filters are all-pass. */
  lemma DefaultFiltersKeepEverything(rs: seq<Restaurant>, user: Option<Coordinates>,
                                     dist: (Coordinates, Coordinates) -> real)
    ensures FilterRestaurants(rs, Store.DefaultFilters, user, dist) == rs
  {
    AllPassSettingsKeepEverything(rs, Store.DefaultFilters, user, dist);
  }

  /** A restaurant on both lists survives any list selection as long as it
      passes the other stages. */
  lemma BothListsAlwaysPassList(rs: seq<Restaurant>, f: FilterState, user: Option<Coordinates>,
                                dist: (Coordinates, Coordinates) -> real, r: Restaurant)
    requires r in rs && r.list == BothLists
    requires Passes(r, f.(lists := []), user, dist)
    ensures r in FilterRestaurants(rs, f, user, dist)
  {
  }

  /** Narrowing the tier (Top-N with a smaller N, or any Top-N instead of
      all) keeps a subsequence of what the wider tier keeps. */
  lemma NarrowerTierKeepsSubset(rs: seq<Restaurant>, f: FilterState, narrow: RankingTier, wide: RankingTier,
                                user: Option<Coordinates>, dist: (Coordinates, Coordinates) -> real)
    requires TierLimit(wide).None? || (TierLimit(narrow).Some? && TierLimit(narrow).value <= TierLimit(wide).value)
    ensures Subsequence(FilterRestaurants(rs, f.(rankingTier := narrow), user, dist),
                        FilterRestaurants(rs, f.(rankingTier := wide), user, dist))
  {
    FilterMonotone(rs, Keep(f.(rankingTier := narrow), user, dist), Keep(f.(rankingTier := wide), user, dist));
  }

  /** Tier Top-N rejects exactly the restaurants ranked below N. */
  lemma TierRejectsExactlyBelowLimit(r: Restaurant, t: RankingTier)
    requires t != AllTiers
    ensures !PassesTier(r, t) <==> r.rank > TierLimit(t).value
    ensures TierLimit(t).value in {10, 25, 50, 100}
  {
  }

  /** Without a user location the distance setting has no effect. */
  lemma NoLocationIgnoresDistance(rs: seq<Restaurant>, f: FilterState, m: Option<real>,
                                  dist: (Coordinates, Coordinates) -> real)
    ensures FilterRestaurants(rs, f.(maxDistance := m), None, dist) ==
            FilterRestaurants(rs, f.(maxDistance := None), None, dist)
  {
    FilterSamePredicate(rs, Keep(f.(maxDistance := m), None, dist), Keep(f.(maxDistance := None), None, dist));
  }

  /** A maximum distance of 0 with a known location keeps only restaurants
      at distance 0 or less. */
  lemma ZeroMaxDistanceIsActive(r: Restaurant, user: Coordinates, dist: (Coordinates, Coordinates) -> real)
    ensures PassesDistance(r, Some(0.0), Some(user), dist) <==> dist(user, r.coordinates) <= 0.0
  {
  }

  /** The worked example: R1 (rank 5, World's 50 Best), R2 (rank 5,
      La Liste) and R3 (rank 3, both lists) filtered by World's 50 Best and
      Top 10 leave R1 and R3. */
  lemma ListAndTierScenario(base: Restaurant, user: Option<Coordinates>, dist: (Coordinates, Coordinates) -> real)
    ensures var r1 := base.(rank := 5, list := Worlds50Best);
      var r2 := base.(rank := 5, list := LaListe);
      var r3 := base.(rank := 3, list := BothLists);
      var f := Store.DefaultFilters.(lists := [Worlds50Best], rankingTier := Top10);
      FilterRestaurants([r1, r2, r3], f, user, dist) == [r1, r3]
  {
    var r1 := base.(rank := 5, list := Worlds50Best);
    var r2 := base.(rank := 5, list := LaListe);
    var r3 := base.(rank := 3, list := BothLists);
    var f := Store.DefaultFilters.(lists := [Worlds50Best], rankingTier := Top10);
    var p := Keep(f, user, dist);
    assert p(r1) && !p(r2) && p(r3);
    assert [r3][1..] == [];
    assert Filter([r3], p) == [r3];
    assert [r2, r3][1..] == [r3];
    assert Filter([r2, r3], p) == [r3];
    assert [r1, r2, r3][1..] == [r2, r3];
  }
}
