/** The home dashboard's derived lists (app/components/Dashboard/): the award
    showcase tiles, the carousels, the region tabs and the headline stats. */

/** The award showcase (AwardShowcase.tsx): restaurant counts per configured
    kind, the kinds with at least one holder, and the placeholder tiles. */
module AwardShowcase {
  import opened Optional
  import opened Seqs
  import opened Types
  import Awards
  import AwardsPage

  /** `restaurants.filter(r => r.awards?.some(a => a.type === t)).length`. */
  function KindCount(rs: seq<Restaurant>, t: AwardType): (n: nat)
    ensures n <= |rs|
    ensures n > 0 <==> exists i :: 0 <= i < |rs| && HasAwardType(rs[i], t)
  {
    var n := AwardsPage.AwardCount(rs, t, None);
    HoldsIsHas(rs, t);
    n
  }

  /** With no year, holding a matching award is holding an award of the kind. */
  lemma HoldsIsHas(rs: seq<Restaurant>, t: AwardType)
    ensures forall i :: 0 <= i < |rs| ==> (AwardsPage.HoldsMatching(rs[i], t, None) <==> HasAwardType(rs[i], t))
  {
  }

  function Shown(rs: seq<Restaurant>): AwardType -> bool {
    t => KindCount(rs, t) > 0
  }

  /** `Object.keys(awardCounts)`: the kinds some restaurant holds, in
      ALL_AWARD_TYPES order (the order the reduce inserts them). */
  function ShownKinds(rs: seq<Restaurant>): (ks: seq<AwardType>)
    ensures Subsequence(ks, Awards.AllAwardTypes)
    ensures NoDup(ks)
    ensures forall t :: t in ks <==> t in Awards.AllAwardTypes && exists i :: 0 <= i < |rs| && HasAwardType(rs[i], t)
  {
    Awards.AllAwardTypesAreConfigKeys();
    FilterNoDup(Awards.AllAwardTypes, Shown(rs));
    Filter(Awards.AllAwardTypes, Shown(rs))
  }

  /** `awardCounts`: a key for each kind some restaurant holds, carrying the
      number of its holders, never 0. */
  function ShowcaseCounts(rs: seq<Restaurant>): (m: map<AwardType, nat>)
    ensures forall t :: t in m <==> t in Awards.AllAwardTypes && exists i :: 0 <= i < |rs| && HasAwardType(rs[i], t)
    ensures forall t :: t in m ==> m[t] == KindCount(rs, t) && 1 <= m[t] <= |rs|
  {
    map t | t in ShownKinds(rs) :: KindCount(rs, t)
  }

  datatype ShowcaseView =
    | Placeholder(kinds: seq<AwardType>)
    | Tiles(kinds: seq<AwardType>, counts: map<AwardType, nat>)

  /** The rendered grid: the first five kinds as placeholders when nobody
      holds a configured kind, otherwise at most ten counted tiles. */
  function Showcase(rs: seq<Restaurant>): (v: ShowcaseView)
    ensures v.Placeholder? <==> forall t, i :: t in Awards.AllAwardTypes && 0 <= i < |rs| ==> !HasAwardType(rs[i], t)
    ensures v.Placeholder? ==> v.kinds == [HighestClimber, HighestNewEntry, OneToWatch, Sustainable, BestFemaleChef]
    ensures v.Tiles? ==> 1 <= |v.kinds| <= 10 && v.kinds <= ShownKinds(rs)
    ensures v.Tiles? ==> forall k :: 0 <= k < |v.kinds| ==> v.kinds[k] in v.counts && v.counts[v.kinds[k]] >= 1
  {
    var ks := ShownKinds(rs);
    NoneShownIffNoneHeld(rs);
    if |ks| == 0 then
      Placeholder(Take(Awards.AllAwardTypes, 5))
    else
      var shown := Take(ks, 10);
      TilesCounted(rs, shown);
      Tiles(shown, ShowcaseCounts(rs))
  }

  lemma NoneShownIffNoneHeld(rs: seq<Restaurant>)
    ensures |ShownKinds(rs)| == 0 <==>
      forall t, i :: t in Awards.AllAwardTypes && 0 <= i < |rs| ==> !HasAwardType(rs[i], t)
  {
    var ks := ShownKinds(rs);
    if |ks| > 0 {
      assert ks[0] in ks;
    }
  }

  lemma TilesCounted(rs: seq<Restaurant>, shown: seq<AwardType>)
    requires shown <= ShownKinds(rs)
    ensures forall k :: 0 <= k < |shown| ==> shown[k] in ShowcaseCounts(rs) && ShowcaseCounts(rs)[shown[k]] >= 1
  {
    forall k | 0 <= k < |shown|
      ensures shown[k] in ShowcaseCounts(rs) && ShowcaseCounts(rs)[shown[k]] >= 1
    {
      assert shown[k] == ShownKinds(rs)[k];
    }
  }

  /** There are only ten kinds, so the ten-tile cap never hides one. */
  lemma ShowcaseShowsEveryHeldKind(rs: seq<Restaurant>)
    requires Showcase(rs).Tiles?
    ensures Showcase(rs).kinds == ShownKinds(rs)
  {
    assert |ShownKinds(rs)| <= |Awards.AllAwardTypes|;
  }
}

/** The dashboard carousels (TrendingCarousel.tsx `CategoryCarousels`). */
module TrendingCarousel {
  import opened Seqs
  import opened Types

  const CarouselSize: nat := 10

  /** `restaurants.slice(0, 10)`. */
  function Trending(rs: seq<Restaurant>): (t: seq<Restaurant>)
    ensures |t| == Min(CarouselSize, |rs|)
    ensures forall i :: 0 <= i < |t| ==> t[i] == rs[i]
  {
    Take(rs, CarouselSize)
  }

  function Holder(t: AwardType): Restaurant -> bool {
    r => HasAwardType(r, t)
  }

  /** The first ten holders of kind `t`, in input order. */
  function FirstHolders(rs: seq<Restaurant>, t: AwardType): (hs: seq<Restaurant>)
    ensures |hs| <= CarouselSize
    ensures Subsequence(hs, rs)
    ensures forall i :: 0 <= i < |hs| ==> HasAwardType(hs[i], t)
    ensures hs <= Filter(rs, Holder(t))
    ensures |hs| == Min(CarouselSize, |Filter(rs, Holder(t))|)
  {
    var all := Filter(rs, Holder(t));
    var hs := Take(all, CarouselSize);
    PrefixSubsequence(hs, all);
    SubsequenceTrans(hs, all, rs);
    hs
  }

  /** `climbers`. */
  function Climbers(rs: seq<Restaurant>): seq<Restaurant> {
    FirstHolders(rs, HighestClimber)
  }

  /** `newEntries`. */
  function NewEntries(rs: seq<Restaurant>): seq<Restaurant> {
    FirstHolders(rs, HighestNewEntry)
  }

  /** With at most ten holders, every holder is shown. */
  lemma FewHoldersAllShown(rs: seq<Restaurant>, t: AwardType, r: Restaurant)
    requires |Filter(rs, Holder(t))| <= CarouselSize
    requires r in rs && HasAwardType(r, t)
    ensures r in FirstHolders(rs, t)
  {
  }

  datatype CarouselKind = TrendingRow | ClimbersRow | NewEntriesRow

  datatype Carousel = Carousel(kind: CarouselKind, items: seq<Restaurant>)

  /** A row, or nothing when it has no items. */
  function Row(kind: CarouselKind, items: seq<Restaurant>): (r: seq<Carousel>)
    ensures |r| <= 1
    ensures Carousel(kind, items) in r <==> |items| > 0
    ensures forall c :: c in r ==> c == Carousel(kind, items)
  {
    if |items| > 0 then [Carousel(kind, items)] else []
  }

  /** The rendered carousels: a carousel with no restaurants renders
      nothing, so each row appears exactly when it has items. */
  function CategoryCarousels(rs: seq<Restaurant>): (cs: seq<Carousel>)
    ensures |cs| <= 3
    ensures forall c :: c in cs ==> 1 <= |c.items| <= CarouselSize
    ensures forall c :: c in cs ==>
              || c == Carousel(TrendingRow, Trending(rs))
              || c == Carousel(ClimbersRow, Climbers(rs))
              || c == Carousel(NewEntriesRow, NewEntries(rs))
    ensures Carousel(TrendingRow, Trending(rs)) in cs <==> |rs| > 0
    ensures Carousel(ClimbersRow, Climbers(rs)) in cs <==>
              exists j :: 0 <= j < |rs| && HasAwardType(rs[j], HighestClimber)
    ensures Carousel(NewEntriesRow, NewEntries(rs)) in cs <==>
              exists j :: 0 <= j < |rs| && HasAwardType(rs[j], HighestNewEntry)
  {
    var trending, climbers, newEntries := Trending(rs), Climbers(rs), NewEntries(rs);
    HolderExists(rs, HighestClimber);
    HolderExists(rs, HighestNewEntry);
    RowsJoined(trending, climbers, newEntries);
    Row(TrendingRow, trending) + Row(ClimbersRow, climbers) + Row(NewEntriesRow, newEntries)
  }

  /** The three rows side by side: each carousel is present exactly when
      its own row has items. */
  lemma RowsJoined(a: seq<Restaurant>, b: seq<Restaurant>, c: seq<Restaurant>)
    ensures var cs := Row(TrendingRow, a) + Row(ClimbersRow, b) + Row(NewEntriesRow, c);
      && |cs| <= 3
      && (forall x :: x in cs ==>
            x == Carousel(TrendingRow, a) || x == Carousel(ClimbersRow, b) || x == Carousel(NewEntriesRow, c))
      && (forall x :: x in cs ==> |x.items| >= 1)
      && (Carousel(TrendingRow, a) in cs <==> |a| > 0)
      && (Carousel(ClimbersRow, b) in cs <==> |b| > 0)
      && (Carousel(NewEntriesRow, c) in cs <==> |c| > 0)
  {
    var ra, rb, rc := Row(TrendingRow, a), Row(ClimbersRow, b), Row(NewEntriesRow, c);
    assert forall x :: x in ra + rb + rc <==> x in ra || x in rb || x in rc;
  }

  lemma HolderExists(rs: seq<Restaurant>, t: AwardType)
    ensures |FirstHolders(rs, t)| > 0 <==> exists j :: 0 <= j < |rs| && HasAwardType(rs[j], t)
  {
    var all := Filter(rs, Holder(t));
    if |all| > 0 {
      assert all[0] in rs && HasAwardType(all[0], t);
    }
  }
}

/** The region tabs (RegionTabs.tsx). */
module RegionTabs {
  import opened Optional
  import opened Seqs
  import opened Types

  datatype RegionTab = AllRegions | OneRegion(region: Region)

  const TabSize: nat := 6

  function InRegion(g: Region): Restaurant -> bool {
    (r: Restaurant) => r.region == Some(g)
  }

  /** `filteredRestaurants`: everything under "All", otherwise the
      restaurants of that region, in order. */
  function RegionFilter(rs: seq<Restaurant>, tab: RegionTab): (out: seq<Restaurant>)
    ensures tab == AllRegions ==> out == rs
    ensures Subsequence(out, rs)
    ensures tab.OneRegion? ==> forall r :: r in out <==> r in rs && r.region == Some(tab.region)
  {
    SubsequenceRefl(rs);
    if tab == AllRegions then rs else Filter(rs, InRegion(tab.region))
  }

  /** A restaurant without a region is listed under "All" only. */
  lemma RegionlessOnlyUnderAll(rs: seq<Restaurant>, r: Restaurant, tab: RegionTab)
    requires r in rs && r.region.None?
    ensures r in RegionFilter(rs, tab) <==> tab == AllRegions
  {
  }

  /** The region tabs partition the restaurants with a region. */
  lemma RegionTabsPartition(rs: seq<Restaurant>, r: Restaurant, g: Region, h: Region)
    requires r in RegionFilter(rs, OneRegion(g)) && r in RegionFilter(rs, OneRegion(h))
    ensures g == h
  {
  }

  datatype TabView = TabView(shown: seq<Restaurant>, viewAll: bool, total: nat)

  /** The first six matches, and a "View all N" link exactly when more match. */
  function RegionView(rs: seq<Restaurant>, tab: RegionTab): (v: TabView)
    ensures v.total == |RegionFilter(rs, tab)|
    ensures v.shown <= RegionFilter(rs, tab) && |v.shown| == Min(TabSize, v.total)
    ensures v.viewAll <==> v.total > TabSize
    ensures !v.viewAll ==> v.shown == RegionFilter(rs, tab)
  {
    var f := RegionFilter(rs, tab);
    TabView(Take(f, TabSize), |f| > TabSize, |f|)
  }
}

/** The headline stats (HeroStats.tsx). */
module HeroStats {
  import opened Optional
  import opened Seqs
  import opened Types

  function Countries(rs: seq<Restaurant>): (cs: seq<string>)
    ensures |cs| == |rs| && forall i :: 0 <= i < |rs| ==> cs[i] == rs[i].country
  {
    seq(|rs|, i requires 0 <= i < |rs| => rs[i].country)
  }

  function Cuisines(rs: seq<Restaurant>): (cs: seq<string>)
    ensures |cs| == |rs| && forall i :: 0 <= i < |rs| ==> cs[i] == rs[i].cuisine
  {
    seq(|rs|, i requires 0 <= i < |rs| => rs[i].cuisine)
  }

  /** `restaurants.map(r => r.region).filter(Boolean)`. */
  function DefinedRegions(rs: seq<Restaurant>): (gs: seq<Region>)
    ensures forall g :: g in gs <==> exists i :: 0 <= i < |rs| && rs[i].region == Some(g)
  {
    if |rs| == 0 then []
    else
      var rest := DefinedRegions(rs[1..]);
      assert forall g :: (exists i :: 0 <= i < |rs[1..]| && rs[1..][i].region == Some(g))
                         <==> (exists i :: 1 <= i < |rs| && rs[i].region == Some(g));
      match rs[0].region
      case Some(g) => [g] + rest
      case None => rest
  }

  /** The regions some restaurant is in. */
  ghost function RegionsOf(rs: seq<Restaurant>): set<Region> {
    set g: Region | exists i :: 0 <= i < |rs| && rs[i].region == Some(g)
  }

  /** `new Set(regions).size || 5`: the distinct defined regions, or 5 when
      no restaurant has one. */
  function UniqueRegions(rs: seq<Restaurant>): (n: nat)
    ensures 1 <= n <= 5
    ensures (forall i :: 0 <= i < |rs| ==> rs[i].region.None?) ==> n == 5
    ensures (exists i :: 0 <= i < |rs| && rs[i].region.Some?) ==>
              n == |RegionsOf(rs)|
  {
    var gs := DefinedRegions(rs);
    var d := DistinctCount(gs);
    AtMostFiveRegions(set g | g in gs);
    assert (set g | g in gs) == RegionsOf(rs);
    if |gs| > 0 then
      assert gs[0] in gs;
      d
    else
      assert forall i :: 0 <= i < |rs| ==> rs[i].region.None?;
      5
  }

  /** There are five regions, so no set of them is larger. */
  lemma AtMostFiveRegions(s: set<Region>)
    ensures |s| <= 5
  {
    var all := {Global, Asia, Latam, Mena, NorthAmerica};
    forall g | g in s ensures g in all {
      match g
      case Global =>
      case Asia =>
      case Latam =>
      case Mena =>
      case NorthAmerica =>
    }
    SubsetCard(s, all);
  }

  lemma SubsetCard<T>(a: set<T>, b: set<T>)
    requires a <= b
    ensures |a| <= |b|
    decreases |b|
  {
    if a != {} {
      var x :| x in a;
      SubsetCard(a - {x}, b - {x});
    }
  }

  /** `restaurants.reduce((acc, r) => acc + (r.awards?.length || 0), 0)`. */
  function AwardEntries(rs: seq<Restaurant>): (n: nat)
    ensures n == 0 <==> forall i :: 0 <= i < |rs| ==> |AwardsOf(rs[i])| == 0
    ensures forall i :: 0 <= i < |rs| ==> |AwardsOf(rs[i])| <= n
    ensures |rs| == 1 ==> n == |AwardsOf(rs[0])|
  {
    if |rs| == 0 then 0
    else
      var rest := AwardEntries(rs[1..]);
      assert forall i :: 1 <= i < |rs| ==> rs[i] == rs[1..][i - 1];
      |AwardsOf(rs[0])| + rest
  }

  /** One more restaurant adds the length of its award list, none when the
      list is missing. */
  lemma AwardEntriesSnoc(rs: seq<Restaurant>, r: Restaurant)
    ensures AwardEntries(rs + [r]) == AwardEntries(rs) + |AwardsOf(r)|
    ensures r.awards.None? ==> AwardEntries(rs + [r]) == AwardEntries(rs)
  {
    AwardEntriesAppend(rs, [r]);
    assert [r][1..] == [];
  }

  /** The count adds up over concatenation. */
  lemma {:induction false} AwardEntriesAppend(a: seq<Restaurant>, b: seq<Restaurant>)
    ensures AwardEntries(a + b) == AwardEntries(a) + AwardEntries(b)
  {
    if |a| == 0 {
      assert a + b == b;
    } else {
      assert (a + b)[1..] == a[1..] + b;
      AwardEntriesAppend(a[1..], b);
    }
  }

  datatype StatValue = Number(n: nat) | Text(text: string)

  datatype Stats = Stats(restaurants: nat, regions: nat, awardTypes: StatValue, countries: nat, cuisines: nat)

  /** The five stat cards. The card labelled "Award Types" shows the number
      of award entries, and "10+" when there are none. */
  function HeroStats(rs: seq<Restaurant>): (s: Stats)
    ensures s.restaurants == |rs|
    ensures s.countries == |set c | c in Countries(rs)| && s.countries <= |rs|
    ensures s.cuisines == |set c | c in Cuisines(rs)| && s.cuisines <= |rs|
    ensures |rs| > 0 ==> s.countries >= 1 && s.cuisines >= 1
    ensures s.regions == UniqueRegions(rs)
    ensures s.awardTypes == (if AwardEntries(rs) == 0 then Text("10+") else Number(AwardEntries(rs)))
  {
    var awards := AwardEntries(rs);
    Stats(|rs|, UniqueRegions(rs), if awards == 0 then Text("10+") else Number(awards),
          DistinctCount(Countries(rs)), DistinctCount(Cuisines(rs)))
  }
}
