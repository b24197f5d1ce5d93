# Restaurant map dashboard — a Dafny model of its list logic

The restaurant map is a Next.js dashboard over a static data set of ranked
restaurants (the World's 50 Best and La Liste lists). It has no backend. The
logic worth modelling is the sequential list processing spread across the
store and the components. This project models it functionally: immutable
records and `seq`s, store actions as pure `(state, args) -> state`
transitions, and filters, sorts and counts as pure functions.

- The zustand store's compare list, collections and filter actions:
  `store.dfy`, module `Store`.
- The map's filter engine: `map_filter.dfy`, module `MapFilter`.
- The filter panel's toggles and distance slider: `filter_panel.dfy`,
  module `FilterPanel`.
- The award configuration, priority table and priority sort:
  `awards.dfy`, module `Awards`.
- Badge de-duplication and latest-award-per-type: `award_badges.dfy`,
  module `AwardBadges`.
- The awards page's years, winners and counts: `awards_page.dfy`, module
  `AwardsPage`.
- The dashboard widgets: `dashboard.dfy`, modules `AwardShowcase`,
  `TrendingCarousel`, `RegionTabs` and `HeroStats`.
- The analytics page's counts and top-N charts: `analytics.dfy`, module
  `Analytics`.
- The sidebar's sorted list: `restaurant_list.dfy`, module
  `RestaurantList`.
- The rank-change badge and the timeline chart data: `ranking.dfy`,
  modules `AwardsTab` and `RankingTimeline`.
- The bottom sheet's snap states and the image gallery's wrap-around
  index: `ui_widgets.dfy`, modules `BottomSheet` and `ImageGallery`.

Shared modules:

- `Optional` and `Seqs` (`seqs.dfy`) hold the option type and the sequence
  toolkit: `Filter`, `Take`, `Dedup`, subsequences and distinct counts.
- `StableSort` (`stable_sort.dfy`) is a stable insertion sort on a key
  `Finite(real) | Infinite`. It stands for JavaScript's
  `Array.prototype.sort`, which is stable. The sort is proved to return an
  ordered permutation that keeps the input order within each key.
- `Types` (`types.dfy`) holds the records of `app/types/restaurant.ts`.

JavaScript truthiness is written out wherever the code relies on it:

- a selected year of 0 counts as no year;
- a peak rank of 0 falls back to the current rank;
- a chart rank of 0 has no display height;
- an empty hero image URL means no hero;
- a stored maximum distance of 0 is shown as "Any" and puts the slider at
  its far end, yet it still filters;
- a list distance of exactly 0 sorts as infinitely far.

The great-circle distance is a parameter `dist: (Coordinates, Coordinates) -> real`.
Timestamps (`new Date().toISOString()`) are a `now: string` parameter.

## Model

| member | source | states |
|---|---|---|
| Types.FromTag | app/types/restaurant.ts:2-12 | the award type read from a URL tag carries exactly that tag: one of the ten kebab-case names, or an unknown type holding the text |
| Types.TagRoundTrip | app/types/restaurant.ts:2-12 | writing a well-formed type as its tag and reading it back gives the same type; every parsed tag is well formed |
| Store.SetSelectedRestaurant | app/store/useStore.ts:76 | the selection is stored and the detail panel is open exactly when a restaurant is given; nothing else changes |
| Store.SetFilters | app/store/useStore.ts:80 | each field present in the patch is overwritten, each absent field keeps its value, the rest of the state is unchanged |
| Store.SetFiltersIdempotent | app/store/useStore.ts:80 | applying the same patch twice equals applying it once; the empty patch changes nothing |
| Store.ResetFilters | app/store/useStore.ts:60-81 | the filters become the defaults: empty search and lists, tier `all`, no maximum distance; nothing else changes |
| Store.AddToCompare | app/store/useStore.ts:99-103 | a no-op at three entries or when the id is present, otherwise the id is appended at the end; afterwards the id is present iff it was or there was room |
| Store.RemoveFromCompare | app/store/useStore.ts:104-106 | every occurrence of the id is gone; every other id keeps its count and the rest keeps its order |
| Store.ClearCompare | app/store/useStore.ts:107 | the compare list becomes empty and nothing else changes |
| Store.CompareActionKeepsValid | app/store/useStore.ts:99-107 | each compare action keeps the list duplicate-free with at most three ids |
| Store.CompareListStaysValid | app/store/useStore.ts:99-107 | any sequence of compare actions from a valid list ends in a valid list |
| Store.FourthCompareRejected | app/store/useStore.ts:100 | adding to a full list of three leaves the state unchanged |
| Store.RemoveItem | app/store/useStore.ts:117-119 | removal drops exactly the entries with that restaurant id; every other entry keeps its count and its order |
| Store.RemoveItemKeepsKeyed | app/store/useStore.ts:117-119 | removal keeps a collection keyed by restaurant id |
| Store.AppendKeepsKeyed | app/store/useStore.ts:111-115 | appending an entry for an absent id keeps a collection keyed by restaurant id |
| Store.AddFavorite | app/store/useStore.ts:111-116 | a present id leaves the state unchanged; a new id is appended with the timestamp; the id is present afterwards and ids stay unique |
| Store.RemoveFavorite | app/store/useStore.ts:117-119 | the favourites lose exactly the entries with that id, the others keep their count and order; nothing else changes |
| Store.AddFavoriteIdempotent | app/store/useStore.ts:111-116 | adding the same favourite twice equals adding it once, whatever the second timestamp |
| Store.AddToWishlist | app/store/useStore.ts:150-155 | a present id leaves the state unchanged; a new id is appended with the given priority, `medium` when none is given; ids stay unique |
| Store.RemoveFromWishlist | app/store/useStore.ts:156-158 | the wishlist loses exactly the entries with that id, the others keep their count and order; nothing else changes |
| Store.AddToWishlistIdempotent | app/store/useStore.ts:150-155 | adding the same id twice equals adding it once, whatever the second priority and timestamp |
| Store.UpdateVisits | app/store/useStore.ts:126-132 | entries with the id get the new notes, rating and visit time, even absent ones, and keep their id, added time and priority; other entries and the length are unchanged |
| Store.MarkVisited | app/store/useStore.ts:123-143 | a visited id is updated in place; a new id gets exactly one appended entry; the id is present afterwards and ids stay unique |
| Store.MarkVisitedTwice | app/store/useStore.ts:123-143 | marking a not-yet-visited restaurant twice appends one entry, with the first added time and the second notes, rating and visit time, after the existing ones |
| Store.UnmarkVisited | app/store/useStore.ts:144-146 | the visited list loses exactly the entries with that id, the others keep their count and order; nothing else changes |
| MapFilter.Lower | app/map/page.tsx:27 | lower-casing keeps the length and maps each character on its own |
| MapFilter.Includes | app/map/page.tsx:29-32 | `includes` holds exactly when the needle occurs at some position of the text |
| MapFilter.SearchIsCaseInsensitiveSubstring | app/map/page.tsx:26-34 | a non-empty search matches iff its lower-case form occurs in the lower-cased name, city, country or cuisine |
| MapFilter.SearchIgnoresQueryCase | app/map/page.tsx:27 | two queries with the same lower-case form match the same restaurants |
| MapFilter.FilterRestaurants | app/map/page.tsx:23-85 | the result is an order-preserving subsequence of the input with no new copies; a restaurant is in it iff it is in the input and passes every stage |
| MapFilter.AllPassSettingsKeepEverything | app/map/page.tsx:23-85 | empty search, lists, cuisines and countries, tier `all` and no maximum distance keep every restaurant in order |
| MapFilter.DefaultFiltersKeepEverything | app/store/useStore.ts:60-67 | the store's default filters keep every restaurant |
| MapFilter.BothListsAlwaysPassList | app/map/page.tsx:37-43 | a restaurant on both lists passes whatever lists are selected, if it passes the other stages |
| MapFilter.NarrowerTierKeepsSubset | app/map/page.tsx:55-65 | a narrower rank tier yields a subsequence of a wider tier's result |
| MapFilter.TierRejectsExactlyBelowLimit | app/map/page.tsx:56-64 | tier `top-N` rejects exactly the restaurants ranked below N, with N one of 10, 25, 50, 100 |
| MapFilter.NoLocationIgnoresDistance | app/map/page.tsx:68 | without a user location the maximum distance has no effect |
| MapFilter.ZeroMaxDistanceIsActive | app/map/page.tsx:68-80 | a maximum distance of 0 is active and keeps only restaurants at distance 0 or less |
| MapFilter.ListAndTierScenario | app/map/page.tsx:36-65 | with list `worlds-50-best` and tier `top-10`, a La Liste restaurant is dropped and a both-lists one is kept |
| FilterPanel.Toggle | app/components/Sidebar/FilterPanel.tsx:32-34 | the value's membership flips and every other value's membership is unchanged; a present value is removed in place with every other value keeping its count, an absent one is appended at the end |
| FilterPanel.ToggleOthers | app/components/Sidebar/FilterPanel.tsx:32-34 | a toggle leaves the membership of every other value unchanged |
| FilterPanel.ToggleTwiceRestores | app/components/Sidebar/FilterPanel.tsx:32-34 | toggling an absent value twice restores the list exactly |
| FilterPanel.ToggleTwiceMovesToEnd | app/components/Sidebar/FilterPanel.tsx:32-34 | toggling a present value twice moves it to the end of a duplicate-free list |
| FilterPanel.ToggleListFilter | app/components/Sidebar/FilterPanel.tsx:30-36 | toggling a list flips its membership and patches nothing but `lists` |
| FilterPanel.ToggleArrayFilter | app/components/Sidebar/FilterPanel.tsx:38-47 | toggling a cuisine or country flips its membership in that key alone and patches nothing else |
| FilterPanel.ToggleArrayFilterTwice | app/components/Sidebar/FilterPanel.tsx:38-47 | toggling an absent cuisine or country twice restores the whole state |
| FilterPanel.SliderToMaxDistance | app/components/Sidebar/FilterPanel.tsx:165-167 | the slider's far end 20000 clears the maximum distance; any other value is stored as it is |
| FilterPanel.MaxDistanceLabel | app/components/Sidebar/FilterPanel.tsx:157 | the label is "Any" exactly for no distance or 0, otherwise the stored kilometres |
| FilterPanel.SliderPosition | app/components/Sidebar/FilterPanel.tsx:164 | no distance or 0 puts the slider at 20000, otherwise at the stored distance |
| FilterPanel.SliderRoundTrip | app/components/Sidebar/FilterPanel.tsx:157-167 | a positive slider value comes back as the slider position, labelled in kilometres below 20000 and "Any" at 20000 |
| FilterPanel.SliderAtZero | app/components/Sidebar/FilterPanel.tsx:157-167 | sliding to 0 stores an active 0 that is shown as "Any" with the slider at 20000 |
| FilterPanel.SetSlider | app/components/Sidebar/FilterPanel.tsx:165-167 | moving the slider patches only the maximum distance |
| Awards.AllAwardTypesAreConfigKeys | app/lib/awards.ts:13-107 | the ten award types are exactly the configuration keys, without repeats, and each configuration names its own key |
| Awards.BadgeRendersIffDefined | app/components/UI/AwardBadge.tsx:49-52 | a badge renders exactly when the table lookup is defined: for the ten listed types and for `Object.prototype` names such as `constructor`, whose missing icon falls back; any other type makes the render throw |
| Awards.AwardColor | app/lib/awards.ts:115-117 | a configured type gets its colour and any other type the grey fallback |
| Awards.AwardBgColor | app/lib/awards.ts:120-122 | a configured type gets its background colour and any other type the grey fallback |
| Awards.PriorityTable | app/lib/awards.ts:125-139 | the ten known types get distinct priorities 1 to 10, and an unknown type gets 99, after every known one |
| Awards.SortAwardsByPriority | app/lib/awards.ts:138-140 | the result is a permutation of the argument in non-decreasing priority, with equal priorities in input order |
| Awards.SortIconSustainable | app/lib/awards.ts:138-140 | `icon` sorts before `sustainable` whatever their input order |
| AwardBadges.TypesOf | app/components/UI/AwardBadges.tsx:30 | the types are the awards' types position by position |
| AwardBadges.UniqueTypes | app/components/UI/AwardBadges.tsx:30-31 | each type of the awards appears exactly once, in priority order |
| AwardBadges.BadgeRowOf | app/components/UI/AwardBadges.tsx:27-33 | nothing is shown for missing or empty awards; otherwise the displayed types are the first `min(maxDisplay, unique)` unique types and the remainder counts the others |
| AwardBadges.BadgeRowRenders | app/components/UI/AwardBadges.tsx:60-71 | a badge row whose awards all have a rendering badge renders |
| AwardBadges.UndefinedKindRowThrows | app/components/UI/AwardBadges.tsx:60-71 | a row holding a type with no table entry throws whenever it shows every type present |
| AwardBadges.OfType | app/components/UI/AwardBadges.tsx:38 | the awards of one type, all from the input; empty iff the type is absent |
| AwardBadges.LatestAward | app/components/UI/AwardBadges.tsx:36-40 | an award of the type with the greatest year, the earliest in input order among equal years; none iff the type is absent |
| AwardBadges.SortHeadIsLatest | app/components/UI/AwardBadges.tsx:37-39 | the head of the newest-first sort is the latest award |
| AwardBadges.KeepLatest | app/components/UI/AwardBadges.tsx:107-109 | the strict-`<` fold keeps the award with the greatest year, the first one among equal years |
| AwardBadges.KeepLatestSnoc | app/components/UI/AwardBadges.tsx:107-109 | one more award replaces the kept one only when its year is strictly greater |
| AwardBadges.GroupLatest | app/components/UI/AwardBadges.tsx:105-113 | the grouping has a key for exactly the types present whose tag is not an `Object.prototype` name, each mapped to that type's latest award |
| AwardBadges.GroupLatestStep | app/components/UI/AwardBadges.tsx:106-110 | one reduce step keeps the grouping correct for the longer prefix; an award of a prototype-named type, whose `acc[type]` is inherited and truthy, leaves the accumulator unchanged |
| AwardBadges.AwardGrid | app/components/UI/AwardBadges.tsx:95-117 | nothing for missing or empty awards; otherwise one latest award per distinct type the accumulator stores (prototype names are dropped), in priority order |
| AwardBadges.GridAgreesWithLatestAward | app/components/UI/AwardBadges.tsx:36-113 | for every type present, the latest-award lookup finds an award; for a type that is not a prototype name the grid holds that same award, and a prototype-named type is absent from the grid |
| AwardBadges.InheritedKindLeftOut | app/components/UI/AwardBadges.tsx:36-117 | a lone `constructor` award gives an empty grid while `getLatestAward` still returns it |
| AwardBadges.AwardGridRenders | app/components/UI/AwardBadges.tsx:119-131 | the award grid renders exactly when every award in the list has a rendering badge |
| AwardsPage.InitialSelection | app/awards/page.tsx:18-21 | the year starts unset, and the award is unset iff the `type` parameter is missing or empty, otherwise carries that tag |
| AwardsPage.ClearFilters | app/awards/page.tsx:76-79 | both the award and the year become unset |
| AwardsPage.AllYears | app/awards/page.tsx:32-35 | the collected years are exactly the years of some award of some restaurant |
| AwardsPage.AwardYears | app/awards/page.tsx:31-37 | the award years are duplicate-free, strictly descending, and exactly the years awarded |
| AwardsPage.AwardWinners | app/awards/page.tsx:40-60 | the winners are an order-preserving subsequence, each with an award, and a restaurant is one iff it passes the selection |
| AwardsPage.WinnersOfKind | app/awards/page.tsx:44-51 | with a type selected, a winner is a restaurant holding that type, in the selected year if one is set |
| AwardsPage.WinnersOfYear | app/awards/page.tsx:53-56 | with only a year selected, a winner is a restaurant with some award in that year |
| AwardsPage.WinnersUnfiltered | app/awards/page.tsx:42-58 | with nothing selected, the winners are exactly the restaurants with at least one award |
| AwardsPage.ClearedWinners | app/awards/page.tsx:76-79 | after clearing, the winners are exactly the restaurants with at least one award |
| AwardsPage.AwardCount | app/awards/page.tsx:66-71 | the count is at most the number of restaurants and is 0 iff nobody holds the type in the year |
| AwardsPage.AwardCountSnoc | app/awards/page.tsx:66-71 | one more restaurant adds 1 exactly when it holds the type, so each restaurant counts once per type |
| AwardsPage.AwardCounts | app/awards/page.tsx:63-74 | there is one count per known award type, each the number of restaurants holding it |
| AwardsPage.SelectedCountIsWinnerCount | app/awards/page.tsx:40-74 | the count shown for the selected type equals the number of winners |
| AwardsPage.InitialSelectionRenders | app/awards/page.tsx:178-196 | the page opened with a `type` parameter renders exactly when the parameter is missing, empty, one of the ten listed tags or a prototype name; `constructor` renders and `foo` throws |
| AwardsPage.RenderableDataRenders | app/awards/page.tsx:252-259 | when every award in the data has a rendering badge, only the selected type decides whether the page renders |
| AwardsPage.UndefinedKindWinnerThrows | app/awards/page.tsx:252-259 | a listed winner holding a type with no table entry, among at most four types, makes the page throw |
| AwardShowcase.KindCount | app/components/Dashboard/AwardShowcase.tsx:19-21 | the count is at most the number of restaurants and positive iff someone holds the type |
| AwardShowcase.ShownKinds | app/components/Dashboard/AwardShowcase.tsx:17-30 | the listed types follow the configuration order without repeats and are exactly the held types |
| AwardShowcase.ShowcaseCounts | app/components/Dashboard/AwardShowcase.tsx:17-28 | a type has a count iff someone holds it, and the count is the number of holders, between 1 and the number of restaurants |
| AwardShowcase.Showcase | app/components/Dashboard/AwardShowcase.tsx:30-84 | the placeholder, the first five configured types, appears iff no type is held; otherwise at most ten held types are shown, each with a count of at least 1 |
| AwardShowcase.NoneShownIffNoneHeld | app/components/Dashboard/AwardShowcase.tsx:17-32 | no type is listed iff no restaurant holds any configured type |
| AwardShowcase.TilesCounted | app/components/Dashboard/AwardShowcase.tsx:84-86 | every displayed type has a count of at least 1 |
| AwardShowcase.ShowcaseShowsEveryHeldKind | app/components/Dashboard/AwardShowcase.tsx:30-84 | there are at most ten award types, so every held type gets a tile |
| TrendingCarousel.Trending | app/components/Dashboard/TrendingCarousel.tsx:135 | trending is the first `min(10, n)` restaurants in input order |
| TrendingCarousel.FirstHolders | app/components/Dashboard/TrendingCarousel.tsx:138-145 | the climbers or new entries are the first at most ten holders of the award, in input order |
| TrendingCarousel.FewHoldersAllShown | app/components/Dashboard/TrendingCarousel.tsx:138-145 | with at most ten holders, every holder is shown |
| TrendingCarousel.Row | app/components/Dashboard/TrendingCarousel.tsx:86 | a carousel is rendered iff it has restaurants |
| TrendingCarousel.CategoryCarousels | app/components/Dashboard/TrendingCarousel.tsx:133-170 | at most three carousels of one to ten restaurants; trending appears iff there are restaurants, and climbers or new entries iff someone holds that award |
| TrendingCarousel.HolderExists | app/components/Dashboard/TrendingCarousel.tsx:138-145 | a category carousel is non-empty iff some restaurant holds its award |
| RegionTabs.RegionFilter | app/components/Dashboard/RegionTabs.tsx:27-30 | `all` returns the input unchanged; a region keeps, in order, exactly the restaurants of that region |
| RegionTabs.RegionlessOnlyUnderAll | app/components/Dashboard/RegionTabs.tsx:30 | a restaurant without a region appears only under `all` |
| RegionTabs.RegionTabsPartition | app/components/Dashboard/RegionTabs.tsx:30 | no restaurant appears under two different region tabs |
| RegionTabs.RegionView | app/components/Dashboard/RegionTabs.tsx:27-113 | the first `min(6, n)` matches are shown, and "View all" appears iff more than six match |
| HeroStats.Countries | app/components/Dashboard/HeroStats.tsx:39 | the countries are the restaurants' countries position by position |
| HeroStats.Cuisines | app/components/Dashboard/HeroStats.tsx:40 | the cuisines are the restaurants' cuisines position by position |
| HeroStats.DefinedRegions | app/components/Dashboard/HeroStats.tsx:41 | the defined regions are exactly the regions some restaurant has |
| HeroStats.UniqueRegions | app/components/Dashboard/HeroStats.tsx:41 | the region count is the number of distinct defined regions, or 5 when none is defined; always 1 to 5 |
| HeroStats.AtMostFiveRegions | app/types/restaurant.ts:15 | there are at most five regions |
| HeroStats.AwardEntries | app/components/Dashboard/HeroStats.tsx:42-45 | the entry count is 0 iff no restaurant has an award, bounds each restaurant's award count, and is the list length for one restaurant |
| HeroStats.AwardEntriesSnoc | app/components/Dashboard/HeroStats.tsx:42-45 | one more restaurant adds the length of its award list, and nothing when the list is missing |
| HeroStats.AwardEntriesAppend | app/components/Dashboard/HeroStats.tsx:42-45 | the entry count of two lists together is the sum of their counts |
| HeroStats.HeroStats | app/components/Dashboard/HeroStats.tsx:38-63 | the stats hold the total, the distinct countries and cuisines (each at most the total), the region count, and the award entries or "10+" when there are none |
| Analytics.GroupCounts | app/analytics/page.tsx:52-57 | one entry per distinct key, in first-appearance order, whose count is that key's number of occurrences |
| Analytics.GroupCountsTotal | app/analytics/page.tsx:52-57 | the group counts add up to the number of keys |
| Analytics.TopGroups | app/analytics/page.tsx:51-59 | the first `min(n, groups)` groups in non-increasing count, each with its true count; no left-out key has a larger count; within one count the kept groups are the first of that count in first-appearance order |
| Analytics.TieGoesToFirstSeen | app/analytics/page.tsx:51-59 | for keys `a`, `b` seen once each and one slot, `a` is kept |
| Analytics.FirstLargestGroupWins | app/analytics/page.tsx:51-59 | when no key occurs more often than the first key, a single slot goes to the first key's group, ties included |
| Analytics.CountryData | app/analytics/page.tsx:51-60 | at most 15 countries in non-increasing count order |
| Analytics.CuisineData | app/analytics/page.tsx:63-72 | at most 8 cuisines in non-increasing count order |
| Analytics.CountryBarsCount | app/analytics/page.tsx:51-60 | each country bar's count is the number of restaurants in that country |
| Analytics.CuisineSlicesCount | app/analytics/page.tsx:63-72 | each cuisine slice's value is the number of restaurants of that cuisine |
| Analytics.CountryGroupsCoverAll | app/analytics/page.tsx:52-57 | the country groups together hold every restaurant |
| Analytics.ListCount | app/analytics/page.tsx:76-78 | the count is at most the number of restaurants and is 0 iff no restaurant is on that list |
| Analytics.ListCountSnoc | app/analytics/page.tsx:76-84 | one more restaurant adds exactly one to its own list's share and nothing to the other shares, so each share is the number of restaurants on its list |
| Analytics.ListData | app/analytics/page.tsx:75-85 | three shares that sum to the number of restaurants; each share is the count that ListCountSnoc pins |
| Analytics.ListPartition | app/analytics/page.tsx:75-85 | the World's 50 Best, La Liste and both-lists shares add up to the number of restaurants |
| Analytics.AnalyticsStats | app/analytics/page.tsx:36-48 | the total, the distinct countries and cuisines (each at most the total), and the both-lists count equal to the "Both Lists" share |
| Analytics.TopTen | app/analytics/page.tsx:300 | the table shows the first `min(10, n)` records in stored order |
| RestaurantList.DistanceKey | app/components/Sidebar/RestaurantList.tsx:42-43 | a distance of exactly 0 sorts as infinite; any other distance sorts as itself |
| RestaurantList.SortedRestaurants | app/components/Sidebar/RestaurantList.tsx:40-47 | a permutation of the input, by rank without a location or by distance key with one, keeping input order among equal keys |
| RestaurantList.SortedByListKey | app/components/Sidebar/RestaurantList.tsx:41-46 | sorted by the comparator's key means non-decreasing rank, or non-decreasing distance key |
| RestaurantList.ZeroDistanceSortsLast | app/components/Sidebar/RestaurantList.tsx:41-44 | once a restaurant at distance 0 appears, every later one is at distance 0 too |
| RestaurantList.EqualRanksKeepOrder | app/components/Sidebar/RestaurantList.tsx:40-46 | restaurants of equal rank keep their input order |
| RestaurantList.RenderList | app/components/Sidebar/RestaurantList.tsx:16-56 | the empty-list message appears iff there are no restaurants, defaulting to "No restaurants found"; otherwise the sorted rows |
| AwardsTab.PreviousRank | app/components/Restaurant/AwardsTab.tsx:21-23 | the previous rank is the rank of the second-to-last entry, and only with at least two entries |
| AwardsTab.RankChangeOf | app/components/Restaurant/AwardsTab.tsx:25-33 | with no previous rank, both change and direction are missing; otherwise the change is previous minus current, up iff positive, down iff negative, same iff 0 |
| AwardsTab.UpMeansClimbed | app/components/Restaurant/AwardsTab.tsx:28-32 | the badge points up iff the current rank is numerically smaller than the previous one, down iff larger |
| AwardsTab.PeakRank | app/components/Restaurant/AwardsTab.tsx:73 | the peak rank is shown when present and non-zero, else the current rank |
| AwardsTab.TimelineSection | app/components/Restaurant/AwardsTab.tsx:95-100 | the ranking history section appears iff the raw history has more than one entry, and then holds that history's timeline |
| AwardsTab.ChartOnlyInSection | app/components/Restaurant/AwardsTab.tsx:95-100 | a drawn chart implies the section is shown; two unranked years show the section over "Not enough data" |
| RankingTimeline.ToPoint | app/components/Charts/RankingTimeline.tsx:31-36 | a point keeps year and rank; its display plus its rank is 101, with no display for rank 0 |
| RankingTimeline.Points | app/components/Charts/RankingTimeline.tsx:29-36 | one point per entry with a rank, in history order: the i-th point is the i-th ranked entry |
| RankingTimeline.ChartData | app/components/Charts/RankingTimeline.tsx:28-38 | the chart data are a permutation of the points in ascending year, keeping the order of same-year entries |
| RankingTimeline.YearOrder | app/components/Charts/RankingTimeline.tsx:37 | sorted by the year key means years never decrease |
| RankingTimeline.ChartedIffRanked | app/components/Charts/RankingTimeline.tsx:29-37 | a point is charted iff it comes from a ranked history entry |
| RankingTimeline.TruthyRanks | app/components/Charts/RankingTimeline.tsx:51-52 | the truthy ranks are exactly the non-zero ranks of the points |
| RankingTimeline.MaxOf | app/components/Charts/RankingTimeline.tsx:52 | the maximum belongs to the list and bounds every element |
| RankingTimeline.YUpper | app/components/Charts/RankingTimeline.tsx:76 | the axis end is at least 50, at least every non-zero rank plus 10, and is 50 or some rank plus 10 |
| RankingTimeline.Timeline | app/components/Charts/RankingTimeline.tsx:40-76 | "Not enough data" iff fewer than two ranked entries; otherwise the chart spans the first to the last year and every point lies within it |
| BottomSheet.Initial | app/components/UI/BottomSheet.tsx:35-42 | the sheet starts in its initial state, not dragged, with no offset |
| BottomSheet.SnapAfterDrag | app/components/UI/BottomSheet.tsx:92-103 | a drag within 50 keeps the state; down moves full to half and half to peek and requests close from peek; up moves peek to half and half to full and leaves full; closed stays closed |
| BottomSheet.DragUndoes | app/components/UI/BottomSheet.tsx:92-102 | a drag down undoes a drag up from peek or half, and a drag up undoes a drag down from half or full |
| BottomSheet.CycleState | app/components/UI/BottomSheet.tsx:108-112 | a tap on an open sheet gives half or full, never peek or closed, and full exactly from half |
| BottomSheet.CycleTwice | app/components/UI/BottomSheet.tsx:108-112 | two taps from half or full come back to the start |
| BottomSheet.Step | app/components/UI/BottomSheet.tsx:47-112 | no handler changes the props, and only Escape on an open sheet or a drag-end from peek requests close |
| BottomSheet.TouchEndEffect | app/components/UI/BottomSheet.tsx:87-105 | a completed drag-end clears the drag flag and the offset and moves to the snapped state; without a drag or with drag disabled it changes nothing; close is requested iff a drag down beyond 50 ends at peek |
| BottomSheet.OpenResets | app/components/UI/BottomSheet.tsx:47-52 | opening restores the initial state and clears the offset |
| BottomSheet.StepConsistent | app/components/UI/BottomSheet.tsx:47-112 | every handler keeps the sheet consistent: closed only if it opened closed, no offset at rest, never dragged with drag disabled |
| BottomSheet.RunConsistent | app/components/UI/BottomSheet.tsx:35-112 | from the initial sheet, any sequence of events keeps it consistent |
| BottomSheet.RunFromConsistent | app/components/UI/BottomSheet.tsx:47-112 | any sequence of events from a consistent sheet ends consistent |
| BottomSheet.Translation | app/components/UI/BottomSheet.tsx:138 | the translation is never negative: it follows a downward drag and is 0 otherwise |
| ImageGallery.Tagged | app/components/UI/ImageGallery.tsx:28-33 | each source becomes one image of the given kind, in order |
| ImageGallery.AllImages | app/components/UI/ImageGallery.tsx:23-33 | the images are the hero if truthy, then every dish, then every interior shot, each in order |
| ImageGallery.NextIndex | app/components/UI/ImageGallery.tsx:58-60 | the next index stays below n, steps by one, and wraps the last to 0 |
| ImageGallery.PrevIndex | app/components/UI/ImageGallery.tsx:62-64 | the previous index stays below n, steps back by one, and wraps 0 to the last |
| ImageGallery.NextPrevInverse | app/components/UI/ImageGallery.tsx:58-64 | next then previous, and previous then next, return to the same index |
| ImageGallery.Thumbnails | app/components/UI/ImageGallery.tsx:85-106 | none for one image or fewer; otherwise thumbnail k opens image k+1 with a hero and k without, up to image 5, with the "+N" overlay on thumbnail 3 iff there are more than five images, N being n minus 5 |
| ImageGallery.OverlayCountsHidden | app/components/UI/ImageGallery.tsx:87-106 | the overlay number is exactly the number of images shown neither as hero nor as thumbnail |
| ImageGallery.OverlayWithoutHero | app/components/UI/ImageGallery.tsx:87-89 | without a hero there are five thumbnails and the overlay sits on the fourth, not the last |
| ImageGallery.LightboxStep | app/components/UI/ImageGallery.tsx:49-64 | opening shows the given image, closing keeps the index, next and previous keep the index in range |
| ImageGallery.OpenersInRange | app/components/UI/ImageGallery.tsx:73-95 | the hero and every thumbnail open an existing image |
| ImageGallery.ActiveIndexInRange | app/components/UI/ImageGallery.tsx:49-155 | opened only from the hero and the thumbnails, the lightbox's image always exists |
| ImageGallery.Counter | app/components/UI/ImageGallery.tsx:163 | the counter reads `i+1 / n` with 1 ≤ i+1 ≤ n, reaching n exactly on the last image |
| ImageGallery.Render | app/components/UI/ImageGallery.tsx:35-47 | "No images available" iff there is no truthy hero, dish or interior image; otherwise the gallery of all images with its thumbnails |

## Left out

- The great-circle distance (app/lib/distance.ts and the inline haversine in app/map/page.tsx) is floating-point trigonometry. It is the parameter `dist`, and `formatDistance` is not modelled.
- The score-bucket chart `scoreData` and `toFixed` score display in app/analytics/page.tsx are floating-point numerics and are not modelled.
- app/lib/utils is not part of this model, so the bodies of `groupBy` and `getUniqueValues` were not read. The model assumes that `groupBy` groups by first appearance of each key and that `getUniqueValues` returns the distinct values of a field.
- Analytics.CountryData: the entry order follows the first appearance of each key. JavaScript objects list integer-like keys first; country and cuisine names are not integer-like.
- AwardBadges.AwardGrid: among kinds of equal priority (the unlisted ones, all 99) the grid keeps first-appearance order. `Object.keys` lists integer-like tags such as `"2019"` first, in numeric order, and the stable priority sort keeps that, so the grid's order differs for integer-like unlisted award tags, which the model does not distinguish.
- The map layer, tile styles and geolocation are not modelled. They are asynchronous browser and Leaflet calls.
- The zustand `persist` wiring to localStorage (app/store/useStore.ts:167-176) is I/O and is not modelled. The clock is the `now` parameter.
- The plain setters `setRestaurants`, `setUserLocation`, `setIsLocating`, `setMapStyle`, `setMapCenter`, `setMapZoom`, `setSidebarOpen` and `setDetailPanelOpen` are not modelled. Each stores its argument and nothing more.
- `FilterState.regions` and `FilterState.awards` are left out of the filter record. They are declared but never defaulted or read by the filter.
- AwardsPage.InitialSelection: a `type` parameter with no table entry becomes a selection and its (empty) winner list is computed, but the page throws when it reads the missing configuration (app/awards/page.tsx:180-195). The throw is modelled apart from the selection, by `AwardsPage.SelectionRenders` and `AwardsPage.PageRenders`; an award in the data with no table entry is handled the same way by `AwardBadges.RowRenders` and `AwardBadges.GridRenders`. `Object.prototype` names such as `constructor` have a (non-award) entry and render, their labels blank or reading `undefined`; the award grid drops such awards (`AwardBadges.GroupLatest`).
- Types.WellFormedType: award records and links are read through `Types.FromTag`, so an `Unknown` type never spells one of the ten listed tags. The datatype itself does not forbid it.
- Awards.Priority: a tag naming an `Object.prototype` member, such as `constructor`, makes the priority lookup return a function and the comparator return NaN, which the sort treats as equal. The model gives such a tag priority 99, like any other unknown tag.
- MapFilter.Lower: lower-cases ASCII letters only. JavaScript's `toLowerCase` follows the full Unicode case mapping.
- React's asynchronous state updates and effect scheduling are not modelled. Each handler is one atomic step on the state it reads.
- BottomSheet.Step: the window key listener is modelled as an `Escape(isOpen)` event. The backdrop click calls the same `onClose` and is not a separate event. The measured sheet height (`currentHeight`) is never read and is not modelled.
- ImageGallery.ActiveIndexInRange: it covers only the openers the gallery renders. An image set that changes while the lightbox is open is not modelled.
- Loading the restaurant JSON into the store on mount is not modelled. Neither are Recharts rendering, theming, navigation, sharing and clipboard calls.
- The pure presentation components are not modelled. These are the detail card, the compare page, the navigation bars, the header, the sidebar shell, the search bar, the spotlight, the chef tab, the tab bar and the single award badge apart from its configuration lookup. Their logic is membership tests already covered by the store model.
