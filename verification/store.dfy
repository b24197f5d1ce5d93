/** The application store (app/store/useStore.ts) as pure transitions
    `(state, arguments) -> state`: the compare list, the three personal
    collections, the filters and the selected restaurant. Timestamps that the
    source takes from the clock are a `now` argument. */
module Store {
  import opened Optional
  import opened Seqs
  import opened Types

  datatype AppState = AppState(
    restaurants: seq<Restaurant>,
    selectedRestaurant: Option<Restaurant>,
    detailPanelOpen: bool,
    filters: FilterState,
    compareList: seq<string>,
    favorites: seq<CollectionItem>,
    visited: seq<CollectionItem>,
    wishlist: seq<CollectionItem>)

  /** `defaultFilters`: nothing is filtered out. */
  const DefaultFilters: FilterState := FilterState("", [], [], [], AllTiers, None)

  const MaxCompare: nat := 3

  const InitialState: AppState := AppState([], None, false, DefaultFilters, [], [], [], [])

  // ---------------------------------------------------------------------
  // Selection and filters

  /** `setSelectedRestaurant`: the detail panel is open exactly when a
      restaurant is selected. */
  function SetSelectedRestaurant(s: AppState, r: Option<Restaurant>): (s': AppState)
    ensures s'.selectedRestaurant == r
    ensures s'.detailPanelOpen <==> r.Some?
    ensures s'.(selectedRestaurant := s.selectedRestaurant, detailPanelOpen := s.detailPanelOpen) == s
  {
    s.(selectedRestaurant := r, detailPanelOpen := r.Some?)
  }

  /** `Partial<FilterState>`: a field is either absent from the patch or
      carries its new value (for `maxDistance`, possibly null). */
  datatype FilterPatch = FilterPatch(
    search: Option<string>,
    lists: Option<seq<ListKind>>,
    cuisines: Option<seq<string>>,
    countries: Option<seq<string>>,
    rankingTier: Option<RankingTier>,
    maxDistance: Option<Option<real>>)

  const EmptyPatch: FilterPatch := FilterPatch(None, None, None, None, None, None)

  /** `{ ...filters, ...patch }`. */
  function Patch(f: FilterState, p: FilterPatch): FilterState {
    FilterState(
      p.search.GetOr(f.search),
      p.lists.GetOr(f.lists),
      p.cuisines.GetOr(f.cuisines),
      p.countries.GetOr(f.countries),
      p.rankingTier.GetOr(f.rankingTier),
      p.maxDistance.GetOr(f.maxDistance))
  }

  /** `setFilters`: every field present in the patch takes the patched value,
      every other field keeps its value, and nothing outside the filters moves. */
  function SetFilters(s: AppState, p: FilterPatch): (s': AppState)
    ensures p.search.Some? ==> s'.filters.search == p.search.value
    ensures p.search.None? ==> s'.filters.search == s.filters.search
    ensures p.lists.Some? ==> s'.filters.lists == p.lists.value
    ensures p.lists.None? ==> s'.filters.lists == s.filters.lists
    ensures p.cuisines.Some? ==> s'.filters.cuisines == p.cuisines.value
    ensures p.cuisines.None? ==> s'.filters.cuisines == s.filters.cuisines
    ensures p.countries.Some? ==> s'.filters.countries == p.countries.value
    ensures p.countries.None? ==> s'.filters.countries == s.filters.countries
    ensures p.rankingTier.Some? ==> s'.filters.rankingTier == p.rankingTier.value
    ensures p.rankingTier.None? ==> s'.filters.rankingTier == s.filters.rankingTier
    ensures p.maxDistance.Some? ==> s'.filters.maxDistance == p.maxDistance.value
    ensures p.maxDistance.None? ==> s'.filters.maxDistance == s.filters.maxDistance
    ensures s'.(filters := s.filters) == s
  {
    s.(filters := Patch(s.filters, p))
  }

  /** Applying the same patch twice is applying it once; the empty patch
      changes nothing. */
  lemma SetFiltersIdempotent(s: AppState, p: FilterPatch)
    ensures SetFilters(SetFilters(s, p), p) == SetFilters(s, p)
    ensures SetFilters(s, EmptyPatch) == s
  {
  }

  /** `resetFilters`: back to the defaults, whatever the filters were. */
  function ResetFilters(s: AppState): (s': AppState)
    ensures s'.filters == DefaultFilters
    ensures s'.filters.search == "" && s'.filters.lists == [] && s'.filters.cuisines == []
    ensures s'.filters.countries == [] && s'.filters.rankingTier == AllTiers && s'.filters.maxDistance.None?
    ensures s'.(filters := s.filters) == s
  {
    s.(filters := DefaultFilters)
  }

  // ---------------------------------------------------------------------
  // Compare list

  /** At most three identifiers, none twice. */
  predicate ValidCompare(l: seq<string>) {
    |l| <= MaxCompare && NoDup(l)
  }

  /** `addToCompare`: a no-op on a full list or a present id; otherwise the
      id is appended after the ones already there. */
  function AddToCompare(s: AppState, id: string): (s': AppState)
    ensures |s.compareList| >= MaxCompare ==> s' == s
    ensures id in s.compareList ==> s' == s
    ensures |s.compareList| < MaxCompare && id !in s.compareList ==>
              s'.compareList == s.compareList + [id]
    ensures id in s'.compareList <==> id in s.compareList || |s.compareList| < MaxCompare
    ensures s'.(compareList := s.compareList) == s
  {
    if |s.compareList| >= MaxCompare then s
    else if id in s.compareList then s
    else s.(compareList := s.compareList + [id])
  }

  /** `removeFromCompare`: every occurrence of the id goes, the rest stays in
      order. */
  function RemoveFromCompare(s: AppState, id: string): (s': AppState)
    ensures id !in s'.compareList
    ensures forall x :: x != id ==> (x in s'.compareList <==> x in s.compareList)
    ensures forall x :: x != id ==> multiset(s'.compareList)[x] == multiset(s.compareList)[x]
    ensures Subsequence(s'.compareList, s.compareList)
    ensures s'.(compareList := s.compareList) == s
  {
    var l := Filter(s.compareList, Other(id));
    FilterOtherMultiset(s.compareList, id);
    s.(compareList := l)
  }

  /** `clearCompare`. */
  function ClearCompare(s: AppState): (s': AppState)
    ensures s'.compareList == []
    ensures s'.(compareList := s.compareList) == s
  {
    s.(compareList := [])
  }

  datatype CompareAction = Add(id: string) | Remove(id: string) | Clear

  function ApplyCompare(s: AppState, a: CompareAction): AppState {
    match a
    case Add(id) => AddToCompare(s, id)
    case Remove(id) => RemoveFromCompare(s, id)
    case Clear => ClearCompare(s)
  }

  /** Any sequence of compare actions, applied in order. */
  function RunCompare(s: AppState, actions: seq<CompareAction>): AppState
    decreases |actions|
  {
    if |actions| == 0 then s else RunCompare(ApplyCompare(s, actions[0]), actions[1..])
  }

  /** Each compare action keeps the list valid. */
  lemma CompareActionKeepsValid(s: AppState, a: CompareAction)
    requires ValidCompare(s.compareList)
    ensures ValidCompare(ApplyCompare(s, a).compareList)
  {
    match a
    case Add(id) =>
      if |s.compareList| < MaxCompare && id !in s.compareList {
        var l := s.compareList + [id];
        forall i, j | 0 <= i < j < |l| ensures l[i] != l[j] {
          if j == |l| - 1 {
            assert l[i] in s.compareList;
          }
        }
      }
    case Remove(id) =>
      FilterNoDup(s.compareList, Other(id));
    case Clear =>
  }

  /** Used on its own, the compare list never holds a duplicate or more than
      three identifiers, whatever the actions. */
  lemma {:induction false} CompareListStaysValid(s: AppState, actions: seq<CompareAction>)
    requires ValidCompare(s.compareList)
    ensures ValidCompare(RunCompare(s, actions).compareList)
    decreases |actions|
  {
    if |actions| > 0 {
      CompareActionKeepsValid(s, actions[0]);
      CompareListStaysValid(ApplyCompare(s, actions[0]), actions[1..]);
    }
  }

  /** Adding a fourth identifier to a full list changes nothing. */
  lemma FourthCompareRejected(s: AppState, id: string)
    requires |s.compareList| == 3
    ensures AddToCompare(s, id) == s
  {
  }

  // ---------------------------------------------------------------------
  // Collections (favorites, visited, wishlist)

  /** `items.some(i => i.restaurantId === id)`. */
  predicate HasItem(items: seq<CollectionItem>, id: string) {
    exists i :: 0 <= i < |items| && items[i].restaurantId == id
  }

  /** No restaurant appears twice in a collection. */
  predicate KeyedById(items: seq<CollectionItem>) {
    forall i, j :: 0 <= i < j < |items| ==> items[i].restaurantId != items[j].restaurantId
  }

  /** `items.filter(i => i.restaurantId !== id)`: exactly the entries of that
      restaurant go; the others stay, in order. */
  function RemoveItem(items: seq<CollectionItem>, id: string): (r: seq<CollectionItem>)
    ensures !HasItem(r, id)
    ensures forall x :: x in r <==> x in items && x.restaurantId != id
    ensures forall x: CollectionItem :: x.restaurantId != id ==> multiset(r)[x] == multiset(items)[x]
    ensures Subsequence(r, items)
  {
    if |items| == 0 then []
    else
      var rest := RemoveItem(items[1..], id);
      assert items == [items[0]] + items[1..];
      if items[0].restaurantId != id then [items[0]] + rest else rest
  }

  /** Removing entries keeps a keyed collection keyed. */
  lemma {:induction false} RemoveItemKeepsKeyed(items: seq<CollectionItem>, id: string)
    requires KeyedById(items)
    ensures KeyedById(RemoveItem(items, id))
  {
    if |items| > 0 {
      RemoveItemKeepsKeyed(items[1..], id);
      var rest := RemoveItem(items[1..], id);
      if items[0].restaurantId != id {
        var r := [items[0]] + rest;
        forall i, j | 0 <= i < j < |r| ensures r[i].restaurantId != r[j].restaurantId {
          if i == 0 {
            assert r[j] in items[1..];
          }
        }
      }
    }
  }

  /** Appending an entry for an absent restaurant keeps the collection keyed. */
  lemma AppendKeepsKeyed(items: seq<CollectionItem>, it: CollectionItem)
    requires !HasItem(items, it.restaurantId)
    ensures KeyedById(items) ==> KeyedById(items + [it])
  {
    var l := items + [it];
    if KeyedById(items) {
      forall i, j | 0 <= i < j < |l| ensures l[i].restaurantId != l[j].restaurantId {
        if j == |items| {
          assert l[i] == items[i];
        }
      }
    }
  }

  /** `addFavorite`: a present restaurant leaves the state as it is;
      otherwise one entry stamped `now` is appended. */
  function AddFavorite(s: AppState, id: string, now: string): (s': AppState)
    ensures HasItem(s.favorites, id) ==> s' == s
    ensures !HasItem(s.favorites, id) ==>
              s'.favorites == s.favorites + [CollectionItem(id, now, None, None, None, None)]
    ensures HasItem(s'.favorites, id)
    ensures KeyedById(s.favorites) ==> KeyedById(s'.favorites)
    ensures s'.(favorites := s.favorites) == s
  {
    if HasItem(s.favorites, id) then s
    else
      var it := CollectionItem(id, now, None, None, None, None);
      AppendKeepsKeyed(s.favorites, it);
      assert (s.favorites + [it])[|s.favorites|].restaurantId == id;
      s.(favorites := s.favorites + [it])
  }

  /** `removeFavorite`. */
  function RemoveFavorite(s: AppState, id: string): (s': AppState)
    ensures !HasItem(s'.favorites, id)
    ensures forall x :: x in s'.favorites <==> x in s.favorites && x.restaurantId != id
    ensures forall x: CollectionItem :: x.restaurantId != id ==> multiset(s'.favorites)[x] == multiset(s.favorites)[x]
    ensures Subsequence(s'.favorites, s.favorites)
    ensures s'.(favorites := s.favorites) == s
  {
    s.(favorites := RemoveItem(s.favorites, id))
  }

  /** Re-adding a favorite, at any time, changes nothing. */
  lemma AddFavoriteIdempotent(s: AppState, id: string, t1: string, t2: string)
    ensures AddFavorite(AddFavorite(s, id, t1), id, t2) == AddFavorite(s, id, t1)
  {
  }

  /** `addToWishlist(id, priority = 'medium')`. */
  function AddToWishlist(s: AppState, id: string, priority: Option<WishPriority>, now: string): (s': AppState)
    ensures HasItem(s.wishlist, id) ==> s' == s
    ensures !HasItem(s.wishlist, id) ==>
              s'.wishlist == s.wishlist + [CollectionItem(id, now, None, None, None, Some(priority.GetOr(Medium)))]
    ensures !HasItem(s.wishlist, id) && priority.None? ==> s'.wishlist[|s'.wishlist| - 1].priority == Some(Medium)
    ensures HasItem(s'.wishlist, id)
    ensures KeyedById(s.wishlist) ==> KeyedById(s'.wishlist)
    ensures s'.(wishlist := s.wishlist) == s
  {
    if HasItem(s.wishlist, id) then s
    else
      var it := CollectionItem(id, now, None, None, None, Some(priority.GetOr(Medium)));
      AppendKeepsKeyed(s.wishlist, it);
      assert (s.wishlist + [it])[|s.wishlist|].restaurantId == id;
      s.(wishlist := s.wishlist + [it])
  }

  /** `removeFromWishlist`. */
  function RemoveFromWishlist(s: AppState, id: string): (s': AppState)
    ensures !HasItem(s'.wishlist, id)
    ensures forall x :: x in s'.wishlist <==> x in s.wishlist && x.restaurantId != id
    ensures forall x: CollectionItem :: x.restaurantId != id ==> multiset(s'.wishlist)[x] == multiset(s.wishlist)[x]
    ensures Subsequence(s'.wishlist, s.wishlist)
    ensures s'.(wishlist := s.wishlist) == s
  {
    s.(wishlist := RemoveItem(s.wishlist, id))
  }

  /** Re-adding to the wishlist changes nothing, whatever the new priority. */
  lemma AddToWishlistIdempotent(s: AppState, id: string, p1: Option<WishPriority>, p2: Option<WishPriority>, t1: string, t2: string)
    ensures AddToWishlist(AddToWishlist(s, id, p1, t1), id, p2, t2) == AddToWishlist(s, id, p1, t1)
  {
  }

  /** The visit update applied to every entry of the restaurant:
      `{ ...v, notes, rating, visitedAt: now }`. */
  function UpdateVisits(items: seq<CollectionItem>, id: string, notes: Option<string>, rating: Option<int>, now: string): (r: seq<CollectionItem>)
    ensures |r| == |items|
    ensures forall i :: 0 <= i < |items| ==> r[i].restaurantId == items[i].restaurantId
    ensures forall i :: 0 <= i < |items| && items[i].restaurantId != id ==> r[i] == items[i]
    ensures forall i :: 0 <= i < |items| && items[i].restaurantId == id ==>
              && r[i].restaurantId == id
              && r[i].addedAt == items[i].addedAt
              && r[i].priority == items[i].priority
              && r[i].notes == notes && r[i].rating == rating && r[i].visitedAt == Some(now)
  {
    if |items| == 0 then []
    else
      var v := items[0];
      var head := if v.restaurantId == id then v.(notes := notes, rating := rating, visitedAt := Some(now)) else v;
      [head] + UpdateVisits(items[1..], id, notes, rating, now)
  }

  /** Two collections with the same ids position by position are keyed
      alike. */
  lemma SameIdsKeyed(a: seq<CollectionItem>, b: seq<CollectionItem>)
    requires |a| == |b| && forall i :: 0 <= i < |a| ==> a[i].restaurantId == b[i].restaurantId
    ensures KeyedById(a) <==> KeyedById(b)
  {
  }

  /** `markVisited`: an upsert. A visited restaurant gets its notes, rating
      and visit time replaced in place (omitted notes or rating become absent)
      and keeps its `addedAt`; a new one is appended, added and visited `now`. */
  function MarkVisited(s: AppState, id: string, notes: Option<string>, rating: Option<int>, now: string): (s': AppState)
    ensures HasItem(s.visited, id) ==> s'.visited == UpdateVisits(s.visited, id, notes, rating, now)
    ensures !HasItem(s.visited, id) ==>
              s'.visited == s.visited + [CollectionItem(id, now, notes, Some(now), rating, None)]
    ensures HasItem(s'.visited, id)
    ensures KeyedById(s.visited) ==> KeyedById(s'.visited)
    ensures s'.(visited := s.visited) == s
  {
    if HasItem(s.visited, id) then
      var r := UpdateVisits(s.visited, id, notes, rating, now);
      SameIdsKeyed(r, s.visited);
      var k :| 0 <= k < |s.visited| && s.visited[k].restaurantId == id;
      assert r[k].restaurantId == id;
      s.(visited := r)
    else
      var it := CollectionItem(id, now, notes, Some(now), rating, None);
      AppendKeepsKeyed(s.visited, it);
      assert (s.visited + [it])[|s.visited|].restaurantId == id;
      s.(visited := s.visited + [it])
  }

  /** Marking a restaurant visited twice keeps one entry: the second call's
      notes, rating and time, the first call's `addedAt`. */
  lemma MarkVisitedTwice(s: AppState, id: string, n1: Option<string>, r1: Option<int>, t1: string,
                         n2: Option<string>, r2: Option<int>, t2: string)
    requires !HasItem(s.visited, id)
    ensures MarkVisited(MarkVisited(s, id, n1, r1, t1), id, n2, r2, t2).visited ==
              s.visited + [CollectionItem(id, t1, n2, Some(t2), r2, None)]
  {
    var s1 := MarkVisited(s, id, n1, r1, t1);
    assert s1.visited == s.visited + [CollectionItem(id, t1, n1, Some(t1), r1, None)];
    assert s1.visited[|s.visited|].restaurantId == id;
    assert HasItem(s1.visited, id);
  }

  /** `unmarkVisited`. */
  function UnmarkVisited(s: AppState, id: string): (s': AppState)
    ensures !HasItem(s'.visited, id)
    ensures forall x :: x in s'.visited <==> x in s.visited && x.restaurantId != id
    ensures forall x: CollectionItem :: x.restaurantId != id ==> multiset(s'.visited)[x] == multiset(s.visited)[x]
    ensures Subsequence(s'.visited, s.visited)
    ensures s'.(visited := s.visited) == s
  {
    s.(visited := RemoveItem(s.visited, id))
  }
}
