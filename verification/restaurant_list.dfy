/** The sidebar list (app/components/Sidebar/RestaurantList.tsx): a sorted
    copy of the restaurants, by rank or, once the user's location is known,
    by distance from it. */
module RestaurantList {
  import opened Optional
  import opened StableSort
  import opened Types

  /** `getDistance(r) || Infinity`: a distance of exactly 0 is falsy and
      sorts as infinitely far. */
  function DistanceKey(d: real): (k: Key)
    ensures k == Infinite <==> d == 0.0
    ensures k.Finite? ==> k.value == d
  {
    if d == 0.0 then Infinite else Finite(d)
  }

  /** The comparator's key: the rank without a location, the distance with one. */
  function ListKey(user: Option<Coordinates>, dist: (Coordinates, Coordinates) -> real): Restaurant -> Key {
    (r: Restaurant) => if user.None? then Ascending(r.rank) else DistanceKey(dist(user.value, r.coordinates))
  }

  /** `sortedRestaurants`: a reordered copy; the caller's list is a value
      and stays as it was. */
  function SortedRestaurants(rs: seq<Restaurant>, user: Option<Coordinates>,
                             dist: (Coordinates, Coordinates) -> real): (out: seq<Restaurant>)
    ensures multiset(out) == multiset(rs) && |out| == |rs|
    ensures user.None? ==> forall i, j :: 0 <= i < j < |out| ==> out[i].rank <= out[j].rank
    ensures user.Some? ==> forall i, j :: 0 <= i < j < |out| ==>
              Le(DistanceKey(dist(user.value, out[i].coordinates)), DistanceKey(dist(user.value, out[j].coordinates)))
    ensures StableFor(out, rs, ListKey(user, dist))
  {
    var out := SortBy(rs, ListKey(user, dist));
    SortedByListKey(out, user, dist);
    out
  }

  /** What being sorted by the comparator's key means for each mode. */
  lemma SortedByListKey(out: seq<Restaurant>, user: Option<Coordinates>, dist: (Coordinates, Coordinates) -> real)
    requires SortedBy(out, ListKey(user, dist))
    ensures user.None? ==> forall i, j :: 0 <= i < j < |out| ==> out[i].rank <= out[j].rank
    ensures user.Some? ==> forall i, j :: 0 <= i < j < |out| ==>
              Le(DistanceKey(dist(user.value, out[i].coordinates)), DistanceKey(dist(user.value, out[j].coordinates)))
  {
    forall i, j | 0 <= i < j < |out|
      ensures user.None? ==> out[i].rank <= out[j].rank
      ensures user.Some? ==> Le(DistanceKey(dist(user.value, out[i].coordinates)), DistanceKey(dist(user.value, out[j].coordinates)))
    {
      assert Le(ListKey(user, dist)(out[i]), ListKey(user, dist)(out[j]));
      if user.None? {
        assert ListKey(user, dist)(out[i]) == Ascending(out[i].rank);
        assert ListKey(user, dist)(out[j]) == Ascending(out[j].rank);
        assert out[i].rank as real <= out[j].rank as real;
      }
    }
  }

  /** With a location, a restaurant exactly at the user's position is listed
      after every restaurant at a non-zero distance. */
  lemma ZeroDistanceSortsLast(rs: seq<Restaurant>, user: Coordinates, dist: (Coordinates, Coordinates) -> real,
                              i: nat, j: nat)
    requires i < j < |SortedRestaurants(rs, Some(user), dist)|
    requires dist(user, SortedRestaurants(rs, Some(user), dist)[i].coordinates) == 0.0
    ensures dist(user, SortedRestaurants(rs, Some(user), dist)[j].coordinates) == 0.0
  {
    var out := SortedRestaurants(rs, Some(user), dist);
    assert Le(DistanceKey(dist(user, out[i].coordinates)), DistanceKey(dist(user, out[j].coordinates)));
  }

  /** Two restaurants with the same rank keep their input order. */
  lemma EqualRanksKeepOrder(rs: seq<Restaurant>, dist: (Coordinates, Coordinates) -> real, n: int)
    ensures WithKey(SortedRestaurants(rs, None, dist), ListKey(None, dist), Ascending(n))
         == WithKey(rs, ListKey(None, dist), Ascending(n))
  {
  }

  const DefaultEmptyMessage: string := "No restaurants found"

  datatype ListView = EmptyList(message: string) | Rows(rows: seq<Restaurant>)

  /** The rendered list: the message when there is nothing to show (the
      caller's message, else the default), otherwise the sorted rows. */
  function RenderList(rs: seq<Restaurant>, emptyMessage: Option<string>, user: Option<Coordinates>,
                      dist: (Coordinates, Coordinates) -> real): (v: ListView)
    ensures v.EmptyList? <==> |rs| == 0
    ensures v.EmptyList? ==> v.message == emptyMessage.GetOr(DefaultEmptyMessage)
    ensures v.Rows? ==> v.rows == SortedRestaurants(rs, user, dist) && |v.rows| > 0
  {
    if |rs| == 0 then EmptyList(emptyMessage.GetOr(DefaultEmptyMessage))
    else Rows(SortedRestaurants(rs, user, dist))
  }
}
