/** The sidebar filter panel (app/components/Sidebar/FilterPanel.tsx): the
    chip toggles that add or remove one selected value and the max-distance
    slider. Each produces a patch handed to the store's `setFilters`. */
module FilterPanel {
  import opened Optional
  import opened Seqs
  import opened Types
  import Store

  /** `current.includes(v) ? current.filter(x => x !== v) : [...current, v]`. */
  function Toggle<T(==)>(current: seq<T>, v: T): (r: seq<T>)
    ensures v in r <==> v !in current
    ensures forall i :: 0 <= i < |r| && r[i] != v ==> r[i] in current
    ensures forall i :: 0 <= i < |current| && current[i] != v ==> current[i] in r
    ensures v in current ==> Subsequence(r, current)
    ensures v in current ==> forall i :: 0 <= i < |current| && current[i] != v ==> multiset(r)[current[i]] == multiset(current)[current[i]]
    ensures v !in current ==> |r| == |current| + 1 && r[..|current|] == current && r[|current|] == v
  {
    if v in current then
      var r := Filter(current, Other(v));
      FilterOtherMultiset(current, v);
      assert forall i :: 0 <= i < |r| ==> r[i] != v;
      r
    else
      current + [v]
  }

  /** Toggling a value that is not selected, then toggling it again, gives
      back the original list exactly. */
  lemma ToggleTwiceRestores<T>(current: seq<T>, v: T)
    requires v !in current
    ensures Toggle(Toggle(current, v), v) == current
  {
    var p := Other(v);
    FilterAppend(current, [v], p);
    FilterAll(current, p);
    assert [v][1..] == [];
    assert Filter([v], p) == [];
  }

  /** Toggling a selected value that occurs once, then again, moves it to
      the end of the list. */
  lemma ToggleTwiceMovesToEnd<T>(current: seq<T>, v: T, i: nat)
    requires i < |current| && current[i] == v && NoDup(current)
    ensures Toggle(Toggle(current, v), v) == current[..i] + current[i + 1..] + [v]
  {
    var a, b := current[..i], current[i + 1..];
    assert current == a + [v] + b;
    assert v !in a && v !in b;
    RemoveSole(a, b, v);
    assert Toggle(current, v) == a + b;
  }

  /** Removing a value that occurs once closes the gap it leaves. */
  lemma RemoveSole<T>(a: seq<T>, b: seq<T>, v: T)
    requires v !in a && v !in b
    ensures Filter(a + [v] + b, Other(v)) == a + b
  {
    var p := Other(v);
    FilterAll(a, p);
    FilterAll(b, p);
    assert [v][1..] == [];
    assert Filter([v], p) == [];
    FilterAppend(a, [v], p);
    assert Filter(a + [v], p) == a;
    FilterAppend(a + [v], b, p);
  }

  /** `toggleListFilter`: only the two single-list values are offered. */
  function ToggleListFilter(s: Store.AppState, v: ListKind): (s': Store.AppState)
    requires v != BothLists
    ensures v in s'.filters.lists <==> v !in s.filters.lists
    ensures forall w :: w != v ==> (w in s'.filters.lists <==> w in s.filters.lists)
    ensures s'.filters.(lists := s.filters.lists) == s.filters
    ensures s'.(filters := s.filters) == s
  {
    var r := Store.SetFilters(s, Store.EmptyPatch.(lists := Some(Toggle(s.filters.lists, v))));
    ToggleOthers(s.filters.lists, v);
    r
  }

  /** Membership of every value other than the toggled one is unchanged. */
  lemma ToggleOthers<T>(current: seq<T>, v: T)
    ensures forall w :: w != v ==> (w in Toggle(current, v) <==> w in current)
  {
    var r := Toggle(current, v);
    forall w | w != v
      ensures w in r <==> w in current
    {
      if w in r {
        var i :| 0 <= i < |r| && r[i] == w;
      }
      if w in current {
        var i :| 0 <= i < |current| && current[i] == w;
      }
    }
  }

  /** The two chip groups `toggleArrayFilter` serves. */
  datatype ArrayKey = Cuisines | Countries

  /** `toggleArrayFilter(key, v)`: toggles `v` in the chosen group and
      patches that key only. */
  function ToggleArrayFilter(s: Store.AppState, key: ArrayKey, v: string): (s': Store.AppState)
    ensures key == Cuisines ==> (v in s'.filters.cuisines <==> v !in s.filters.cuisines)
    ensures key == Cuisines ==> forall w :: w != v ==> (w in s'.filters.cuisines <==> w in s.filters.cuisines)
    ensures key == Cuisines ==> s'.filters.(cuisines := s.filters.cuisines) == s.filters
    ensures key == Countries ==> (v in s'.filters.countries <==> v !in s.filters.countries)
    ensures key == Countries ==> forall w :: w != v ==> (w in s'.filters.countries <==> w in s.filters.countries)
    ensures key == Countries ==> s'.filters.(countries := s.filters.countries) == s.filters
    ensures s'.(filters := s.filters) == s
  {
    match key
    case Cuisines =>
      ToggleOthers(s.filters.cuisines, v);
      Store.SetFilters(s, Store.EmptyPatch.(cuisines := Some(Toggle(s.filters.cuisines, v))))
    case Countries =>
      ToggleOthers(s.filters.countries, v);
      Store.SetFilters(s, Store.EmptyPatch.(countries := Some(Toggle(s.filters.countries, v))))
  }

  /** Toggling an unselected cuisine or country twice leaves the filters as
      they were. */
  lemma ToggleArrayFilterTwice(s: Store.AppState, key: ArrayKey, v: string)
    requires key == Cuisines ==> v !in s.filters.cuisines
    requires key == Countries ==> v !in s.filters.countries
    ensures ToggleArrayFilter(ToggleArrayFilter(s, key, v), key, v) == s
  {
    match key
    case Cuisines => ToggleTwiceRestores(s.filters.cuisines, v);
    case Countries => ToggleTwiceRestores(s.filters.countries, v);
  }

  /** The right end of the slider, read as "no limit". */
  const SliderMax: int := 20000

  /** The slider's `onChange`: the top position clears the limit, any other
      position is stored as a number of kilometres. */
  function SliderToMaxDistance(value: int): (m: Option<real>)
    ensures m.None? <==> value == SliderMax
    ensures m.Some? ==> m.value == value as real
  {
    if value == SliderMax then None else Some(value as real)
  }

  /** The heading's distance text: a number of kilometres, or "Any". */
  datatype DistanceLabel = Any | Km(km: real)

  /** `filters.maxDistance ? ... : 'Any'`: 0 is falsy and reads as "Any". */
  function MaxDistanceLabel(m: Option<real>): (l: DistanceLabel)
    ensures l == Any <==> m.None? || m.value == 0.0
    ensures l.Km? ==> m == Some(l.km)
  {
    if m.Some? && m.value != 0.0 then Km(m.value) else Any
  }

  /** `filters.maxDistance || 20000`: the thumb sits at the stored limit, or
      at the right end when there is none or it is 0. */
  function SliderPosition(m: Option<real>): (pos: real)
    ensures m.None? || m.value == 0.0 ==> pos == SliderMax as real
    ensures m.Some? && m.value != 0.0 ==> pos == m.value
  {
    if m.Some? && m.value != 0.0 then m.value else SliderMax as real
  }

  /** Moving the slider to any position other than 0 puts the thumb back at
      that position, and the heading shows that many kilometres (or "Any" at
      the right end). */
  lemma SliderRoundTrip(value: int)
    requires 0 < value <= SliderMax
    ensures SliderPosition(SliderToMaxDistance(value)) == value as real
    ensures value < SliderMax ==> MaxDistanceLabel(SliderToMaxDistance(value)) == Km(value as real)
    ensures value == SliderMax ==> MaxDistanceLabel(SliderToMaxDistance(value)) == Any
  {
  }

  /** Moving the slider to 0 stores an active 0 km limit, yet the heading
      reads "Any" and the thumb jumps to the right end. */
  lemma SliderAtZero()
    ensures SliderToMaxDistance(0) == Some(0.0)
    ensures MaxDistanceLabel(SliderToMaxDistance(0)) == Any
    ensures SliderPosition(SliderToMaxDistance(0)) == SliderMax as real
  {
  }

  /** The slider change patches `maxDistance` and nothing else. */
  function SetSlider(s: Store.AppState, value: int): (s': Store.AppState)
    ensures s'.filters.maxDistance == SliderToMaxDistance(value)
    ensures s'.filters.(maxDistance := s.filters.maxDistance) == s.filters
    ensures s'.(filters := s.filters) == s
  {
    Store.SetFilters(s, Store.EmptyPatch.(maxDistance := Some(SliderToMaxDistance(value))))
  }
}
