/** The analytics page (app/analytics/page.tsx): headline counts, the
    country and cuisine distributions, the list partition and the top-10
    table. */
module Analytics {
  import opened Seqs
  import opened StableSort
  import opened Types
  import HeroStats

  // ------------------------------------------------------------- group-by

  /** One bar of a distribution chart: a value and how many restaurants
      carry it. */
  datatype NameCount = NameCount(name: string, count: nat)

  function Names(es: seq<NameCount>): (ns: seq<string>)
    ensures |ns| == |es| && forall i :: 0 <= i < |es| ==> ns[i] == es[i].name
  {
    seq(|es|, i requires 0 <= i < |es| => es[i].name)
  }

  /** One entry per name of `names`, counted in `keys`. */
  function CountEach(keys: seq<string>, names: seq<string>): (es: seq<NameCount>)
    ensures |es| == |names|
    ensures forall i :: 0 <= i < |es| ==> es[i] == NameCount(names[i], multiset(keys)[names[i]])
  {
    if |names| == 0 then []
    else [NameCount(names[0], multiset(keys)[names[0]])] + CountEach(keys, names[1..])
  }

  /** `Object.entries(groupBy(xs, key)).map(([k, g]) => ({ k, g.length }))`:
      each distinct key once, where it first occurs, with its number of
      occurrences. */
  function GroupCounts(keys: seq<string>): (es: seq<NameCount>)
    ensures Names(es) == Dedup(keys)
    ensures NoDup(Names(es))
    ensures forall k :: k in keys <==> k in Names(es)
    ensures forall i :: 0 <= i < |es| ==> es[i].count == multiset(keys)[es[i].name] >= 1
  {
    var d := Dedup(keys);
    var es := CountEach(keys, d);
    assert forall i :: 0 <= i < |d| ==> d[i] in multiset(keys);
    es
  }

  function Total(es: seq<NameCount>): nat {
    if |es| == 0 then 0 else es[0].count + Total(es[1..])
  }

  /** The group sizes add up to the number of records grouped. */
  lemma {:induction false} GroupCountsTotal(keys: seq<string>)
    ensures Total(GroupCounts(keys)) == |keys|
    decreases |keys|
  {
    if |keys| > 0 {
      var x := keys[0];
      var rest := Filter(keys[1..], Other(x));
      GroupCountsCons(keys);
      GroupCountsTotal(rest);
      FilterOtherMultiset(keys[1..], x);
      assert keys == [x] + keys[1..];
    }
  }

  /** Grouping a non-empty list: the first key's group, then the groups of
      the remaining other keys. */
  lemma GroupCountsCons(keys: seq<string>)
    requires |keys| > 0
    ensures Total(GroupCounts(keys)) == multiset(keys)[keys[0]] + Total(GroupCounts(Filter(keys[1..], Other(keys[0]))))
  {
    var x := keys[0];
    var rest := Filter(keys[1..], Other(x));
    var d := Dedup(rest);
    assert Dedup(keys) == [x] + d;
    assert CountEach(keys, [x] + d)[1..] == CountEach(keys, d);
    assert keys == [x] + keys[1..];
    FilterOtherMultiset(keys[1..], x);
    forall y | y in d
      ensures multiset(keys)[y] == multiset(rest)[y]
    {
    }
    CountEachSame(keys, rest, d);
  }

  lemma {:induction false} CountEachSame(a: seq<string>, b: seq<string>, names: seq<string>)
    requires forall y :: y in names ==> multiset(a)[y] == multiset(b)[y]
    ensures CountEach(a, names) == CountEach(b, names)
  {
    if |names| > 0 {
      CountEachSame(a, b, names[1..]);
    }
  }

  lemma {:induction false} TotalAppend(a: seq<NameCount>, b: seq<NameCount>)
    ensures Total(a + b) == Total(a) + Total(b)
  {
    if |a| == 0 {
      assert a + b == b;
    } else {
      assert (a + b)[1..] == a[1..] + b;
      TotalAppend(a[1..], b);
    }
  }

  function ByCountDesc(e: NameCount): Key {
    Descending(e.count)
  }

  /** `.sort((a, b) => b.count - a.count).slice(0, n)`: the `n` largest
      groups, largest first, ties in first-appearance order. The last
      clause says that among the groups of one size the kept ones are the
      first of that size in `GroupCounts` order, in that order: a tie at the
      cut goes to the key seen first. */
  function TopGroups(keys: seq<string>, n: nat): (es: seq<NameCount>)
    ensures |es| == Min(n, |Dedup(keys)|)
    ensures forall i, j :: 0 <= i < j < |es| ==> es[i].count >= es[j].count
    ensures forall i :: 0 <= i < |es| ==> es[i].count == multiset(keys)[es[i].name] >= 1
    ensures NoDup(Names(es))
    ensures forall i, k :: 0 <= i < |es| && 0 <= k < |keys| && keys[k] !in Names(es) ==>
              multiset(keys)[keys[k]] <= es[i].count
    ensures forall c :: WithKey(es, ByCountDesc, c) <= WithKey(GroupCounts(keys), ByCountDesc, c)
  {
    var g := GroupCounts(keys);
    var sorted := SortBy(g, ByCountDesc);
    var es := Take(sorted, n);
    TopGroupsFacts(keys, g, sorted, es);
    forall c ensures WithKey(es, ByCountDesc, c) <= WithKey(g, ByCountDesc, c) {
      WithKeyPrefix(es, sorted, ByCountDesc, c);
    }
    es
  }

  /** Two keys seen once each, one slot: the key seen first is kept. */
  lemma TieGoesToFirstSeen()
    ensures TopGroups(["a", "b"], 1) == [NameCount("a", 1)]
  {
    var keys := ["a", "b"];
    assert multiset(keys)["a"] == 1 && multiset(keys)["b"] == 1;
    FirstLargestGroupWins(keys);
  }

  /** When no key occurs more often than the first one, the first key's
      group takes a single slot, whatever other groups tie with it. */
  lemma FirstLargestGroupWins(keys: seq<string>)
    requires |keys| > 0
    requires forall k :: 0 <= k < |keys| ==> multiset(keys)[keys[k]] <= multiset(keys)[keys[0]]
    ensures TopGroups(keys, 1) == [NameCount(keys[0], multiset(keys)[keys[0]])]
  {
    var g := GroupCounts(keys);
    var es := TopGroups(keys, 1);
    GroupCountsHead(keys);
    SoleTopCount(keys, es);
    SoleTopIsFirstOfItsSize(es, g);
  }

  /** The first group is the first key's. */
  lemma GroupCountsHead(keys: seq<string>)
    requires |keys| > 0
    ensures |GroupCounts(keys)| > 0
    ensures GroupCounts(keys)[0] == NameCount(keys[0], multiset(keys)[keys[0]])
  {
    assert keys[0] in keys;
    assert Names(GroupCounts(keys))[0] == keys[0] by {
      assert Dedup(keys)[0] == keys[0];
    }
  }

  /** A sole kept group is as large as the first key's when that one is
      the largest. */
  lemma SoleTopCount(keys: seq<string>, es: seq<NameCount>)
    requires |keys| > 0 && |es| == 1
    requires es[0].count == multiset(keys)[es[0].name] >= 1
    requires forall k :: 0 <= k < |keys| && keys[k] !in Names(es) ==> multiset(keys)[keys[k]] <= es[0].count
    requires forall k :: 0 <= k < |keys| ==> multiset(keys)[keys[k]] <= multiset(keys)[keys[0]]
    ensures es[0].count == multiset(keys)[keys[0]]
  {
    var name := es[0].name;
    assert name in multiset(keys);
    var k :| 0 <= k < |keys| && keys[k] == name;
    assert Names(es) == [name];
  }

  /** A single kept group whose size is that of the first group, and whose
      size class is a prefix of the full one, is the first group. */
  lemma SoleTopIsFirstOfItsSize(es: seq<NameCount>, g: seq<NameCount>)
    requires |es| == 1 && |g| > 0 && es[0].count == g[0].count
    requires WithKey(es, ByCountDesc, ByCountDesc(g[0])) <= WithKey(g, ByCountDesc, ByCountDesc(g[0]))
    ensures es[0] == g[0]
  {
    var c := ByCountDesc(g[0]);
    assert WithKey(es, ByCountDesc, c) == [es[0]] by {
      assert es[1..] == [];
    }
    assert WithKey(g, ByCountDesc, c)[0] == g[0];
  }

  lemma TopGroupsFacts(keys: seq<string>, g: seq<NameCount>, sorted: seq<NameCount>, es: seq<NameCount>)
    requires g == GroupCounts(keys)
    requires SortedBy(sorted, ByCountDesc) && multiset(sorted) == multiset(g)
    requires es <= sorted
    ensures forall i, j :: 0 <= i < j < |es| ==> es[i].count >= es[j].count
    ensures forall i :: 0 <= i < |es| ==> es[i].count == multiset(keys)[es[i].name] >= 1
    ensures NoDup(Names(es))
    ensures forall i, k :: 0 <= i < |es| && 0 <= k < |keys| && keys[k] !in Names(es) ==>
              multiset(keys)[keys[k]] <= es[i].count
  {
    PrefixDescending(sorted, es);
    CountsSurviveSort(keys, g, sorted, es);
    PermutedNamesNoDup(g, sorted);
    assert Names(es) <= Names(sorted);
    forall k | 0 <= k < |keys| && keys[k] !in Names(es)
      ensures forall i :: 0 <= i < |es| ==> multiset(keys)[keys[k]] <= es[i].count
    {
      LeftOutIsSmaller(keys, g, sorted, es, k);
    }
  }

  lemma PrefixDescending(sorted: seq<NameCount>, es: seq<NameCount>)
    requires SortedBy(sorted, ByCountDesc) && es <= sorted
    ensures forall i, j :: 0 <= i < j < |es| ==> es[i].count >= es[j].count
  {
    forall i, j | 0 <= i < j < |es| ensures es[i].count >= es[j].count {
      assert Le(ByCountDesc(sorted[i]), ByCountDesc(sorted[j]));
    }
  }

  /** Every entry kept after sorting carries its key's true count. */
  lemma CountsSurviveSort(keys: seq<string>, g: seq<NameCount>, sorted: seq<NameCount>, es: seq<NameCount>)
    requires g == GroupCounts(keys)
    requires multiset(sorted) == multiset(g) && es <= sorted
    ensures forall i :: 0 <= i < |es| ==> es[i].count == multiset(keys)[es[i].name] >= 1
  {
    forall i | 0 <= i < |es| ensures es[i].count == multiset(keys)[es[i].name] >= 1 {
      assert es[i] == sorted[i];
      assert es[i] in multiset(g);
    }
  }

  /** Reordering entries keeps their names distinct. */
  lemma PermutedNamesNoDup(g: seq<NameCount>, sorted: seq<NameCount>)
    requires NoDup(Names(g)) && multiset(sorted) == multiset(g)
    ensures NoDup(Names(sorted))
  {
    NamesNoDup(g);
    PermutationNoDup(sorted, g);
    forall i, j | 0 <= i < j < |sorted| ensures Names(sorted)[i] != Names(sorted)[j] {
      assert sorted[i] != sorted[j];
      assert sorted[i] in multiset(g) && sorted[j] in multiset(g);
      var a :| 0 <= a < |g| && g[a] == sorted[i];
      var b :| 0 <= b < |g| && g[b] == sorted[j];
      assert Names(g)[a] != Names(g)[b] by {
        assert a != b;
      }
    }
  }

  /** A key whose group did not make the cut has no more records than any
      group that did. */
  lemma LeftOutIsSmaller(keys: seq<string>, g: seq<NameCount>, sorted: seq<NameCount>, es: seq<NameCount>, k: int)
    requires g == GroupCounts(keys)
    requires SortedBy(sorted, ByCountDesc) && multiset(sorted) == multiset(g)
    requires es <= sorted
    requires 0 <= k < |keys| && keys[k] !in Names(es)
    ensures forall i :: 0 <= i < |es| ==> multiset(keys)[keys[k]] <= es[i].count
  {
    var p := GroupPosition(keys, g, sorted, k);
    forall j | 0 <= j < |es| ensures sorted[j].name != keys[k] {
      assert Names(es)[j] == sorted[j].name;
    }
    BelowCut(sorted, |es|, p);
  }

  /** Where a key's group sits after sorting. */
  lemma GroupPosition(keys: seq<string>, g: seq<NameCount>, sorted: seq<NameCount>, k: int) returns (p: nat)
    requires g == GroupCounts(keys)
    requires multiset(sorted) == multiset(g)
    requires 0 <= k < |keys|
    ensures p < |sorted| && sorted[p].name == keys[k] && sorted[p].count == multiset(keys)[keys[k]]
  {
    assert keys[k] in Names(g);
    var a :| 0 <= a < |g| && Names(g)[a] == keys[k];
    assert g[a] in multiset(sorted);
    p :| 0 <= p < |sorted| && sorted[p] == g[a];
  }

  /** In a list sorted by descending count, an entry at or after the cut is
      no bigger than any entry before it. */
  lemma BelowCut(sorted: seq<NameCount>, cut: nat, p: nat)
    requires SortedBy(sorted, ByCountDesc)
    requires cut <= p < |sorted|
    ensures forall i :: 0 <= i < cut ==> sorted[p].count <= sorted[i].count
  {
    forall i | 0 <= i < cut ensures sorted[p].count <= sorted[i].count {
      assert Le(ByCountDesc(sorted[i]), ByCountDesc(sorted[p]));
    }
  }

  /** Entries with distinct names are distinct entries. */
  lemma NamesNoDup(es: seq<NameCount>)
    requires NoDup(Names(es))
    ensures NoDup(es)
  {
    forall i, j | 0 <= i < j < |es| ensures es[i] != es[j] {
      assert Names(es)[i] != Names(es)[j];
    }
  }

  const CountryBars: nat := 15
  const CuisineSlices: nat := 8

  /** `countryData`. */
  function CountryData(rs: seq<Restaurant>): (es: seq<NameCount>)
    ensures |es| <= CountryBars
    ensures forall i, j :: 0 <= i < j < |es| ==> es[i].count >= es[j].count
  {
    TopGroups(HeroStats.Countries(rs), CountryBars)
  }

  /** `cuisineData`. */
  function CuisineData(rs: seq<Restaurant>): (es: seq<NameCount>)
    ensures |es| <= CuisineSlices
    ensures forall i, j :: 0 <= i < j < |es| ==> es[i].count >= es[j].count
  {
    TopGroups(HeroStats.Cuisines(rs), CuisineSlices)
  }

  /** Every bar of the country chart counts the restaurants in that country. */
  lemma CountryBarsCount(rs: seq<Restaurant>, i: nat)
    requires i < |CountryData(rs)|
    ensures CountryData(rs)[i].count == multiset(HeroStats.Countries(rs))[CountryData(rs)[i].name] >= 1
  {
  }

  /** Every slice of the cuisine chart counts the restaurants of that cuisine. */
  lemma CuisineSlicesCount(rs: seq<Restaurant>, i: nat)
    requires i < |CuisineData(rs)|
    ensures CuisineData(rs)[i].count == multiset(HeroStats.Cuisines(rs))[CuisineData(rs)[i].name] >= 1
  {
  }

  /** Every grouped country sum: all the groups together hold every restaurant. */
  lemma CountryGroupsCoverAll(rs: seq<Restaurant>)
    ensures Total(GroupCounts(HeroStats.Countries(rs))) == |rs|
  {
    GroupCountsTotal(HeroStats.Countries(rs));
  }

  // ------------------------------------------------------------ list data

  function OnList(k: ListKind): Restaurant -> bool {
    (r: Restaurant) => r.list == k
  }

  /** `restaurants.filter(r => r.list === k).length`. */
  function ListCount(rs: seq<Restaurant>, k: ListKind): (n: nat)
    ensures n <= |rs|
    ensures n == 0 <==> forall i :: 0 <= i < |rs| ==> rs[i].list != k
  {
    var on := Filter(rs, OnList(k));
    assert forall i :: 0 <= i < |rs| && rs[i].list == k ==> rs[i] in on;
    |on|
  }

  /** One more restaurant adds one to the share of its own list and
      nothing to the others. */
  lemma ListCountSnoc(rs: seq<Restaurant>, r: Restaurant, k: ListKind)
    ensures ListCount(rs + [r], k) == ListCount(rs, k) + (if r.list == k then 1 else 0)
  {
    FilterAppend(rs, [r], OnList(k));
  }

  /** `listData`: the three list shares, World's 50 Best only, La Liste
      only, both. */
  function ListData(rs: seq<Restaurant>): (v: seq<nat>)
    ensures |v| == 3 && v[0] + v[1] + v[2] == |rs|
  {
    ListPartition(rs);
    [ListCount(rs, Worlds50Best), ListCount(rs, LaListe), ListCount(rs, BothLists)]
  }

  /** Every restaurant is on exactly one of the three lists. */
  lemma {:induction false} ListPartition(rs: seq<Restaurant>)
    ensures ListCount(rs, Worlds50Best) + ListCount(rs, LaListe) + ListCount(rs, BothLists) == |rs|
  {
    if |rs| > 0 {
      ListPartition(rs[1..]);
    }
  }

  datatype Stats = Stats(total: nat, countries: nat, cuisines: nat, onBoth: nat)

  /** `stats`: distinct countries and cuisines are counted as the distinct
      values of each field. */
  function AnalyticsStats(rs: seq<Restaurant>): (s: Stats)
    ensures s.total == |rs|
    ensures s.countries == |set c | c in HeroStats.Countries(rs)| <= |rs|
    ensures s.cuisines == |set c | c in HeroStats.Cuisines(rs)| <= |rs|
    ensures s.onBoth == ListData(rs)[2]
  {
    Stats(|rs|, DistinctCount(HeroStats.Countries(rs)), DistinctCount(HeroStats.Cuisines(rs)),
          ListCount(rs, BothLists))
  }

  /** `restaurants.slice(0, 10)`: the first ten records as stored, not
      re-ranked. */
  function TopTen(rs: seq<Restaurant>): (t: seq<Restaurant>)
    ensures |t| == Min(10, |rs|)
    ensures forall i :: 0 <= i < |t| ==> t[i] == rs[i]
  {
    Take(rs, 10)
  }
}
