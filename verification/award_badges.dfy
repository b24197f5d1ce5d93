/** Award badges of one restaurant (app/components/UI/AwardBadges.tsx): the
    row of badges with a "+N" overflow marker, the latest award of a kind,
    and the grid that keeps one award per kind. */
module AwardBadges {
  import opened Optional
  import opened Seqs
  import opened StableSort
  import opened Types
  import opened Awards

  /** `awards.map(a => a.type)`. */
  function TypesOf(awards: seq<Award>): (ts: seq<AwardType>)
    ensures |ts| == |awards|
    ensures forall i :: 0 <= i < |ts| ==> ts[i] == awards[i].awardType
  {
    if |awards| == 0 then [] else [awards[0].awardType] + TypesOf(awards[1..])
  }

  lemma {:induction false} TypesOfAppend(a: seq<Award>, b: seq<Award>)
    ensures TypesOf(a + b) == TypesOf(a) + TypesOf(b)
  {
  }

  /** `awards.filter(a => a.type === t)`. */
  function OfType(awards: seq<Award>, t: AwardType): (r: seq<Award>)
    ensures forall i :: 0 <= i < |r| ==> r[i].awardType == t && r[i] in awards
    ensures |r| == 0 <==> t !in TypesOf(awards)
  {
    if |awards| == 0 then []
    else if awards[0].awardType == t then [awards[0]] + OfType(awards[1..], t)
    else OfType(awards[1..], t)
  }

  lemma {:induction false} OfTypeAppend(a: seq<Award>, b: seq<Award>, t: AwardType)
    ensures OfType(a + b, t) == OfType(a, t) + OfType(b, t)
  {
    if |a| == 0 {
      assert a + b == b;
    } else {
      assert (a + b)[1..] == a[1..] + b;
      OfTypeAppend(a[1..], b, t);
    }
  }

  /** `a` is an award of `s` with the greatest year, and no award before it in
      `s` has that year. */
  ghost predicate IsLatest(s: seq<Award>, a: Award) {
    exists i :: 0 <= i < |s| && s[i] == a
      && (forall j :: 0 <= j < |s| ==> s[j].year <= a.year)
      && (forall j :: 0 <= j < i ==> s[j].year < a.year)
  }

  /** At most one award of a list is the latest. */
  lemma IsLatestUnique(s: seq<Award>, a: Award, b: Award)
    requires IsLatest(s, a) && IsLatest(s, b)
    ensures a == b
  {
    var i :| 0 <= i < |s| && s[i] == a
      && (forall j :: 0 <= j < |s| ==> s[j].year <= a.year)
      && (forall j :: 0 <= j < i ==> s[j].year < a.year);
    var k :| 0 <= k < |s| && s[k] == b
      && (forall j :: 0 <= j < |s| ==> s[j].year <= b.year)
      && (forall j :: 0 <= j < k ==> s[j].year < b.year);
    assert a.year == b.year;
    assert !(i < k) && !(k < i);
  }

  // ---------------------------------------------------------------------
  // AwardBadges

  /** `[...new Set(sortAwardsByPriority(awards.map(a => a.type)))]`. */
  function UniqueTypes(awards: seq<Award>): (r: seq<AwardType>)
    ensures NoDup(r)
    ensures forall t :: t in r <==> t in TypesOf(awards)
    ensures forall i, j :: 0 <= i < j < |r| ==> Priority(r[i]) <= Priority(r[j])
  {
    var sorted := SortAwardsByPriority(TypesOf(awards));
    var r := Dedup(sorted);
    UniqueTypesFacts(TypesOf(awards), sorted, r);
    r
  }

  lemma UniqueTypesFacts(ts: seq<AwardType>, sorted: seq<AwardType>, r: seq<AwardType>)
    requires sorted == SortAwardsByPriority(ts) && r == Dedup(sorted)
    ensures forall t :: t in r <==> t in ts
    ensures forall i, j :: 0 <= i < j < |r| ==> Priority(r[i]) <= Priority(r[j])
  {
    assert SortedBy(sorted, PriorityKey);
    SubsequenceSorted(r, sorted, PriorityKey);
    forall t ensures t in r <==> t in ts {
      assert t in sorted <==> t in multiset(sorted);
      assert t in ts <==> t in multiset(ts);
    }
    forall i, j | 0 <= i < j < |r| ensures Priority(r[i]) <= Priority(r[j]) {
      assert Le(PriorityKey(r[i]), PriorityKey(r[j]));
    }
  }

  /** What the badge row renders. */
  datatype BadgeRow = NoBadges | Badges(display: seq<AwardType>, remaining: nat)

  /** The badge row: nothing for a missing or empty award list; otherwise the
      first `maxDisplay` distinct kinds and the count of those left over. */
  function BadgeRowOf(awards: Option<seq<Award>>, maxDisplay: nat): (v: BadgeRow)
    ensures v.NoBadges? <==> awards.None? || |awards.value| == 0
    ensures v.Badges? ==> var u := UniqueTypes(awards.value);
      && v.display <= u
      && |v.display| == Min(maxDisplay, |u|)
      && v.remaining == |u| - |v.display|
      && (v.remaining > 0 <==> |u| > maxDisplay)
  {
    if awards.None? || |awards.value| == 0 then NoBadges
    else
      var u := UniqueTypes(awards.value);
      var d := Take(u, maxDisplay);
      Badges(d, |u| - |d|)
  }

  /** Every award of the list has a kind whose badge renders. */
  predicate AllRender(awards: seq<Award>) {
    forall i :: 0 <= i < |awards| ==> BadgeRenders(awards[i].awardType)
  }

  /** The row renders unless a kind it displays throws. */
  predicate RowRenders(v: BadgeRow) {
    v.NoBadges? || forall i :: 0 <= i < |v.display| ==> BadgeRenders(v.display[i])
  }

  /** A row whose kinds all render renders. */
  lemma BadgeRowRenders(awards: seq<Award>, maxDisplay: nat)
    requires AllRender(awards)
    ensures RowRenders(BadgeRowOf(Some(awards), maxDisplay))
  {
    var v := BadgeRowOf(Some(awards), maxDisplay);
    if |awards| > 0 {
      DisplayedKindsPresent(awards, v.display);
      forall i | 0 <= i < |v.display| ensures BadgeRenders(v.display[i]) {
        var k :| 0 <= k < |awards| && awards[k].awardType == v.display[i];
      }
    }
  }

  /** A kind whose badge throws breaks the row once it is among the
      displayed ones, which it always is when no more than `maxDisplay`
      kinds are present. */
  lemma UndefinedKindRowThrows(awards: seq<Award>, maxDisplay: nat)
    requires !AllRender(awards) && |UniqueTypes(awards)| <= maxDisplay
    ensures !RowRenders(BadgeRowOf(Some(awards), maxDisplay))
  {
    var i :| 0 <= i < |awards| && !BadgeRenders(awards[i].awardType);
    var t := awards[i].awardType;
    var u := UniqueTypes(awards);
    assert TypesOf(awards)[i] == t;
    assert t in u;
    var k :| 0 <= k < |u| && u[k] == t;
    var v := BadgeRowOf(Some(awards), maxDisplay);
    assert v.display <= u && |v.display| == |u|;
    assert v.display[k] == t;
  }

  /** Every displayed kind is the kind of some award of the list. */
  lemma DisplayedKindsPresent(awards: seq<Award>, display: seq<AwardType>)
    requires display <= UniqueTypes(awards)
    ensures forall i :: 0 <= i < |display| ==> exists k :: 0 <= k < |awards| && awards[k].awardType == display[i]
  {
    var u := UniqueTypes(awards);
    forall i | 0 <= i < |display| ensures exists k :: 0 <= k < |awards| && awards[k].awardType == display[i] {
      assert display[i] == u[i];
      assert u[i] in TypesOf(awards);
      var k :| 0 <= k < |awards| && TypesOf(awards)[k] == u[i];
    }
  }

  function NewestFirst(a: Award): Key {
    Descending(a.year)
  }

  /** `getLatestAward(t)`: the awards of kind `t`, stably sorted by year
      descending, and the first of them; None where the source reads index 0
      of an empty array. */
  function LatestAward(awards: seq<Award>, t: AwardType): (r: Option<Award>)
    ensures r.None? <==> t !in TypesOf(awards)
    ensures r.Some? ==> r.value.awardType == t && IsLatest(OfType(awards, t), r.value)
  {
    var f := OfType(awards, t);
    var sorted := SortBy(f, NewestFirst);
    if |sorted| == 0 then None
    else
      SortHeadIsLatest(f, sorted);
      Some(sorted[0])
  }

  /** The head of the year-descending stable sort is the latest award. */
  lemma SortHeadIsLatest(f: seq<Award>, sorted: seq<Award>)
    requires |f| > 0 && sorted == SortBy(f, NewestFirst)
    ensures IsLatest(f, sorted[0])
  {
    var top := sorted[0];
    SortHeadHasGreatestYear(f, sorted);
    SortHeadIsFirstWithLeastKey(f, NewestFirst);
    var i := WithKeyHead(f, NewestFirst, NewestFirst(top));
    NoEarlierSameYear(f, top, i);
  }

  lemma SortHeadHasGreatestYear(f: seq<Award>, sorted: seq<Award>)
    requires |f| > 0 && sorted == SortBy(f, NewestFirst)
    ensures forall j :: 0 <= j < |f| ==> f[j].year <= sorted[0].year
  {
    forall j | 0 <= j < |f| ensures f[j].year <= sorted[0].year {
      assert f[j] in multiset(sorted);
      SortedHeadLeast(sorted, NewestFirst, f[j]);
    }
  }

  lemma NoEarlierSameYear(f: seq<Award>, top: Award, i: int)
    requires 0 <= i < |f| && f[i] == top
    requires forall j :: 0 <= j < |f| ==> f[j].year <= top.year
    requires forall j :: 0 <= j < i ==> NewestFirst(f[j]) != NewestFirst(top)
    ensures IsLatest(f, top)
  {
    forall j | 0 <= j < i ensures f[j].year < top.year {
      assert NewestFirst(f[j]) != NewestFirst(top);
    }
  }

  // ---------------------------------------------------------------------
  // AwardGrid

  /** The reducer step of AwardGrid, reading awards left to right: an award
      replaces the kept one only when its year is strictly greater. */
  function KeepLatest(s: seq<Award>): (r: Option<Award>)
    ensures r.None? <==> |s| == 0
    ensures r.Some? ==> IsLatest(s, r.value)
  {
    if |s| == 0 then None
    else
      var prev := KeepLatest(s[..|s| - 1]);
      var a := s[|s| - 1];
      if prev.None? || prev.value.year < a.year then
        KeepLatestTakes(s, prev);
        Some(a)
      else
        KeepLatestKeeps(s, prev.value);
        prev
  }

  lemma KeepLatestTakes(s: seq<Award>, prev: Option<Award>)
    requires |s| > 0
    requires prev.None? <==> |s| == 1
    requires prev.Some? ==> IsLatest(s[..|s| - 1], prev.value) && prev.value.year < s[|s| - 1].year
    ensures IsLatest(s, s[|s| - 1])
  {
    var n := |s| - 1;
    if prev.Some? {
      var i :| 0 <= i < n && s[..n][i] == prev.value
        && (forall j :: 0 <= j < n ==> s[..n][j].year <= prev.value.year);
      assert forall j :: 0 <= j < n ==> s[j].year < s[n].year by {
        forall j | 0 <= j < n ensures s[j].year < s[n].year {
          assert s[..n][j] == s[j];
        }
      }
    }
  }

  lemma KeepLatestKeeps(s: seq<Award>, p: Award)
    requires |s| > 1
    requires IsLatest(s[..|s| - 1], p) && s[|s| - 1].year <= p.year
    ensures IsLatest(s, p)
  {
    var n := |s| - 1;
    var i :| 0 <= i < n && s[..n][i] == p
      && (forall j :: 0 <= j < n ==> s[..n][j].year <= p.year)
      && (forall j :: 0 <= j < i ==> s[..n][j].year < p.year);
    assert s[i] == p;
    forall j | 0 <= j < |s| ensures s[j].year <= p.year {
      if j < n { assert s[..n][j] == s[j]; }
    }
    forall j | 0 <= j < i ensures s[j].year < p.year {
      assert s[..n][j] == s[j];
    }
  }

  /** One more award read by the reducer. */
  lemma KeepLatestSnoc(s: seq<Award>, a: Award)
    ensures KeepLatest(s + [a]) ==
      if KeepLatest(s).None? || KeepLatest(s).value.year < a.year then Some(a) else KeepLatest(s)
  {
    assert (s + [a])[..|s|] == s;
  }

  /** The `awardsByType` accumulator after reading `awards` left to right:
      it holds every kind present except the inherited ones. */
  function GroupLatest(awards: seq<Award>): (m: map<AwardType, Award>)
    ensures forall t :: t in m <==> t in TypesOf(awards) && !Inherited(t)
    ensures forall t :: t in m ==> Some(m[t]) == KeepLatest(OfType(awards, t))
  {
    if |awards| == 0 then map[]
    else
      var init := awards[..|awards| - 1];
      var a := awards[|awards| - 1];
      assert awards == init + [a];
      GroupLatestStep(init, a, GroupLatest(init))
  }

  /** The reducer reading one more award. `acc[type]` of an inherited kind
      is a truthy member with no `year`, and `undefined < year` is false, so
      such an award is never stored. */
  function GroupLatestStep(init: seq<Award>, a: Award, acc: map<AwardType, Award>): (m: map<AwardType, Award>)
    requires forall t :: t in acc <==> t in TypesOf(init) && !Inherited(t)
    requires forall t :: t in acc ==> Some(acc[t]) == KeepLatest(OfType(init, t))
    ensures forall t :: t in m <==> t in TypesOf(init + [a]) && !Inherited(t)
    ensures forall t :: t in m ==> Some(m[t]) == KeepLatest(OfType(init + [a], t))
    ensures Inherited(a.awardType) ==> m == acc
  {
    TypesOfAppend(init, [a]);
    var m := if !Inherited(a.awardType) && (a.awardType !in acc || acc[a.awardType].year < a.year)
      then acc[a.awardType := a] else acc;
    GroupLatestStepKeeps(init, a, acc, m);
    m
  }

  lemma GroupLatestStepKeeps(init: seq<Award>, a: Award, acc: map<AwardType, Award>, m: map<AwardType, Award>)
    requires forall t :: t in acc <==> t in TypesOf(init) && !Inherited(t)
    requires forall t :: t in acc ==> Some(acc[t]) == KeepLatest(OfType(init, t))
    requires m == if !Inherited(a.awardType) && (a.awardType !in acc || acc[a.awardType].year < a.year)
      then acc[a.awardType := a] else acc
    ensures forall t :: t in m ==> Some(m[t]) == KeepLatest(OfType(init + [a], t))
  {
    forall t | t in m ensures Some(m[t]) == KeepLatest(OfType(init + [a], t)) {
      OfTypeAppend(init, [a], t);
      if t == a.awardType {
        StepKeepsOwnKind(init, a, acc, m);
      } else {
        assert OfType([a], t) == [];
        assert OfType(init + [a], t) == OfType(init, t);
      }
    }
  }

  /** The step at the kind of the award read. */
  lemma StepKeepsOwnKind(init: seq<Award>, a: Award, acc: map<AwardType, Award>, m: map<AwardType, Award>)
    requires a.awardType in acc ==> Some(acc[a.awardType]) == KeepLatest(OfType(init, a.awardType))
    requires a.awardType !in acc ==> KeepLatest(OfType(init, a.awardType)).None? || Inherited(a.awardType)
    requires !Inherited(a.awardType) ==> m == if a.awardType !in acc || acc[a.awardType].year < a.year
      then acc[a.awardType := a] else acc
    requires Inherited(a.awardType) ==> a.awardType !in m
    requires a.awardType in m
    ensures Some(m[a.awardType]) == KeepLatest(OfType(init + [a], a.awardType))
  {
    var t := a.awardType;
    OfTypeAppend(init, [a], t);
    assert OfType([a], t) == [a];
    KeepLatestSnoc(OfType(init, t), a);
  }

  /** The grid: nothing for a missing or empty list; otherwise the latest
      award of each kind the accumulator holds, kinds in priority order. */
  function AwardGrid(awards: Option<seq<Award>>): (g: Option<seq<Award>>)
    ensures g.None? <==> awards.None? || |awards.value| == 0
    ensures g.Some? ==> GridShape(awards.value, g.value)
  {
    if awards.None? || |awards.value| == 0 then None
    else
      var s := awards.value;
      var m := GroupLatest(s);
      var keys := SortAwardsByPriority(Filter(Dedup(TypesOf(s)), Own()));
      GridKeys(s, keys);
      var g := LookupAll(m, keys);
      GridEntries(s, m, keys, g);
      Some(g)
  }

  /** The grid renders unless one of its awards has no configuration. */
  predicate GridRenders(g: Option<seq<Award>>) {
    g.None? || AllRender(g.value)
  }

  /** The grid renders exactly when every award of the list is of a
      kind whose badge renders: it shows one award of every kind present
      but the inherited ones, whose badges render anyway. */
  lemma AwardGridRenders(awards: Option<seq<Award>>)
    ensures GridRenders(AwardGrid(awards)) <==> awards.None? || AllRender(awards.value)
  {
    var g := AwardGrid(awards);
    if g.Some? {
      ShapeRenders(awards.value, g.value);
    }
  }

  lemma ShapeRenders(s: seq<Award>, g: seq<Award>)
    requires GridShape(s, g)
    ensures AllRender(g) <==> AllRender(s)
  {
    var ts := TypesOf(g);
    if AllRender(s) {
      forall i | 0 <= i < |g| ensures BadgeRenders(g[i].awardType) {
        assert ts[i] in ts;
        var k :| 0 <= k < |s| && TypesOf(s)[k] == ts[i];
      }
    }
    if AllRender(g) {
      forall i | 0 <= i < |s| ensures BadgeRenders(s[i].awardType) {
        if !Inherited(s[i].awardType) {
          assert TypesOf(s)[i] in TypesOf(s);
          var k :| 0 <= k < |ts| && ts[k] == s[i].awardType;
        }
      }
    }
  }

  /** `keys.map(t => m[t])`. */
  function LookupAll(m: map<AwardType, Award>, keys: seq<AwardType>): (g: seq<Award>)
    requires forall t :: t in keys ==> t in m
    ensures |g| == |keys| && forall i :: 0 <= i < |keys| ==> g[i] == m[keys[i]]
  {
    if |keys| == 0 then [] else [m[keys[0]]] + LookupAll(m, keys[1..])
  }

  /** One award per kind present and not inherited, kinds in priority
      order, each the latest of its kind. */
  ghost predicate GridShape(s: seq<Award>, g: seq<Award>) {
    var ts := TypesOf(g);
    && NoDup(ts)
    && (forall t :: t in ts <==> t in TypesOf(s) && !Inherited(t))
    && (forall i, j :: 0 <= i < j < |ts| ==> Priority(ts[i]) <= Priority(ts[j]))
    && (forall i :: 0 <= i < |g| ==> IsLatest(OfType(s, g[i].awardType), g[i]))
  }

  /** `Object.keys(awardsByType)`: the kinds stored, once each, in the
      order they were first stored. */
  function Own(): AwardType -> bool {
    (t: AwardType) => !Inherited(t)
  }

  lemma GridKeys(s: seq<Award>, keys: seq<AwardType>)
    requires keys == SortAwardsByPriority(Filter(Dedup(TypesOf(s)), Own()))
    ensures NoDup(keys)
    ensures forall t :: t in keys <==> t in TypesOf(s) && !Inherited(t)
  {
    var d := Filter(Dedup(TypesOf(s)), Own());
    FilterNoDup(Dedup(TypesOf(s)), Own());
    PermutationNoDup(keys, d);
    forall t ensures t in keys <==> t in TypesOf(s) && !Inherited(t) {
      assert t in keys <==> t in multiset(keys);
      assert t in d <==> t in multiset(d);
      if t in TypesOf(s) && !Inherited(t) {
        assert t in Dedup(TypesOf(s));
      }
    }
  }

  lemma GridEntries(s: seq<Award>, m: map<AwardType, Award>, keys: seq<AwardType>, g: seq<Award>)
    requires forall t :: t in m <==> t in TypesOf(s) && !Inherited(t)
    requires forall t :: t in m ==> Some(m[t]) == KeepLatest(OfType(s, t))
    requires NoDup(keys)
    requires forall t :: t in keys <==> t in TypesOf(s) && !Inherited(t)
    requires forall i, j :: 0 <= i < j < |keys| ==> Priority(keys[i]) <= Priority(keys[j])
    requires |g| == |keys| && forall i :: 0 <= i < |keys| ==> g[i] == m[keys[i]]
    ensures GridShape(s, g)
  {
    forall i | 0 <= i < |g|
      ensures g[i].awardType == keys[i] && IsLatest(OfType(s, g[i].awardType), g[i])
    {
      var t := keys[i];
      var k := KeepLatest(OfType(s, t));
      assert k == Some(g[i]);
      var w :| 0 <= w < |OfType(s, t)| && OfType(s, t)[w] == k.value;
    }
    assert TypesOf(g) == keys;
  }

  /** The grid and the badge row agree: for every kind present the grid
      keeps exactly the award `getLatestAward` picks, unless the kind is
      inherited, which the grid drops and `getLatestAward` still finds. */
  lemma GridAgreesWithLatestAward(awards: seq<Award>, t: AwardType)
    requires |awards| > 0 && t in TypesOf(awards)
    ensures t in GroupLatest(awards) <==> !Inherited(t)
    ensures LatestAward(awards, t).Some?
    ensures !Inherited(t) ==> LatestAward(awards, t) == Some(GroupLatest(awards)[t])
  {
    var m := GroupLatest(awards);
    var l := LatestAward(awards, t);
    if !Inherited(t) {
      var k := KeepLatest(OfType(awards, t));
      IsLatestUnique(OfType(awards, t), l.value, k.value);
    }
  }

  /** An award of kind `constructor` alone gives an empty grid, while
      `getLatestAward` returns it. */
  lemma InheritedKindLeftOut()
    ensures var s := [Award(Unknown("constructor"), 2020, None)];
      && AwardGrid(Some(s)) == Some([])
      && LatestAward(s, Unknown("constructor")) == Some(s[0])
  {
    var s := [Award(Unknown("constructor"), 2020, None)];
    assert Inherited(Unknown("constructor"));
    assert TypesOf(s) == [Unknown("constructor")];
    var g := AwardGrid(Some(s)).value;
    if |g| > 0 {
      assert TypesOf(g)[0] in TypesOf(g);
      assert false;
    }
    assert OfType(s, Unknown("constructor")) == s;
  }
}
