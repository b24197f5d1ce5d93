/** The awards encyclopedia page (app/awards/page.tsx): the years that carry
    awards, the winners under the selected kind and year, and the count of
    winners per kind. */
module AwardsPage {
  import opened Optional
  import opened Seqs
  import opened StableSort
  import opened Types
  import Awards
  import AwardBadges

  /** The page's two selections; the year 0 is falsy and selects nothing. */
  datatype Selection = Selection(award: Option<AwardType>, year: Option<int>)

  predicate YearActive(year: Option<int>) {
    year.Some? && year.value != 0
  }

  /** `(searchParams.get('type') as AwardType) || null`: an absent or empty
      parameter selects no kind; any other text is read as a tag. */
  function InitialSelection(typeParam: Option<string>): (sel: Selection)
    ensures sel.year.None?
    ensures sel.award.None? <==> typeParam.None? || typeParam.value == ""
    ensures sel.award.Some? ==> TagOf(sel.award.value) == typeParam.value
  {
    if typeParam.None? || typeParam.value == "" then Selection(None, None)
    else Selection(Some(FromTag(typeParam.value)), None)
  }

  /** `clearFilters`. */
  function ClearFilters(sel: Selection): (sel': Selection)
    ensures sel'.award.None? && sel'.year.None?
  {
    Selection(None, None)
  }

  // ---------------------------------------------------------------- years

  /** Some restaurant holds an award dated `y`. */
  ghost predicate YearAwarded(rs: seq<Restaurant>, y: int) {
    exists i, j :: 0 <= i < |rs| && 0 <= j < |AwardsOf(rs[i])| && AwardsOf(rs[i])[j].year == y
  }

  function YearsIn(awards: seq<Award>): (ys: seq<int>)
    ensures |ys| == |awards|
    ensures forall j :: 0 <= j < |awards| ==> ys[j] == awards[j].year
  {
    seq(|awards|, j requires 0 <= j < |awards| => awards[j].year)
  }

  /** Every award year of every restaurant, restaurant by restaurant. */
  function AllYears(rs: seq<Restaurant>): (ys: seq<int>)
    ensures forall y :: y in ys <==> YearAwarded(rs, y)
  {
    if |rs| == 0 then []
    else
      var ys := YearsIn(AwardsOf(rs[0])) + AllYears(rs[1..]);
      AllYearsStep(rs);
      ys
  }

  lemma AllYearsStep(rs: seq<Restaurant>)
    requires |rs| > 0
    ensures forall y :: YearAwarded(rs, y) <==> (y in YearsIn(AwardsOf(rs[0])) || YearAwarded(rs[1..], y))
  {
    forall y
      ensures YearAwarded(rs, y) <==> (y in YearsIn(AwardsOf(rs[0])) || YearAwarded(rs[1..], y))
    {
      if YearAwarded(rs, y) {
        var i, j :| 0 <= i < |rs| && 0 <= j < |AwardsOf(rs[i])| && AwardsOf(rs[i])[j].year == y;
        if i == 0 {
          assert YearsIn(AwardsOf(rs[0]))[j] == y;
        } else {
          assert rs[1..][i - 1] == rs[i];
        }
      }
      if y in YearsIn(AwardsOf(rs[0])) {
        var j :| 0 <= j < |AwardsOf(rs[0])| && YearsIn(AwardsOf(rs[0]))[j] == y;
        assert AwardsOf(rs[0])[j].year == y;
      }
      if YearAwarded(rs[1..], y) {
        var i, j :| 0 <= i < |rs[1..]| && 0 <= j < |AwardsOf(rs[1..][i])| && AwardsOf(rs[1..][i])[j].year == y;
        assert rs[1..][i] == rs[i + 1];
      }
    }
  }

  function NewestYearFirst(y: int): Key {
    Descending(y)
  }

  /** `awardYears`: the distinct award years, newest first. */
  function AwardYears(rs: seq<Restaurant>): (ys: seq<int>)
    ensures NoDup(ys)
    ensures forall i, j :: 0 <= i < j < |ys| ==> ys[i] > ys[j]
    ensures forall y :: y in ys <==> YearAwarded(rs, y)
  {
    var d := Dedup(AllYears(rs));
    var ys := SortBy(d, NewestYearFirst);
    PermutationNoDup(ys, d);
    SameElements(ys, d);
    NewestFirstStrict(ys);
    ys
  }

  lemma SameElements(a: seq<int>, b: seq<int>)
    requires multiset(a) == multiset(b)
    ensures forall y :: y in a <==> y in b
  {
    forall y ensures y in a <==> y in b {
      assert y in a <==> y in multiset(a);
      assert y in b <==> y in multiset(b);
    }
  }

  /** Newest-first order without repeats is strictly decreasing. */
  lemma NewestFirstStrict(ys: seq<int>)
    requires SortedBy(ys, NewestYearFirst) && NoDup(ys)
    ensures forall i, j :: 0 <= i < j < |ys| ==> ys[i] > ys[j]
  {
    forall i, j | 0 <= i < j < |ys|
      ensures ys[i] > ys[j]
    {
      assert Le(NewestYearFirst(ys[i]), NewestYearFirst(ys[j]));
    }
  }

  // -------------------------------------------------------------- winners

  /** An award of kind `t`, dated `year` when a year is selected. */
  predicate Matches(a: Award, t: AwardType, year: Option<int>) {
    a.awardType == t && (YearActive(year) ==> a.year == year.value)
  }

  predicate HoldsMatching(r: Restaurant, t: AwardType, year: Option<int>) {
    exists j :: 0 <= j < |AwardsOf(r)| && Matches(AwardsOf(r)[j], t, year)
  }

  predicate HasAwardInYear(r: Restaurant, y: int) {
    exists j :: 0 <= j < |AwardsOf(r)| && AwardsOf(r)[j].year == y
  }

  /** The `awardWinners` callback: no awards rejects; a selected kind needs a
      matching award; a year alone needs some award in that year. */
  predicate IsWinner(r: Restaurant, sel: Selection) {
    if |AwardsOf(r)| == 0 then false
    else if sel.award.Some? && !HoldsMatching(r, sel.award.value, sel.year) then false
    else if YearActive(sel.year) && sel.award.None? && !HasAwardInYear(r, sel.year.value) then false
    else true
  }

  function WinnerTest(sel: Selection): Restaurant -> bool {
    r => IsWinner(r, sel)
  }

  /** `awardWinners`: an order-preserving selection of restaurants that all
      hold at least one award. */
  function AwardWinners(rs: seq<Restaurant>, sel: Selection): (ws: seq<Restaurant>)
    ensures Subsequence(ws, rs)
    ensures forall i :: 0 <= i < |ws| ==> |AwardsOf(ws[i])| > 0
    ensures forall r :: r in ws <==> r in rs && IsWinner(r, sel)
  {
    Filter(rs, WinnerTest(sel))
  }

  /** With a kind selected, the winners are the holders of a matching award. */
  lemma WinnersOfKind(rs: seq<Restaurant>, sel: Selection, r: Restaurant)
    requires sel.award.Some?
    ensures r in AwardWinners(rs, sel) <==> r in rs && HoldsMatching(r, sel.award.value, sel.year)
  {
  }

  /** With only a year selected, the winners are the restaurants holding any
      award of that year. */
  lemma WinnersOfYear(rs: seq<Restaurant>, sel: Selection, r: Restaurant)
    requires sel.award.None? && YearActive(sel.year)
    ensures r in AwardWinners(rs, sel) <==> r in rs && HasAwardInYear(r, sel.year.value)
  {
  }

  /** With no kind and no (truthy) year, the winners are exactly the
      restaurants holding at least one award, in their order. */
  lemma WinnersUnfiltered(rs: seq<Restaurant>, sel: Selection)
    requires sel.award.None? && !YearActive(sel.year)
    ensures AwardWinners(rs, sel) == Filter(rs, Awarded())
  {
    FilterSamePredicate(rs, WinnerTest(sel), Awarded());
  }

  function Awarded(): Restaurant -> bool {
    r => |AwardsOf(r)| > 0
  }

  /** After `clearFilters` the winners are every restaurant with an award. */
  lemma ClearedWinners(rs: seq<Restaurant>, sel: Selection)
    ensures AwardWinners(rs, ClearFilters(sel)) == Filter(rs, Awarded())
  {
    WinnersUnfiltered(rs, ClearFilters(sel));
  }

  // --------------------------------------------------------------- counts

  function HolderTest(t: AwardType, year: Option<int>): Restaurant -> bool {
    r => HoldsMatching(r, t, year)
  }

  /** The number of restaurants holding a matching award; a restaurant with
      several counts once. */
  function AwardCount(rs: seq<Restaurant>, t: AwardType, year: Option<int>): (n: nat)
    ensures n <= |rs|
    ensures n == 0 <==> forall i :: 0 <= i < |rs| ==> !HoldsMatching(rs[i], t, year)
  {
    var hs := Filter(rs, HolderTest(t, year));
    assert |hs| > 0 ==> HoldsMatching(hs[0], t, year);
    |hs|
  }

  /** Counting is additive over restaurants: one more restaurant adds one
      exactly when it holds a matching award, however many it holds. */
  lemma AwardCountSnoc(rs: seq<Restaurant>, r: Restaurant, t: AwardType, year: Option<int>)
    ensures AwardCount(rs + [r], t, year) == AwardCount(rs, t, year) + (if HoldsMatching(r, t, year) then 1 else 0)
  {
    FilterAppend(rs, [r], HolderTest(t, year));
    assert [r][1..] == [];
  }

  /** `awardCounts`: one entry per configured kind. */
  function AwardCounts(rs: seq<Restaurant>, year: Option<int>): (m: map<AwardType, nat>)
    ensures forall t :: t in m <==> t in Awards.AllAwardTypes
    ensures forall t :: t in m ==> m[t] == AwardCount(rs, t, year)
  {
    map t | t in Awards.AllAwardTypes :: AwardCount(rs, t, year)
  }

  /** The count shown on the selected kind's chip is the number of winners
      listed. */
  lemma SelectedCountIsWinnerCount(rs: seq<Restaurant>, sel: Selection)
    requires sel.award.Some? && sel.award.value in Awards.AllAwardTypes
    ensures AwardCounts(rs, sel.year)[sel.award.value] == |AwardWinners(rs, sel)|
  {
    FilterSamePredicate(rs, WinnerTest(sel), HolderTest(sel.award.value, sel.year));
  }

  // ------------------------------------------------------------- rendering

  /** The selected kind's badge, label and description are read from the
      award table; a kind with no table entry throws there. */
  predicate SelectionRenders(sel: Selection) {
    sel.award.None? || Awards.BadgeRenders(sel.award.value)
  }

  /** A `?type=` link renders exactly when it is absent, empty, one of the
      ten listed tags, or a prototype name: `?type=constructor` shows a page
      with `undefined` labels, `?type=foo` throws. */
  lemma InitialSelectionRenders(typeParam: Option<string>)
    ensures SelectionRenders(InitialSelection(typeParam)) <==>
              || typeParam.None? || typeParam.value == ""
              || FromTag(typeParam.value) in Awards.AllAwardTypes
              || typeParam.value in Awards.PrototypeNames
    ensures SelectionRenders(InitialSelection(Some("constructor")))
    ensures !SelectionRenders(InitialSelection(Some("foo")))
  {
    if typeParam.Some? && typeParam.value != "" {
      Awards.BadgeRendersIffDefined(FromTag(typeParam.value));
    }
    assert FromTag("constructor") == Unknown("constructor");
    assert FromTag("foo") == Unknown("foo");
  }

  /** Each winner's card shows a badge row of at most four kinds. */
  const WinnerBadges: nat := 4

  /** The page renders: the selection's description and every winner's row. */
  predicate PageRenders(rs: seq<Restaurant>, sel: Selection) {
    var ws := AwardWinners(rs, sel);
    && SelectionRenders(sel)
    && forall i :: 0 <= i < |ws| ==> AwardBadges.RowRenders(AwardBadges.BadgeRowOf(ws[i].awards, WinnerBadges))
  }

  /** When every award of the data has a badge that renders, only the
      selection decides whether the page renders. */
  lemma RenderableDataRenders(rs: seq<Restaurant>, sel: Selection)
    requires forall i :: 0 <= i < |rs| ==> AwardBadges.AllRender(AwardsOf(rs[i]))
    ensures PageRenders(rs, sel) <==> SelectionRenders(sel)
  {
    var ws := AwardWinners(rs, sel);
    forall i | 0 <= i < |ws| ensures AwardBadges.RowRenders(AwardBadges.BadgeRowOf(ws[i].awards, WinnerBadges)) {
      assert ws[i] in rs;
      AwardBadges.BadgeRowRenders(AwardsOf(ws[i]), WinnerBadges);
    }
  }

  /** A listed winner holding a kind whose badge throws, among at most four
      kinds, makes the page throw, whatever the selection. */
  lemma UndefinedKindWinnerThrows(rs: seq<Restaurant>, sel: Selection, i: nat)
    requires i < |AwardWinners(rs, sel)|
    requires !AwardBadges.AllRender(AwardsOf(AwardWinners(rs, sel)[i]))
    requires |AwardBadges.UniqueTypes(AwardsOf(AwardWinners(rs, sel)[i]))| <= WinnerBadges
    ensures !PageRenders(rs, sel)
  {
    var w := AwardWinners(rs, sel)[i];
    AwardBadges.UndefinedKindRowThrows(AwardsOf(w), WinnerBadges);
  }
}
