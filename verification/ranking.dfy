/** The ranking history views: the change badge and peak rank of the detail
    panel's awards tab (app/components/Restaurant/AwardsTab.tsx), and the
    timeline chart's data (app/components/Charts/RankingTimeline.tsx). */

module AwardsTab {
  import opened Optional
  import opened Types
  import RankingTimeline

  /** `rankingHistory[length - 2]?.rank` when there are two entries or more:
      the entry before the last by position, which may itself be unranked. */
  function PreviousRank(history: seq<RankingHistoryEntry>): (p: Option<int>)
    ensures |history| < 2 ==> p.None?
    ensures |history| >= 2 ==> p == history[|history| - 2].rank
  {
    if |history| >= 2 then history[|history| - 2].rank else None
  }

  datatype Direction = Up | Down | Same

  datatype RankChange = RankChange(change: Option<int>, direction: Option<Direction>)

  /** `rankChange` and `rankChangeDirection`: a smaller rank number is a
      better place, so moving from 5 to 3 is a change of +2, upwards. A rank
      of 0 is a number here, not a missing value. */
  function RankChangeOf(current: int, history: seq<RankingHistoryEntry>): (c: RankChange)
    ensures c.change.None? <==> PreviousRank(history).None?
    ensures c.direction.None? <==> c.change.None?
    ensures c.change.Some? ==> c.change.value + current == PreviousRank(history).value
    ensures c.direction == Some(Up) <==> c.change.Some? && c.change.value > 0
    ensures c.direction == Some(Down) <==> c.change.Some? && c.change.value < 0
    ensures c.direction == Some(Same) <==> c.change == Some(0)
  {
    match PreviousRank(history)
    case None => RankChange(None, None)
    case Some(prev) =>
      var delta := prev - current;
      RankChange(Some(delta), Some(if delta > 0 then Up else if delta < 0 then Down else Same))
  }

  /** The badge points up exactly when the restaurant now holds a better
      (numerically smaller) rank than in the year before the last entry. */
  lemma UpMeansClimbed(current: int, history: seq<RankingHistoryEntry>)
    requires |history| >= 2 && history[|history| - 2].rank.Some?
    ensures RankChangeOf(current, history).direction == Some(Up) <==> current < history[|history| - 2].rank.value
    ensures RankChangeOf(current, history).direction == Some(Down) <==> current > history[|history| - 2].rank.value
  {
  }

  /** `restaurant.peakRank || currentRank`: a missing or zero peak falls
      back to the current rank. */
  function PeakRank(r: Restaurant): (p: int)
    ensures r.peakRank.Some? && r.peakRank.value != 0 ==> p == r.peakRank.value
    ensures r.peakRank.None? || r.peakRank.value == 0 ==> p == r.rank
  {
    if r.peakRank.Some? && r.peakRank.value != 0 then r.peakRank.value else r.rank
  }

  /** The "Ranking History" section: it appears when the raw history
      (`rankingHistory || []`) has more than one entry, ranked or not, and
      holds the timeline of that history. */
  function TimelineSection(r: Restaurant): (v: Option<RankingTimeline.TimelineView>)
    ensures v.Some? <==> |r.rankingHistory.GetOr([])| > 1
    ensures v.Some? ==> v.value == RankingTimeline.Timeline(r.rankingHistory.GetOr([]))
  {
    var history := r.rankingHistory.GetOr([]);
    if |history| > 1 then Some(RankingTimeline.Timeline(history)) else None
  }

  /** A chart is only ever drawn inside the section; the converse fails, as
      two unranked years show the heading over "Not enough data". */
  lemma ChartOnlyInSection(r: Restaurant)
    ensures RankingTimeline.Timeline(r.rankingHistory.GetOr([])).Chart? ==> TimelineSection(r).Some?
    ensures var h := [RankingHistoryEntry(2023, None), RankingHistoryEntry(2024, None)];
            TimelineSection(r.(rankingHistory := Some(h))) == Some(RankingTimeline.NotEnoughData)
  {
    var history := r.rankingHistory.GetOr([]);
    var ps := RankingTimeline.ChartData(history);
    assert |ps| == |multiset(ps)|;
    var h := [RankingHistoryEntry(2023, None), RankingHistoryEntry(2024, None)];
    var hs := RankingTimeline.ChartData(h);
    assert |hs| == |multiset(hs)| == |RankingTimeline.Points(h)|;
    assert RankingTimeline.Points(h) == [] by {
      assert h[1..][1..] == [];
    }
  }
}

module RankingTimeline {
  import opened Optional
  import opened Seqs
  import opened StableSort
  import opened Types

  /** One chart point; `display` is the inverted height `101 - rank`, null
      for the falsy rank 0. */
  datatype Point = Point(year: int, rank: int, display: Option<int>)

  function ToPoint(e: RankingHistoryEntry): (p: Point)
    requires e.rank.Some?
    ensures p.year == e.year && p.rank == e.rank.value
    ensures p.display.None? <==> e.rank.value == 0
    ensures p.display.Some? ==> p.display.value + p.rank == 101
  {
    var rank := e.rank.value;
    Point(e.year, rank, if rank != 0 then Some(101 - rank) else None)
  }

  /** The callback `e => e.rank !== null`. */
  function Ranked(): RankingHistoryEntry -> bool {
    (e: RankingHistoryEntry) => e.rank.Some?
  }

  /** `history.filter(e => e.rank !== null).map(...)`: one point per ranked
      entry, in history order. */
  function Points(history: seq<RankingHistoryEntry>): (ps: seq<Point>)
    ensures |ps| == |Filter(history, Ranked())| <= |history|
    ensures forall i :: 0 <= i < |ps| ==> ps[i] == ToPoint(Filter(history, Ranked())[i])
    ensures forall i :: 0 <= i < |ps| ==>
              exists j :: 0 <= j < |history| && history[j].rank.Some? && ps[i] == ToPoint(history[j])
    ensures forall j :: 0 <= j < |history| && history[j].rank.Some? ==> ToPoint(history[j]) in ps
  {
    if |history| == 0 then []
    else
      var rest := Points(history[1..]);
      assert forall j :: 1 <= j < |history| ==> history[j] == history[1..][j - 1];
      if history[0].rank.Some? then [ToPoint(history[0])] + rest else rest
  }

  function ByYear(p: Point): Key {
    Ascending(p.year)
  }

  /** `chartData`: the ranked entries as points, oldest year first; entries
      of the same year keep their order. */
  function ChartData(history: seq<RankingHistoryEntry>): (ps: seq<Point>)
    ensures multiset(ps) == multiset(Points(history))
    ensures forall i, j :: 0 <= i < j < |ps| ==> ps[i].year <= ps[j].year
    ensures StableFor(ps, Points(history), ByYear)
  {
    var ps := SortBy(Points(history), ByYear);
    YearOrder(ps);
    ps
  }

  lemma YearOrder(ps: seq<Point>)
    requires SortedBy(ps, ByYear)
    ensures forall i, j :: 0 <= i < j < |ps| ==> ps[i].year <= ps[j].year
  {
    forall i, j | 0 <= i < j < |ps| ensures ps[i].year <= ps[j].year {
      assert Le(ByYear(ps[i]), ByYear(ps[j]));
    }
  }

  /** A point is charted exactly when it comes from a ranked history entry. */
  lemma ChartedIffRanked(history: seq<RankingHistoryEntry>, p: Point)
    ensures p in ChartData(history) <==>
              exists j :: 0 <= j < |history| && history[j].rank.Some? && p == ToPoint(history[j])
  {
    var ps := ChartData(history);
    assert p in ps <==> p in multiset(ps);
    assert p in Points(history) <==> p in multiset(Points(history));
  }

  /** The ranks above 0 among the points (`chartData.filter(d => d.rank)`). */
  function TruthyRanks(ps: seq<Point>): (rs: seq<int>)
    ensures forall k :: 0 <= k < |rs| ==> rs[k] != 0 && exists i :: 0 <= i < |ps| && ps[i].rank == rs[k]
    ensures forall i :: 0 <= i < |ps| && ps[i].rank != 0 ==> ps[i].rank in rs
  {
    if |ps| == 0 then []
    else
      var rest := TruthyRanks(ps[1..]);
      assert forall i :: 1 <= i < |ps| ==> ps[i] == ps[1..][i - 1];
      if ps[0].rank != 0 then [ps[0].rank] + rest else rest
  }

  function MaxOf(s: seq<int>): (m: int)
    requires |s| > 0
    ensures m in s && forall k :: 0 <= k < |s| ==> s[k] <= m
  {
    if |s| == 1 then s[0]
    else
      var rest := MaxOf(s[1..]);
      assert forall k :: 1 <= k < |s| ==> s[k] == s[1..][k - 1];
      if s[0] >= rest then s[0] else rest
  }

  const FloorUpper: int := 50

  /** The reversed Y axis's far end, `Math.max(maxRank + 10, 50)`; with no
      truthy rank `maxRank` is -Infinity and the bound is 50. */
  function YUpper(ps: seq<Point>): (u: int)
    ensures u >= FloorUpper
    ensures forall i :: 0 <= i < |ps| && ps[i].rank != 0 ==> ps[i].rank + 10 <= u
    ensures u == FloorUpper || exists i :: 0 <= i < |ps| && ps[i].rank != 0 && u == ps[i].rank + 10
  {
    var rs := TruthyRanks(ps);
    if |rs| == 0 then FloorUpper else Max(MaxOf(rs) + 10, FloorUpper)
  }

  datatype TimelineView =
    | NotEnoughData
    | Chart(points: seq<Point>, minYear: int, maxYear: int, yUpper: int)

  /** The rendered timeline: the placeholder below two ranked entries,
      otherwise the chart over the year span of its points. */
  function Timeline(history: seq<RankingHistoryEntry>): (v: TimelineView)
    ensures v.NotEnoughData? <==> |ChartData(history)| < 2
    ensures v.Chart? ==> v.points == ChartData(history)
    ensures v.Chart? ==> v.minYear <= v.maxYear
    ensures v.Chart? ==> forall i :: 0 <= i < |v.points| ==> v.minYear <= v.points[i].year <= v.maxYear
    ensures v.Chart? ==> v.minYear == v.points[0].year && v.maxYear == v.points[|v.points| - 1].year
    ensures v.Chart? ==> v.yUpper == YUpper(v.points)
  {
    var ps := ChartData(history);
    if |ps| < 2 then NotEnoughData
    else Chart(ps, ps[0].year, ps[|ps| - 1].year, YUpper(ps))
  }
}
