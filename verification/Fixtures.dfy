/** The request, the catalog rows and the plan shared by both allocation profiles. */
module Fixtures {
  import opened Sums

  datatype Series = Series(volumeId: int, issueCount: nat)

  datatype Request = Request(seriesCount: int, fileCount: int, maxIssuesPerSeries: int) {
    /** What request validation guarantees before a profile runs. */
    predicate Valid() {
      1 <= seriesCount <= fileCount && 1 <= maxIssuesPerSeries
    }
  }

  datatype PlanResult =
    | Planned(plan: seq<(Series, int)>)
    | InsufficientSeries
    | InsufficientFiles
    | DivisionByZero

  function Min(x: int, y: int): int {
    if x <= y then x else y
  }

  function Capacity(series: Series, cap: int): (capacity: int)
    ensures capacity <= series.issueCount && capacity <= cap
    ensures capacity == series.issueCount || capacity == cap
  {
    Min(series.issueCount, cap)
  }

  /** Capacity as a weight; one named function value, so that sums over it can be compared. */
  function CapacityUnder(cap: int): Series -> int {
    series => Capacity(series, cap)
  }

  function Capacities(series: seq<Series>, cap: int): (capacities: seq<int>)
    ensures |capacities| == |series|
  {
    seq(|series|, i requires 0 <= i < |series| => Capacity(series[i], cap))
  }

  function TotalCapacity(series: seq<Series>, cap: int): int {
    SumBy(CapacityUnder(cap), series)
  }

  function Zip(series: seq<Series>, counts: seq<int>): (plan: seq<(Series, int)>)
    requires |series| == |counts|
    ensures |plan| == |series|
  {
    seq(|series|, i requires 0 <= i < |series| => (series[i], counts[i]))
  }

  function PlannedSeries(plan: seq<(Series, int)>): (series: seq<Series>)
    ensures |series| == |plan|
  {
    seq(|plan|, i requires 0 <= i < |plan| => plan[i].0)
  }

  function PlannedCounts(plan: seq<(Series, int)>): (counts: seq<int>)
    ensures |counts| == |plan|
  {
    seq(|plan|, i requires 0 <= i < |plan| => plan[i].1)
  }

  lemma ZipParts(series: seq<Series>, counts: seq<int>)
    requires |series| == |counts|
    ensures PlannedSeries(Zip(series, counts)) == series
    ensures PlannedCounts(Zip(series, counts)) == counts
  {
  }

  lemma SamePlan(p: seq<(Series, int)>, q: seq<(Series, int)>)
    requires PlannedSeries(p) == PlannedSeries(q) && PlannedCounts(p) == PlannedCounts(q)
    ensures p == q
  {
    forall i | 0 <= i < |p| ensures p[i] == q[i] {
      assert p[i] == (PlannedSeries(p)[i], PlannedCounts(p)[i]);
      assert q[i] == (PlannedSeries(q)[i], PlannedCounts(q)[i]);
    }
  }

  lemma TotalCapacityIsSum(series: seq<Series>, cap: int)
    ensures TotalCapacity(series, cap) == Sum(Capacities(series, cap))
  {
    SumByIsSum(CapacityUnder(cap), series, Capacities(series, cap));
  }

  /** Taking any `n` different catalog rows cannot reach `files` under the cap. */
  ghost predicate Infeasible(candidates: seq<Series>, request: Request) {
    forall pick: seq<Series> | IsChoice(pick, candidates, request.seriesCount) ::
      TotalCapacity(pick, request.maxIssuesPerSeries) < request.fileCount
  }

  /** The selected rows are different catalog rows and the counts add up exactly. */
  ghost predicate IsExactPlan(plan: seq<(Series, int)>, candidates: seq<Series>, request: Request) {
    && request.seriesCount >= 0
    && IsChoice(PlannedSeries(plan), candidates, request.seriesCount)
    && Sum(PlannedCounts(plan)) == request.fileCount
  }
}
