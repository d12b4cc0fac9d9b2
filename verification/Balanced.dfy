/** The balanced profile: greedy selection by falling threshold, then water filling. */
module Balanced {
  import opened Sums
  import opened Fixtures
  import opened RowOrder

  /** How many issues each volume holds when the files divide evenly: the whole quotient. */
  predicate IsBase(request: Request, base: int) {
    base * request.seriesCount <= request.fileCount < (base + 1) * request.seriesCount
  }

  function BaseOf(request: Request): (base: int)
    requires request.Valid()
    ensures IsBase(request, base)
  {
    request.fileCount / request.seriesCount
  }

  lemma Grows(low: int, high: int, factor: int)
    requires factor >= 0
    ensures low <= high ==> low * factor <= high * factor
  {
  }

  lemma BaseIsUnique(request: Request, base: int)
    requires request.Valid() && IsBase(request, base)
    ensures base == BaseOf(request)
  {
    Grows(base + 1, BaseOf(request), request.seriesCount);
    Grows(BaseOf(request) + 1, base, request.seriesCount);
  }

  // ----- Threshold selection -----

  predicate DistinctVolumes(rows: seq<Series>) {
    forall i, j | 0 <= i < j < |rows| :: rows[i].volumeId != rows[j].volumeId
  }

  /** Rows that can supply exactly `threshold` of the first `base` issues, in their own order. */
  function RowsAt(rows: seq<Series>, base: int, threshold: int): (at: seq<Series>)
    ensures |at| <= |rows|
  {
    if rows == [] then []
    else
      var last := rows[|rows| - 1];
      RowsAt(rows[..|rows| - 1], base, threshold) + if Capacity(last, base) == threshold then [last] else []
  }

  function RowsAbove(rows: seq<Series>, base: int, threshold: int): seq<Series> {
    if rows == [] then []
    else
      var last := rows[|rows| - 1];
      RowsAbove(rows[..|rows| - 1], base, threshold) + if Capacity(last, base) > threshold then [last] else []
  }

  /** Rows above `threshold`, larger supply first and ties in their own order. */
  function ThresholdOrder(rows: seq<Series>, base: int, threshold: int): seq<Series>
    decreases base - threshold
  {
    if threshold >= base then []
    else ThresholdOrder(rows, base, threshold + 1) + RowsAt(rows, base, threshold + 1)
  }

  lemma {:induction false} RowsAtMembers(rows: seq<Series>, base: int, threshold: int)
    ensures forall x :: x in RowsAt(rows, base, threshold) <==> x in rows && Capacity(x, base) == threshold
  {
    if rows == [] {
    } else {
      RowsAtMembers(rows[..|rows| - 1], base, threshold);
      assert rows == rows[..|rows| - 1] + [rows[|rows| - 1]];
    }
  }

  lemma {:induction false} ThresholdOrderMembers(rows: seq<Series>, base: int, threshold: int)
    ensures forall x :: x in ThresholdOrder(rows, base, threshold) <==> x in rows && Capacity(x, base) > threshold
    decreases base - threshold
  {
    if threshold >= base {
    } else {
      ThresholdOrderMembers(rows, base, threshold + 1);
      RowsAtMembers(rows, base, threshold + 1);
    }
  }

  ghost predicate Falls(order: seq<Series>, base: int) {
    forall i, j | 0 <= i < j < |order| :: Capacity(order[i], base) >= Capacity(order[j], base)
  }

  lemma FallsAppend(above: seq<Series>, at: seq<Series>, base: int, threshold: int)
    requires Falls(above, base)
    requires forall x | x in above :: Capacity(x, base) > threshold
    requires forall x | x in at :: Capacity(x, base) == threshold
    ensures Falls(above + at, base)
  {
    forall i, j | 0 <= i < j < |above + at|
      ensures Capacity((above + at)[i], base) >= Capacity((above + at)[j], base)
    {
      if j < |above| {
        assert (above + at)[i] == above[i] && (above + at)[j] == above[j];
      } else {
        assert (above + at)[j] == at[j - |above|] && at[j - |above|] in at;
        assert (above + at)[i] in above || (above + at)[i] in at;
      }
    }
  }

  lemma {:induction false} ThresholdOrderFalls(rows: seq<Series>, base: int, threshold: int)
    ensures Falls(ThresholdOrder(rows, base, threshold), base)
    decreases base - threshold
  {
    if threshold >= base {
    } else {
      ThresholdOrderFalls(rows, base, threshold + 1);
      ThresholdOrderMembers(rows, base, threshold + 1);
      RowsAtMembers(rows, base, threshold + 1);
      FallsAppend(ThresholdOrder(rows, base, threshold + 1), RowsAt(rows, base, threshold + 1), base, threshold + 1);
    }
  }

  lemma {:induction false} RowsAboveSplit(rows: seq<Series>, base: int, threshold: int)
    ensures multiset(RowsAbove(rows, base, threshold))
         == multiset(RowsAbove(rows, base, threshold + 1)) + multiset(RowsAt(rows, base, threshold + 1))
  {
    if rows == [] {
    } else {
      RowsAboveSplit(rows[..|rows| - 1], base, threshold);
    }
  }

  lemma {:induction false} RowsAboveBase(rows: seq<Series>, base: int, threshold: int)
    requires threshold >= base
    ensures RowsAbove(rows, base, threshold) == []
  {
    if rows == [] {
    } else {
      RowsAboveBase(rows[..|rows| - 1], base, threshold);
    }
  }

  lemma {:induction false} RowsAboveZero(rows: seq<Series>, base: int)
    requires base >= 1 && forall i | 0 <= i < |rows| :: rows[i].issueCount >= 1
    ensures RowsAbove(rows, base, 0) == rows
  {
    if rows == [] {
    } else {
      var front, last := rows[..|rows| - 1], rows[|rows| - 1];
      RowsAboveZero(front, base);
      assert Capacity(last, base) > 0;
      assert rows == front + [last];
    }
  }

  /** The threshold order only rearranges the rows above the threshold. */
  lemma {:induction false} ThresholdOrderContents(rows: seq<Series>, base: int, threshold: int)
    ensures multiset(ThresholdOrder(rows, base, threshold)) == multiset(RowsAbove(rows, base, threshold))
    decreases base - threshold
  {
    if threshold < base {
      ThresholdOrderContents(rows, base, threshold + 1);
      RowsAboveSplit(rows, base, threshold);
    } else {
      RowsAboveBase(rows, base, threshold);
    }
  }

  lemma {:induction false} ThresholdOrderPrefix(rows: seq<Series>, base: int, high: int, low: int)
    requires low <= high
    ensures ThresholdOrder(rows, base, high) <= ThresholdOrder(rows, base, low)
    decreases base - low
  {
    if low == high || low >= base {
    } else {
      ThresholdOrderPrefix(rows, base, high, low + 1);
    }
  }

  lemma {:induction false} RowsAtPrefix(rows: seq<Series>, base: int, threshold: int, j: nat)
    requires j <= |rows|
    ensures RowsAt(rows[..j], base, threshold) <= RowsAt(rows, base, threshold)
    decreases |rows|
  {
    if j < |rows| {
      RowsAtPrefix(rows[..|rows| - 1], base, threshold, j);
      assert rows[..|rows| - 1][..j] == rows[..j];
    } else {
      assert rows[..j] == rows;
    }
  }

  lemma ThresholdOrderIsComplete(rows: seq<Series>, base: int)
    requires base >= 1 && forall i | 0 <= i < |rows| :: rows[i].issueCount >= 1
    ensures multiset(ThresholdOrder(rows, base, 0)) == multiset(rows)
    ensures |ThresholdOrder(rows, base, 0)| == |rows|
  {
    ThresholdOrderContents(rows, base, 0);
    RowsAboveZero(rows, base);
    assert |multiset(ThresholdOrder(rows, base, 0))| == |multiset(rows)|;
  }

  lemma FallingPrefixIsBest(order: seq<Series>, base: int, count: nat, pick: seq<Series>)
    requires Falls(order, base)
    requires count <= |order| && IsChoice(pick, order, count)
    ensures TotalCapacity(pick, base) <= TotalCapacity(order[..count], base)
  {
    var threshold := if count == 0 then base else Capacity(order[count - 1], base);
    assert order == order[..count] + order[count..];
    SeparatedChoiceIsBest(CapacityUnder(base), order[..count], order[count..], threshold, pick);
  }

  /** Greedy selection is optimal: no choice of as many rows supplies more of the first `base`
      issues of each. */
  lemma ThresholdSelectionIsBest(rows: seq<Series>, base: int, count: nat, pick: seq<Series>)
    requires base >= 1 && forall i | 0 <= i < |rows| :: rows[i].issueCount >= 1
    requires IsChoice(pick, rows, count)
    ensures count <= |ThresholdOrder(rows, base, 0)|
    ensures TotalCapacity(pick, base) <= TotalCapacity(ThresholdOrder(rows, base, 0)[..count], base)
  {
    ThresholdOrderIsComplete(rows, base);
    ThresholdOrderFalls(rows, base, 0);
    ChoiceFits(pick, rows, count);
    FallingPrefixIsBest(ThresholdOrder(rows, base, 0), base, count, pick);
  }

  function VolumeIds(rows: seq<Series>): set<int> {
    set s | s in rows :: s.volumeId
  }

  lemma VolumeIdentifiesRow(shuffled: seq<Series>, selected: seq<Series>, j: nat)
    requires DistinctVolumes(shuffled) && j < |shuffled|
    requires forall s | s in selected :: s in shuffled
    ensures shuffled[j].volumeId in VolumeIds(selected) <==> shuffled[j] in selected
    ensures shuffled[j] !in shuffled[..j]
  {
  }

  /** One step of the pass: the candidate is taken exactly when it extends the rows of this supply. */
  lemma SelectStep(shuffled: seq<Series>, base: int, threshold: int, above: seq<Series>, selected: seq<Series>, j: nat)
    requires DistinctVolumes(shuffled) && j < |shuffled| && threshold <= base
    requires above == ThresholdOrder(shuffled, base, threshold)
    requires selected == above + RowsAt(shuffled[..j], base, threshold)
    ensures above + RowsAt(shuffled[..j + 1], base, threshold)
         == if shuffled[j].volumeId in VolumeIds(selected) || shuffled[j].issueCount < threshold
            then selected else selected + [shuffled[j]]
  {
    assert shuffled[..j + 1][..j] == shuffled[..j];
    ThresholdOrderMembers(shuffled, base, threshold);
    RowsAtMembers(shuffled[..j], base, threshold);
    VolumeIdentifiesRow(shuffled, selected, j);
  }

  lemma PassPrefix(shuffled: seq<Series>, base: int, threshold: int, above: seq<Series>, j: nat)
    requires j <= |shuffled| && threshold <= base
    requires above == ThresholdOrder(shuffled, base, threshold)
    ensures above + RowsAt(shuffled[..j], base, threshold) <= ThresholdOrder(shuffled, base, threshold - 1)
    ensures j == |shuffled| ==>
              above + RowsAt(shuffled[..j], base, threshold) == ThresholdOrder(shuffled, base, threshold - 1)
  {
    RowsAtPrefix(shuffled, base, threshold, j);
    assert j == |shuffled| ==> shuffled[..j] == shuffled;
  }

  lemma VolumeIdsNext(selected: seq<Series>, candidate: Series)
    ensures VolumeIds(selected + [candidate]) == VolumeIds(selected) + {candidate.volumeId}
  {
    assert forall s :: s in selected + [candidate] <==> s in selected || s == candidate;
  }

  /** One pass over the shuffle at one threshold appends the rows of exactly that supply, until the
      selection is full. */
  method SelectAt(shuffled: seq<Series>, base: int, threshold: int, count: nat, above: seq<Series>, aboveIds: set<int>)
    returns (selected: seq<Series>, selectedIds: set<int>)
    requires DistinctVolumes(shuffled) && |above| < count && threshold <= base
    requires above == ThresholdOrder(shuffled, base, threshold) && aboveIds == VolumeIds(above)
    ensures selectedIds == VolumeIds(selected)
    ensures |selected| <= count && selected <= ThresholdOrder(shuffled, base, threshold - 1)
    ensures |selected| < count ==> selected == ThresholdOrder(shuffled, base, threshold - 1)
  {
    selected, selectedIds := above, aboveIds;
    for j := 0 to |shuffled|
      invariant |selected| < count
      invariant selected == above + RowsAt(shuffled[..j], base, threshold)
      invariant selectedIds == VolumeIds(selected)
    {
      var candidate := shuffled[j];
      SelectStep(shuffled, base, threshold, above, selected, j);
      if candidate.volumeId in selectedIds || candidate.issueCount < threshold {
        continue;
      }
      VolumeIdsNext(selected, candidate);
      selected := selected + [candidate];
      selectedIds := selectedIds + {candidate.volumeId};
      if |selected| == count {
        PassPrefix(shuffled, base, threshold, above, j + 1);
        return;
      }
    }
    PassPrefix(shuffled, base, threshold, above, |shuffled|);
  }

  lemma PrefixChain<T>(a: seq<T>, b: seq<T>, c: seq<T>)
    requires a <= b && b <= c
    ensures |a| <= |c| && a == c[..|a|]
  {
  }

  /** The double loop fills the selection from the threshold order, or runs out of rows. */
  method SelectByThreshold(shuffled: seq<Series>, base: int, count: nat) returns (selected: seq<Series>)
    requires base >= 1 && count >= 1 && DistinctVolumes(shuffled)
    requires forall i | 0 <= i < |shuffled| :: shuffled[i].issueCount >= 1
    ensures |selected| == count <==> |shuffled| >= count
    ensures |selected| == count ==>
            |ThresholdOrder(shuffled, base, 0)| == |shuffled| &&
            selected == ThresholdOrder(shuffled, base, 0)[..count]
  {
    selected := [];
    var selectedIds: set<int> := {};
    ThresholdOrderIsComplete(shuffled, base);
    for threshold := base downto 0
      invariant |selected| < count
      invariant selected == ThresholdOrder(shuffled, base, threshold)
      invariant selectedIds == VolumeIds(selected)
    {
      selected, selectedIds := SelectAt(shuffled, base, threshold + 1, count, selected, selectedIds);
      if |selected| == count {
        ThresholdOrderPrefix(shuffled, base, threshold, 0);
        PrefixChain(selected, ThresholdOrder(shuffled, base, threshold), ThresholdOrder(shuffled, base, 0));
        return;
      }
    }
  }

  // ----- The positions of the selected rows -----

  /** The rows at these positions. */
  function Picked(rows: seq<Series>, at: seq<int>): (picked: seq<Series>)
    requires AreIndices(at, |rows|)
    ensures |picked| == |at|
  {
    seq(|at|, k requires 0 <= k < |at| => rows[at[k]])
  }

  /** Positions of the rows of exactly this supply, ascending. */
  function PositionsAt(rows: seq<Series>, base: int, threshold: int): (at: seq<int>)
    ensures AreIndices(at, |rows|)
    ensures forall k, l | 0 <= k < l < |at| :: at[k] < at[l]
    ensures forall i :: i in at <==> 0 <= i < |rows| && Capacity(rows[i], base) == threshold
  {
    if rows == [] then []
    else
      var last := |rows| - 1;
      PositionsAt(rows[..last], base, threshold) + if Capacity(rows[last], base) == threshold then [last] else []
  }

  function PositionOrder(rows: seq<Series>, base: int, threshold: int): (at: seq<int>)
    ensures AreIndices(at, |rows|)
    ensures forall i :: i in at <==> 0 <= i < |rows| && threshold < Capacity(rows[i], base) <= base
    decreases base - threshold
  {
    if threshold >= base then []
    else PositionOrder(rows, base, threshold + 1) + PositionsAt(rows, base, threshold + 1)
  }

  lemma PickedAppend(rows: seq<Series>, a: seq<int>, b: seq<int>)
    requires AreIndices(a, |rows|) && AreIndices(b, |rows|)
    ensures Picked(rows, a + b) == Picked(rows, a) + Picked(rows, b)
  {
  }

  lemma PickedFront(rows: seq<Series>, at: seq<int>, n: nat)
    requires AreIndices(at, |rows|) && n <= |rows| && AreIndices(at, n)
    ensures Picked(rows[..n], at) == Picked(rows, at)
  {
  }

  lemma {:induction false} PositionsAtPick(rows: seq<Series>, base: int, threshold: int)
    ensures Picked(rows, PositionsAt(rows, base, threshold)) == RowsAt(rows, base, threshold)
  {
    if rows == [] {
    } else {
      var last := |rows| - 1;
      var front := PositionsAt(rows[..last], base, threshold);
      PositionsAtPick(rows[..last], base, threshold);
      PickedFront(rows, front, last);
      if Capacity(rows[last], base) == threshold {
        PickedAppend(rows, front, [last]);
        assert Picked(rows, [last]) == [rows[last]];
      }
    }
  }

  lemma {:induction false} PositionOrderPicks(rows: seq<Series>, base: int, threshold: int)
    ensures Picked(rows, PositionOrder(rows, base, threshold)) == ThresholdOrder(rows, base, threshold)
    decreases base - threshold
  {
    if threshold >= base {
    } else {
      PositionOrderPicks(rows, base, threshold + 1);
      PositionsAtPick(rows, base, threshold + 1);
      PickedAppend(rows, PositionOrder(rows, base, threshold + 1), PositionsAt(rows, base, threshold + 1));
    }
  }

  ghost predicate Enters(rows: seq<Series>, base: int, at: seq<int>) {
    AreIndices(at, |rows|) && forall k, l | 0 <= k < l < |at| :: EntersBefore(rows, base, at[k], at[l])
  }

  lemma EntersAppend(rows: seq<Series>, base: int, above: seq<int>, at: seq<int>, threshold: int)
    requires Enters(rows, base, above) && Enters(rows, base, at)
    requires forall k | 0 <= k < |above| :: Capacity(rows[above[k]], base) > threshold
    requires forall k | 0 <= k < |at| :: Capacity(rows[at[k]], base) == threshold
    ensures Enters(rows, base, above + at)
  {
    var both := above + at;
    forall k, l | 0 <= k < l < |both| ensures EntersBefore(rows, base, both[k], both[l]) {
      if l < |above| {
        assert EntersBefore(rows, base, above[k], above[l]);
      } else if k < |above| {
        assert Capacity(rows[above[k]], base) > Capacity(rows[at[l - |above|]], base);
      } else {
        assert EntersBefore(rows, base, at[k - |above|], at[l - |above|]);
      }
    }
  }

  lemma {:induction false} PositionOrderEnters(rows: seq<Series>, base: int, threshold: int)
    ensures Enters(rows, base, PositionOrder(rows, base, threshold))
    decreases base - threshold
  {
    if threshold >= base {
    } else {
      var above, at := PositionOrder(rows, base, threshold + 1), PositionsAt(rows, base, threshold + 1);
      PositionOrderEnters(rows, base, threshold + 1);
      forall k | 0 <= k < |above| ensures Capacity(rows[above[k]], base) > threshold + 1 {
        assert above[k] in above;
      }
      forall k | 0 <= k < |at| ensures Capacity(rows[at[k]], base) == threshold + 1 {
        assert at[k] in at;
      }
      EntersAppend(rows, base, above, at, threshold + 1);
    }
  }

  lemma EntersFront(rows: seq<Series>, base: int, at: seq<int>, n: nat)
    requires Enters(rows, base, at) && n <= |at|
    requires forall i | 0 <= i < |rows| :: i in at
    ensures EnterFirst(rows, base, at[..n])
  {
    forall s, i | 0 <= s < n && 0 <= i < |rows| && i !in at[..n] ensures EntersBefore(rows, base, at[s], i) {
      assert i in at;
      var k :| 0 <= k < |at| && at[k] == i;
      assert forall r | 0 <= r < n :: at[..n][r] == at[r];
    }
  }

  /** The selection takes the first rows to enter: more of the first `base` issues first, and the
      shuffle's order among equals. */
  ghost predicate IsGreedySelection(selected: seq<Series>, shuffled: seq<Series>, base: int) {
    exists at :: |at| == |selected| && EnterFirst(shuffled, base, at) && selected == Picked(shuffled, at)
  }

  lemma ThresholdOrderIsGreedy(rows: seq<Series>, base: int, n: nat)
    requires base >= 1 && forall i | 0 <= i < |rows| :: rows[i].issueCount >= 1
    requires n <= |ThresholdOrder(rows, base, 0)|
    ensures IsGreedySelection(ThresholdOrder(rows, base, 0)[..n], rows, base)
  {
    var at := PositionOrder(rows, base, 0);
    PositionOrderPicks(rows, base, 0);
    PositionOrderEnters(rows, base, 0);
    assert |at| == |ThresholdOrder(rows, base, 0)|;
    EntersFront(rows, base, at, n);
    assert Picked(rows, at[..n]) == ThresholdOrder(rows, base, 0)[..n];
  }

  /** Shuffle, base and number of rows determine the selection. */
  lemma GreedySelectionIsUnique(a: seq<Series>, b: seq<Series>, shuffled: seq<Series>, base: int)
    requires IsGreedySelection(a, shuffled, base) && IsGreedySelection(b, shuffled, base) && |a| == |b|
    ensures a == b
  {
    var at :| |at| == |a| && EnterFirst(shuffled, base, at) && a == Picked(shuffled, at);
    var at' :| |at'| == |b| && EnterFirst(shuffled, base, at') && b == Picked(shuffled, at');
    EnterFirstIsUnique(shuffled, base, at, at');
  }

  // ----- Water filling -----

  function Max(x: int, y: int): int {
    if x >= y then x else y
  }

  /** The count of a row once the water stands at `level`: the uncapped start, or the level held
      under the row's capacity. */
  function CountAt(row: Series, base: int, cap: int, level: int): int {
    Max(Capacity(row, base), Min(level, Capacity(row, cap)))
  }

  /** Rows before `cut` stand at `level + 1`, the others at `level`. */
  ghost predicate FilledTo(counts: seq<int>, rows: seq<Series>, base: int, cap: int, level: int, cut: int) {
    && |counts| == |rows| && base <= level && 0 <= cut <= |rows|
    && forall i | 0 <= i < |rows| :: counts[i] == CountAt(rows[i], base, cap, if i < cut then level + 1 else level)
  }

  ghost predicate WaterFilled(counts: seq<int>, rows: seq<Series>, base: int, cap: int) {
    exists level, cut :: FilledTo(counts, rows, base, cap, level, cut)
  }

  /** Whether the selected rows can take every file: under the cap when the base respects it, and
      only without any filling when it does not. */
  predicate Suffices(rows: seq<Series>, request: Request)
    requires request.Valid()
  {
    var base := BaseOf(request);
    if base <= request.maxIssuesPerSeries
    then TotalCapacity(rows, request.maxIssuesPerSeries) >= request.fileCount
    else TotalCapacity(rows, base) == request.fileCount
  }

  lemma FillStep(counts: seq<int>, rows: seq<Series>, base: int, cap: int, level: int, i: nat)
    requires i < |rows| && FilledTo(counts, rows, base, cap, level, i)
    ensures counts[i] >= Capacity(rows[i], cap) ==> FilledTo(counts, rows, base, cap, level, i + 1)
    ensures counts[i] < Capacity(rows[i], cap) ==>
              FilledTo(counts[i := counts[i] + 1], rows, base, cap, level, i + 1)
  {
    assert CountAt(rows[i], base, cap, level + 1)
        == if counts[i] >= Capacity(rows[i], cap) then counts[i] else counts[i] + 1;
  }

  /** One round of the inner loop, from position `from` of a level to the next level. */
  method FillRound(rows: seq<Series>, base: int, cap: int, ghost level: int, start: seq<int>, room: nat)
    returns (counts: seq<int>, remaining: nat, progressed: bool, ghost cut: int)
    requires FilledTo(start, rows, base, cap, level, 0) && room > 0
    ensures FilledTo(counts, rows, base, cap, level, cut)
    ensures Sum(counts) + remaining == Sum(start) + room
    ensures progressed <==> remaining < room
    ensures remaining > 0 ==> cut == |rows|
    ensures !progressed ==> counts == start && forall i | 0 <= i < |rows| :: counts[i] >= Capacity(rows[i], cap)
  {
    counts, remaining, progressed, cut := start, room, false, 0;
    for i := 0 to |rows|
      invariant cut == i && FilledTo(counts, rows, base, cap, level, i)
      invariant Sum(counts) + remaining == Sum(start) + room
      invariant 0 < remaining <= room && (progressed <==> remaining < room)
      invariant !progressed ==> counts == start && forall k | 0 <= k < i :: counts[k] >= Capacity(rows[k], cap)
    {
      cut := i + 1;
      FillStep(counts, rows, base, cap, level, i);
      if counts[i] >= Capacity(rows[i], cap) {
        continue;
      }
      SumUpdate(counts, i, counts[i] + 1);
      counts, remaining, progressed := counts[i := counts[i] + 1], remaining - 1, true;
      if remaining == 0 {
        break;
      }
    }
  }

  lemma BaseFits(request: Request)
    requires request.Valid()
    ensures var base := BaseOf(request);
            base >= 1 && request.seriesCount * base <= request.fileCount
  {
    var base := BaseOf(request);
    assert request.fileCount == request.seriesCount * base + request.fileCount % request.seriesCount;
    assert base <= 0 ==> request.seriesCount * base <= 0;
  }

  lemma BoundedSum(counts: seq<int>, bound: int)
    requires forall i | 0 <= i < |counts| :: counts[i] <= bound
    ensures Sum(counts) <= |counts| * bound
    ensures Sum(counts) == |counts| * bound ==> forall i | 0 <= i < |counts| :: counts[i] == bound
  {
    var bounds := seq(|counts|, i => bound);
    SumConstant(bounds, bound);
    SumMonotone(counts, bounds);
  }

  lemma StartFits(rows: seq<Series>, request: Request)
    requires request.Valid() && |rows| == request.seriesCount
    ensures var base := BaseOf(request);
            && base >= 1 && Sum(Capacities(rows, base)) <= request.fileCount
            && FilledTo(Capacities(rows, base), rows, base, request.maxIssuesPerSeries, base, 0)
  {
    BaseFits(request);
    BoundedSum(Capacities(rows, BaseOf(request)), BaseOf(request));
  }

  lemma FullRowsFallShort(counts: seq<int>, rows: seq<Series>, request: Request, level: int)
    requires request.Valid()
    requires FilledTo(counts, rows, BaseOf(request), request.maxIssuesPerSeries, level, 0)
    requires forall i | 0 <= i < |rows| :: counts[i] >= Capacity(rows[i], request.maxIssuesPerSeries)
    requires Sum(counts) < request.fileCount
    ensures !Suffices(rows, request)
  {
    var base, cap := BaseOf(request), request.maxIssuesPerSeries;
    TotalCapacityIsSum(rows, cap);
    TotalCapacityIsSum(rows, base);
    if base <= cap {
      assert counts == Capacities(rows, cap);
    } else {
      assert counts == Capacities(rows, base);
    }
  }

  lemma FilledRowsSuffice(counts: seq<int>, rows: seq<Series>, request: Request)
    requires request.Valid()
    requires WaterFilled(counts, rows, BaseOf(request), request.maxIssuesPerSeries)
    requires Sum(counts) == request.fileCount
    ensures Suffices(rows, request)
  {
    var base, cap := BaseOf(request), request.maxIssuesPerSeries;
    var level, cut :| FilledTo(counts, rows, base, cap, level, cut);
    TotalCapacityIsSum(rows, cap);
    TotalCapacityIsSum(rows, base);
    if base <= cap {
      SumMonotone(counts, Capacities(rows, cap));
    } else {
      assert counts == Capacities(rows, base);
    }
  }

  /** Fills the selected rows round by round; `None` stands for the capacity error. */
  method WaterFill(rows: seq<Series>, request: Request) returns (filled: bool, counts: seq<int>)
    requires request.Valid() && |rows| == request.seriesCount
    ensures filled <==> Suffices(rows, request)
    ensures filled ==> Sum(counts) == request.fileCount
    ensures filled ==> WaterFilled(counts, rows, BaseOf(request), request.maxIssuesPerSeries)
  {
    var base, cap := BaseOf(request), request.maxIssuesPerSeries;
    counts := Capacities(rows, base);
    StartFits(rows, request);
    var remaining: nat := request.fileCount - Sum(counts);
    ghost var level, cut := base, 0;
    filled := true;
    while remaining > 0
      invariant FilledTo(counts, rows, base, cap, level, cut)
      invariant Sum(counts) + remaining == request.fileCount
      invariant remaining > 0 ==> cut == 0
      decreases remaining
    {
      var progressed: bool;
      counts, remaining, progressed, cut := FillRound(rows, base, cap, level, counts, remaining);
      if !progressed {
        FullRowsFallShort(counts, rows, request, level);
        return false, counts;
      }
      if remaining > 0 {
        level, cut := level + 1, 0;
      }
    }
    FilledRowsSuffice(counts, rows, request);
  }

  // ----- What water filling means -----

  /** Under a base within the cap, no row exceeds its capacity, and a row with room left is never
      more than one below any other row. */
  lemma WaterFillingIsFair(counts: seq<int>, rows: seq<Series>, base: int, cap: int, i: nat, j: nat)
    requires WaterFilled(counts, rows, base, cap) && base <= cap
    requires i < |rows| && j < |rows|
    ensures counts[i] <= Capacity(rows[i], cap)
    ensures counts[i] < Capacity(rows[i], cap) ==> counts[j] <= counts[i] + 1
  {
  }

  /** Max-min fairness: a different way to place the same number of issues can only give row `i`
      more by taking from a row that holds at most one more than `i`. */
  lemma WaterFillingIsMaxMin(
      counts: seq<int>, other: seq<int>, rows: seq<Series>, base: int, cap: int, i: nat)
      returns (j: nat)
    requires WaterFilled(counts, rows, base, cap) && base <= cap
    requires |other| == |rows| && Sum(other) == Sum(counts)
    requires forall k | 0 <= k < |rows| :: other[k] <= Capacity(rows[k], cap)
    requires i < |rows| && other[i] > counts[i]
    ensures j < |rows| && other[j] < counts[j] <= counts[i] + 1
  {
    if forall k | 0 <= k < |rows| :: counts[k] <= other[k] {
      SumMonotone(counts, other);
    }
    j :| 0 <= j < |rows| && other[j] < counts[j];
    WaterFillingIsFair(counts, rows, base, cap, i, j);
  }

  /** Filling never takes an issue of the start away. */
  lemma WaterFillingKeepsStart(counts: seq<int>, rows: seq<Series>, base: int, cap: int, i: nat)
    requires WaterFilled(counts, rows, base, cap) && i < |rows|
    ensures counts[i] >= Capacity(rows[i], base)
  {
  }

  lemma LowerLevelHoldsLess(
      a: seq<int>, b: seq<int>, rows: seq<Series>, base: int, cap: int, level: int, cut: int, level': int, cut': int)
    requires FilledTo(a, rows, base, cap, level, cut) && FilledTo(b, rows, base, cap, level', cut')
    requires level < level' || (level == level' && cut <= cut')
    ensures Sum(a) <= Sum(b) && (Sum(a) == Sum(b) ==> a == b)
  {
    forall i | 0 <= i < |a| ensures a[i] <= b[i] {
    }
    SumMonotone(a, b);
  }

  /** Rows, base, cap and total determine the filling. */
  lemma WaterFillingIsUnique(a: seq<int>, b: seq<int>, rows: seq<Series>, base: int, cap: int)
    requires WaterFilled(a, rows, base, cap) && WaterFilled(b, rows, base, cap) && Sum(a) == Sum(b)
    ensures a == b
  {
    var level, cut :| FilledTo(a, rows, base, cap, level, cut);
    var level', cut' :| FilledTo(b, rows, base, cap, level', cut');
    if level < level' || (level == level' && cut <= cut') {
      LowerLevelHoldsLess(a, b, rows, base, cap, level, cut, level', cut');
    } else {
      LowerLevelHoldsLess(b, a, rows, base, cap, level', cut', level, cut);
    }
  }

  /** A base above the cap is never corrected: the plan then holds exactly `base` issues per row. */
  lemma BaseAboveCapStays(counts: seq<int>, rows: seq<Series>, request: Request)
    requires request.Valid() && |rows| == request.seriesCount
    requires BaseOf(request) > request.maxIssuesPerSeries
    requires WaterFilled(counts, rows, BaseOf(request), request.maxIssuesPerSeries)
    requires Sum(counts) == request.fileCount
    ensures forall i | 0 <= i < |counts| :: counts[i] == BaseOf(request)
  {
    BaseFits(request);
    BoundedSum(counts, BaseOf(request));
  }

  // ----- When the greedy selection finds a plan -----

  /** The rows that the shuffle makes the greedy loop select. */
  function GreedyRows(shuffled: seq<Series>, request: Request): seq<Series>
    requires request.Valid() && |ThresholdOrder(shuffled, BaseOf(request), 0)| >= request.seriesCount
  {
    ThresholdOrder(shuffled, BaseOf(request), 0)[..request.seriesCount]
  }

  lemma GreedyRowsAreChoice(candidates: seq<Series>, shuffled: seq<Series>, request: Request)
    requires request.Valid() && multiset(shuffled) == multiset(candidates)
    requires request.seriesCount <= |ThresholdOrder(shuffled, BaseOf(request), 0)|
    requires forall i | 0 <= i < |shuffled| :: shuffled[i].issueCount >= 1
    ensures IsChoice(GreedyRows(shuffled, request), candidates, request.seriesCount)
  {
    var base := BaseOf(request);
    var order := ThresholdOrder(shuffled, base, 0);
    ThresholdOrderIsComplete(shuffled, base);
    assert order == order[..request.seriesCount] + order[request.seriesCount..];
  }

  /** Rows that hold all of the first `base` issues. */
  function FullRows(rows: seq<Series>, base: int): seq<Series> {
    RowsAt(rows, base, base)
  }

  lemma {:induction false} RowsAtCount(rows: seq<Series>, base: int, threshold: int, x: Series)
    ensures multiset(RowsAt(rows, base, threshold))[x]
         == if Capacity(x, base) == threshold then multiset(rows)[x] else 0
  {
    if rows == [] {
    } else {
      var front, last := rows[..|rows| - 1], rows[|rows| - 1];
      RowsAtCount(front, base, threshold, x);
      assert rows == front + [last];
    }
  }

  lemma RowsAtRearranged(a: seq<Series>, b: seq<Series>, base: int, threshold: int)
    requires multiset(a) == multiset(b)
    ensures multiset(RowsAt(a, base, threshold)) == multiset(RowsAt(b, base, threshold))
    ensures |RowsAt(a, base, threshold)| == |RowsAt(b, base, threshold)|
  {
    forall x ensures multiset(RowsAt(a, base, threshold))[x] == multiset(RowsAt(b, base, threshold))[x] {
      RowsAtCount(a, base, threshold, x);
      RowsAtCount(b, base, threshold, x);
    }
    assert multiset(RowsAt(a, base, threshold)) == multiset(RowsAt(b, base, threshold));
    assert |multiset(RowsAt(a, base, threshold))| == |RowsAt(a, base, threshold)|;
  }

  lemma {:induction false} RowsAtAppend(a: seq<Series>, b: seq<Series>, base: int, threshold: int)
    ensures RowsAt(a + b, base, threshold) == RowsAt(a, base, threshold) + RowsAt(b, base, threshold)
  {
    if b == [] {
      assert a + b == a;
    } else {
      assert (a + b)[..|a + b| - 1] == a + b[..|b| - 1];
      RowsAtAppend(a, b[..|b| - 1], base, threshold);
    }
  }

  lemma {:induction false} RowsAtAll(rows: seq<Series>, base: int, threshold: int)
    requires forall i | 0 <= i < |rows| :: Capacity(rows[i], base) == threshold
    ensures RowsAt(rows, base, threshold) == rows
  {
    if rows == [] {
    } else {
      RowsAtAll(rows[..|rows| - 1], base, threshold);
    }
  }

  /** Behind the rows above a threshold, the greedy order holds no other such row. */
  lemma {:induction false} ThresholdOrderTail(rows: seq<Series>, base: int, high: int, low: int, k: nat)
    requires low <= high
    requires |ThresholdOrder(rows, base, high)| <= k < |ThresholdOrder(rows, base, low)|
    ensures Capacity(ThresholdOrder(rows, base, low)[k], base) <= high
    decreases base - low
  {
    if low == high || low >= base {
    } else {
      var above, at := ThresholdOrder(rows, base, low + 1), RowsAt(rows, base, low + 1);
      if k < |above| {
        ThresholdOrderTail(rows, base, high, low + 1, k);
      } else {
        RowsAtMembers(rows, base, low + 1);
        assert at[k - |above|] in at;
      }
    }
  }

  /** The greedy order starts with the full rows, and no other row is full. */
  lemma FullRowsFirst(rows: seq<Series>, base: int)
    requires base >= 1
    ensures var order, full := ThresholdOrder(rows, base, 0), FullRows(rows, base);
            && full <= order
            && (forall k | 0 <= k < |full| :: Capacity(order[k], base) == base)
            && (forall k | |full| <= k < |order| :: Capacity(order[k], base) < base)
  {
    var order, full := ThresholdOrder(rows, base, 0), FullRows(rows, base);
    assert ThresholdOrder(rows, base, base - 1) == full by {
      assert ThresholdOrder(rows, base, base) == [];
    }
    ThresholdOrderPrefix(rows, base, base - 1, 0);
    RowsAtMembers(rows, base, base);
    forall k | 0 <= k < |full| ensures Capacity(order[k], base) == base {
      assert order[k] == full[k] && full[k] in full;
    }
    forall k | |full| <= k < |order| ensures Capacity(order[k], base) < base {
      ThresholdOrderTail(rows, base, base - 1, 0, k);
    }
  }

  /** A threshold that separates the front of a falling order under `base` separates it under a
      larger cap too, unless rows on both sides are full. */
  lemma FallingPrefixIsBestUnderCap(order: seq<Series>, base: int, cap: int, count: nat, pick: seq<Series>)
    requires Falls(order, base) && base <= cap && 0 < count <= |order|
    requires IsChoice(pick, order, count)
    requires Capacity(order[count - 1], base) < base
          || forall k | count <= k < |order| :: Capacity(order[k], base) < base
    ensures TotalCapacity(pick, cap) <= TotalCapacity(order[..count], cap)
  {
    var threshold := Capacity(order[count - 1], base);
    assert order == order[..count] + order[count..];
    forall i | 0 <= i < count ensures CapacityUnder(cap)(order[..count][i]) >= threshold {
      assert i < count - 1 ==> Capacity(order[i], base) >= Capacity(order[count - 1], base);
    }
    forall i | 0 <= i < |order[count..]| ensures CapacityUnder(cap)(order[count..][i]) <= threshold {
      assert Capacity(order[count - 1], base) >= Capacity(order[count + i], base);
    }
    SeparatedChoiceIsBest(CapacityUnder(cap), order[..count], order[count..], threshold, pick);
  }

  lemma FullGreedyRows(shuffled: seq<Series>, request: Request)
    requires request.Valid()
    requires |ThresholdOrder(shuffled, BaseOf(request), 0)| >= request.seriesCount
    ensures |FullRows(shuffled, BaseOf(request))| >= request.seriesCount <==>
            forall i | 0 <= i < request.seriesCount ::
              Capacity(GreedyRows(shuffled, request)[i], BaseOf(request)) == BaseOf(request)
  {
    var base, n := BaseOf(request), request.seriesCount;
    BaseFits(request);
    FullRowsFirst(shuffled, base);
    var greedy := GreedyRows(shuffled, request);
    assert greedy[n - 1] == ThresholdOrder(shuffled, base, 0)[n - 1];
  }

  /** Rows that are all full reach the base for each row, and only such rows do. */
  lemma FullTotal(rows: seq<Series>, base: int)
    ensures TotalCapacity(rows, base) <= |rows| * base
    ensures TotalCapacity(rows, base) == |rows| * base <==> forall i | 0 <= i < |rows| :: Capacity(rows[i], base) == base
  {
    var capacities := Capacities(rows, base);
    TotalCapacityIsSum(rows, base);
    BoundedSum(capacities, base);
    assert forall i | 0 <= i < |rows| :: capacities[i] == Capacity(rows[i], base);
    if forall i | 0 <= i < |rows| :: Capacity(rows[i], base) == base {
      SumConstant(capacities, base);
    } else {
      var i :| 0 <= i < |rows| && Capacity(rows[i], base) != base;
      assert capacities[i] != base;
    }
  }

  lemma CapacityGrows(rows: seq<Series>, base: int, cap: int)
    requires base <= cap
    ensures TotalCapacity(rows, base) <= TotalCapacity(rows, cap)
  {
    TotalCapacityIsSum(rows, base);
    TotalCapacityIsSum(rows, cap);
    SumMonotone(Capacities(rows, base), Capacities(rows, cap));
  }

  /** The files divide evenly among the volumes, or no more volumes than requested are full. */
  predicate GreedyIsSafe(candidates: seq<Series>, request: Request, base: int) {
    base * request.seriesCount == request.fileCount || |FullRows(candidates, base)| <= request.seriesCount
  }

  /** With a safe request, the greedy rows suffice exactly when some choice of rows does. */
  lemma GreedyDecidesFeasibility(candidates: seq<Series>, shuffled: seq<Series>, request: Request)
    requires request.Valid() && multiset(shuffled) == multiset(candidates)
    requires forall i | 0 <= i < |shuffled| :: shuffled[i].issueCount >= 1
    requires |ThresholdOrder(shuffled, BaseOf(request), 0)| >= request.seriesCount
    requires BaseOf(request) <= request.maxIssuesPerSeries && GreedyIsSafe(candidates, request, BaseOf(request))
    ensures Suffices(GreedyRows(shuffled, request), request) <==> !Infeasible(candidates, request)
  {
    var base, cap, n := BaseOf(request), request.maxIssuesPerSeries, request.seriesCount;
    var order, greedy := ThresholdOrder(shuffled, base, 0), GreedyRows(shuffled, request);
    BaseFits(request);
    GreedyRowsAreChoice(candidates, shuffled, request);
    RowsAtRearranged(candidates, shuffled, base, base);
    FullRowsFirst(shuffled, base);
    ThresholdOrderFalls(shuffled, base, 0);
    ThresholdOrderIsComplete(shuffled, base);
    if |FullRows(shuffled, base)| <= n || Capacity(order[n - 1], base) < base {
      forall pick | IsChoice(pick, candidates, n) ensures TotalCapacity(pick, cap) <= TotalCapacity(greedy, cap) {
        assert IsChoice(pick, order, n);
        FallingPrefixIsBestUnderCap(order, base, cap, n, pick);
      }
    } else {
      FullGreedyRows(shuffled, request);
      FullTotal(greedy, base);
      CapacityGrows(greedy, base, cap);
    }
  }

  /** With a base above the cap, the greedy rows suffice exactly when the files divide evenly among
      rows that are all full. */
  lemma BaseAboveCapNeedsFullRows(candidates: seq<Series>, shuffled: seq<Series>, request: Request)
    requires request.Valid() && multiset(shuffled) == multiset(candidates)
    requires |ThresholdOrder(shuffled, BaseOf(request), 0)| >= request.seriesCount
    requires BaseOf(request) > request.maxIssuesPerSeries
    ensures Suffices(GreedyRows(shuffled, request), request) <==>
            BaseOf(request) * request.seriesCount == request.fileCount
            && |FullRows(candidates, BaseOf(request))| >= request.seriesCount
  {
    BaseFits(request);
    RowsAtRearranged(candidates, shuffled, BaseOf(request), BaseOf(request));
    FullGreedyRows(shuffled, request);
    FullTotal(GreedyRows(shuffled, request), BaseOf(request));
  }

  /** This shuffle leads to a plan. */
  predicate ShufflePlans(shuffled: seq<Series>, request: Request)
    requires request.Valid()
  {
    |ThresholdOrder(shuffled, BaseOf(request), 0)| >= request.seriesCount
    && Suffices(GreedyRows(shuffled, request), request)
  }

  ghost predicate SomeShuffleFails(candidates: seq<Series>, request: Request)
    requires request.Valid()
  {
    exists shuffled :: multiset(shuffled) == multiset(candidates) && !ShufflePlans(shuffled, request)
  }

  /** A choice of full rows falls short. */
  ghost predicate FullChoiceFallsShort(candidates: seq<Series>, request: Request)
    requires request.Valid()
  {
    exists pick :: IsChoice(pick, FullRows(candidates, BaseOf(request)), request.seriesCount)
                && TotalCapacity(pick, request.maxIssuesPerSeries) < request.fileCount
  }

  lemma FrontOfPrefix<T>(a: seq<T>, b: seq<T>, n: nat)
    requires a <= b && n <= |a|
    ensures n <= |b| && b[..n] == a[..n]
  {
  }

  lemma FrontIsChoice<T>(a: seq<T>, pool: seq<T>, n: nat)
    requires multiset(a) == multiset(pool) && n <= |a|
    ensures IsChoice(a[..n], pool, n)
  {
    assert a == a[..n] + a[n..];
  }

  /** Every choice of full rows is the selection that some shuffle leads to. */
  lemma ShuffleFor(candidates: seq<Series>, base: int, pick: seq<Series>) returns (shuffled: seq<Series>)
    requires multiset(pick) <= multiset(FullRows(candidates, base))
    ensures multiset(shuffled) == multiset(candidates)
    ensures |FullRows(shuffled, base)| >= |pick| && FullRows(shuffled, base)[..|pick|] == pick
  {
    forall x ensures multiset(pick)[x] <= multiset(candidates)[x] {
      RowsAtCount(candidates, base, base, x);
    }
    var rest := ChoiceRest(pick, candidates);
    shuffled := pick + rest;
    assert multiset(shuffled) == multiset(pick) + multiset(rest);
    forall i | 0 <= i < |pick| ensures Capacity(pick[i], base) == base {
      assert pick[i] in multiset(pick);
      RowsAtCount(candidates, base, base, pick[i]);
    }
    RowsAtAll(pick, base, base);
    RowsAtAppend(pick, rest, base, base);
  }

  /** With enough full rows, some shuffle fails exactly when some choice of full rows falls short,
      however feasible the request is. */
  lemma ShuffleFailsWhen(candidates: seq<Series>, request: Request)
    requires request.Valid() && BaseOf(request) <= request.maxIssuesPerSeries
    requires |FullRows(candidates, BaseOf(request))| >= request.seriesCount
    ensures SomeShuffleFails(candidates, request) <==> FullChoiceFallsShort(candidates, request)
  {
    var base, n := BaseOf(request), request.seriesCount;
    BaseFits(request);
    if SomeShuffleFails(candidates, request) {
      var shuffled :| multiset(shuffled) == multiset(candidates) && !ShufflePlans(shuffled, request);
      RowsAtRearranged(candidates, shuffled, base, base);
      FullRowsFirst(shuffled, base);
      var full := FullRows(shuffled, base);
      FrontOfPrefix(full, ThresholdOrder(shuffled, base, 0), n);
      FrontIsChoice(full, FullRows(candidates, base), n);
      assert IsChoice(GreedyRows(shuffled, request), FullRows(candidates, base), n);
    }
    if FullChoiceFallsShort(candidates, request) {
      var pick :| IsChoice(pick, FullRows(candidates, base), n)
               && TotalCapacity(pick, request.maxIssuesPerSeries) < request.fileCount;
      var shuffled := ShuffleFor(candidates, base, pick);
      FullRowsFirst(shuffled, base);
      FrontOfPrefix(FullRows(shuffled, base), ThresholdOrder(shuffled, base, 0), n);
      assert GreedyRows(shuffled, request) == pick;
      assert !ShufflePlans(shuffled, request);
    }
  }

  // ----- The profile -----

  ghost predicate WithinCap(plan: seq<(Series, int)>, cap: int) {
    forall i | 0 <= i < |plan| :: plan[i].1 <= Capacity(plan[i].0, cap)
  }

  lemma GreedyOutcome(candidates: seq<Series>, shuffled: seq<Series>, request: Request)
    requires request.Valid() && multiset(shuffled) == multiset(candidates)
    requires forall i | 0 <= i < |shuffled| :: shuffled[i].issueCount >= 1
    ensures ShufflePlans(shuffled, request) ==> |candidates| >= request.seriesCount
    ensures BaseOf(request) <= request.maxIssuesPerSeries && GreedyIsSafe(candidates, request, BaseOf(request)) ==>
              (ShufflePlans(shuffled, request) <==> !Infeasible(candidates, request))
    ensures BaseOf(request) > request.maxIssuesPerSeries ==>
              (ShufflePlans(shuffled, request) <==>
                 BaseOf(request) * request.seriesCount == request.fileCount
                 && |FullRows(candidates, BaseOf(request))| >= request.seriesCount)
  {
    assert |multiset(shuffled)| == |multiset(candidates)|;
    BaseFits(request);
    ThresholdOrderIsComplete(shuffled, BaseOf(request));
    if |candidates| < request.seriesCount {
      forall pick | IsChoice(pick, candidates, request.seriesCount) ensures false {
        ChoiceFits(pick, candidates, request.seriesCount);
      }
    } else if BaseOf(request) > request.maxIssuesPerSeries {
      BaseAboveCapNeedsFullRows(candidates, shuffled, request);
    } else if GreedyIsSafe(candidates, request, BaseOf(request)) {
      GreedyDecidesFeasibility(candidates, shuffled, request);
    }
  }

  /** A plan over the base: the greedy selection, which no choice of rows betters on the first `base`
      issues of each, filled up from those issues to the exact total. */
  ghost predicate IsBalancedPlan(
      plan: seq<(Series, int)>, candidates: seq<Series>, shuffled: seq<Series>, request: Request, base: int)
  {
    && IsExactPlan(plan, candidates, request)
    && IsGreedySelection(PlannedSeries(plan), shuffled, base)
    && WaterFilled(PlannedCounts(plan), PlannedSeries(plan), base, request.maxIssuesPerSeries)
    && (forall pick | IsChoice(pick, candidates, request.seriesCount) ::
          TotalCapacity(pick, base) <= TotalCapacity(PlannedSeries(plan), base))
    && (forall i | 0 <= i < |plan| :: plan[i].1 >= Capacity(plan[i].0, base))
    && (WithinCap(plan, request.maxIssuesPerSeries) <==> base <= request.maxIssuesPerSeries)
  }

  /** When there is a plan, and which one. */
  ghost predicate IsBalancedOutcome(
      result: PlanResult, candidates: seq<Series>, shuffled: seq<Series>, request: Request, base: int)
  {
    && (base <= request.maxIssuesPerSeries && GreedyIsSafe(candidates, request, base) ==>
          (result.Planned? <==> !Infeasible(candidates, request)))
    && (base > request.maxIssuesPerSeries ==>
          (result.Planned? <==> base * request.seriesCount == request.fileCount
                                && |FullRows(candidates, base)| >= request.seriesCount))
    && (result.Planned? ==> IsBalancedPlan(result.plan, candidates, shuffled, request, base))
  }

  /** The plan is determined by the shuffle, the base and the request. */
  lemma BalancedPlanIsUnique(
      p: seq<(Series, int)>, q: seq<(Series, int)>, candidates: seq<Series>, shuffled: seq<Series>, request: Request,
      base: int)
    requires IsBalancedPlan(p, candidates, shuffled, request, base)
    requires IsBalancedPlan(q, candidates, shuffled, request, base)
    ensures p == q
  {
    GreedySelectionIsUnique(PlannedSeries(p), PlannedSeries(q), shuffled, base);
    WaterFillingIsUnique(PlannedCounts(p), PlannedCounts(q), PlannedSeries(p), base, request.maxIssuesPerSeries);
    SamePlan(p, q);
  }

  lemma PlanFacts(
      plan: seq<(Series, int)>, candidates: seq<Series>, shuffled: seq<Series>, request: Request)
    requires request.Valid() && multiset(shuffled) == multiset(candidates)
    requires forall i | 0 <= i < |shuffled| :: shuffled[i].issueCount >= 1
    requires |ThresholdOrder(shuffled, BaseOf(request), 0)| >= request.seriesCount
    requires PlannedSeries(plan) == GreedyRows(shuffled, request) && Sum(PlannedCounts(plan)) == request.fileCount
    requires WaterFilled(PlannedCounts(plan), PlannedSeries(plan), BaseOf(request), request.maxIssuesPerSeries)
    ensures IsBalancedPlan(plan, candidates, shuffled, request, BaseOf(request))
  {
    var base, cap := BaseOf(request), request.maxIssuesPerSeries;
    var selected, counts := PlannedSeries(plan), PlannedCounts(plan);
    BaseFits(request);
    GreedyRowsAreChoice(candidates, shuffled, request);
    ThresholdOrderIsGreedy(shuffled, base, request.seriesCount);
    forall pick | IsChoice(pick, candidates, request.seriesCount)
      ensures TotalCapacity(pick, base) <= TotalCapacity(selected, base)
    {
      ThresholdSelectionIsBest(shuffled, base, request.seriesCount, pick);
    }
    forall i | 0 <= i < |plan| ensures plan[i].1 >= Capacity(plan[i].0, base) {
      WaterFillingKeepsStart(counts, selected, base, cap, i);
    }
    if base <= cap {
      forall i | 0 <= i < |plan| ensures plan[i].1 <= Capacity(plan[i].0, cap) {
        WaterFillingIsFair(counts, selected, base, cap, i, i);
      }
    } else {
      BaseAboveCapStays(counts, selected, request);
      assert plan[0].1 == counts[0] == base;
    }
  }

  /** The whole profile. For the quotient of files by volumes, whatever it is called, this says when
      there is a plan and which plan it is. */
  method BalancedAssignments(candidates: seq<Series>, shuffled: seq<Series>, request: Request)
    returns (result: PlanResult)
    requires request.Valid() && DistinctVolumes(shuffled)
    requires multiset(shuffled) == multiset(candidates)
    requires forall i | 0 <= i < |shuffled| :: shuffled[i].issueCount >= 1
    ensures result.InsufficientSeries? <==> |candidates| < request.seriesCount
    ensures !result.DivisionByZero?
    ensures forall base | IsBase(request, base) :: IsBalancedOutcome(result, candidates, shuffled, request, base)
    ensures |ThresholdOrder(shuffled, BaseOf(request), 0)| == |candidates|
    ensures |candidates| >= request.seriesCount ==>
              (result.Planned? <==> Suffices(GreedyRows(shuffled, request), request))
    ensures result.Planned? ==> PlannedSeries(result.plan) == GreedyRows(shuffled, request)
  {
    var base := BaseOf(request);
    assert |multiset(shuffled)| == |multiset(candidates)|;
    ThresholdOrderIsComplete(shuffled, base);
    GreedyOutcome(candidates, shuffled, request);
    var selected := SelectByThreshold(shuffled, base, request.seriesCount);
    forall b | IsBase(request, b) ensures b == base {
      BaseIsUnique(request, b);
    }
    if |selected| != request.seriesCount {
      return InsufficientSeries;
    }
    var filled, counts := WaterFill(selected, request);
    if !filled {
      return InsufficientFiles;
    }
    result := Planned(Zip(selected, counts));
    ZipParts(selected, counts);
    PlanFacts(result.plan, candidates, shuffled, request);
  }

  lemma TwoRowCapacity(a: Series, b: Series, cap: int)
    ensures TotalCapacity([a, b], cap) == Capacity(a, cap) + Capacity(b, cap)
  {
    assert [a, b][1..] == [b];
    assert SumBy(CapacityUnder(cap), [b]) == CapacityUnder(cap)(b) + SumBy(CapacityUnder(cap), []);
  }

  lemma UnitBaseOrder(rows: seq<Series>)
    requires forall i | 0 <= i < |rows| :: rows[i].issueCount >= 1
    ensures ThresholdOrder(rows, 1, 0) == rows
  {
    RowsAtAll(rows, 1, 1);
    assert ThresholdOrder(rows, 1, 1) == [];
  }

  lemma OuterPairIsChoice(a: Series, b: Series, c: Series)
    ensures IsChoice([a, c], [a, b, c], 2)
  {
    assert [a, b, c] == [a] + [b] + [c] && [a, c] == [a] + [c];
    assert multiset([a, b, c]) == multiset([a, c]) + multiset{b};
  }

  lemma PairFits(a: Series, b: Series, c: Series, request: Request)
    requires request.seriesCount == 2
    requires Capacity(a, request.maxIssuesPerSeries) + Capacity(c, request.maxIssuesPerSeries) >= request.fileCount
    ensures !Infeasible([a, b, c], request)
  {
    var pick := [a, c];
    TwoRowCapacity(a, c, request.maxIssuesPerSeries);
    OuterPairIsChoice(a, b, c);
    assert IsChoice(pick, [a, b, c], request.seriesCount);
  }

  /** Greedy selection looks only at the first `base` issues of a row, so it can miss a choice that
      would have sufficed: two rows and three files wanted, and the row that holds five comes last. */
  lemma GreedySelectionCanMissFeasibleChoice(a: Series, b: Series, c: Series, request: Request)
    requires a == Series(1, 1) && b == Series(2, 1) && c == Series(3, 5) && request == Request(2, 3, 250)
    ensures request.Valid() && DistinctVolumes([a, b, c])
    ensures ThresholdOrder([a, b, c], BaseOf(request), 0) == [a, b, c]
    ensures !Suffices(GreedyRows([a, b, c], request), request)
    ensures !Infeasible([a, b, c], request)
  {
    UnitBaseOrder([a, b, c]);
    assert BaseOf(request) == 1;
    assert GreedyRows([a, b, c], request) == [a, b];
    TwoRowCapacity(a, b, 250);
    PairFits(a, b, c, request);
  }

  /** The cap can be ignored: five files in one volume under a cap of two. */
  lemma CapCanBeIgnored(row: Series, request: Request)
    requires row == Series(1, 5) && request == Request(1, 5, 2)
    ensures request.Valid() && BaseOf(request) > request.maxIssuesPerSeries
    ensures ThresholdOrder([row], BaseOf(request), 0) == [row] && Suffices(GreedyRows([row], request), request)
    ensures forall counts | WaterFilled(counts, [row], BaseOf(request), request.maxIssuesPerSeries) && Sum(counts) == 5 ::
              counts == [5]
  {
    var base := 5;
    assert BaseOf(request) == base;
    RowsAtAll([row], base, base);
    FullRowsFirst([row], base);
    ThresholdOrderIsComplete([row], base);
    assert ThresholdOrder([row], base, 0) == [row];
    assert GreedyRows([row], request) == [row];
    FullTotal([row], base);
    forall counts | WaterFilled(counts, [row], base, 2) && Sum(counts) == 5 ensures counts == [5] {
      BaseAboveCapStays(counts, [row], request);
    }
  }
}
