/** The skewed profile: improve a selection by swaps, then apportion by largest remainder. */
module RealisticSkew {
  import opened Sums
  import opened Fixtures
  import opened RowOrder
  import opened SwapLoop

  // ----- Largest-remainder apportionment -----

  /** What each selected row can still take once every row holds one issue. */
  function Available(capacities: seq<int>): (available: seq<int>)
    ensures |available| == |capacities|
  {
    seq(|capacities|, i requires 0 <= i < |capacities| => capacities[i] - 1)
  }

  /** Whole part of each quota `remaining * available / total`. */
  function Floors(remaining: nat, available: seq<int>, total: int): (floors: seq<int>)
    requires total > 0
    ensures |floors| == |available|
  {
    seq(|available|, i requires 0 <= i < |available| => remaining * available[i] / total)
  }

  /** Fractional part of each quota, as a numerator over `total`. */
  function Fractions(remaining: nat, available: seq<int>, total: int): (fractions: seq<int>)
    requires total > 0
    ensures |fractions| == |available|
  {
    seq(|available|, i requires 0 <= i < |available| => remaining * available[i] % total)
  }

  /** The remainder order: larger fraction first, lower position first among equals. */
  predicate Before(fractions: seq<int>, i: int, j: int)
    requires 0 <= i < |fractions| && 0 <= j < |fractions|
  {
    fractions[i] > fractions[j] || (fractions[i] == fractions[j] && i < j)
  }

  predicate InRemainderOrder(fractions: seq<int>, order: seq<int>)
    requires AreIndices(order, |fractions|)
  {
    forall i, j | 0 <= i < j < |order| :: Before(fractions, order[i], order[j])
  }

  function Insert(fractions: seq<int>, index: int, order: seq<int>): (r: seq<int>)
    requires 0 <= index < |fractions| && AreIndices(order, |fractions|)
    ensures |r| == |order| + 1 && AreIndices(r, |fractions|)
    ensures forall i | 0 <= i < |r| :: r[i] == index || r[i] in order
  {
    if order == [] then [index]
    else if Before(fractions, index, order[0]) then [index] + order
    else [order[0]] + Insert(fractions, index, order[1..])
  }

  lemma {:induction false} InsertKeepsContents(fractions: seq<int>, index: int, order: seq<int>)
    requires 0 <= index < |fractions| && AreIndices(order, |fractions|)
    ensures multiset(Insert(fractions, index, order)) == multiset(order) + multiset{index}
  {
    if order == [] || Before(fractions, index, order[0]) {
    } else {
      InsertKeepsContents(fractions, index, order[1..]);
      assert order == [order[0]] + order[1..];
    }
  }

  lemma {:induction false} InsertKeepsOrder(fractions: seq<int>, index: int, order: seq<int>)
    requires 0 <= index < |fractions| && AreIndices(order, |fractions|)
    requires InRemainderOrder(fractions, order) && index !in order
    ensures InRemainderOrder(fractions, Insert(fractions, index, order))
  {
    if order == [] || Before(fractions, index, order[0]) {
    } else {
      var tail := Insert(fractions, index, order[1..]);
      InsertKeepsOrder(fractions, index, order[1..]);
      forall j | 0 <= j < |tail| ensures Before(fractions, order[0], tail[j]) {
        assert tail[j] in tail;
        if tail[j] != index {
          var k :| 0 <= k < |order[1..]| && order[1..][k] == tail[j];
          assert Before(fractions, order[0], order[k + 1]);
        }
      }
    }
  }

  function Range(n: nat): (r: seq<int>)
    ensures |r| == n && forall i | 0 <= i < n :: r[i] == i
  {
    if n == 0 then [] else Range(n - 1) + [n - 1]
  }

  /** The positions below `n` in remainder order. */
  function RemainderOrder(fractions: seq<int>, n: nat): (order: seq<int>)
    requires n <= |fractions|
    ensures |order| == n && AreIndices(order, n)
  {
    if n == 0 then [] else Insert(fractions, n - 1, RemainderOrder(fractions, n - 1))
  }

  lemma InsertNext(fractions: seq<int>, n: nat, earlier: seq<int>)
    requires 0 < n <= |fractions| && AreIndices(earlier, |fractions|)
    requires multiset(earlier) == multiset(Range(n - 1))
    ensures multiset(Insert(fractions, n - 1, earlier)) == multiset(Range(n))
  {
    InsertKeepsContents(fractions, n - 1, earlier);
    assert Range(n) == Range(n - 1) + [n - 1];
  }

  lemma {:induction false} RemainderOrderContents(fractions: seq<int>, n: nat)
    requires n <= |fractions|
    ensures multiset(RemainderOrder(fractions, n)) == multiset(Range(n))
  {
    if n == 0 {
    } else {
      RemainderOrderContents(fractions, n - 1);
      InsertNext(fractions, n, RemainderOrder(fractions, n - 1));
    }
  }

  lemma {:induction false} RemainderOrderIsSorted(fractions: seq<int>, n: nat)
    requires n <= |fractions|
    ensures InRemainderOrder(fractions, RemainderOrder(fractions, n))
  {
    if n == 0 {
    } else {
      RemainderOrderIsSorted(fractions, n - 1);
      InsertKeepsOrder(fractions, n - 1, RemainderOrder(fractions, n - 1));
    }
  }

  /** `counts` gives every row one issue, its whole quota, and one more to the rows that come first
      in the remainder order. */
  ghost predicate IsApportionment(counts: seq<int>, capacities: seq<int>, files: int) {
    var available := Available(capacities);
    var total := Sum(available);
    var remaining := files - |capacities|;
    && |counts| == |capacities|
    && total > 0 && remaining >= 0
    && Sum(counts) == files
    && var floors, fractions := Floors(remaining, available, total), Fractions(remaining, available, total);
    && (forall i | 0 <= i < |counts| :: counts[i] - 1 - floors[i] in {0, 1})
    && (forall i, j | 0 <= i < |counts| && 0 <= j < |counts| &&
          counts[i] == floors[i] + 2 && counts[j] == floors[j] + 1 :: Before(fractions, i, j))
  }

  lemma Distribute(x: int, y: int, factor: int)
    ensures (x + y) * factor == x * factor + y * factor
    ensures factor * (x + y) == factor * x + factor * y
  {
  }

  lemma {:induction false} QuotaSplit(remaining: nat, available: seq<int>, total: int)
    requires total > 0
    ensures Sum(Floors(remaining, available, total)) * total + Sum(Fractions(remaining, available, total))
            == remaining * Sum(available)
  {
    if available == [] {
    } else {
      QuotaSplit(remaining, available[1..], total);
      var floors, fractions := Floors(remaining, available, total), Fractions(remaining, available, total);
      assert floors[1..] == Floors(remaining, available[1..], total);
      assert fractions[1..] == Fractions(remaining, available[1..], total);
      assert floors[0] * total + fractions[0] == remaining * available[0];
      Distribute(floors[0], Sum(floors[1..]), total);
      Distribute(available[0], Sum(available[1..]), remaining);
    }
  }

  function Lookup(xs: seq<int>): int -> int {
    i => if 0 <= i < |xs| then xs[i] else 0
  }

  lemma SumInAnyOrder(fractions: seq<int>, order: seq<int>)
    requires forall i | 0 <= i < |fractions| :: fractions[i] >= 0
    requires AreIndices(order, |fractions|)
    requires multiset(order) == multiset(Range(|fractions|))
    ensures SumBy(Lookup(fractions), order) == Sum(fractions)
  {
    SumByRearranged(Lookup(fractions), order, Range(|fractions|));
    SumByIsSum(Lookup(fractions), Range(|fractions|), fractions);
  }

  lemma SumInRemainderOrder(fractions: seq<int>)
    requires forall i | 0 <= i < |fractions| :: fractions[i] >= 0
    ensures SumBy(Lookup(fractions), RemainderOrder(fractions, |fractions|)) == Sum(fractions)
  {
    RemainderOrderContents(fractions, |fractions|);
    SumInAnyOrder(fractions, RemainderOrder(fractions, |fractions|));
  }

  lemma MulMonotone(x: int, y: int, factor: int)
    requires factor >= 0
    ensures x <= y ==> x * factor <= y * factor
  {
  }

  lemma FirstFractions(fractions: seq<int>, first: seq<int>, total: int)
    requires total > 0 && forall i | 0 <= i < |fractions| :: 0 <= fractions[i] < total
    requires AreIndices(first, |fractions|)
    ensures SumBy(Lookup(fractions), first) <= |first| * (total - 1)
  {
    forall j | 0 <= j < |first| ensures Lookup(fractions)(first[j]) <= total - 1 {
      assert 0 <= first[j] < |fractions|;
    }
    SumByAtMost(Lookup(fractions), first, total - 1);
  }

  /** From a row without a fraction on, the remainder order adds nothing. */
  lemma LaterFractions(fractions: seq<int>, order: seq<int>, taken: nat)
    requires AreIndices(order, |fractions|) && InRemainderOrder(fractions, order)
    requires taken <= |order|
    requires taken < |order| ==> fractions[order[taken]] == 0
    ensures SumBy(Lookup(fractions), order[taken..]) <= 0
  {
    var later := order[taken..];
    forall j | 0 <= j < |later| ensures Lookup(fractions)(later[j]) <= 0 {
      assert later[j] == order[taken + j];
      assert j > 0 ==> Before(fractions, order[taken], order[taken + j]);
    }
    SumByAtMost(Lookup(fractions), later, 0);
  }

  lemma FractionsUpTo(fractions: seq<int>, order: seq<int>, total: int, taken: nat)
    requires total > 0 && forall i | 0 <= i < |fractions| :: 0 <= fractions[i] < total
    requires AreIndices(order, |fractions|) && InRemainderOrder(fractions, order)
    requires taken <= |order|
    requires taken < |order| ==> fractions[order[taken]] == 0
    ensures SumBy(Lookup(fractions), order) <= taken * (total - 1)
  {
    assert order == order[..taken] + order[taken..];
    SumByAppend(Lookup(fractions), order[..taken], order[taken..]);
    FirstFractions(fractions, order[..taken], total);
    LaterFractions(fractions, order, taken);
  }

  lemma WholesAtMost(residual: int, taken: nat, total: int)
    requires total > 0 && residual * total <= taken * (total - 1)
    ensures residual <= taken
  {
    MulMonotone(taken + 1, residual, total);
    assert (taken + 1) * total == taken * (total - 1) + taken + total;
  }

  /** When the fractions add up to `residual` wholes, the first `residual` rows in remainder order
      all have a nonzero fraction. */
  lemma ResidualRowsHaveFractions(fractions: seq<int>, order: seq<int>, total: int, residual: int, k: nat)
    requires total > 0 && forall i | 0 <= i < |fractions| :: 0 <= fractions[i] < total
    requires AreIndices(order, |fractions|) && InRemainderOrder(fractions, order)
    requires SumBy(Lookup(fractions), order) == residual * total
    requires k < residual
    ensures k < |order| && fractions[order[k]] > 0
  {
    if k >= |order| {
      FractionsUpTo(fractions, order, total, |order|);
      WholesAtMost(residual, |order|, total);
    } else if fractions[order[k]] == 0 {
      FractionsUpTo(fractions, order, total, k);
      WholesAtMost(residual, k, total);
    }
  }

  /** One row: its floor fits, and a nonzero fraction leaves room for one more. */
  lemma QuotaFits(remaining: nat, available: int, total: int)
    requires 0 <= available && remaining <= total && total > 0
    ensures 0 <= remaining * available / total <= available
    ensures remaining * available % total > 0 ==> remaining * available / total < available
  {
    var product := remaining * available;
    MulMonotone(remaining, total, available);
    MulMonotone(available + 1, product / total, total);
    MulMonotone(product / total, -1, total);
    MulMonotone(available, product / total, total);
    assert product == product / total * total + product % total;
  }

  function StartCounts(floors: seq<int>): (start: seq<int>)
    ensures |start| == |floors|
  {
    seq(|floors|, i requires 0 <= i < |floors| => 1 + floors[i])
  }

  lemma {:induction false} StartTotal(floors: seq<int>)
    ensures Sum(StartCounts(floors)) == |floors| + Sum(floors)
  {
    if floors == [] {
    } else {
      assert StartCounts(floors)[1..] == StartCounts(floors[1..]);
      StartTotal(floors[1..]);
    }
  }

  /** `place` says where each of the first `n` positions stands in `order`. */
  ghost predicate Places(place: seq<int>, order: seq<int>, n: nat) {
    |place| == n && forall i | 0 <= i < n :: 0 <= place[i] < |order| && order[place[i]] == i
  }

  lemma RemainderPlaces(fractions: seq<int>) returns (place: seq<int>)
    ensures Places(place, RemainderOrder(fractions, |fractions|), |fractions|)
  {
    var order := RemainderOrder(fractions, |fractions|);
    RemainderOrderContents(fractions, |fractions|);
    place := [];
    for i := 0 to |fractions|
      invariant Places(place, order, i)
    {
      assert Range(|fractions|)[i] == i;
      assert i in multiset(order);
      var p :| 0 <= p < |order| && order[p] == i;
      place := place + [p];
    }
  }

  /** Every row has its whole quota, and the first `residual` rows in order have one more. */
  ghost predicate Granted(counts: seq<int>, start: seq<int>, order: seq<int>, residual: nat)
    requires |counts| == |start| && AreIndices(order, |start|) && residual <= |order|
  {
    && (forall p | 0 <= p < residual :: counts[order[p]] == start[order[p]] + 1)
    && (forall p | residual <= p < |order| :: counts[order[p]] == start[order[p]])
  }

  /** The final loop: one more issue for each of the first `residual` positions of `order`. */
  method GrantExtras(start: seq<int>, order: seq<int>, residual: nat) returns (counts: seq<int>)
    requires residual <= |order| && AreIndices(order, |start|)
    requires forall i, j | 0 <= i < j < |order| :: order[i] != order[j]
    ensures |counts| == |start|
    ensures Granted(counts, start, order, residual)
    ensures Sum(counts) == Sum(start) + residual
  {
    counts := start;
    for k := 0 to residual
      invariant |counts| == |start|
      invariant Granted(counts, start, order, k)
      invariant Sum(counts) == Sum(start) + k
    {
      SumUpdate(counts, order[k], counts[order[k]] + 1);
      counts := counts[order[k] := counts[order[k]] + 1];
    }
  }

  lemma GrantedIsApportionment(
      capacities: seq<int>, files: int, counts: seq<int>, order: seq<int>, residual: nat, place: seq<int>)
    requires |capacities| <= files && Sum(Available(capacities)) > 0
    requires |counts| == |capacities| && Sum(counts) == files
    requires AreIndices(order, |capacities|) && residual <= |order| && Places(place, order, |capacities|)
    requires var available := Available(capacities);
             var remaining, total := files - |capacities|, Sum(available);
             && InRemainderOrder(Fractions(remaining, available, total), order)
             && Granted(counts, StartCounts(Floors(remaining, available, total)), order, residual)
    ensures IsApportionment(counts, capacities, files)
  {
    var available := Available(capacities);
    var remaining, total := files - |capacities|, Sum(available);
    var floors, fractions := Floors(remaining, available, total), Fractions(remaining, available, total);
    forall i | 0 <= i < |counts|
      ensures counts[i] == floors[i] + if place[i] < residual then 2 else 1
    {
      assert order[place[i]] == i;
    }
    forall i, j | 0 <= i < |counts| && 0 <= j < |counts| && counts[i] == floors[i] + 2 && counts[j] == floors[j] + 1
      ensures Before(fractions, i, j)
    {
      assert Before(fractions, order[place[i]], order[place[j]]);
    }
  }

  lemma {:induction false} AvailableTotal(capacities: seq<int>)
    ensures Sum(Available(capacities)) == Sum(capacities) - |capacities|
  {
    if capacities == [] {
    } else {
      assert Available(capacities)[1..] == Available(capacities[1..]);
      AvailableTotal(capacities[1..]);
    }
  }

  lemma GrantedFitsCapacity(
      capacities: seq<int>, files: int, counts: seq<int>, order: seq<int>, residual: nat, place: seq<int>, i: nat)
    requires forall k | 0 <= k < |capacities| :: capacities[k] >= 1
    requires |capacities| <= files <= Sum(capacities) && Sum(Available(capacities)) > 0
    requires |counts| == |capacities| && i < |counts|
    requires AreIndices(order, |capacities|) && residual <= |order| && Places(place, order, |capacities|)
    requires var available := Available(capacities);
             var remaining, total := files - |capacities|, Sum(available);
             && Granted(counts, StartCounts(Floors(remaining, available, total)), order, residual)
             && forall p | 0 <= p < residual :: Fractions(remaining, available, total)[order[p]] > 0
    ensures 1 <= counts[i] <= capacities[i]
  {
    var available := Available(capacities);
    AvailableTotal(capacities);
    QuotaFits(files - |capacities|, available[i], Sum(available));
    assert order[place[i]] == i;
  }

  lemma ResidualIsExact(fractions: seq<int>, total: int, remaining: int, whole: int)
    requires total > 0 && forall i | 0 <= i < |fractions| :: 0 <= fractions[i]
    requires whole * total + Sum(fractions) == remaining * total
    ensures Sum(fractions) == (remaining - whole) * total
    ensures remaining - whole >= 0
  {
    var zeros := seq(|fractions|, i => 0);
    SumConstant(zeros, 0);
    SumMonotone(zeros, fractions);
    assert (remaining - whole) * total == remaining * total - whole * total;
    MulMonotone(remaining - whole, -1, total);
  }

  /** The wholes lost by rounding down fit the remainder order, and each goes to a row that lost
      some. */
  lemma ResidualFits(remaining: nat, available: seq<int>, residual: int)
    requires Sum(available) > 0
    requires residual == remaining - Sum(Floors(remaining, available, Sum(available)))
    ensures var fractions := Fractions(remaining, available, Sum(available));
            var order := RemainderOrder(fractions, |fractions|);
            && 0 <= residual <= |order|
            && (forall j | 0 <= j < residual :: fractions[order[j]] > 0)
  {
    var total := Sum(available);
    var fractions := Fractions(remaining, available, total);
    var order := RemainderOrder(fractions, |fractions|);
    QuotaSplit(remaining, available, total);
    ResidualIsExact(fractions, total, remaining, remaining - residual);
    RemainderOrderIsSorted(fractions, |fractions|);
    SumInRemainderOrder(fractions);
    forall j | 0 <= j < residual ensures j < |order| && fractions[order[j]] > 0 {
      ResidualRowsHaveFractions(fractions, order, total, residual, j);
    }
    if residual > 0 {
      ResidualRowsHaveFractions(fractions, order, total, residual, residual - 1);
    }
  }

  lemma RemainderOrderIsDistinct(fractions: seq<int>)
    ensures InRemainderOrder(fractions, RemainderOrder(fractions, |fractions|))
    ensures var order := RemainderOrder(fractions, |fractions|);
            forall i, j | 0 <= i < j < |order| :: order[i] != order[j]
  {
    var order := RemainderOrder(fractions, |fractions|);
    RemainderOrderIsSorted(fractions, |fractions|);
    assert forall i, j | 0 <= i < j < |order| :: Before(fractions, order[i], order[j]);
  }

  lemma GrantedCounts(capacities: seq<int>, files: int, counts: seq<int>, residual: nat)
    requires forall k | 0 <= k < |capacities| :: capacities[k] >= 1
    requires |capacities| <= files <= Sum(capacities) && Sum(Available(capacities)) > 0
    requires |counts| == |capacities| && Sum(counts) == files
    requires var available := Available(capacities);
             var remaining, total := files - |capacities|, Sum(available);
             var order := RemainderOrder(Fractions(remaining, available, total), |capacities|);
             && residual == remaining - Sum(Floors(remaining, available, total))
             && residual <= |order|
             && Granted(counts, StartCounts(Floors(remaining, available, total)), order, residual)
    ensures IsApportionment(counts, capacities, files)
    ensures forall i | 0 <= i < |counts| :: 1 <= counts[i] <= capacities[i]
  {
    var available := Available(capacities);
    var remaining := files - |capacities|;
    var fractions := Fractions(remaining, available, Sum(available));
    var order := RemainderOrder(fractions, |fractions|);
    var place := RemainderPlaces(fractions);
    ResidualFits(remaining, available, residual);
    RemainderOrderIsSorted(fractions, |fractions|);
    GrantedIsApportionment(capacities, files, counts, order, residual, place);
    forall i | 0 <= i < |counts| ensures 1 <= counts[i] <= capacities[i] {
      GrantedFitsCapacity(capacities, files, counts, order, residual, place, i);
    }
  }

  method Apportion(capacities: seq<int>, files: int) returns (counts: seq<int>)
    requires forall i | 0 <= i < |capacities| :: capacities[i] >= 1
    requires |capacities| <= files <= Sum(capacities)
    requires Sum(Available(capacities)) > 0
    ensures IsApportionment(counts, capacities, files)
    ensures forall i | 0 <= i < |counts| :: 1 <= counts[i] <= capacities[i]
  {
    var remaining := files - |capacities|;
    var available := Available(capacities);
    var total := Sum(available);
    var floors := Floors(remaining, available, total);
    var fractions := Fractions(remaining, available, total);
    var residual := remaining - Sum(floors);
    var order := RemainderOrder(fractions, |fractions|);
    ResidualFits(remaining, available, residual);
    RemainderOrderIsDistinct(fractions);
    StartTotal(floors);
    counts := GrantExtras(StartCounts(floors), order, residual);
    GrantedCounts(capacities, files, counts, residual);
  }

  // ----- What the apportionment means -----

  lemma QuotientMonotone(x: int, y: int, total: int)
    requires total > 0 && x <= y
    ensures x / total <= y / total
    ensures x / total == y / total ==> x % total <= y % total
    ensures x / total == y / total && x % total == y % total ==> x == y
  {
    MulMonotone(y / total + 1, x / total, total);
    assert x == x / total * total + x % total;
    assert y == y / total * total + y % total;
  }

  /** With nothing left to share, no row gets more than its first issue. */
  lemma ExtraNeedsRemaining(counts: seq<int>, capacities: seq<int>, files: int, i: nat)
    requires IsApportionment(counts, capacities, files) && i < |counts|
    ensures files == |capacities| ==> counts[i] == 1
  {
    var available := Available(capacities);
    var remaining, total := files - |capacities|, Sum(available);
    if remaining == 0 {
      forall k | 0 <= k < |counts| ensures Floors(remaining, available, total)[k] == 0 {
        assert remaining * available[k] == 0;
      }
      var ones := seq(|counts|, k => 1);
      SumConstant(ones, 1);
      SumMonotone(ones, counts);
    }
  }

  /** Quotas follow the room of their rows. */
  lemma QuotasFollow(remaining: nat, available: seq<int>, total: int, i: nat, j: nat)
    requires total > 0 && i < |available| && j < |available| && available[i] <= available[j]
    ensures var floors, fractions := Floors(remaining, available, total), Fractions(remaining, available, total);
            && floors[i] <= floors[j]
            && (floors[i] == floors[j] ==> fractions[i] <= fractions[j])
            && (floors[i] == floors[j] && fractions[i] == fractions[j] && remaining > 0 ==> available[i] == available[j])
  {
    var x, y := remaining * available[i], remaining * available[j];
    MulMonotone(available[i], available[j], remaining);
    MulMonotone(available[i] + 1, available[j], remaining);
    QuotientMonotone(x, y, total);
  }

  /** Rows with more room never receive fewer issues, and rows with equal room differ by at most
      one, the earlier row first. */
  lemma ApportionmentFollowsCapacity(counts: seq<int>, capacities: seq<int>, files: int, i: nat, j: nat)
    requires IsApportionment(counts, capacities, files)
    requires i < |counts| && j < |counts|
    ensures capacities[i] < capacities[j] ==> counts[i] <= counts[j]
    ensures capacities[i] == capacities[j] ==> counts[i] <= counts[j] + 1
    ensures capacities[i] == capacities[j] && j < i ==> counts[i] <= counts[j]
  {
    var available := Available(capacities);
    var remaining, total := files - |capacities|, Sum(available);
    var floors, fractions := Floors(remaining, available, total), Fractions(remaining, available, total);
    if capacities[i] <= capacities[j] {
      QuotasFollow(remaining, available, total, i, j);
      ExtraNeedsRemaining(counts, capacities, files, i);
      assert counts[i] > counts[j] ==> Before(fractions, i, j);
    }
  }

  /** Largest remainder in plain arithmetic: a row's whole quota is the largest number of shares that
      its part of the remaining issues pays for, and the rows that get one issue more are those with
      the larger remainders, the earlier row among equals. */
  ghost predicate IsLargestRemainder(counts: seq<int>, capacities: seq<int>, files: int, wholes: seq<int>) {
    var remaining, total := files - |capacities|, Sum(capacities) - |capacities|;
    && |counts| == |capacities| == |wholes| && Sum(counts) == files
    && (forall i | 0 <= i < |counts| ::
          wholes[i] * total <= remaining * (capacities[i] - 1) < (wholes[i] + 1) * total)
    && (forall i | 0 <= i < |counts| :: counts[i] == wholes[i] + 1 || counts[i] == wholes[i] + 2)
    && (forall i, j | 0 <= i < |counts| && 0 <= j < |counts| && counts[i] == wholes[i] + 2 && counts[j] == wholes[j] + 1 ::
          var x, y := remaining * (capacities[i] - 1) - wholes[i] * total,
                      remaining * (capacities[j] - 1) - wholes[j] * total;
          x > y || (x == y && i < j))
  }

  lemma QuotaParts(remaining: int, room: int, total: int)
    requires total > 0
    ensures var whole := remaining * room / total;
            && remaining * room - whole * total == remaining * room % total
            && whole * total <= remaining * room < (whole + 1) * total
  {
    var product := remaining * room;
    assert product == product / total * total + product % total;
    Distribute(product / total, 1, total);
  }

  lemma ApportionmentIsLargestRemainder(counts: seq<int>, capacities: seq<int>, files: int) returns (wholes: seq<int>)
    requires IsApportionment(counts, capacities, files)
    ensures IsLargestRemainder(counts, capacities, files, wholes)
  {
    var available := Available(capacities);
    var remaining, total := files - |capacities|, Sum(available);
    AvailableTotal(capacities);
    wholes := Floors(remaining, available, total);
    forall i | 0 <= i < |counts|
      ensures wholes[i] * total <= remaining * (capacities[i] - 1) < (wholes[i] + 1) * total
      ensures remaining * (capacities[i] - 1) - wholes[i] * total == Fractions(remaining, available, total)[i]
      ensures counts[i] == wholes[i] + 1 || counts[i] == wholes[i] + 2
    {
      QuotaParts(remaining, capacities[i] - 1, total);
      assert counts[i] - 1 - wholes[i] in {0, 1};
    }
    forall i, j | 0 <= i < |counts| && 0 <= j < |counts| && counts[i] == wholes[i] + 2 && counts[j] == wholes[j] + 1
      ensures Before(Fractions(remaining, available, total), i, j)
    {
    }
  }

  lemma ExtrasDoNotCross(a: seq<int>, b: seq<int>, capacities: seq<int>, files: int, i: nat, j: nat)
    requires IsApportionment(a, capacities, files) && IsApportionment(b, capacities, files)
    requires i < |a| && j < |b|
    ensures a[i] > b[i] ==> a[j] >= b[j]
  {
  }

  /** The description pins the counts down: two apportionments of the same request agree. */
  lemma ApportionmentIsUnique(a: seq<int>, b: seq<int>, capacities: seq<int>, files: int)
    requires IsApportionment(a, capacities, files) && IsApportionment(b, capacities, files)
    ensures a == b
  {
    if forall i | 0 <= i < |a| :: a[i] <= b[i] {
      SumMonotone(a, b);
    } else {
      var i :| 0 <= i < |a| && a[i] > b[i];
      forall j | 0 <= j < |b| ensures b[j] <= a[j] {
        ExtrasDoNotCross(a, b, capacities, files, i, j);
      }
      SumMonotone(b, a);
    }
  }

  // ----- The profile -----

  /** The selection and its counts, under the cap. */
  ghost predicate IsSkewPlan(plan: seq<(Series, int)>, candidates: seq<Series>, request: Request) {
    var capacities := Capacities(PlannedSeries(plan), request.maxIssuesPerSeries);
    && IsExactPlan(plan, candidates, request)
    && IsApportionment(PlannedCounts(plan), capacities, request.fileCount)
    && forall i | 0 <= i < |plan| :: 1 <= plan[i].1 <= capacities[i]
  }

  /** The first rows of the shuffle can hold one issue each and no more. */
  predicate UnitRowsFirst(shuffled: seq<Series>, request: Request) {
    && 0 <= request.seriesCount <= |shuffled|
    && forall i | 0 <= i < request.seriesCount :: Capacity(shuffled[i], request.maxIssuesPerSeries) == 1
  }

  lemma ZeroSum(xs: seq<int>)
    requires forall i | 0 <= i < |xs| :: xs[i] >= 0
    ensures Sum(xs) >= 0
    ensures Sum(xs) == 0 <==> forall i | 0 <= i < |xs| :: xs[i] == 0
  {
    var zeros := seq(|xs|, i => 0);
    SumConstant(zeros, 0);
    SumMonotone(zeros, xs);
    if forall i | 0 <= i < |xs| :: xs[i] == 0 {
      SumConstant(xs, 0);
    }
  }

  lemma SelectionFacts(
      candidates: seq<Series>, shuffled: seq<Series>, selected: seq<Series>, unselected: seq<Series>, request: Request)
    requires request.Valid() && request.seriesCount <= |shuffled|
    requires multiset(shuffled) == multiset(candidates)
    requires forall s | s in candidates :: s.issueCount >= 1
    requires |selected| == request.seriesCount
    requires multiset(selected + unselected) == multiset(shuffled)
    requires TotalCapacity(selected, request.maxIssuesPerSeries) < request.fileCount <==> Infeasible(shuffled, request)
    requires TotalCapacity(shuffled[..request.seriesCount], request.maxIssuesPerSeries) >= request.fileCount
             ==> selected == shuffled[..request.seriesCount]
    ensures var capacities := Capacities(selected, request.maxIssuesPerSeries);
            && IsChoice(selected, candidates, request.seriesCount)
            && (forall i | 0 <= i < |capacities| :: capacities[i] >= 1)
            && (Sum(capacities) < request.fileCount <==> Infeasible(candidates, request))
            && Sum(capacities) >= request.seriesCount && Sum(Available(capacities)) >= 0
            && (Sum(capacities) >= request.fileCount ==>
                  (Sum(Available(capacities)) == 0 <==>
                   request.fileCount == request.seriesCount && UnitRowsFirst(shuffled, request)))
  {
    var cap := request.maxIssuesPerSeries;
    var capacities := Capacities(selected, cap);
    var first := shuffled[..request.seriesCount];
    assert multiset(selected + unselected) == multiset(selected) + multiset(unselected);
    assert forall pick: seq<Series> ::
        IsChoice(pick, shuffled, request.seriesCount) == IsChoice(pick, candidates, request.seriesCount);
    forall s | s in selected || s in first ensures Capacity(s, cap) >= 1 {
      assert s in multiset(selected + unselected) || s in multiset(shuffled);
      assert s in multiset(candidates);
    }
    TotalCapacityIsSum(selected, cap);
    TotalCapacityIsSum(first, cap);
    AvailableTotal(capacities);
    AvailableTotal(Capacities(first, cap));
    ZeroSum(Available(capacities));
    ZeroSum(Available(Capacities(first, cap)));
    assert request.fileCount == request.seriesCount ==> selected == first;
    if request.fileCount == request.seriesCount {
      assert forall i | 0 <= i < |first| ::
          Available(Capacities(first, cap))[i] == 0 <==> Capacity(shuffled[i], cap) == 1;
    }
  }

  lemma PlanReachesFiles(plan: seq<(Series, int)>, candidates: seq<Series>, request: Request)
    requires IsSkewPlan(plan, candidates, request)
    ensures TotalCapacity(PlannedSeries(plan), request.maxIssuesPerSeries) >= request.fileCount
  {
    TotalCapacityIsSum(PlannedSeries(plan), request.maxIssuesPerSeries);
    SumMonotone(PlannedCounts(plan), Capacities(PlannedSeries(plan), request.maxIssuesPerSeries));
  }

  /** The shuffle and the request determine the plan. */
  lemma SkewPlanIsUnique(
      p: seq<(Series, int)>, q: seq<(Series, int)>, candidates: seq<Series>, shuffled: seq<Series>, request: Request)
    requires IsSkewPlan(p, candidates, request) && IsImproved(PlannedSeries(p), shuffled, request)
    requires IsSkewPlan(q, candidates, request) && IsImproved(PlannedSeries(q), shuffled, request)
    ensures p == q
  {
    var cap, n := request.maxIssuesPerSeries, request.seriesCount;
    PlanReachesFiles(p, candidates, request);
    PlanReachesFiles(q, candidates, request);
    SwapOutcomeIsUnique(PlannedSeries(p), PlannedSeries(q), shuffled[..n], shuffled[n..], cap, request.fileCount);
    ApportionmentIsUnique(PlannedCounts(p), PlannedCounts(q), Capacities(PlannedSeries(p), cap), request.fileCount);
    SamePlan(p, q);
  }

  /** The whole profile. Every outcome is decided by the request and the catalog; the division by
      zero is the one case in which a feasible request yields no plan. */
  method RealisticSkewAssignments(candidates: seq<Series>, shuffled: seq<Series>, request: Request)
    returns (result: PlanResult)
    requires request.Valid()
    requires multiset(shuffled) == multiset(candidates)
    requires forall s | s in candidates :: s.issueCount >= 1
    ensures result.InsufficientSeries? <==> |candidates| < request.seriesCount
    ensures result.InsufficientFiles? <==>
            |candidates| >= request.seriesCount && Infeasible(candidates, request)
    ensures result.DivisionByZero? <==>
            request.fileCount == request.seriesCount && UnitRowsFirst(shuffled, request)
    ensures result.Planned? ==>
              && IsSkewPlan(result.plan, candidates, request)
              && IsImproved(PlannedSeries(result.plan), shuffled, request)
  {
    assert |multiset(shuffled)| == |multiset(candidates)|;
    if |shuffled| < request.seriesCount {
      return InsufficientSeries;
    }
    var cap := request.maxIssuesPerSeries;
    ghost var unselected;
    var selected;
    selected, unselected := ImproveSelection(shuffled, request);
    var capacities := Capacities(selected, cap);
    SelectionFacts(candidates, shuffled, selected, unselected, request);
    if Sum(capacities) < request.fileCount {
      return InsufficientFiles;
    }
    if Sum(Available(capacities)) == 0 {
      return DivisionByZero;
    }
    var counts := Apportion(capacities, request.fileCount);
    ZipParts(selected, counts);
    result := Planned(Zip(selected, counts));
  }

  /** A feasible request that divides by zero: one file in a volume of one issue. */
  lemma FeasibleRequestCanDivideByZero(row: Series, request: Request)
    requires row == Series(1, 1) && request == Request(1, 1, 250)
    ensures request.Valid() && request.fileCount == request.seriesCount && UnitRowsFirst([row], request)
    ensures !Infeasible([row], request)
  {
    assert IsChoice([row], [row], 1);
    TotalCapacityIsSum([row], 250);
    assert Capacities([row], 250) == [1];
    assert Sum([1]) == 1;
  }
}
