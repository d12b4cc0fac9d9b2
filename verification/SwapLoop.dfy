/** The skewed profile's selection: exchange the smallest selected row for the largest row left over
    until the selection can hold the requested files or no exchange gains anything. */
module SwapLoop {
  import opened Sums
  import opened Fixtures
  import opened RowOrder

  /** Position of the first smallest entry, as Python's `min` over a range picks it. */
  function FirstMin(xs: seq<int>): (k: nat)
    requires xs != []
    ensures k < |xs|
    ensures forall i | 0 <= i < |xs| :: xs[k] <= xs[i]
    ensures forall i | 0 <= i < k :: xs[k] < xs[i]
  {
    if |xs| == 1 then 0
    else
      var k := FirstMin(xs[..|xs| - 1]);
      if xs[|xs| - 1] < xs[k] then |xs| - 1 else k
  }

  /** Position of the first largest entry, as Python's `max` over a range picks it. */
  function FirstMax(xs: seq<int>): (k: nat)
    requires xs != []
    ensures k < |xs|
    ensures forall i | 0 <= i < |xs| :: xs[i] <= xs[k]
    ensures forall i | 0 <= i < k :: xs[i] < xs[k]
  {
    if |xs| == 1 then 0
    else
      var k := FirstMax(xs[..|xs| - 1]);
      if xs[|xs| - 1] > xs[k] then |xs| - 1 else k
  }

  /** Exchanging one entry of each list keeps the pool and moves the capacity. */
  lemma SwapKeepsPool(selected: seq<Series>, unselected: seq<Series>, i: nat, j: nat, cap: int)
    requires i < |selected| && j < |unselected|
    ensures multiset(selected[i := unselected[j]] + unselected[j := selected[i]])
            == multiset(selected + unselected)
    ensures TotalCapacity(selected[i := unselected[j]], cap)
            == TotalCapacity(selected, cap) - Capacity(selected[i], cap) + Capacity(unselected[j], cap)
  {
    var swapped := selected[i := unselected[j]];
    assert multiset(swapped) == multiset(selected) - multiset{selected[i]} + multiset{unselected[j]};
    assert multiset(unselected[j := selected[i]])
        == multiset(unselected) - multiset{unselected[j]} + multiset{selected[i]};
    SumByRemoveAt(CapacityUnder(cap), selected, i);
    SumByRemoveAt(CapacityUnder(cap), swapped, i);
    assert RemoveAt(selected, i) == RemoveAt(swapped, i);
  }

  lemma SelectionIsBest(
      shuffled: seq<Series>, selected: seq<Series>, unselected: seq<Series>, request: Request, threshold: int)
    requires |selected| == request.seriesCount
    requires multiset(selected + unselected) == multiset(shuffled)
    requires forall i | 0 <= i < |selected| :: Capacities(selected, request.maxIssuesPerSeries)[i] >= threshold
    requires forall i | 0 <= i < |unselected| :: Capacities(unselected, request.maxIssuesPerSeries)[i] <= threshold
    requires TotalCapacity(selected, request.maxIssuesPerSeries) < request.fileCount
    ensures Infeasible(shuffled, request)
  {
    var cap := request.maxIssuesPerSeries;
    assert forall i | 0 <= i < |selected| :: CapacityUnder(cap)(selected[i]) == Capacities(selected, cap)[i];
    assert forall i | 0 <= i < |unselected| :: CapacityUnder(cap)(unselected[i]) == Capacities(unselected, cap)[i];
    forall pick: seq<Series> | IsChoice(pick, shuffled, request.seriesCount)
      ensures TotalCapacity(pick, cap) < request.fileCount
    {
      SeparatedChoiceIsBest(CapacityUnder(cap), selected, unselected, threshold, pick);
    }
  }

  lemma NothingGains(shuffled: seq<Series>, selected: seq<Series>, others: seq<Series>, request: Request, lowest: nat)
    requires |selected| == request.seriesCount && selected != []
    requires multiset(selected + others) == multiset(shuffled)
    requires lowest == FirstMin(Capacities(selected, request.maxIssuesPerSeries))
    requires others != [] ==>
               Capacity(others[FirstMax(Capacities(others, request.maxIssuesPerSeries))], request.maxIssuesPerSeries)
               <= Capacity(selected[lowest], request.maxIssuesPerSeries)
    requires TotalCapacity(selected, request.maxIssuesPerSeries) < request.fileCount
    ensures Infeasible(shuffled, request)
  {
    var mine, theirs := Capacities(selected, request.maxIssuesPerSeries), Capacities(others, request.maxIssuesPerSeries);
    forall i | 0 <= i < |mine| ensures mine[i] >= mine[lowest] {
    }
    forall i | 0 <= i < |theirs| ensures theirs[i] <= mine[lowest] {
      assert theirs[i] <= theirs[FirstMax(theirs)];
    }
    SelectionIsBest(shuffled, selected, others, request, mine[lowest]);
  }

  // ----- Which rows are exchanged -----

  /** The rows at `out` and the rows at `into` have changed places pairwise, and no other row moved. */
  ghost predicate Exchanged(
      selected: seq<Series>, others: seq<Series>, front: seq<Series>, rest: seq<Series>, out: seq<int>, into: seq<int>)
  {
    && |selected| == |front| && |others| == |rest| && |out| == |into|
    && AreIndices(out, |front|) && AreIndices(into, |rest|)
    && (forall s | 0 <= s < |out| :: selected[out[s]] == rest[into[s]] && others[into[s]] == front[out[s]])
    && (forall i | 0 <= i < |front| && i !in out :: selected[i] == front[i])
    && (forall j | 0 <= j < |rest| && j !in into :: others[j] == rest[j])
  }

  /** The state of the loop: the exchanged rows are the first to leave and the first to enter, and
      every exchange gained capacity. */
  ghost predicate SwappedTo(
      selected: seq<Series>, others: seq<Series>, front: seq<Series>, rest: seq<Series>, cap: int,
      out: seq<int>, into: seq<int>)
  {
    && Exchanged(selected, others, front, rest, out, into)
    && LeaveFirst(front, cap, out) && EnterFirst(rest, cap, into)
    && forall s | 0 <= s < |out| :: Capacity(front[out[s]], cap) < Capacity(rest[into[s]], cap)
  }

  /** Every row that entered holds more than every row that left. */
  lemma EveryExchangeGains(
      selected: seq<Series>, others: seq<Series>, front: seq<Series>, rest: seq<Series>, cap: int,
      out: seq<int>, into: seq<int>, s: nat, t: nat)
    requires SwappedTo(selected, others, front, rest, cap, out, into)
    requires s < |into| && t < |out|
    ensures Capacity(front[out[t]], cap) < Capacity(rest[into[s]], cap)
  {
    if s < t {
      assert EntersBefore(rest, cap, into[s], into[t]);
    } else if t < s {
      assert LeavesBefore(front, cap, out[t], out[s]);
    }
  }

  /** A row that entered holds at least as much as any row that is not selected. */
  lemma EnteredHoldMore(
      selected: seq<Series>, others: seq<Series>, front: seq<Series>, rest: seq<Series>, cap: int,
      out: seq<int>, into: seq<int>, s: nat, j: nat)
    requires SwappedTo(selected, others, front, rest, cap, out, into)
    requires s < |out| && j < |others|
    ensures Capacity(selected[out[s]], cap) >= Capacity(others[j], cap)
  {
    if j in into {
      var t :| 0 <= t < |into| && into[t] == j;
      EveryExchangeGains(selected, others, front, rest, cap, out, into, s, t);
    } else {
      assert EntersBefore(rest, cap, into[s], j);
    }
  }

  /** A row that left holds at most as much as any selected row. */
  lemma LeftHoldLess(
      selected: seq<Series>, others: seq<Series>, front: seq<Series>, rest: seq<Series>, cap: int,
      out: seq<int>, into: seq<int>, t: nat, i: nat)
    requires SwappedTo(selected, others, front, rest, cap, out, into)
    requires t < |into| && i < |selected|
    ensures Capacity(others[into[t]], cap) <= Capacity(selected[i], cap)
  {
    if i in out {
      var s :| 0 <= s < |out| && out[s] == i;
      EveryExchangeGains(selected, others, front, rest, cap, out, into, s, t);
    } else {
      assert LeavesBefore(front, cap, out[t], i);
    }
  }

  /** The smallest selected row and the largest other row have not been exchanged before. */
  lemma ExchangesAreNew(
      selected: seq<Series>, others: seq<Series>, front: seq<Series>, rest: seq<Series>, cap: int,
      out: seq<int>, into: seq<int>, lowest: nat, highest: nat)
    requires SwappedTo(selected, others, front, rest, cap, out, into)
    requires lowest < |selected| && highest < |others|
    requires Capacity(others[highest], cap) > Capacity(selected[lowest], cap)
    ensures lowest !in out && highest !in into
  {
    forall s | 0 <= s < |out| ensures out[s] != lowest {
      EnteredHoldMore(selected, others, front, rest, cap, out, into, s, highest);
    }
    forall t | 0 <= t < |into| ensures into[t] != highest {
      LeftHoldLess(selected, others, front, rest, cap, out, into, t, lowest);
    }
  }

  lemma LeaveNext(front: seq<Series>, cap: int, out: seq<int>, lowest: nat)
    requires LeaveFirst(front, cap, out) && lowest < |front| && lowest !in out
    requires forall i | 0 <= i < |front| && i !in out && i != lowest :: LeavesBefore(front, cap, lowest, i)
    ensures LeaveFirst(front, cap, out + [lowest])
  {
    var more := out + [lowest];
    assert more[|out|] == lowest;
    assert forall i | i !in more :: i !in out && i != lowest;
  }

  lemma EnterNext(rest: seq<Series>, cap: int, into: seq<int>, highest: nat)
    requires EnterFirst(rest, cap, into) && highest < |rest| && highest !in into
    requires forall i | 0 <= i < |rest| && i !in into && i != highest :: EntersBefore(rest, cap, highest, i)
    ensures EnterFirst(rest, cap, into + [highest])
  {
    var more := into + [highest];
    assert more[|into|] == highest;
    assert forall i | i !in more :: i !in into && i != highest;
  }

  lemma ExchangeNext(
      selected: seq<Series>, others: seq<Series>, front: seq<Series>, rest: seq<Series>,
      out: seq<int>, into: seq<int>, lowest: nat, highest: nat)
    requires Exchanged(selected, others, front, rest, out, into)
    requires lowest < |front| && lowest !in out && highest < |rest| && highest !in into
    ensures Exchanged(selected[lowest := others[highest]], others[highest := selected[lowest]], front, rest,
                      out + [lowest], into + [highest])
  {
    var moreOut, moreInto := out + [lowest], into + [highest];
    assert moreOut[|out|] == lowest && moreInto[|into|] == highest;
    assert forall i | i !in moreOut :: i !in out && i != lowest;
    assert forall j | j !in moreInto :: j !in into && j != highest;
  }

  /** One exchange of the first smallest selected row for the first largest other row. */
  lemma SwapStep(
      selected: seq<Series>, others: seq<Series>, front: seq<Series>, rest: seq<Series>, cap: int,
      out: seq<int>, into: seq<int>, lowest: nat, highest: nat)
    requires SwappedTo(selected, others, front, rest, cap, out, into)
    requires lowest < |selected| && highest < |others|
    requires Capacity(others[highest], cap) > Capacity(selected[lowest], cap)
    requires forall i | 0 <= i < |selected| && i != lowest :: LeavesBefore(selected, cap, lowest, i)
    requires forall j | 0 <= j < |others| && j != highest :: EntersBefore(others, cap, highest, j)
    ensures SwappedTo(selected[lowest := others[highest]], others[highest := selected[lowest]], front, rest, cap,
                      out + [lowest], into + [highest])
  {
    ExchangesAreNew(selected, others, front, rest, cap, out, into, lowest, highest);
    forall i | 0 <= i < |front| && i !in out && i != lowest ensures LeavesBefore(front, cap, lowest, i) {
      assert LeavesBefore(selected, cap, lowest, i);
    }
    forall j | 0 <= j < |rest| && j !in into && j != highest ensures EntersBefore(rest, cap, highest, j) {
      assert EntersBefore(others, cap, highest, j);
    }
    LeaveNext(front, cap, out, lowest);
    EnterNext(rest, cap, into, highest);
    ExchangeNext(selected, others, front, rest, out, into, lowest, highest);
  }

  lemma FirstMinLeaves(rows: seq<Series>, cap: int)
    requires rows != []
    ensures var lowest := FirstMin(Capacities(rows, cap));
            forall i | 0 <= i < |rows| && i != lowest :: LeavesBefore(rows, cap, lowest, i)
  {
    var capacities := Capacities(rows, cap);
    forall i | 0 <= i < |rows| ensures capacities[i] == Capacity(rows[i], cap) {
    }
    var lowest := FirstMin(capacities);
    assert forall i | 0 <= i < |rows| :: capacities[lowest] <= capacities[i];
  }

  lemma FirstMaxEnters(rows: seq<Series>, cap: int)
    requires rows != []
    ensures var highest := FirstMax(Capacities(rows, cap));
            forall j | 0 <= j < |rows| && j != highest :: EntersBefore(rows, cap, highest, j)
  {
    var capacities := Capacities(rows, cap);
    forall i | 0 <= i < |rows| ensures capacities[i] == Capacity(rows[i], cap) {
    }
    var highest := FirstMax(capacities);
    assert forall j | 0 <= j < |rows| :: capacities[j] <= capacities[highest];
  }

  // ----- What the exchanges achieve -----

  /** The rows of `front` and `rest` by where they end up. */
  datatype Parts = Parts(kept: seq<Series>, dropped: seq<Series>, taken: seq<Series>, left: seq<Series>)

  ghost predicate AllAtMost(low: seq<Series>, high: seq<Series>, cap: int) {
    forall x, y | x in low && y in high :: Capacity(x, cap) <= Capacity(y, cap)
  }

  ghost predicate ArePartsOf(parts: Parts, selected: seq<Series>, others: seq<Series>, front: seq<Series>, rest: seq<Series>) {
    && |parts.kept| + |parts.taken| == |front| && |parts.dropped| == |parts.taken|
    && multiset(front) == multiset(parts.kept) + multiset(parts.dropped)
    && multiset(rest) == multiset(parts.taken) + multiset(parts.left)
    && multiset(selected) == multiset(parts.kept) + multiset(parts.taken)
    && multiset(others) == multiset(parts.left) + multiset(parts.dropped)
  }

  ghost predicate PartsAreSorted(parts: Parts, cap: int) {
    && AllAtMost(parts.dropped, parts.kept, cap) && AllAtMost(parts.left, parts.taken, cap)
    && AllAtMost(parts.dropped, parts.taken, cap)
  }

  /** A row among two lists is in the first when it is not in the second. */
  lemma InFirst<T>(all: seq<T>, a: seq<T>, b: seq<T>, x: T)
    requires multiset(all) == multiset(a) + multiset(b) && x in all && x !in b
    ensures x in a
  {
    assert x in multiset(all) && x !in multiset(b);
    assert x in multiset(a);
  }

  lemma InEither<T>(all: seq<T>, a: seq<T>, b: seq<T>, x: T)
    requires multiset(all) == multiset(a) + multiset(b)
    ensures x in all <==> x in a || x in b
  {
    assert x in all <==> x in multiset(all);
    assert x in a <==> x in multiset(a);
    assert x in b <==> x in multiset(b);
  }

  lemma MultisetUpdate<T>(xs: seq<T>, i: nat, x: T)
    requires i < |xs|
    ensures multiset(xs[i := x]) + multiset{xs[i]} == multiset(xs) + multiset{x}
  {
    assert xs == xs[..i] + [xs[i]] + xs[i + 1..];
    assert xs[i := x] == xs[..i] + [x] + xs[i + 1..];
  }

  lemma MoveParts(
      parts: Parts, selected: seq<Series>, others: seq<Series>, front: seq<Series>, rest: seq<Series>,
      lowest: nat, highest: nat)
    returns (next: Parts)
    requires ArePartsOf(parts, selected, others, front, rest)
    requires lowest < |selected| && highest < |others|
    requires selected[lowest] in parts.kept && others[highest] in parts.left
    ensures var x, y := selected[lowest], others[highest];
            && ArePartsOf(next, selected[lowest := y], others[highest := x], front, rest)
            && next.dropped == parts.dropped + [x] && next.taken == parts.taken + [y]
            && multiset(parts.kept) == multiset(next.kept) + multiset([x])
            && multiset(parts.left) == multiset(next.left) + multiset([y])
  {
    var x, y := selected[lowest], others[highest];
    var p :| 0 <= p < |parts.kept| && parts.kept[p] == x;
    var q :| 0 <= q < |parts.left| && parts.left[q] == y;
    next := Parts(RemoveAt(parts.kept, p), parts.dropped + [x], parts.taken + [y], RemoveAt(parts.left, q));
    MultisetRemoveAt(parts.kept, p);
    MultisetRemoveAt(parts.left, q);
    MultisetUpdate(selected, lowest, y);
    MultisetUpdate(others, highest, x);
    assert multiset(next.dropped) == multiset(parts.dropped) + multiset{x};
    assert multiset(next.taken) == multiset(parts.taken) + multiset{y};
  }

  lemma PartsNext(
      parts: Parts, selected: seq<Series>, others: seq<Series>, front: seq<Series>, rest: seq<Series>, cap: int,
      lowest: nat, highest: nat)
    returns (next: Parts)
    requires ArePartsOf(parts, selected, others, front, rest) && PartsAreSorted(parts, cap)
    requires lowest < |selected| && highest < |others|
    requires Capacity(others[highest], cap) > Capacity(selected[lowest], cap)
    requires forall i | 0 <= i < |selected| && i != lowest :: LeavesBefore(selected, cap, lowest, i)
    requires forall j | 0 <= j < |others| && j != highest :: EntersBefore(others, cap, highest, j)
    ensures ArePartsOf(next, selected[lowest := others[highest]], others[highest := selected[lowest]], front, rest)
    ensures PartsAreSorted(next, cap) && |next.taken| == |parts.taken| + 1
  {
    var x, y := selected[lowest], others[highest];
    forall z ensures (z in selected <==> z in parts.kept || z in parts.taken)
             ensures (z in others <==> z in parts.left || z in parts.dropped)
    {
      InEither(selected, parts.kept, parts.taken, z);
      InEither(others, parts.left, parts.dropped, z);
    }
    assert x in selected && y in others;
    forall z | z in selected ensures Capacity(x, cap) <= Capacity(z, cap) {
      var i :| 0 <= i < |selected| && selected[i] == z;
      assert i != lowest ==> LeavesBefore(selected, cap, lowest, i);
    }
    forall z | z in others ensures Capacity(z, cap) <= Capacity(y, cap) {
      var j :| 0 <= j < |others| && others[j] == z;
      assert j != highest ==> EntersBefore(others, cap, highest, j);
    }
    next := MoveParts(parts, selected, others, front, rest, lowest, highest);
    forall z ensures z in next.kept ==> z in parts.kept ensures z in next.left ==> z in parts.left {
      InEither(parts.kept, next.kept, [x], z);
      InEither(parts.left, next.left, [y], z);
    }
  }

  /** Of two sorted parts, the upper one outweighs every choice of as many rows. */
  lemma UpperPartIsBest(upper: seq<Series>, lower: seq<Series>, pool: seq<Series>, cap: int, pick: seq<Series>)
    requires cap >= 1 && AllAtMost(lower, upper, cap)
    requires multiset(pool) == multiset(upper) + multiset(lower)
    requires IsChoice(pick, pool, |upper|)
    ensures TotalCapacity(pick, cap) <= TotalCapacity(upper, cap)
  {
    var capacities := Capacities(lower, cap);
    var threshold := if lower == [] then 0 else capacities[FirstMax(capacities)];
    forall i | 0 <= i < |lower| ensures CapacityUnder(cap)(lower[i]) <= threshold {
      assert capacities[i] <= threshold;
    }
    forall i | 0 <= i < |upper| ensures CapacityUnder(cap)(upper[i]) >= threshold {
      assert upper[i] in upper;
      assert lower != [] ==> lower[FirstMax(capacities)] in lower;
    }
    assert multiset(upper + lower) == multiset(pool);
    SeparatedChoiceIsBest(CapacityUnder(cap), upper, lower, threshold, pick);
  }

  /** Choices that keep `|front| - swaps` rows of the front and take the others from the rest. */
  ghost predicate IsSplitChoice(kept: seq<Series>, taken: seq<Series>, front: seq<Series>, rest: seq<Series>, swaps: int) {
    IsChoice(kept, front, |front| - swaps) && IsChoice(taken, rest, swaps)
  }

  /** The selection itself keeps that many rows, and no choice that does has more capacity. */
  ghost predicate IsBestWith(selected: seq<Series>, front: seq<Series>, rest: seq<Series>, cap: int, swaps: int) {
    && (exists kept, taken :: IsSplitChoice(kept, taken, front, rest, swaps)
                           && TotalCapacity(kept, cap) + TotalCapacity(taken, cap) == TotalCapacity(selected, cap))
    && (forall kept, taken | IsSplitChoice(kept, taken, front, rest, swaps) ::
          TotalCapacity(kept, cap) + TotalCapacity(taken, cap) <= TotalCapacity(selected, cap))
  }

  /** No choice that keeps more rows of the front reaches the files. */
  ghost predicate FewerFallShort(front: seq<Series>, rest: seq<Series>, cap: int, files: int, swaps: int) {
    forall kept, taken, m | 0 <= m < swaps && IsSplitChoice(kept, taken, front, rest, m) ::
      TotalCapacity(kept, cap) + TotalCapacity(taken, cap) < files
  }

  lemma PartsAreBest(
      parts: Parts, selected: seq<Series>, others: seq<Series>, front: seq<Series>, rest: seq<Series>, cap: int)
    requires cap >= 1 && ArePartsOf(parts, selected, others, front, rest) && PartsAreSorted(parts, cap)
    ensures IsBestWith(selected, front, rest, cap, |parts.taken|)
  {
    SumByRearranged(CapacityUnder(cap), selected, parts.kept + parts.taken);
    SumByAppend(CapacityUnder(cap), parts.kept, parts.taken);
    assert IsSplitChoice(parts.kept, parts.taken, front, rest, |parts.taken|);
    forall kept, taken | IsSplitChoice(kept, taken, front, rest, |parts.taken|)
      ensures TotalCapacity(kept, cap) + TotalCapacity(taken, cap) <= TotalCapacity(selected, cap)
    {
      UpperPartIsBest(parts.kept, parts.dropped, front, cap, kept);
      UpperPartIsBest(parts.taken, parts.left, rest, cap, taken);
    }
  }

  /** The exchanged rows are the first to leave and the first to enter, as few as reach the files. */
  ghost predicate IsTrace(
      selected: seq<Series>, others: seq<Series>, front: seq<Series>, rest: seq<Series>, cap: int, files: int,
      out: seq<int>, into: seq<int>)
  {
    && SwappedTo(selected, others, front, rest, cap, out, into)
    && FewerFallShort(front, rest, cap, files, |out|)
    && IsBestWith(selected, front, rest, cap, |out|)
  }

  /** What the loop leaves selected. */
  ghost predicate IsSwapOutcome(selected: seq<Series>, front: seq<Series>, rest: seq<Series>, cap: int, files: int) {
    exists others, out, into :: IsTrace(selected, others, front, rest, cap, files, out, into)
  }

  lemma FewerNext(selected: seq<Series>, front: seq<Series>, rest: seq<Series>, cap: int, files: int, swaps: nat)
    requires FewerFallShort(front, rest, cap, files, swaps) && IsBestWith(selected, front, rest, cap, swaps)
    requires TotalCapacity(selected, cap) < files
    ensures FewerFallShort(front, rest, cap, files, swaps + 1)
  {
    forall kept, taken, m | 0 <= m < swaps + 1 && IsSplitChoice(kept, taken, front, rest, m)
      ensures TotalCapacity(kept, cap) + TotalCapacity(taken, cap) < files
    {
      assert m == swaps ==> IsSplitChoice(kept, taken, front, rest, swaps);
    }
  }

  /** The invariant of the loop. */
  ghost predicate Improved(
      selected: seq<Series>, others: seq<Series>, front: seq<Series>, rest: seq<Series>, cap: int, files: int,
      out: seq<int>, into: seq<int>, parts: Parts)
  {
    && SwappedTo(selected, others, front, rest, cap, out, into)
    && ArePartsOf(parts, selected, others, front, rest) && PartsAreSorted(parts, cap)
    && |parts.taken| == |out| && FewerFallShort(front, rest, cap, files, |out|)
  }

  lemma ImproveStart(front: seq<Series>, rest: seq<Series>, cap: int, files: int)
    ensures Improved(front, rest, front, rest, cap, files, [], [], Parts(front, [], [], rest))
  {
  }

  lemma ImproveStep(
      selected: seq<Series>, others: seq<Series>, front: seq<Series>, rest: seq<Series>, cap: int, files: int,
      out: seq<int>, into: seq<int>, parts: Parts, lowest: nat, highest: nat)
    returns (next: Parts)
    requires cap >= 1 && Improved(selected, others, front, rest, cap, files, out, into, parts)
    requires TotalCapacity(selected, cap) < files
    requires selected != [] && others != []
    requires lowest == FirstMin(Capacities(selected, cap)) && highest == FirstMax(Capacities(others, cap))
    requires Capacity(others[highest], cap) > Capacity(selected[lowest], cap)
    ensures Improved(selected[lowest := others[highest]], others[highest := selected[lowest]], front, rest, cap, files,
                     out + [lowest], into + [highest], next)
  {
    FirstMinLeaves(selected, cap);
    FirstMaxEnters(others, cap);
    SwapStep(selected, others, front, rest, cap, out, into, lowest, highest);
    next := PartsNext(parts, selected, others, front, rest, cap, lowest, highest);
    PartsAreBest(parts, selected, others, front, rest, cap);
    FewerNext(selected, front, rest, cap, files, |out|);
  }

  lemma ImproveEnd(
      selected: seq<Series>, others: seq<Series>, front: seq<Series>, rest: seq<Series>, cap: int, files: int,
      out: seq<int>, into: seq<int>, parts: Parts)
    requires cap >= 1 && Improved(selected, others, front, rest, cap, files, out, into, parts)
    ensures IsSwapOutcome(selected, front, rest, cap, files)
  {
    PartsAreBest(parts, selected, others, front, rest, cap);
    assert IsTrace(selected, others, front, rest, cap, files, out, into);
  }

  // ----- The loop -----

  /** The selected and the other rows once no exchange is needed or gains anything. */
  function Final(selected: seq<Series>, others: seq<Series>, cap: int, files: int): (seq<Series>, seq<Series>)
    decreases if TotalCapacity(selected, cap) < files then files - TotalCapacity(selected, cap) else 0
  {
    if TotalCapacity(selected, cap) >= files || selected == [] || others == [] then (selected, others)
    else
      var lowest, highest := FirstMin(Capacities(selected, cap)), FirstMax(Capacities(others, cap));
      if Capacity(others[highest], cap) <= Capacity(selected[lowest], cap) then (selected, others)
      else
        SwapKeepsPool(selected, others, lowest, highest, cap);
        Final(selected[lowest := others[highest]], others[highest := selected[lowest]], cap, files)
  }

  lemma {:induction false} FinalIsOutcome(
      selected: seq<Series>, others: seq<Series>, front: seq<Series>, rest: seq<Series>, cap: int, files: int,
      out: seq<int>, into: seq<int>, parts: Parts)
    requires cap >= 1 && Improved(selected, others, front, rest, cap, files, out, into, parts)
    ensures IsSwapOutcome(Final(selected, others, cap, files).0, front, rest, cap, files)
    decreases if TotalCapacity(selected, cap) < files then files - TotalCapacity(selected, cap) else 0
  {
    if TotalCapacity(selected, cap) >= files || selected == [] || others == [] {
      ImproveEnd(selected, others, front, rest, cap, files, out, into, parts);
    } else {
      var lowest, highest := FirstMin(Capacities(selected, cap)), FirstMax(Capacities(others, cap));
      if Capacity(others[highest], cap) <= Capacity(selected[lowest], cap) {
        ImproveEnd(selected, others, front, rest, cap, files, out, into, parts);
      } else {
        SwapKeepsPool(selected, others, lowest, highest, cap);
        var next := ImproveStep(selected, others, front, rest, cap, files, out, into, parts, lowest, highest);
        FinalIsOutcome(selected[lowest := others[highest]], others[highest := selected[lowest]], front, rest, cap, files,
                       out + [lowest], into + [highest], next);
      }
    }
  }

  lemma EnoughIsFeasible(shuffled: seq<Series>, selected: seq<Series>, others: seq<Series>, request: Request)
    requires |selected| == request.seriesCount && multiset(selected + others) == multiset(shuffled)
    ensures TotalCapacity(selected, request.maxIssuesPerSeries) >= request.fileCount ==> !Infeasible(shuffled, request)
  {
    assert multiset(selected) <= multiset(selected + others);
    assert IsChoice(selected, shuffled, request.seriesCount);
  }

  /** The final rows are those of the pool, and they fall short only when every choice does. */
  lemma {:induction false} FinalDecides(
      shuffled: seq<Series>, selected: seq<Series>, others: seq<Series>, request: Request)
    requires request.Valid() && |selected| == request.seriesCount
    requires multiset(selected + others) == multiset(shuffled)
    ensures var (final, unselected) := Final(selected, others, request.maxIssuesPerSeries, request.fileCount);
            && |final| == request.seriesCount && multiset(final + unselected) == multiset(shuffled)
            && (TotalCapacity(final, request.maxIssuesPerSeries) < request.fileCount <==> Infeasible(shuffled, request))
    decreases if TotalCapacity(selected, request.maxIssuesPerSeries) < request.fileCount
              then request.fileCount - TotalCapacity(selected, request.maxIssuesPerSeries) else 0
  {
    var cap := request.maxIssuesPerSeries;
    if TotalCapacity(selected, cap) >= request.fileCount {
      EnoughIsFeasible(shuffled, selected, others, request);
    } else {
      var lowest := FirstMin(Capacities(selected, cap));
      if others == [] {
        NothingGains(shuffled, selected, others, request, lowest);
      } else {
        var highest := FirstMax(Capacities(others, cap));
        if Capacity(others[highest], cap) <= Capacity(selected[lowest], cap) {
          NothingGains(shuffled, selected, others, request, lowest);
        } else {
          SwapKeepsPool(selected, others, lowest, highest, cap);
          FinalDecides(shuffled, selected[lowest := others[highest]], others[highest := selected[lowest]], request);
        }
      }
    }
  }

  /** The outcome for a shuffle: its front improved from its rest. */
  ghost predicate IsImproved(selected: seq<Series>, shuffled: seq<Series>, request: Request) {
    && 0 <= request.seriesCount <= |shuffled|
    && IsSwapOutcome(selected, shuffled[..request.seriesCount], shuffled[request.seriesCount..],
                     request.maxIssuesPerSeries, request.fileCount)
  }

  /** The swap loop ends with rows of the pool, and it falls short of the requested files only when
      every choice of as many rows falls short. It exchanges the smallest rows of the front for the
      largest rows of the rest, and no more of them than the files need. */
  method ImproveSelection(shuffled: seq<Series>, request: Request)
    returns (selected: seq<Series>, ghost unselected: seq<Series>)
    requires request.Valid() && request.seriesCount <= |shuffled|
    ensures |selected| == request.seriesCount
    ensures multiset(selected + unselected) == multiset(shuffled)
    ensures TotalCapacity(selected, request.maxIssuesPerSeries) < request.fileCount
            <==> Infeasible(shuffled, request)
    ensures TotalCapacity(shuffled[..request.seriesCount], request.maxIssuesPerSeries) >= request.fileCount
            ==> selected == shuffled[..request.seriesCount]
    ensures IsImproved(selected, shuffled, request)
  {
    var cap := request.maxIssuesPerSeries;
    selected := shuffled[..request.seriesCount];
    var others := shuffled[request.seriesCount..];
    ghost var front, rest := selected, others;
    assert front + rest == shuffled;
    while TotalCapacity(selected, cap) < request.fileCount
      invariant selected != []
      invariant Final(selected, others, cap, request.fileCount) == Final(front, rest, cap, request.fileCount)
      invariant selected == front || TotalCapacity(front, cap) < request.fileCount
      decreases request.fileCount - TotalCapacity(selected, cap)
    {
      var lowest := FirstMin(Capacities(selected, cap));
      if others == [] {
        break;
      }
      var highest := FirstMax(Capacities(others, cap));
      if Capacity(others[highest], cap) <= Capacity(selected[lowest], cap) {
        break;
      }
      SwapKeepsPool(selected, others, lowest, highest, cap);
      selected, others := selected[lowest := others[highest]], others[highest := selected[lowest]];
    }
    unselected := others;
    FinalDecides(shuffled, front, rest, request);
    ImproveStart(front, rest, cap, request.fileCount);
    FinalIsOutcome(front, rest, front, rest, cap, request.fileCount, [], [], Parts(front, [], [], rest));
  }

  // ----- The outcome is determined -----

  lemma SameExchanges(
      a: seq<Series>, x: seq<Series>, b: seq<Series>, y: seq<Series>, front: seq<Series>, rest: seq<Series>,
      out: seq<int>, into: seq<int>)
    requires Exchanged(a, x, front, rest, out, into) && Exchanged(b, y, front, rest, out, into)
    ensures a == b
  {
    forall i | 0 <= i < |front| ensures a[i] == b[i] {
      if i in out {
        var s :| 0 <= s < |out| && out[s] == i;
      }
    }
  }

  /** With enough capacity, a selection makes at least the fewest exchanges. */
  lemma NotFewer(a: seq<Series>, front: seq<Series>, rest: seq<Series>, cap: int, files: int, swaps: nat, fewest: nat)
    requires IsBestWith(a, front, rest, cap, swaps) && TotalCapacity(a, cap) >= files
    requires FewerFallShort(front, rest, cap, files, fewest)
    ensures fewest <= swaps
  {
    var kept, taken :| IsSplitChoice(kept, taken, front, rest, swaps)
                    && TotalCapacity(kept, cap) + TotalCapacity(taken, cap) == TotalCapacity(a, cap);
  }

  lemma SameTrace(
      a: seq<Series>, x: seq<Series>, out: seq<int>, into: seq<int>,
      b: seq<Series>, y: seq<Series>, out': seq<int>, into': seq<int>,
      front: seq<Series>, rest: seq<Series>, cap: int)
    requires SwappedTo(a, x, front, rest, cap, out, into) && SwappedTo(b, y, front, rest, cap, out', into')
    requires |out| == |out'|
    ensures a == b
  {
    LeaveFirstIsUnique(front, cap, out, out');
    EnterFirstIsUnique(rest, cap, into, into');
    SameExchanges(a, x, b, y, front, rest, out, into);
  }

  lemma TracesAgree(
      a: seq<Series>, x: seq<Series>, out: seq<int>, into: seq<int>,
      b: seq<Series>, y: seq<Series>, out': seq<int>, into': seq<int>,
      front: seq<Series>, rest: seq<Series>, cap: int, files: int)
    requires IsTrace(a, x, front, rest, cap, files, out, into) && TotalCapacity(a, cap) >= files
    requires IsTrace(b, y, front, rest, cap, files, out', into') && TotalCapacity(b, cap) >= files
    ensures a == b
  {
    NotFewer(a, front, rest, cap, files, |out|, |out'|);
    NotFewer(b, front, rest, cap, files, |out'|, |out|);
    SameTrace(a, x, out, into, b, y, out', into', front, rest, cap);
  }

  /** Only one selection that reaches the files is an outcome of the loop. */
  lemma SwapOutcomeIsUnique(
      a: seq<Series>, b: seq<Series>, front: seq<Series>, rest: seq<Series>, cap: int, files: int)
    requires IsSwapOutcome(a, front, rest, cap, files) && TotalCapacity(a, cap) >= files
    requires IsSwapOutcome(b, front, rest, cap, files) && TotalCapacity(b, cap) >= files
    ensures a == b
  {
    var x, out, into :| IsTrace(a, x, front, rest, cap, files, out, into);
    var y, out', into' :| IsTrace(b, y, front, rest, cap, files, out', into');
    TracesAgree(a, x, out, into, b, y, out', into', front, rest, cap, files);
  }
}
