/** Sums over sequences, and the exchange argument behind every "best choice of n" claim. */
module Sums {

  function Sum(xs: seq<int>): int {
    if xs == [] then 0 else xs[0] + Sum(xs[1..])
  }

  function SumBy<T>(weight: T -> int, xs: seq<T>): int {
    if xs == [] then 0 else weight(xs[0]) + SumBy(weight, xs[1..])
  }

  lemma {:induction false} SumByIsSum<T>(weight: T -> int, xs: seq<T>, ys: seq<int>)
    requires |xs| == |ys| && forall i | 0 <= i < |xs| :: ys[i] == weight(xs[i])
    ensures SumBy(weight, xs) == Sum(ys)
  {
    if xs == [] {
    } else {
      SumByIsSum(weight, xs[1..], ys[1..]);
    }
  }

  lemma {:induction false} SumUpdate(xs: seq<int>, i: nat, x: int)
    requires i < |xs|
    ensures Sum(xs[i := x]) == Sum(xs) - xs[i] + x
  {
    if i == 0 {
      assert xs[i := x][1..] == xs[1..];
    } else {
      assert xs[i := x][1..] == xs[1..][i - 1 := x];
      SumUpdate(xs[1..], i - 1, x);
    }
  }

  lemma {:induction false} SumMonotone(xs: seq<int>, ys: seq<int>)
    requires |xs| == |ys| && forall i | 0 <= i < |xs| :: xs[i] <= ys[i]
    ensures Sum(xs) <= Sum(ys)
    ensures Sum(xs) == Sum(ys) ==> xs == ys
  {
    if xs == [] {
    } else {
      SumMonotone(xs[1..], ys[1..]);
      if Sum(xs) == Sum(ys) {
        assert xs == [xs[0]] + xs[1..] && ys == [ys[0]] + ys[1..];
      }
    }
  }

  lemma {:induction false} SumConstant(xs: seq<int>, c: int)
    requires forall i | 0 <= i < |xs| :: xs[i] == c
    ensures Sum(xs) == |xs| * c
  {
    if xs == [] {
    } else {
      SumConstant(xs[1..], c);
    }
  }

  lemma {:induction false} SumByAppend<T>(weight: T -> int, xs: seq<T>, ys: seq<T>)
    ensures SumBy(weight, xs + ys) == SumBy(weight, xs) + SumBy(weight, ys)
  {
    if xs == [] {
      assert xs + ys == ys;
    } else {
      assert (xs + ys)[1..] == xs[1..] + ys;
      SumByAppend(weight, xs[1..], ys);
    }
  }

  lemma {:induction false} SumByAtMost<T>(weight: T -> int, xs: seq<T>, bound: int)
    requires forall i | 0 <= i < |xs| :: weight(xs[i]) <= bound
    ensures SumBy(weight, xs) <= |xs| * bound
  {
    if xs == [] {
    } else {
      SumByAtMost(weight, xs[1..], bound);
    }
  }

  function RemoveAt<T>(xs: seq<T>, k: nat): seq<T>
    requires k < |xs|
  {
    xs[..k] + xs[k + 1..]
  }

  lemma {:induction false} SumByRemoveAt<T>(weight: T -> int, xs: seq<T>, k: nat)
    requires k < |xs|
    ensures SumBy(weight, xs) == weight(xs[k]) + SumBy(weight, RemoveAt(xs, k))
  {
    if k == 0 {
      assert RemoveAt(xs, k) == xs[1..];
    } else {
      SumByRemoveAt(weight, xs[1..], k - 1);
      assert RemoveAt(xs, k)[1..] == RemoveAt(xs[1..], k - 1);
    }
  }

  lemma MultisetRemoveAt<T>(xs: seq<T>, k: nat)
    requires k < |xs|
    ensures multiset(xs) == multiset(RemoveAt(xs, k)) + multiset{xs[k]}
  {
    assert xs == xs[..k] + [xs[k]] + xs[k + 1..];
  }

  lemma MultisetCancel<T>(a: multiset<T>, b: multiset<T>, x: T)
    requires a + multiset{x} <= b + multiset{x}
    ensures a <= b
  {
    forall y ensures a[y] <= b[y] {
      assert (a + multiset{x})[y] <= (b + multiset{x})[y];
    }
  }

  /** Dropping elements never increases a sum of nonnegative weights. */
  lemma {:induction false} SumBySubMultiset<T>(weight: T -> int, xs: seq<T>, ys: seq<T>)
    requires forall i | 0 <= i < |ys| :: weight(ys[i]) >= 0
    requires multiset(xs) <= multiset(ys)
    ensures SumBy(weight, xs) <= SumBy(weight, ys)
    decreases |ys|
  {
    if ys == [] {
      assert xs == [];
    } else if xs == [] {
      SumBySubMultiset(weight, xs, ys[1..]);
    } else {
      assert multiset(ys)[xs[0]] >= multiset(xs)[xs[0]] > 0;
      var k :| 0 <= k < |ys| && ys[k] == xs[0];
      MultisetRemoveAt(xs, 0);
      MultisetRemoveAt(ys, k);
      assert RemoveAt(xs, 0) == xs[1..];
      MultisetCancel(multiset(xs[1..]), multiset(RemoveAt(ys, k)), xs[0]);
      SumBySubMultiset(weight, xs[1..], RemoveAt(ys, k));
      SumByRemoveAt(weight, ys, k);
    }
  }

  lemma SumByRearranged<T>(weight: T -> int, xs: seq<T>, ys: seq<T>)
    requires forall i | 0 <= i < |xs| :: weight(xs[i]) >= 0
    requires forall i | 0 <= i < |ys| :: weight(ys[i]) >= 0
    requires multiset(xs) == multiset(ys)
    ensures SumBy(weight, xs) == SumBy(weight, ys)
  {
    SumBySubMultiset(weight, xs, ys);
    SumBySubMultiset(weight, ys, xs);
  }

  /** How far each weight rises above a threshold. */
  function Excess<T>(weight: T -> int, threshold: int): T -> int {
    x => if weight(x) > threshold then weight(x) - threshold else 0
  }

  lemma {:induction false} SumByExcess<T>(weight: T -> int, threshold: int, xs: seq<T>)
    ensures SumBy(weight, xs) <= |xs| * threshold + SumBy(Excess(weight, threshold), xs)
  {
    if xs == [] {
    } else {
      SumByExcess(weight, threshold, xs[1..]);
      assert |xs| * threshold == threshold + |xs[1..]| * threshold;
    }
  }

  lemma {:induction false} SumByExcessAbove<T>(weight: T -> int, threshold: int, xs: seq<T>)
    requires forall i | 0 <= i < |xs| :: weight(xs[i]) >= threshold
    ensures SumBy(weight, xs) == |xs| * threshold + SumBy(Excess(weight, threshold), xs)
  {
    if xs == [] {
    } else {
      SumByExcessAbove(weight, threshold, xs[1..]);
      assert |xs| * threshold == threshold + |xs[1..]| * threshold;
    }
  }

  lemma {:induction false} SumByExcessBelow<T>(weight: T -> int, threshold: int, xs: seq<T>)
    requires forall i | 0 <= i < |xs| :: weight(xs[i]) <= threshold
    ensures SumBy(Excess(weight, threshold), xs) == 0
  {
    if xs == [] {
    } else {
      SumByExcessBelow(weight, threshold, xs[1..]);
    }
  }

  /** `pick` takes `n` different entries of `pool`. */
  ghost predicate IsChoice<T>(pick: seq<T>, pool: seq<T>, n: int) {
    |pick| == n && multiset(pick) <= multiset(pool)
  }

  lemma MultisetRegroup<T>(a: multiset<T>, b: multiset<T>, c: multiset<T>)
    ensures (a + c) + b == (a + b) + c
  {
  }

  /** What a choice leaves of its pool. */
  lemma {:induction false} ChoiceRest<T>(pick: seq<T>, pool: seq<T>) returns (rest: seq<T>)
    requires multiset(pick) <= multiset(pool)
    ensures multiset(pick) + multiset(rest) == multiset(pool)
    decreases |pick|
  {
    if pick == [] {
      rest := pool;
    } else {
      assert multiset(pool)[pick[0]] >= multiset(pick)[pick[0]] > 0;
      var k :| 0 <= k < |pool| && pool[k] == pick[0];
      var others := RemoveAt(pool, k);
      MultisetRemoveAt(pick, 0);
      MultisetRemoveAt(pool, k);
      assert RemoveAt(pick, 0) == pick[1..];
      MultisetCancel(multiset(pick[1..]), multiset(others), pick[0]);
      rest := ChoiceRest(pick[1..], others);
      MultisetRegroup(multiset(pick[1..]), multiset(rest), multiset{pick[0]});
    }
  }

  lemma ChoiceFits<T>(pick: seq<T>, pool: seq<T>, n: int)
    requires IsChoice(pick, pool, n)
    ensures n <= |pool|
  {
    assert multiset(pool) == multiset(pick) + (multiset(pool) - multiset(pick));
    assert |multiset(pool)| == |pool| && |multiset(pick)| == |pick|;
  }

  /** Exchange argument: when a threshold separates the chosen entries from the rest, no other
      choice of as many entries weighs more. */
  lemma SeparatedChoiceIsBest<T>(weight: T -> int, chosen: seq<T>, rest: seq<T>, threshold: int, pick: seq<T>)
    requires forall i | 0 <= i < |chosen| :: weight(chosen[i]) >= threshold
    requires forall i | 0 <= i < |rest| :: weight(rest[i]) <= threshold
    requires IsChoice(pick, chosen + rest, |chosen|)
    ensures SumBy(weight, pick) <= SumBy(weight, chosen)
  {
    var excess := Excess(weight, threshold);
    SumByExcess(weight, threshold, pick);
    SumBySubMultiset(excess, pick, chosen + rest);
    SumByAppend(excess, chosen, rest);
    SumByExcessBelow(weight, threshold, rest);
    SumByExcessAbove(weight, threshold, chosen);
  }
}
