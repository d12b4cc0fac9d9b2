/** Window-function ranking: the row number of a row is the number of rows that do not come after it. */
module Ranking {

  type Pair = (int, int)

  /** ORDER BY first, then second. */
  predicate Precedes(p: Pair, q: Pair) {
    p.0 < q.0 || (p.0 == q.0 && p.1 < q.1)
  }

  predicate AtOrBefore(p: Pair, q: Pair) {
    p == q || Precedes(p, q)
  }

  function UpTo(rows: set<Pair>, p: Pair): set<Pair> {
    set q | q in rows && AtOrBefore(q, p)
  }

  /** ROW_NUMBER of `p` among `rows`. */
  function Rank(rows: set<Pair>, p: Pair): nat {
    |UpTo(rows, p)|
  }

  lemma SomeMember(ids: set<int>)
    requires ids != {}
    ensures exists i :: i in ids
  {
    assert (forall i :: i !in ids) ==> ids == {};
  }

  lemma ProperSubsetIsSmaller<T>(small: set<T>, large: set<T>)
    requires small <= large
    ensures |small| <= |large|
    ensures small != large ==> |small| < |large|
  {
    assert large == small + (large - small);
  }

  /** Ranks sort the rows, and different rows have different ranks. */
  lemma RankSorts(rows: set<Pair>, p: Pair, q: Pair)
    requires p in rows && q in rows
    ensures Rank(rows, p) < Rank(rows, q) <==> Precedes(p, q)
    ensures Rank(rows, p) == Rank(rows, q) <==> p == q
    ensures 1 <= Rank(rows, p) <= |rows|
  {
    ProperSubsetIsSmaller({p}, UpTo(rows, p));
    ProperSubsetIsSmaller(UpTo(rows, p), rows);
    if Precedes(p, q) {
      assert q in UpTo(rows, q) && q !in UpTo(rows, p);
      ProperSubsetIsSmaller(UpTo(rows, p), UpTo(rows, q));
    } else if p != q {
      assert p in UpTo(rows, p) && p !in UpTo(rows, q);
      ProperSubsetIsSmaller(UpTo(rows, q), UpTo(rows, p));
    }
  }

  lemma {:induction false} LastRow(rows: set<Pair>) returns (last: Pair)
    requires rows != {}
    ensures last in rows && forall q | q in rows :: AtOrBefore(q, last)
    decreases |rows|
  {
    var p :| p in rows;
    if rows == {p} {
      last := p;
    } else {
      var other := LastRow(rows - {p});
      last := if Precedes(p, other) then other else p;
      assert forall q | q in rows :: q == p || q in rows - {p};
    }
  }

  /** No number from 1 to the row count is skipped. */
  lemma {:induction false} RanksFill(rows: set<Pair>, k: nat) returns (p: Pair)
    requires 1 <= k <= |rows|
    ensures p in rows && Rank(rows, p) == k
    decreases |rows|
  {
    var last := LastRow(rows);
    assert UpTo(rows, last) == rows;
    if k == |rows| {
      p := last;
    } else {
      p := RanksFill(rows - {last}, k);
      assert UpTo(rows, p) == UpTo(rows - {last}, p);
    }
  }
}
