/** Orders of rows by capacity: who leaves a selection first, and who enters it first. */
module RowOrder {
  import opened Fixtures

  predicate AreIndices(order: seq<int>, n: nat) {
    forall i | 0 <= i < |order| :: 0 <= order[i] < n
  }

  /** Less capacity first, and the lower position first among equals. */
  predicate LeavesBefore(rows: seq<Series>, cap: int, i: int, j: int)
    requires 0 <= i < |rows| && 0 <= j < |rows|
  {
    Capacity(rows[i], cap) < Capacity(rows[j], cap)
    || (Capacity(rows[i], cap) == Capacity(rows[j], cap) && i < j)
  }

  /** More capacity first, and the lower position first among equals. */
  predicate EntersBefore(rows: seq<Series>, cap: int, i: int, j: int)
    requires 0 <= i < |rows| && 0 <= j < |rows|
  {
    Capacity(rows[i], cap) > Capacity(rows[j], cap)
    || (Capacity(rows[i], cap) == Capacity(rows[j], cap) && i < j)
  }

  /** `out` lists the positions that leave first, in that order. */
  ghost predicate LeaveFirst(rows: seq<Series>, cap: int, out: seq<int>) {
    && AreIndices(out, |rows|)
    && (forall s, t | 0 <= s < t < |out| :: LeavesBefore(rows, cap, out[s], out[t]))
    && (forall s, i | 0 <= s < |out| && 0 <= i < |rows| && i !in out :: LeavesBefore(rows, cap, out[s], i))
  }

  /** `into` lists the positions that enter first, in that order. */
  ghost predicate EnterFirst(rows: seq<Series>, cap: int, into: seq<int>) {
    && AreIndices(into, |rows|)
    && (forall s, t | 0 <= s < t < |into| :: EntersBefore(rows, cap, into[s], into[t]))
    && (forall s, i | 0 <= s < |into| && 0 <= i < |rows| && i !in into :: EntersBefore(rows, cap, into[s], i))
  }

  /** Behind a common front, neither list can name a later position. */
  lemma FirstDiffers(rows: seq<Series>, cap: int, a: seq<int>, b: seq<int>, k: nat)
    requires LeaveFirst(rows, cap, a) && LeaveFirst(rows, cap, b) && k < |a| && k < |b|
    requires a[..k] == b[..k]
    ensures a[k] == b[k] || LeavesBefore(rows, cap, a[k], b[k])
  {
    if a[k] != b[k] && b[k] in a {
      var t :| 0 <= t < |a| && a[t] == b[k];
      assert forall r | 0 <= r < k :: a[r] == a[..k][r] && b[r] == b[..k][r];
    }
  }

  /** As many first positions to leave are the same positions in the same order. */
  lemma {:induction false} LeaveFrontsAgree(rows: seq<Series>, cap: int, a: seq<int>, b: seq<int>, k: nat)
    requires LeaveFirst(rows, cap, a) && LeaveFirst(rows, cap, b) && k <= |a| && k <= |b|
    ensures a[..k] == b[..k]
  {
    if k == 0 {
    } else {
      LeaveFrontsAgree(rows, cap, a, b, k - 1);
      FirstDiffers(rows, cap, a, b, k - 1);
      FirstDiffers(rows, cap, b, a, k - 1);
      assert a[..k] == a[..k - 1] + [a[k - 1]] && b[..k] == b[..k - 1] + [b[k - 1]];
    }
  }

  lemma FirstEntrantDiffers(rows: seq<Series>, cap: int, a: seq<int>, b: seq<int>, k: nat)
    requires EnterFirst(rows, cap, a) && EnterFirst(rows, cap, b) && k < |a| && k < |b|
    requires a[..k] == b[..k]
    ensures a[k] == b[k] || EntersBefore(rows, cap, a[k], b[k])
  {
    if a[k] != b[k] && b[k] in a {
      var t :| 0 <= t < |a| && a[t] == b[k];
      assert forall r | 0 <= r < k :: a[r] == a[..k][r] && b[r] == b[..k][r];
    }
  }

  lemma {:induction false} EnterFrontsAgree(rows: seq<Series>, cap: int, a: seq<int>, b: seq<int>, k: nat)
    requires EnterFirst(rows, cap, a) && EnterFirst(rows, cap, b) && k <= |a| && k <= |b|
    ensures a[..k] == b[..k]
  {
    if k == 0 {
    } else {
      EnterFrontsAgree(rows, cap, a, b, k - 1);
      FirstEntrantDiffers(rows, cap, a, b, k - 1);
      FirstEntrantDiffers(rows, cap, b, a, k - 1);
      assert a[..k] == a[..k - 1] + [a[k - 1]] && b[..k] == b[..k - 1] + [b[k - 1]];
    }
  }

  lemma WholeSlices(a: seq<int>, b: seq<int>)
    requires |a| == |b| && a[..|a|] == b[..|a|]
    ensures a == b
  {
    assert a[..|a|] == a && b[..|b|] == b;
  }

  lemma LeaveFirstIsUnique(rows: seq<Series>, cap: int, a: seq<int>, b: seq<int>)
    requires LeaveFirst(rows, cap, a) && LeaveFirst(rows, cap, b) && |a| == |b|
    ensures a == b
  {
    LeaveFrontsAgree(rows, cap, a, b, |a|);
    WholeSlices(a, b);
  }

  lemma EnterFirstIsUnique(rows: seq<Series>, cap: int, a: seq<int>, b: seq<int>)
    requires EnterFirst(rows, cap, a) && EnterFirst(rows, cap, b) && |a| == |b|
    ensures a == b
  {
    EnterFrontsAgree(rows, cap, a, b, |a|);
    WholeSlices(a, b);
  }
}
