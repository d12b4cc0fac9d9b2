/** Keyset paging: `WHERE id > :last ORDER BY id LIMIT :size` over a table with unique ids. */
module KeysetScan {
  import opened Ranking

  function After(ids: set<int>, last: int): set<int> {
    set i | i in ids && i > last
  }

  ghost predicate IsLeast(ids: set<int>, least: int) {
    least in ids && forall i | i in ids :: least <= i
  }

  lemma {:induction false} LeastExists(ids: set<int>, some: int)
    requires some in ids
    ensures exists least :: IsLeast(ids, least)
    decreases |ids|
  {
    if smaller :| smaller in ids && smaller < some {
      var others := ids - {some};
      LeastExists(others, smaller);
      var least :| IsLeast(others, least);
      assert least <= smaller;
      forall i | i in ids ensures least <= i {
        if i != some {
          assert i in others;
        }
      }
      assert IsLeast(ids, least);
    } else {
      assert IsLeast(ids, some);
    }
  }

  function Least(ids: set<int>): (least: int)
    requires ids != {}
    ensures least in ids && forall i | i in ids :: least <= i
  {
    assert exists least :: least in ids && forall i | i in ids :: least <= i by {
      SomeMember(ids);
      var some :| some in ids;
      LeastExists(ids, some);
      var least :| IsLeast(ids, least);
      assert least in ids;
    }
    var least :| least in ids && forall i | i in ids :: least <= i;
    least
  }

  /** ORDER BY id. */
  function InOrder(ids: set<int>): (order: seq<int>)
    ensures forall i :: i in order <==> i in ids
    decreases |ids|
  {
    if ids == {} then [] else [Least(ids)] + InOrder(ids - {Least(ids)})
  }

  ghost predicate Ascends(order: seq<int>) {
    forall i, j | 0 <= i < j < |order| :: order[i] < order[j]
  }

  lemma AscendsAfter(first: int, rest: seq<int>)
    requires Ascends(rest) && forall i | i in rest :: first < i
    ensures Ascends([first] + rest)
  {
    assert forall j | 0 <= j < |rest| :: rest[j] in rest;
  }

  lemma {:induction false} InOrderAscends(ids: set<int>)
    ensures Ascends(InOrder(ids))
    decreases |ids|
  {
    if ids == {} {
    } else {
      InOrderAscends(ids - {Least(ids)});
      AscendsAfter(Least(ids), InOrder(ids - {Least(ids)}));
    }
  }

  /** One page of the scan. */
  function Page(ids: set<int>, last: int, size: nat): (page: seq<int>)
    ensures |page| <= size
  {
    var rest := InOrder(After(ids, last));
    if |rest| <= size then rest else rest[..size]
  }

  lemma SkipFirst(first: int, rest: seq<int>, k: nat)
    requires 0 < k <= |rest|
    ensures ([first] + rest)[k] == rest[k - 1] && ([first] + rest)[k + 1..] == rest[k..]
  {
  }

  /** Continuing after the k-th id skips exactly the first k + 1 ids. */
  lemma {:induction false} ContinueAfter(ids: set<int>, k: nat)
    requires k < |InOrder(ids)|
    ensures InOrder(After(ids, InOrder(ids)[k])) == InOrder(ids)[k + 1..]
    decreases |ids|
  {
    var least := Least(ids);
    var others := ids - {least};
    if k == 0 {
      assert After(ids, least) == others;
    } else {
      var rest := InOrder(others);
      var id := rest[k - 1];
      ContinueAfter(others, k - 1);
      assert id in rest && least !in others;
      assert After(ids, id) == After(others, id);
      SkipFirst(least, rest, k);
    }
  }

  lemma AscendingFront(order: seq<int>, n: nat, i: int)
    requires Ascends(order) && 0 < n <= |order| && i in order
    ensures i in order[..n] <==> i <= order[n - 1]
  {
    var k :| 0 <= k < |order| && order[k] == i;
    if k < n {
      assert order[..n][k] == i;
    }
  }

  lemma SomeInOrder(ids: set<int>)
    ensures InOrder(ids) == [] ==> ids == {}
  {
  }

  lemma AfterTwice(ids: set<int>, last: int, next: int)
    requires last <= next
    ensures After(After(ids, last), next) == After(ids, next)
  {
  }

  /** A front of the scan is followed by the ids after its last one. */
  lemma FrontOfScan(ids: set<int>, n: nat)
    requires 0 < n <= |InOrder(ids)|
    ensures var next := InOrder(ids)[n - 1];
            && next in ids
            && InOrder(ids) == InOrder(ids)[..n] + InOrder(After(ids, next))
            && |After(ids, next)| < |ids|
  {
    var next := InOrder(ids)[n - 1];
    ContinueAfter(ids, n - 1);
    assert next in InOrder(ids);
    assert next !in After(ids, next);
    ProperSubsetIsSmaller(After(ids, next), ids);
  }

  /** An empty page means that nothing remains. A nonempty page is the front of the remaining scan,
      and continuing after its last id yields the rest of the scan. */
  lemma PageAdvances(ids: set<int>, last: int, size: nat)
    requires size >= 1
    ensures Page(ids, last, size) == [] <==> After(ids, last) == {}
    ensures Page(ids, last, size) != [] ==>
              var next := Page(ids, last, size)[|Page(ids, last, size)| - 1];
              && next > last
              && InOrder(After(ids, last)) == Page(ids, last, size) + InOrder(After(ids, next))
              && |After(ids, next)| < |After(ids, last)|
  {
    var page, rest := Page(ids, last, size), After(ids, last);
    if page == [] {
      SomeInOrder(rest);
    } else {
      var next := page[|page| - 1];
      assert page == InOrder(rest)[..|page|];
      FrontOfScan(rest, |page|);
      AfterTwice(ids, last, next);
    }
  }

  /** A page holds exactly the ids after the cursor up to its own last id. */
  lemma PageCovers(ids: set<int>, last: int, size: nat, i: int)
    requires Page(ids, last, size) != []
    ensures i in Page(ids, last, size) <==>
            i in ids && last < i <= Page(ids, last, size)[|Page(ids, last, size)| - 1]
  {
    var page, order := Page(ids, last, size), InOrder(After(ids, last));
    InOrderAscends(After(ids, last));
    assert page == order[..|page|];
    if i in order {
      AscendingFront(order, |page|, i);
    }
  }
}
