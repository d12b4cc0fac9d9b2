/** The bytes hashed for the library report: every file name in id order, framed by its length. */
module LibraryDigest {
  import opened KeysetScan
  import opened Options
  import Utf8

  type Byte = Utf8.Byte

  /** File names by library-file id. */
  type Names = map<int, string>

  const LENGTH_BYTES := 8

  function Pow256(k: nat): nat {
    if k == 0 then 1 else 256 * Pow256(k - 1)
  }

  /** The low `k` bytes of `n`, most significant first. */
  function BigEndian(n: nat, k: nat): (bytes: seq<Byte>)
    ensures |bytes| == k
  {
    if k == 0 then [] else BigEndian(n / 256, k - 1) + [n % 256]
  }

  /** int.to_bytes refuses a length that does not fit. */
  predicate Fits(name: seq<Byte>) {
    |name| < Pow256(LENGTH_BYTES)
  }

  function Frame(name: seq<Byte>): seq<Byte> {
    BigEndian(|name|, LENGTH_BYTES) + name
  }

  function Framed(names: seq<seq<Byte>>): seq<Byte> {
    if names == [] then [] else Framed(names[..|names| - 1]) + Frame(names[|names| - 1])
  }

  function NameOf(table: Names, id: int): seq<Byte> {
    if id in table then Utf8.Encode(table[id]) else []
  }

  function NamesAt(table: Names, ids: seq<int>): (names: seq<seq<Byte>>)
    ensures |names| == |ids|
    ensures forall k | 0 <= k < |ids| :: names[k] == NameOf(table, ids[k])
  {
    if ids == [] then [] else NamesAt(table, ids[..|ids| - 1]) + [NameOf(table, ids[|ids| - 1])]
  }

  /** The names still to come after the cursor, in id order. */
  function Pending(table: Names, last: int): seq<seq<Byte>> {
    NamesAt(table, InOrder(After(table.Keys, last)))
  }

  /** The names of one pass over the table in id order; ids start at 1. */
  function NamesInOrder(table: Names): seq<seq<Byte>> {
    Pending(table, 0)
  }

  ghost predicate AllFit(names: seq<seq<Byte>>) {
    forall k | 0 <= k < |names| :: Fits(names[k])
  }

  lemma FramedAppend(names: seq<seq<Byte>>, name: seq<Byte>)
    ensures Framed(names + [name]) == Framed(names) + BigEndian(|name|, LENGTH_BYTES) + name
  {
    assert (names + [name])[..|names|] == names;
  }

  /** The two digest updates of one row. */
  method FeedName(name: seq<Byte>, input: seq<Byte>, ghost before: seq<seq<Byte>>) returns (fed: seq<Byte>)
    requires input == Framed(before) && Fits(name)
    ensures fed == Framed(before + [name])
  {
    fed := input + BigEndian(|name|, LENGTH_BYTES);
    fed := fed + name;
    FramedAppend(before, name);
  }

  /** Feeds the rows of one page, ids and names side by side, into the digest. */
  method FeedPage(page: seq<int>, names: seq<seq<Byte>>, input: seq<Byte>, ghost before: seq<seq<Byte>>)
    returns (ok: bool, fed: seq<Byte>, lastId: int)
    requires page != [] && |names| == |page| && input == Framed(before)
    ensures ok <==> AllFit(names)
    ensures ok ==> fed == Framed(before + names) && lastId == page[|page| - 1]
  {
    fed, lastId := input, page[0];
    ghost var seen := before;
    for k := 0 to |page|
      invariant seen == before + names[..k] && fed == Framed(seen)
      invariant forall j | 0 <= j < k :: Fits(names[j])
      invariant k > 0 ==> lastId == page[k - 1]
    {
      if !Fits(names[k]) {
        return false, fed, lastId;
      }
      fed := FeedName(names[k], fed, seen);
      seen := seen + [names[k]];
      lastId := page[k];
    }
    assert names[..|page|] == names;
    ok := true;
  }

  lemma PendingOver(table: Names, all: seq<seq<Byte>>, seen: seq<seq<Byte>>, last: int, size: nat)
    requires size >= 1 && Page(table.Keys, last, size) == []
    requires all == seen + Pending(table, last)
    ensures all == seen
  {
    PageAdvances(table.Keys, last, size);
  }

  lemma {:induction false} NamesAtAppend(table: Names, a: seq<int>, b: seq<int>)
    ensures NamesAt(table, a + b) == NamesAt(table, a) + NamesAt(table, b)
  {
  }

  /** With a page in front, what is pending regroups around it. */
  lemma FitParts(all: seq<seq<Byte>>, seen: seq<seq<Byte>>, names: seq<seq<Byte>>, rest: seq<seq<Byte>>)
    requires all == seen + (names + rest)
    ensures all == (seen + names) + rest
    ensures AllFit(all) ==> AllFit(names)
    ensures AllFit(seen) && AllFit(names) ==> AllFit(seen + names)
  {
    assert forall k | 0 <= k < |names| :: names[k] == all[|seen| + k];
  }

  /** One turn of the scan: the page is the front of what is pending, and fewer rows are left. */
  lemma PendingAdvances(table: Names, all: seq<seq<Byte>>, seen: seq<seq<Byte>>, last: int, page: seq<int>,
                        names: seq<seq<Byte>>, next: int, size: nat)
    requires size >= 1 && page == Page(table.Keys, last, size) && names == NamesAt(table, page)
    requires page != [] && next == page[|page| - 1]
    requires all == seen + Pending(table, last)
    ensures all == (seen + names) + Pending(table, next)
    ensures AllFit(all) ==> AllFit(names)
    ensures AllFit(seen) && AllFit(names) ==> AllFit(seen + names)
    ensures |After(table.Keys, next)| < |After(table.Keys, last)|
  {
    PageAdvances(table.Keys, last, size);
    NamesAtAppend(table, page, InOrder(After(table.Keys, next)));
    FitParts(all, seen, names, Pending(table, next));
  }

  // ----- The table's own names -----

  /** The positive ids of the table, ascending. */
  ghost predicate IsScanOf(ids: seq<int>, table: Names) {
    Ascends(ids) && forall i :: i in ids <==> i in table && i > 0
  }

  lemma HasMember(order: seq<int>)
    ensures order != [] ==> exists i :: i in order
  {
    if order != [] {
      var i := order[0];
      assert i in order;
    }
  }

  lemma TailMembers(order: seq<int>)
    requires Ascends(order) && order != []
    ensures Ascends(order[1..]) && forall i :: i in order[1..] <==> i in order && i != order[0]
  {
    assert order == [order[0]] + order[1..];
    forall j | 0 <= j < |order[1..]| ensures order[1..][j] != order[0] {
      assert order[1..][j] == order[j + 1];
    }
  }

  lemma {:induction false} AscendingIsUnique(a: seq<int>, b: seq<int>)
    requires Ascends(a) && Ascends(b) && forall i :: i in a <==> i in b
    ensures a == b
    decreases |a|
  {
    if a == [] {
      HasMember(b);
    } else {
      assert a[0] in a && a[0] in b;
      assert b[0] in b && b[0] in a;
      assert a[0] == b[0];
      TailMembers(a);
      TailMembers(b);
      AscendingIsUnique(a[1..], b[1..]);
    }
  }

  /** The names of the table at these ids, encoded. */
  ghost function EncodedAt(table: Names, ids: seq<int>): (encoded: seq<seq<Byte>>)
    requires forall k | 0 <= k < |ids| :: ids[k] in table
    ensures |encoded| == |ids|
    ensures forall k | 0 <= k < |ids| :: encoded[k] == Utf8.Encode(table[ids[k]])
  {
    seq(|ids|, k requires 0 <= k < |ids| => Utf8.Encode(table[ids[k]]))
  }

  lemma ScanMembers(ids: seq<int>, table: Names)
    requires IsScanOf(ids, table)
    ensures forall k | 0 <= k < |ids| :: ids[k] in table
  {
    forall k | 0 <= k < |ids| ensures ids[k] in table {
      assert ids[k] in ids;
    }
  }

  /** The input for a table: the frames of its encoded names in ascending order of their positive ids,
      or nothing when one of them has 2^64 bytes or more. */
  ghost predicate IsInputOf(table: Names, input: Option<seq<Byte>>) {
    forall ids | IsScanOf(ids, table) ::
      (forall k | 0 <= k < |ids| :: ids[k] in table)
      && (input.Some? <==> forall k | 0 <= k < |ids| :: |Utf8.Encode(table[ids[k]])| < 0x1_0000_0000_0000_0000)
      && (input.Some? ==> input.value == Framed(EncodedAt(table, ids)))
  }

  lemma FrameLimit()
    ensures Pow256(LENGTH_BYTES) == 0x1_0000_0000_0000_0000
  {
    assert Pow256(2) == 0x1_0000 && Pow256(4) == 0x1_0000_0000 && Pow256(6) == 0x1_0000_0000_0000;
  }

  lemma ScanIsInOrder(ids: seq<int>, table: Names)
    requires IsScanOf(ids, table)
    ensures ids == InOrder(After(table.Keys, 0))
  {
    InOrderAscends(After(table.Keys, 0));
    AscendingIsUnique(ids, InOrder(After(table.Keys, 0)));
  }

  lemma NamesOfScan(ids: seq<int>, table: Names)
    requires IsScanOf(ids, table) && forall k | 0 <= k < |ids| :: ids[k] in table
    ensures NamesInOrder(table) == EncodedAt(table, ids)
  {
    ScanIsInOrder(ids, table);
    forall k | 0 <= k < |ids| ensures NamesAt(table, ids)[k] == EncodedAt(table, ids)[k] {
    }
  }

  lemma FitsByLength(names: seq<seq<Byte>>)
    ensures AllFit(names) <==> forall k | 0 <= k < |names| :: |names[k]| < Pow256(LENGTH_BYTES)
  {
  }

  lemma InputIsTables(table: Names, input: Option<seq<Byte>>)
    requires input.Some? <==> AllFit(NamesInOrder(table))
    requires input.Some? ==> input.value == Framed(NamesInOrder(table))
    ensures IsInputOf(table, input)
  {
    forall ids | IsScanOf(ids, table)
      ensures forall k | 0 <= k < |ids| :: ids[k] in table
      ensures input.Some? <==> forall k | 0 <= k < |ids| :: |Utf8.Encode(table[ids[k]])| < 0x1_0000_0000_0000_0000
      ensures input.Some? ==> input.value == Framed(EncodedAt(table, ids))
    {
      ScanMembers(ids, table);
      NamesOfScan(ids, table);
      FrameLimit();
      FitsByLength(EncodedAt(table, ids));
    }
  }

  // ----- The paged scan -----

  /** The paged scan hashes the same bytes as one pass over the table, whatever the page size;
      `None` stands for a length that does not fit its frame. */
  method DigestInput(table: Names, pageSize: nat) returns (input: Option<seq<Byte>>)
    requires pageSize >= 1
    ensures input.Some? <==> AllFit(NamesInOrder(table))
    ensures input.Some? ==> input.value == Framed(NamesInOrder(table))
    ensures IsInputOf(table, input)
  {
    ghost var all := NamesInOrder(table);
    ghost var seen: seq<seq<Byte>> := [];
    var fed: seq<Byte> := [];
    var lastId := 0;
    while true
      invariant all == seen + Pending(table, lastId)
      invariant fed == Framed(seen) && AllFit(seen)
      decreases |After(table.Keys, lastId)|
    {
      var page := Page(table.Keys, lastId, pageSize);
      if page == [] {
        PendingOver(table, all, seen, lastId, pageSize);
        InputIsTables(table, Some(fed));
        return Some(fed);
      }
      var names := NamesAt(table, page);
      ghost var next := page[|page| - 1];
      PendingAdvances(table, all, seen, lastId, page, names, next, pageSize);
      var ok;
      ok, fed, lastId := FeedPage(page, names, fed, seen);
      if !ok {
        InputIsTables(table, None);
        return None;
      }
      seen := seen + names;
    }
  }

  // ----- What a frame holds -----

  /** Bytes weighted by falling powers of 256. */
  function Weighted(bytes: seq<Byte>): nat {
    if bytes == [] then 0 else bytes[0] * Pow256(|bytes| - 1) + Weighted(bytes[1..])
  }

  lemma Distribute(a: int, b: int, factor: int)
    ensures (a + b) * factor == a * factor + b * factor
  {
  }

  lemma ScaleWeight(b: int, weight: int)
    ensures b * (256 * weight) == b * weight * 256
  {
  }

  lemma {:induction false} WeightedAppend(bytes: seq<Byte>, last: Byte)
    ensures Weighted(bytes + [last]) == Weighted(bytes) * 256 + last
  {
    var more := bytes + [last];
    if bytes == [] {
      assert more[1..] == [];
      assert Weighted(more) == more[0] * Pow256(0) + Weighted(more[1..]);
    } else {
      assert more[1..] == bytes[1..] + [last];
      WeightedAppend(bytes[1..], last);
      Distribute(bytes[0] * Pow256(|bytes| - 1), Weighted(bytes[1..]), 256);
      ScaleWeight(bytes[0], Pow256(|bytes| - 1));
    }
  }

  /** The length bytes add up to the length, the first one weighing most. */
  lemma {:induction false} BigEndianWeighs(n: nat, k: nat)
    requires n < Pow256(k)
    ensures Weighted(BigEndian(n, k)) == n
  {
    if k == 0 {
    } else {
      BigEndianWeighs(n / 256, k - 1);
      WeightedAppend(BigEndian(n / 256, k - 1), n % 256);
    }
  }

  /** A frame is eight bytes that spell the length, and then the name. */
  lemma FrameShape(name: seq<Byte>)
    requires |name| < 0x1_0000_0000_0000_0000
    ensures |Frame(name)| == 8 + |name| && Weighted(Frame(name)[..8]) == |name| && Frame(name)[8..] == name
  {
    FrameLimit();
    BigEndianWeighs(|name|, LENGTH_BYTES);
    assert Frame(name)[..8] == BigEndian(|name|, LENGTH_BYTES);
  }

  lemma Regroup4(a: seq<Byte>, b: seq<Byte>, c: seq<Byte>, d: seq<Byte>)
    ensures a + b + (c + d) == a + b + c + d
  {
  }

  /** Each name's frame stands behind those of the names before it. */
  lemma {:induction false} FrameStandsAt(names: seq<seq<Byte>>, k: nat)
    requires k < |names|
    ensures Framed(names) == Framed(names[..k]) + Frame(names[k]) + Framed(names[k + 1..])
    decreases |names|
  {
    var front, last := names[..|names| - 1], names[|names| - 1];
    if k == |names| - 1 {
      assert names[k + 1..] == [];
    } else {
      FrameStandsAt(front, k);
      var tail := names[k + 1..];
      assert front[..k] == names[..k] && front[k + 1..] == tail[..|tail| - 1];
      Regroup4(Framed(names[..k]), Frame(names[k]), Framed(front[k + 1..]), Frame(last));
    }
  }

  // ----- Distinct name lists feed distinct bytes -----

  lemma {:induction false} BigEndianDetermines(n: nat, m: nat, k: nat)
    requires n < Pow256(k) && m < Pow256(k)
    requires BigEndian(n, k) == BigEndian(m, k)
    ensures n == m
  {
    if k == 0 {
    } else {
      var a, b := BigEndian(n, k), BigEndian(m, k);
      assert a[k - 1] == b[k - 1];
      assert a[..k - 1] == BigEndian(n / 256, k - 1) && b[..k - 1] == BigEndian(m / 256, k - 1);
      BigEndianDetermines(n / 256, m / 256, k - 1);
    }
  }

  lemma Regroup(a: seq<Byte>, b: seq<Byte>, c: seq<Byte>)
    ensures a + b + c == a + (b + c)
  {
  }

  lemma {:induction false} FramedFront(names: seq<seq<Byte>>)
    requires names != []
    ensures Framed(names) == Frame(names[0]) + Framed(names[1..])
    decreases |names|
  {
    if |names| == 1 {
      assert names[..0] == [] && names[1..] == [];
    } else {
      var front, last := names[..|names| - 1], names[|names| - 1];
      FramedFront(front);
      assert names[1..][..|names| - 2] == front[1..];
      Regroup(Frame(names[0]), Framed(front[1..]), Frame(last));
    }
  }

  /** The framing decodes uniquely: no two lists of encoded names feed the same bytes. */
  lemma {:induction false} FramedDetermines(a: seq<seq<Byte>>, b: seq<seq<Byte>>)
    requires AllFit(a) && AllFit(b)
    requires Framed(a) == Framed(b)
    ensures a == b
    decreases |a|
  {
    if a != [] && b != [] {
      FramedFront(a);
      FramedFront(b);
      assert Framed(a)[..LENGTH_BYTES] == BigEndian(|a[0]|, LENGTH_BYTES);
      assert Framed(b)[..LENGTH_BYTES] == BigEndian(|b[0]|, LENGTH_BYTES);
      BigEndianDetermines(|a[0]|, |b[0]|, LENGTH_BYTES);
      var end := LENGTH_BYTES + |a[0]|;
      assert Framed(a)[LENGTH_BYTES..end] == a[0] && Framed(b)[LENGTH_BYTES..end] == b[0];
      assert Framed(a)[end..] == Framed(a[1..]) && Framed(b)[end..] == Framed(b[1..]);
      FramedDetermines(a[1..], b[1..]);
      assert a == [a[0]] + a[1..] && b == [b[0]] + b[1..];
    } else if a != [] {
      FramedFront(a);
    } else if b != [] {
      FramedFront(b);
    }
  }

  function EncodedNames(names: seq<string>): (encoded: seq<seq<Byte>>)
    ensures |encoded| == |names|
    ensures forall k | 0 <= k < |names| :: encoded[k] == Utf8.Encode(names[k])
  {
    seq(|names|, k requires 0 <= k < |names| => Utf8.Encode(names[k]))
  }

  /** Nor do two lists of names. */
  lemma DigestInputDetermines(a: seq<string>, b: seq<string>)
    requires AllFit(EncodedNames(a)) && AllFit(EncodedNames(b))
    requires Framed(EncodedNames(a)) == Framed(EncodedNames(b))
    ensures a == b
  {
    FramedDetermines(EncodedNames(a), EncodedNames(b));
    forall k | 0 <= k < |a| ensures a[k] == b[k] {
      assert EncodedNames(a)[k] == EncodedNames(b)[k];
      Utf8.DecodeUndoesEncode(a[k]);
      Utf8.DecodeUndoesEncode(b[k]);
    }
  }

  function NamesOf(table: Names, ids: seq<int>): (names: seq<string>)
    requires forall k | 0 <= k < |ids| :: ids[k] in table
    ensures |names| == |ids| && forall k | 0 <= k < |ids| :: names[k] == table[ids[k]]
  {
    seq(|ids|, k requires 0 <= k < |ids| => table[ids[k]])
  }

  lemma EncodedNamesOf(table: Names, ids: seq<int>)
    requires forall k | 0 <= k < |ids| :: ids[k] in table
    ensures EncodedNames(NamesOf(table, ids)) == EncodedAt(table, ids)
  {
  }

  /** Tables with the same positive ids that feed the same bytes hold the same names there. */
  lemma DigestInputDeterminesTable(a: Names, b: Names, ids: seq<int>, input: seq<Byte>)
    requires IsScanOf(ids, a) && IsScanOf(ids, b)
    requires IsInputOf(a, Some(input)) && IsInputOf(b, Some(input))
    ensures forall i | i in ids :: i in a && i in b && a[i] == b[i]
  {
    ScanMembers(ids, a);
    ScanMembers(ids, b);
    var x, y := NamesOf(a, ids), NamesOf(b, ids);
    EncodedNamesOf(a, ids);
    EncodedNamesOf(b, ids);
    FrameLimit();
    DigestInputDetermines(x, y);
    forall i | i in ids ensures i in a && i in b && a[i] == b[i] {
      var k :| 0 <= k < |ids| && ids[k] == i;
      assert x[k] == y[k];
    }
  }
}
