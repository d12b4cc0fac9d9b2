/** Story-arc memberships: the legacy table, the expanded table, and the two rebuilds between them. */
module StoryArcs {
  import opened Options
  import opened Ranking

  // ----- Tables -----

  /** Primary key of the legacy table. */
  datatype Key = Key(arc: int, issue: int)

  /** Legacy memberships: one nullable sequence number per (arc, issue). */
  type Legacy = map<Key, Option<int>>

  /** Issue ids with their nullable exact number text. */
  type Issues = map<int, Option<string>>

  /** Columns of the expanded table that a legacy row fills with constants. */
  datatype Provenance = Provenance(
    resolutionState: string,
    sourceKind: string,
    sourceEntryId: Option<string>,
    sourceArcId: Option<string>,
    sourceIssueId: Option<string>,
    sourceSeriesId: Option<string>,
    sourceSeriesName: Option<string>,
    sourceIssueTitle: Option<string>,
    sourcePublisher: Option<string>,
    sourceReleaseDateText: Option<string>,
    sourceIssueDateText: Option<string>,
    resolutionConfidence: Option<real>,
    resolutionMethod: Option<string>,
    evidence: string,
    syncEligible: bool,
    lastMaterializationResult: string)

  const LEGACY_PROVENANCE := Provenance(
    "resolved", "legacy", None, None, None, None, None, None, None, None, None, None, None, "{}", false, "{}")

  datatype Membership = Membership(
    arc: int,
    issue: Option<int>,
    sequence: int,
    ordinal: int,
    sequenceWasNull: bool,
    numberText: Option<string>,
    provenance: Provenance)

  type Table = set<Membership>

  /** The unique constraint of the expanded table; rows without an issue never collide. */
  ghost predicate UniqueMemberships(table: Table) {
    forall r, s | r in table && s in table && r.arc == s.arc && r.issue == s.issue && r.issue.Some? :: r == s
  }

  // ----- Upgrade -----

  function Numbers(legacy: Legacy, arc: int): set<int> {
    set k | k in legacy && k.arc == arc && legacy[k].Some? :: legacy[k].value
  }

  function UnnumberedIssues(legacy: Legacy, arc: int): set<int> {
    set k | k in legacy && k.arc == arc && legacy[k].None? :: k.issue
  }

  ghost predicate IsMax(numbers: set<int>, m: int) {
    m in numbers && forall n | n in numbers :: n <= m
  }

  lemma {:induction false} MaxExists(numbers: set<int>, n: int)
    requires n in numbers
    ensures exists m :: IsMax(numbers, m)
    decreases |numbers|
  {
    if larger :| larger in numbers && larger > n {
      MaxExists(numbers - {n}, larger);
      var m :| IsMax(numbers - {n}, m);
      assert forall x | x in numbers :: x == n || x in numbers - {n};
      assert IsMax(numbers, m);
    } else {
      assert IsMax(numbers, n);
    }
  }

  /** COALESCE(MAX(sequence_number), 0). */
  ghost function MaxOrZero(numbers: set<int>): (m: int)
    ensures numbers == {} ==> m == 0
    ensures forall n | n in numbers :: n <= m && m in numbers
  {
    if exists n :: n in numbers then
      var n :| n in numbers;
      MaxExists(numbers, n);
      var m :| IsMax(numbers, m);
      m
    else 0
  }

  /** Issues as rows that are ordered by issue alone. */
  function ByIssue(issues: set<int>): set<Pair> {
    set i | i in issues :: (0, i)
  }

  /** Position of an issue in issue order. */
  function PositionAmong(issues: set<int>, issue: int): nat {
    Rank(ByIssue(issues), (0, issue))
  }

  /** The sequence number the upgrade gives a row. */
  ghost function Assigned(legacy: Legacy, key: Key): int
    requires key in legacy
  {
    match legacy[key]
    case Some(sequence) => sequence
    case None =>
      MaxOrZero(Numbers(legacy, key.arc)) + PositionAmong(UnnumberedIssues(legacy, key.arc), key.issue)
  }

  ghost function ArcOrder(legacy: Legacy, arc: int): set<Pair> {
    set k | k in legacy && k.arc == arc :: (Assigned(legacy, k), k.issue)
  }

  ghost function AssignedOrdinal(legacy: Legacy, key: Key): int
    requires key in legacy
  {
    Rank(ArcOrder(legacy, key.arc), (Assigned(legacy, key), key.issue))
  }

  ghost function UpgradedRow(legacy: Legacy, issues: Issues, key: Key): Membership
    requires key in legacy && key.issue in issues
  {
    Membership(
      key.arc, Some(key.issue), Assigned(legacy, key), AssignedOrdinal(legacy, key),
      legacy[key].None?, issues[key.issue], LEGACY_PROVENANCE)
  }

  /** The upgrade keeps the rows whose issue exists. */
  ghost function Upgraded(legacy: Legacy, issues: Issues): Table {
    set k | k in legacy && k.issue in issues :: UpgradedRow(legacy, issues, k)
  }

  // ----- Downgrade guard and downgrade -----

  /** The membership check: a number text counts against a row only when the issue's own text is
      known and differs. */
  predicate IsRepresentable(row: Membership, issues: Issues) {
    && row.issue.Some?
    && row.provenance == LEGACY_PROVENANCE
    && (row.numberText.Some? && row.issue.value in issues && issues[row.issue.value].Some?
        ==> row.numberText == issues[row.issue.value])
  }

  ghost function TableOrder(table: Table, arc: int): set<Pair> {
    set r | r in table && r.arc == arc && r.issue.Some? :: (r.sequence, r.issue.value)
  }

  /** The ordinal check: every row stands where sequence number and issue id put it. */
  ghost predicate HasExpectedOrdinal(table: Table, row: Membership)
    requires row.issue.Some?
  {
    row.ordinal == Rank(TableOrder(table, row.arc), (row.sequence, row.issue.value))
  }

  ghost predicate GuardAccepts(table: Table, issues: Issues) {
    && (forall r | r in table :: IsRepresentable(r, issues))
    && (forall r | r in table && IsRepresentable(r, issues) :: HasExpectedOrdinal(table, r))
  }

  ghost predicate HasRow(table: Table, key: Key) {
    exists r :: r in table && r.arc == key.arc && r.issue == Some(key.issue)
  }

  ghost function RowAt(table: Table, key: Key): (row: Membership)
    requires HasRow(table, key)
    ensures row in table && row.arc == key.arc && row.issue == Some(key.issue)
  {
    var r :| r in table && r.arc == key.arc && r.issue == Some(key.issue);
    r
  }

  ghost function Downgraded(table: Table): Legacy {
    var keys := set r | r in table && r.issue.Some? :: Key(r.arc, r.issue.value);
    map k | k in keys :: if RowAt(table, k).sequenceWasNull then None else Some(RowAt(table, k).sequence)
  }

  // ----- Ranking of an arc -----

  lemma {:induction false} ByIssueSize(issues: set<int>)
    ensures |ByIssue(issues)| == |issues|
    decreases |issues|
  {
    if issues == {} {
      assert ByIssue(issues) == {};
    } else {
      SomeMember(issues);
      var i :| i in issues;
      ByIssueSize(issues - {i});
      assert ByIssue(issues) == ByIssue(issues - {i}) + {(0, i)};
    }
  }

  lemma PositionSorts(issues: set<int>, i: int, j: int)
    requires i in issues && j in issues
    ensures 1 <= PositionAmong(issues, i) <= |issues|
    ensures PositionAmong(issues, i) < PositionAmong(issues, j) <==> i < j
    ensures PositionAmong(issues, i) == PositionAmong(issues, j) <==> i == j
  {
    ByIssueSize(issues);
    RankSorts(ByIssue(issues), (0, i), (0, j));
  }

  /** Rows without a number follow every numbered row, in issue order and without sharing a number. */
  lemma UnnumberedRowsFollow(legacy: Legacy, k: Key, j: Key)
    requires k in legacy && j in legacy && k.arc == j.arc && legacy[k].None?
    ensures legacy[j].Some? ==> Assigned(legacy, j) == legacy[j].value < Assigned(legacy, k)
    ensures legacy[j].None? ==> (Assigned(legacy, j) < Assigned(legacy, k) <==> j.issue < k.issue)
    ensures legacy[j].None? ==> (Assigned(legacy, j) == Assigned(legacy, k) <==> j == k)
    ensures MaxOrZero(Numbers(legacy, k.arc)) < Assigned(legacy, k)
            <= MaxOrZero(Numbers(legacy, k.arc)) + |UnnumberedIssues(legacy, k.arc)|
  {
    var issues := UnnumberedIssues(legacy, k.arc);
    PositionSorts(issues, k.issue, k.issue);
    if legacy[j].Some? {
      assert legacy[j].value in Numbers(legacy, k.arc);
    } else {
      assert j.issue in issues;
      PositionSorts(issues, j.issue, k.issue);
    }
  }

  /** Ordinals sort an arc by assigned sequence number, then issue. */
  lemma OrdinalsSort(legacy: Legacy, k: Key, j: Key)
    requires k in legacy && j in legacy && k.arc == j.arc
    ensures AssignedOrdinal(legacy, k) < AssignedOrdinal(legacy, j)
            <==> Precedes((Assigned(legacy, k), k.issue), (Assigned(legacy, j), j.issue))
  {
    RankSorts(ArcOrder(legacy, k.arc), (Assigned(legacy, k), k.issue), (Assigned(legacy, j), j.issue));
  }

  function OneTo(n: nat): (numbers: set<int>)
    ensures forall k :: k in numbers <==> 1 <= k <= n
  {
    if n == 0 then {} else OneTo(n - 1) + {n}
  }

  lemma {:induction false} ArcOrderSize(legacy: Legacy, arc: int, keys: set<Key>)
    requires forall k | k in keys :: k in legacy && k.arc == arc
    ensures |set k | k in keys :: (Assigned(legacy, k), k.issue)| == |keys|
    ensures keys == (set k | k in legacy && k.arc == arc) ==> |ArcOrder(legacy, arc)| == |keys|
    decreases |keys|
  {
    var pairs := set k | k in keys :: (Assigned(legacy, k), k.issue);
    if keys == {} {
      assert pairs == {};
    } else {
      var k :| k in keys;
      var others := set j | j in keys - {k} :: (Assigned(legacy, j), j.issue);
      ArcOrderSize(legacy, arc, keys - {k});
      assert pairs == others + {(Assigned(legacy, k), k.issue)};
    }
    if keys == set k | k in legacy && k.arc == arc {
      assert ArcOrder(legacy, arc) == pairs;
    }
  }

  /** The ordinals of an arc are exactly 1 to its number of memberships. */
  lemma OrdinalsAreOneToN(legacy: Legacy, arc: int)
    ensures (set k | k in legacy && k.arc == arc :: AssignedOrdinal(legacy, k))
         == OneTo(|set k | k in legacy && k.arc == arc|)
  {
    var keys := set k | k in legacy && k.arc == arc;
    var order := ArcOrder(legacy, arc);
    ArcOrderSize(legacy, arc, keys);
    forall k | k in keys ensures 1 <= AssignedOrdinal(legacy, k) <= |keys| {
      RankSorts(order, (Assigned(legacy, k), k.issue), (Assigned(legacy, k), k.issue));
    }
    var ordinals := set k | k in legacy && k.arc == arc :: AssignedOrdinal(legacy, k);
    forall n | n in OneTo(|keys|) ensures n in ordinals {
      var p := RanksFill(order, n);
      var k :| k in keys && (Assigned(legacy, k), k.issue) == p;
      assert AssignedOrdinal(legacy, k) == n;
    }
  }

  // ----- Round trips -----

  ghost predicate IssuesExist(legacy: Legacy, issues: Issues) {
    forall k | k in legacy :: k.issue in issues
  }

  lemma UpgradedMembers(legacy: Legacy, issues: Issues, row: Membership)
    requires row in Upgraded(legacy, issues)
    ensures row.issue.Some?
    ensures var k := Key(row.arc, row.issue.value);
            k in legacy && k.issue in issues && row == UpgradedRow(legacy, issues, k)
  {
  }

  /** The columns every upgraded row starts with. */
  lemma UpgradedColumns(legacy: Legacy, issues: Issues, row: Membership)
    requires row in Upgraded(legacy, issues)
    ensures row.provenance.resolutionState == "resolved" && row.provenance.sourceKind == "legacy"
    ensures row.provenance.evidence == "{}" && row.provenance.lastMaterializationResult == "{}"
    ensures !row.provenance.syncEligible && row.provenance.sourceEntryId == None
    ensures row.numberText == issues[row.issue.value]
    ensures row.sequenceWasNull <==> legacy[Key(row.arc, row.issue.value)] == None
  {
    UpgradedMembers(legacy, issues, row);
  }

  lemma UpgradedIsUnique(legacy: Legacy, issues: Issues)
    ensures UniqueMemberships(Upgraded(legacy, issues))
  {
    forall r, s | r in Upgraded(legacy, issues) && s in Upgraded(legacy, issues)
      && r.arc == s.arc && r.issue == s.issue && r.issue.Some?
      ensures r == s
    {
      UpgradedMembers(legacy, issues, r);
      UpgradedMembers(legacy, issues, s);
    }
  }

  lemma UpgradedOrder(legacy: Legacy, issues: Issues, arc: int)
    requires IssuesExist(legacy, issues)
    ensures TableOrder(Upgraded(legacy, issues), arc) == ArcOrder(legacy, arc)
  {
    var table := Upgraded(legacy, issues);
    forall p | p in TableOrder(table, arc) ensures p in ArcOrder(legacy, arc) {
      var r :| r in table && r.arc == arc && r.issue.Some? && (r.sequence, r.issue.value) == p;
      UpgradedMembers(legacy, issues, r);
    }
    forall p | p in ArcOrder(legacy, arc) ensures p in TableOrder(table, arc) {
      var k :| k in legacy && k.arc == arc && (Assigned(legacy, k), k.issue) == p;
      assert UpgradedRow(legacy, issues, k) in table;
    }
  }

  /** A freshly upgraded table passes the membership and the ordinal check. */
  lemma GuardAcceptsUpgrade(legacy: Legacy, issues: Issues)
    requires IssuesExist(legacy, issues)
    ensures UniqueMemberships(Upgraded(legacy, issues))
    ensures GuardAccepts(Upgraded(legacy, issues), issues)
  {
    var table := Upgraded(legacy, issues);
    UpgradedIsUnique(legacy, issues);
    forall r | r in table ensures IsRepresentable(r, issues) && HasExpectedOrdinal(table, r) {
      UpgradedMembers(legacy, issues, r);
      UpgradedOrder(legacy, issues, r.arc);
    }
  }

  /** Downgrading an upgraded table gives back exactly the legacy rows whose issue exists, NULL
      sequence numbers included: all of them, under the legacy foreign key. */
  lemma DowngradeUndoesUpgrade(legacy: Legacy, issues: Issues)
    ensures Downgraded(Upgraded(legacy, issues)) == map k | k in legacy && k.issue in issues :: legacy[k]
    ensures Downgraded(Upgraded(legacy, issues)) == legacy <==> IssuesExist(legacy, issues)
  {
    var table := Upgraded(legacy, issues);
    var kept := map k | k in legacy && k.issue in issues :: legacy[k];
    forall k ensures k in Downgraded(table) <==> k in kept {
      if k in kept {
        assert UpgradedRow(legacy, issues, k) in table;
      }
      if k in Downgraded(table) {
        UpgradedMembers(legacy, issues, RowAt(table, k));
      }
    }
    forall k | k in kept ensures Downgraded(table)[k] == kept[k] {
      assert k in Downgraded(table);
      UpgradedMembers(legacy, issues, RowAt(table, k));
    }
    assert Downgraded(table) == kept;
    assert kept == legacy ==> forall k | k in legacy :: k in kept;
  }

  // ----- What the guard does not promise -----

  ghost function TableNumbers(table: Table, arc: int): set<int> {
    set r | r in table && r.arc == arc && !r.sequenceWasNull :: r.sequence
  }

  ghost function TableUnnumbered(table: Table, arc: int): set<int> {
    set r | r in table && r.arc == arc && r.sequenceWasNull && r.issue.Some? :: r.issue.value
  }

  /** A row that upgrading would write again: a row born without a number still holds the number
      its position earns, and the number text is the issue's own. */
  ghost predicate IsUntouched(table: Table, issues: Issues, row: Membership)
    requires row.issue.Some? && row.issue.value in issues
  {
    && row.numberText == issues[row.issue.value]
    && (row.sequenceWasNull ==>
          row.sequence == MaxOrZero(TableNumbers(table, row.arc))
                          + PositionAmong(TableUnnumbered(table, row.arc), row.issue.value))
  }

  lemma DowngradedRow(table: Table, row: Membership)
    requires UniqueMemberships(table) && row in table && row.issue.Some?
    ensures var k := Key(row.arc, row.issue.value);
            && k in Downgraded(table)
            && Downgraded(table)[k] == if row.sequenceWasNull then None else Some(row.sequence)
  {
    var k := Key(row.arc, row.issue.value);
    assert HasRow(table, k);
    assert RowAt(table, k) == row;
  }

  lemma DowngradedKey(table: Table, k: Key) returns (row: Membership)
    requires UniqueMemberships(table) && k in Downgraded(table)
    ensures row in table && row.arc == k.arc && row.issue == Some(k.issue)
    ensures Downgraded(table)[k] == if row.sequenceWasNull then None else Some(row.sequence)
  {
    row :| row in table && row.arc == k.arc && row.issue == Some(k.issue);
    DowngradedRow(table, row);
  }

  lemma DowngradedArc(table: Table, arc: int)
    requires UniqueMemberships(table) && forall r | r in table :: r.issue.Some?
    ensures Numbers(Downgraded(table), arc) == TableNumbers(table, arc)
    ensures UnnumberedIssues(Downgraded(table), arc) == TableUnnumbered(table, arc)
  {
    var legacy := Downgraded(table);
    forall r | r in table
      ensures Key(r.arc, r.issue.value) in legacy
      ensures legacy[Key(r.arc, r.issue.value)] == if r.sequenceWasNull then None else Some(r.sequence)
    {
      DowngradedRow(table, r);
    }
    forall n | n in Numbers(legacy, arc) ensures n in TableNumbers(table, arc) {
      var k :| k in legacy && k.arc == arc && legacy[k] == Some(n);
      var r := DowngradedKey(table, k);
    }
    forall i | i in UnnumberedIssues(legacy, arc) ensures i in TableUnnumbered(table, arc) {
      var r := DowngradedKey(table, Key(arc, i));
    }
  }

  lemma UntouchedSurvives(table: Table, issues: Issues)
    requires UniqueMemberships(table) && GuardAccepts(table, issues)
    requires forall r | r in table :: r.issue.Some? && r.issue.value in issues && IsUntouched(table, issues, r)
    ensures Upgraded(Downgraded(table), issues) == table
  {
    var legacy := Downgraded(table);
    forall r | r in table
      ensures Key(r.arc, r.issue.value) in legacy && Assigned(legacy, Key(r.arc, r.issue.value)) == r.sequence
      ensures legacy[Key(r.arc, r.issue.value)].None? <==> r.sequenceWasNull
    {
      DowngradedRow(table, r);
      DowngradedArc(table, r.arc);
    }
    forall arc ensures ArcOrder(legacy, arc) == TableOrder(table, arc) {
      forall p | p in ArcOrder(legacy, arc) ensures p in TableOrder(table, arc) {
        var k :| k in legacy && k.arc == arc && (Assigned(legacy, k), k.issue) == p;
        var r := DowngradedKey(table, k);
        assert Key(r.arc, r.issue.value) == k;
      }
    }
    forall r | r in table ensures r == UpgradedRow(legacy, issues, Key(r.arc, r.issue.value)) {
      assert HasExpectedOrdinal(table, r);
      assert ArcOrder(legacy, r.arc) == TableOrder(table, r.arc);
    }
    forall row | row in Upgraded(legacy, issues) ensures row in table {
      UpgradedMembers(legacy, issues, row);
      var r := DowngradedKey(table, Key(row.arc, row.issue.value));
    }
  }

  /** The accepted tables that survive downgrading and upgrading again are exactly those whose every
      row is untouched. */
  lemma UpgradeUndoesDowngrade(table: Table, issues: Issues)
    requires UniqueMemberships(table) && GuardAccepts(table, issues)
    requires forall r | r in table :: r.issue.Some? ==> r.issue.value in issues
    ensures Upgraded(Downgraded(table), issues) == table <==> forall r | r in table :: IsUntouched(table, issues, r)
  {
    var legacy := Downgraded(table);
    forall r | r in table
      ensures Key(r.arc, r.issue.value) in legacy
      ensures (legacy[Key(r.arc, r.issue.value)].None? <==> r.sequenceWasNull)
      ensures r.numberText == issues[r.issue.value] && Assigned(legacy, Key(r.arc, r.issue.value)) == r.sequence
              <==> IsUntouched(table, issues, r)
    {
      DowngradedRow(table, r);
      DowngradedArc(table, r.arc);
    }
    if forall r | r in table :: IsUntouched(table, issues, r) {
      UntouchedSurvives(table, issues);
    }
    if Upgraded(legacy, issues) == table {
      forall r | r in table ensures IsUntouched(table, issues, r) {
        UpgradedMembers(legacy, issues, r);
      }
    }
  }

  /** An accepted table loses nothing but numbers given later and texts whose issue has none: downgrading
      and upgrading rebuilds each row with its issue, its provenance and, where the issue's text is known,
      its number text, unless the row had none. */
  lemma AcceptedRowIsRebuilt(table: Table, issues: Issues, row: Membership) returns (rebuilt: Membership)
    requires UniqueMemberships(table) && GuardAccepts(table, issues)
    requires row in table && row.issue.Some? && row.issue.value in issues
    ensures rebuilt in Upgraded(Downgraded(table), issues)
    ensures rebuilt.arc == row.arc && rebuilt.issue == row.issue && rebuilt.provenance == row.provenance
    ensures rebuilt.sequenceWasNull == row.sequenceWasNull
    ensures !row.sequenceWasNull ==> rebuilt.sequence == row.sequence
    ensures issues[row.issue.value].Some? && row.numberText.Some? ==> rebuilt.numberText == row.numberText
  {
    var legacy, k := Downgraded(table), Key(row.arc, row.issue.value);
    DowngradedRow(table, row);
    rebuilt := UpgradedRow(legacy, issues, k);
    assert IsRepresentable(row, issues);
  }

  /** A table with a number text that differs from its issue's known text is refused. */
  lemma GuardRefusesOtherText(table: Table, issues: Issues, row: Membership)
    requires row in table && row.issue.Some? && row.issue.value in issues
    requires issues[row.issue.value].Some? && row.numberText.Some? && row.numberText != issues[row.issue.value]
    ensures !GuardAccepts(table, issues)
  {
    assert !IsRepresentable(row, issues);
  }

  /** The guard accepts a table whose row was given a number after the upgrade; the downgrade then
      forgets that number. */
  lemma GuardAcceptsEditedRow(issues: Issues)
    requires issues == map[7 := None]
    ensures var edited := Membership(1, Some(7), 40, 1, true, None, LEGACY_PROVENANCE);
            && UniqueMemberships({edited}) && GuardAccepts({edited}, issues)
            && Upgraded(Downgraded({edited}), issues) != {edited}
  {
    var edited := Membership(1, Some(7), 40, 1, true, None, LEGACY_PROVENANCE);
    assert TableOrder({edited}, 1) == {(40, 7)};
    assert UpTo({(40, 7)}, (40, 7)) == {(40, 7)};
    assert TableNumbers({edited}, 1) == {};
    assert TableUnnumbered({edited}, 1) == {7};
    PositionSorts({7}, 7, 7);
    assert !IsUntouched({edited}, issues, edited);
    UpgradeUndoesDowngrade({edited}, issues);
  }
}
