/** The issues table while exact number text is added, checked and dropped again. */
module IssueBackfill {
  import opened IssueNumbers
  import opened KeysetScan
  import opened Options

  datatype IssueRow = IssueRow(seriesId: int, number: Decimal, text: Option<string>)

  type Rows = map<int, IssueRow>

  function Filled(row: IssueRow): IssueRow {
    match FormatIssueNumber(row.number)
    case Text(text) => row.(text := Some(text))
    case Rejected => row
  }

  /** Rows up to `last` filled; ids start at 1, so the scan never sees other ids. */
  function FilledUpTo(rows: Rows, last: int): Rows {
    map id | id in rows :: if 0 < id <= last then Filled(rows[id]) else rows[id]
  }

  function Backfilled(rows: Rows): Rows {
    map id | id in rows :: if id > 0 then Filled(rows[id]) else rows[id]
  }

  predicate Formattable(rows: Rows, id: int)
    requires id in rows
  {
    FormatIssueNumber(rows[id].number).Text?
  }

  predicate FormattableTo(rows: Rows, last: int) {
    forall id | id in rows && 0 < id <= last :: Formattable(rows, id)
  }

  /** Every number that the scan reaches has a text. */
  ghost predicate AllFormattable(rows: Rows) {
    forall id | id in rows && id > 0 :: Formattable(rows, id)
  }

  /** The duplicate query of the upgrade finds something. */
  predicate HasDuplicateText(rows: Rows) {
    exists i, j :: i in rows && j in rows && i != j && rows[i].seriesId == rows[j].seriesId
                && rows[i].text.Some? && rows[i].text == rows[j].text
  }

  /** The legacy unique constraint: a series holds each numeric value once. */
  ghost predicate NumbersUnique(rows: Rows) {
    forall i, j | i in rows && j in rows && i != j && rows[i].seriesId == rows[j].seriesId
      && rows[i].number.Finite? && rows[j].number.Finite? ::
      Value(rows[i].number) != Value(rows[j].number)
  }

  /** The row has no text, or the text its number formats to. */
  predicate RowMatches(row: IssueRow) {
    row.text.Some? ==> FormatIssueNumber(row.number) == Text(row.text.value)
  }

  /** No row that the scan reaches holds divergent text. */
  ghost predicate TextMatchesNumber(rows: Rows) {
    forall id | id in rows && id > 0 :: RowMatches(rows[id])
  }

  /** One update for each id of the page, holding the formatted number. */
  ghost predicate AreUpdates(updates: map<int, string>, page: seq<int>, rows: Rows) {
    && (forall id :: id in updates <==> id in page)
    && (forall id | id in updates :: id in rows && FormatIssueNumber(rows[id].number) == Text(updates[id]))
  }

  /** UPDATE ... SET issue_number_text, once for each entry. */
  function Updated(rows: Rows, updates: map<int, string>): Rows {
    map id | id in rows :: if id in updates then rows[id].(text := Some(updates[id])) else rows[id]
  }

  /** The page lists exactly the ids after `last` up to `next`. */
  ghost predicate IsPageUpTo(page: seq<int>, ids: set<int>, last: int, next: int) {
    && (forall k | 0 <= k < |page| :: page[k] in ids && last < page[k] <= next)
    && (forall i | i in ids && last < i <= next :: i in page)
  }

  /** One turn of a scan: nothing is left, or the page leads on to its last id. */
  lemma NextPage(ids: set<int>, last: int, size: nat)
    requires size >= 1
    ensures var page := Page(ids, last, size);
            if page == [] then After(ids, last) == {}
            else
              var next := page[|page| - 1];
              next > last && IsPageUpTo(page, ids, last, next) && |After(ids, next)| < |After(ids, last)|
  {
    var page := Page(ids, last, size);
    PageAdvances(ids, last, size);
    if page != [] {
      forall k | 0 <= k < |page| ensures page[k] in ids && last < page[k] <= page[|page| - 1] {
        PageCovers(ids, last, size, page[k]);
      }
      forall i | i in ids && last < i <= page[|page| - 1] ensures i in page {
        PageCovers(ids, last, size, i);
      }
    }
  }

  lemma NothingAfter(rows: Rows, last: int)
    requires After(rows.Keys, last) == {}
    ensures forall id | id in rows :: id <= last
  {
    assert forall id | id in rows && id > last :: id in After(rows.Keys, last);
  }

  /** Every number that the scan reaches has a text of at most 320 characters. */
  ghost predicate AllWritable(rows: Rows) {
    forall id | id in rows && id > 0 :: IsWritable(rows[id].number)
  }

  ghost predicate HoldsShortestTexts(rows: Rows) {
    forall id | id in rows && id > 0 :: rows[id].text.Some? && IsShortestText(rows[id].text.value, rows[id].number)
  }

  lemma RowFormats(rows: Rows, id: int)
    requires id in rows
    ensures Formattable(rows, id) <==> IsWritable(rows[id].number)
  {
    FormatsWhenWritable(rows[id].number);
  }

  lemma WritableRowsFormat(rows: Rows)
    ensures AllWritable(rows) <==> AllFormattable(rows)
  {
    forall id | id in rows ensures Formattable(rows, id) <==> IsWritable(rows[id].number) {
      RowFormats(rows, id);
    }
  }

  lemma RowGetsShortestText(row: IssueRow)
    requires FormatIssueNumber(row.number).Text?
    ensures Filled(row).text.Some? && IsShortestText(Filled(row).text.value, row.number)
  {
    FormatsWhenWritable(row.number);
  }

  lemma BackfilledHoldsShortest(rows: Rows)
    requires AllFormattable(rows)
    ensures HoldsShortestTexts(Backfilled(rows))
  {
    forall id | id in rows && id > 0
      ensures Backfilled(rows)[id].text.Some?
      ensures IsShortestText(Backfilled(rows)[id].text.value, Backfilled(rows)[id].number)
    {
      assert Formattable(rows, id);
      RowGetsShortestText(rows[id]);
    }
  }

  lemma ScanReachedAll(rows: Rows, last: int)
    requires After(rows.Keys, last) == {} && FormattableTo(rows, last)
    ensures AllFormattable(rows) && FilledUpTo(rows, last) == Backfilled(rows)
  {
    NothingAfter(rows, last);
  }

  lemma ScanDone(rows: Rows, last: int)
    requires After(rows.Keys, last) == {} && FormattableTo(rows, last)
    ensures AllWritable(rows) && FilledUpTo(rows, last) == Backfilled(rows)
    ensures HoldsShortestTexts(Backfilled(rows))
  {
    ScanReachedAll(rows, last);
    WritableRowsFormat(rows);
    BackfilledHoldsShortest(rows);
  }

  lemma UnformattableRow(start: Rows, last: int, page: seq<int>)
    requires last >= 0 && forall k | 0 <= k < |page| :: page[k] in start && page[k] > last
    requires exists k :: 0 <= k < |page| && !Formattable(FilledUpTo(start, last), page[k])
    ensures !AllWritable(start)
  {
    WritableRowsFormat(start);
    var k :| 0 <= k < |page| && !Formattable(FilledUpTo(start, last), page[k]);
    assert !Formattable(start, page[k]);
  }

  /** Applying the updates of one page moves the filled part of the table to the page's last id. */
  lemma FillPage(start: Rows, last: int, page: seq<int>, next: int, updates: map<int, string>)
    requires 0 <= last < next
    requires IsPageUpTo(page, start.Keys, last, next)
    requires AreUpdates(updates, page, FilledUpTo(start, last))
    ensures Updated(FilledUpTo(start, last), updates) == FilledUpTo(start, next)
    ensures FormattableTo(start, last) ==> FormattableTo(start, next)
  {
  }

  /** Numbers that are unique by value get texts that are unique as strings. */
  lemma BackfillIsUnique(rows: Rows)
    requires NumbersUnique(rows) && forall id | id in rows :: rows[id].text == None
    ensures !HasDuplicateText(Backfilled(rows))
  {
    var filled := Backfilled(rows);
    forall i, j | i in filled && j in filled && i != j && filled[i].seriesId == filled[j].seriesId
      && filled[i].text.Some? && filled[j].text.Some?
      ensures filled[i].text != filled[j].text
    {
      FormatIsCanonical(rows[i].number, rows[j].number);
    }
  }

  lemma BackfillMatches(rows: Rows)
    requires forall id | id in rows :: rows[id].text == None
    ensures TextMatchesNumber(Backfilled(rows))
  {
  }

  /** The texts are dropped with their column. */
  function Dropped(rows: Rows): Rows {
    map id | id in rows :: rows[id].(text := None)
  }

  /** Dropping the texts and filling them in again restores every text that was there. */
  ghost predicate DroppingIsLossless(rows: Rows) {
    forall id | id in rows && id > 0 && rows[id].text.Some? :: Backfilled(Dropped(rows))[id].text == rows[id].text
  }

  lemma MatchingTextsReturn(rows: Rows)
    ensures TextMatchesNumber(rows) <==> DroppingIsLossless(rows)
  {
    forall id | id in rows && id > 0
      ensures RowMatches(rows[id]) <==> (rows[id].text.Some? ==> Backfilled(Dropped(rows))[id].text == rows[id].text)
    {
    }
  }

  class IssueTable {
    var rows: Rows

    constructor (rows: Rows)
      ensures this.rows == rows
    {
      this.rows := rows;
    }

    /** Formats one page; a single rejected number fails the whole page. */
    method FormatPage(page: seq<int>) returns (ok: bool, updates: map<int, string>)
      requires forall k | 0 <= k < |page| :: page[k] in rows
      ensures ok <==> forall k | 0 <= k < |page| :: Formattable(rows, page[k])
      ensures ok ==> AreUpdates(updates, page, rows)
    {
      updates := map[];
      for k := 0 to |page|
        invariant AreUpdates(updates, page[..k], rows)
        invariant forall j | 0 <= j < k :: Formattable(rows, page[j])
      {
        var formatted := FormatIssueNumber(rows[page[k]].number);
        if formatted.Rejected? {
          assert !Formattable(rows, page[k]);
          return false, updates;
        }
        updates := updates[page[k] := formatted.text];
        assert page[..k + 1] == page[..k] + [page[k]];
      }
      assert page[..|page|] == page;
      ok := true;
    }

    /** Formats and updates one page of the ids after `last`. */
    method BackfillPage(page: seq<int>, last: int, next: int, ghost start: Rows) returns (ok: bool)
      requires 0 <= last < next && IsPageUpTo(page, start.Keys, last, next)
      requires rows == FilledUpTo(start, last) && FormattableTo(start, last)
      modifies this
      ensures ok ==> rows == FilledUpTo(start, next) && FormattableTo(start, next)
      ensures !ok ==> rows == old(rows) && !AllWritable(start)
    {
      var updates;
      ok, updates := FormatPage(page);
      if ok {
        FillPage(start, last, page, next, updates);
        rows := Updated(rows, updates);
      } else {
        UnformattableRow(start, last, page);
      }
    }

    /** The paged backfill is one pass over all rows, whatever the batch size. */
    method Backfill(batchSize: nat) returns (ok: bool)
      requires batchSize >= 1
      modifies this
      ensures ok <==> AllWritable(old(rows))
      ensures ok ==> rows == Backfilled(old(rows)) && HoldsShortestTexts(rows)
      ensures !ok ==> exists last :: rows == FilledUpTo(old(rows), last)
    {
      ghost var start := rows;
      var ids := rows.Keys;
      var lastId := 0;
      while true
        invariant lastId >= 0 && rows == FilledUpTo(start, lastId) && FormattableTo(start, lastId)
        decreases |After(ids, lastId)|
      {
        var page := Page(ids, lastId, batchSize);
        NextPage(ids, lastId, batchSize);
        if page == [] {
          ScanDone(start, lastId);
          return true;
        }
        var next := page[|page| - 1];
        ok := BackfillPage(page, lastId, next, start);
        if !ok {
          return;
        }
        lastId := next;
      }
    }

    method CheckPage(page: seq<int>) returns (ok: bool)
      requires forall k | 0 <= k < |page| :: page[k] in rows
      ensures ok <==> forall k | 0 <= k < |page| :: RowMatches(rows[page[k]])
    {
      for k := 0 to |page|
        invariant forall j | 0 <= j < k :: RowMatches(rows[page[j]])
      {
        if !RowMatches(rows[page[k]]) {
          return false;
        }
      }
      ok := true;
    }

    /** Every text must still be what the number formats to; rows without text are not looked at. */
    method AssertDowngradeIsLossless(batchSize: nat) returns (ok: bool)
      requires batchSize >= 1
      ensures ok <==> TextMatchesNumber(rows)
      ensures ok <==> DroppingIsLossless(rows)
    {
      MatchingTextsReturn(rows);
      var ids := rows.Keys;
      var lastId := 0;
      while true
        invariant lastId >= 0
        invariant forall id | id in rows && 0 < id <= lastId :: RowMatches(rows[id])
        decreases |After(ids, lastId)|
      {
        var page := Page(ids, lastId, batchSize);
        NextPage(ids, lastId, batchSize);
        if page == [] {
          NothingAfter(rows, lastId);
          return true;
        }
        var next := page[|page| - 1];
        ok := CheckPage(page);
        if !ok {
          return;
        }
        lastId := next;
      }
    }

    /** Backfill, then the duplicate check. Under the legacy constraint the check never fires. */
    method Upgrade(batchSize: nat) returns (ok: bool)
      requires batchSize >= 1
      requires forall id | id in rows :: rows[id].text == None
      modifies this
      ensures ok <==> AllWritable(old(rows)) && !HasDuplicateText(Backfilled(old(rows)))
      ensures ok ==> rows == Backfilled(old(rows)) && TextMatchesNumber(rows) && HoldsShortestTexts(rows)
      ensures NumbersUnique(old(rows)) ==> (ok <==> AllWritable(old(rows)))
    {
      ghost var start := rows;
      ok := Backfill(batchSize);
      BackfillMatches(start);
      if NumbersUnique(start) {
        BackfillIsUnique(start);
      }
      ok := ok && !HasDuplicateText(rows);
    }
  }
}
