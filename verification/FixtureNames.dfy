/** Path segments and file names of generated fixtures. */
module FixtureNames {
  import opened DigitText
  import opened Options
  import opened Utf8

  /** XML filtering, normalization, character replacement and reserved-name prefixing. */
  type Cleaner = Option<string> -> string

  const SERIES_BUDGET := 140

  function SafeSegment(clean: Cleaner, value: Option<string>, maxBytes: nat): string {
    Truncated(clean(value), maxBytes)
  }

  function IntText(n: int): string {
    if n < 0 then "-" + Digits(-n) else Digits(n)
  }

  function YearText(year: Option<nat>): string {
    if year.Some? then Digits(year.value) else "Unknown Year"
  }

  function IdentitySuffix(year: Option<nat>, volumeId: int): string {
    " (" + YearText(year) + ") [cv-" + IntText(volumeId) + "]"
  }

  /** The name part, in what the suffix leaves of the budget. */
  function SeriesName(clean: Cleaner, name: string, year: Option<nat>, volumeId: int): string {
    var room := SERIES_BUDGET - |Encode(IdentitySuffix(year, volumeId))|;
    SafeSegment(clean, Some(name), if room >= 1 then room else 1)
  }

  function SeriesSegment(clean: Cleaner, name: string, year: Option<nat>, volumeId: int): string {
    SeriesName(clean, name, year, volumeId) + IdentitySuffix(year, volumeId)
  }

  function IssueHead(clean: Cleaner, number: string, name: Option<string>): string {
    var title := if name.None? || name.value == "" then Some("Untitled") else name;
    "Issue " + SafeSegment(clean, Some(number), 24) + " - " + SafeSegment(clean, title, 72)
  }

  function IssueFilename(clean: Cleaner, number: string, name: Option<string>, issueId: int): string {
    IssueHead(clean, number, name) + " [cv-issue-" + IntText(issueId) + "].cbz"
  }

  // ----- Byte bounds -----

  lemma IntTextIsShort(n: int)
    requires -0x8000_0000_0000_0000 <= n < 0x8000_0000_0000_0000
    ensures |IntText(n)| <= 20 && IsAscii(IntText(n))
  {
    var magnitude := if n < 0 then -n else n;
    assert PowerOfTen(4) == 10000;
    assert PowerOfTen(8) == 10000_0000;
    assert PowerOfTen(12) == 10000_0000_0000;
    assert PowerOfTen(16) == 10000_0000_0000_0000;
    assert PowerOfTen(19) == 1000_0000_0000_0000_0000;
    DigitsLength(magnitude, 19, PowerOfTen(19));
  }

  lemma YearTextIsShort(year: Option<nat>)
    requires year.Some? ==> year.value < 10000
    ensures |YearText(year)| <= 12 && IsAscii(YearText(year))
  {
    if year.Some? {
      assert PowerOfTen(2) == 100 && PowerOfTen(4) == 10000;
      DigitsLength(year.value, 4, 10000);
    }
  }

  lemma SuffixIsShort(year: Option<nat>, volumeId: int)
    requires year.Some? ==> year.value < 10000
    requires -0x8000_0000_0000_0000 <= volumeId < 0x8000_0000_0000_0000
    ensures |Encode(IdentitySuffix(year, volumeId))| <= 41
  {
    IntTextIsShort(volumeId);
    YearTextIsShort(year);
    var suffix := IdentitySuffix(year, volumeId);
    AsciiLength(suffix);
  }

  lemma JoinedLength(a: string, b: string)
    ensures |Encode(a + b)| == |Encode(a)| + |Encode(b)|
  {
    EncodeAppend(a, b);
  }

  lemma BudgetKept(a: string, b: string, budget: int)
    requires |Encode(a)| <= budget - |Encode(b)|
    ensures |Encode(a + b)| <= budget
  {
    JoinedLength(a, b);
  }

  /** Every series segment keeps the byte budget, whatever cleaning makes of the name. */
  lemma SeriesSegmentFits(clean: Cleaner, name: string, year: Option<nat>, volumeId: int)
    requires year.Some? ==> year.value < 10000
    requires -0x8000_0000_0000_0000 <= volumeId < 0x8000_0000_0000_0000
    ensures |Encode(SeriesSegment(clean, name, year, volumeId))| <= SERIES_BUDGET
  {
    var suffix := IdentitySuffix(year, volumeId);
    var room := SERIES_BUDGET - |Encode(suffix)|;
    SuffixIsShort(year, volumeId);
    TruncationKeepsLimit(clean(Some(name)), room);
    BudgetKept(SeriesName(clean, name, year, volumeId), suffix, SERIES_BUDGET);
  }

  lemma ThreePartsLength(a: string, b: string, c: string)
    ensures |Encode(a + b + c)| == |Encode(a)| + |Encode(b)| + |Encode(c)|
  {
    JoinedLength(a + b, c);
    JoinedLength(a, b);
  }

  lemma HeadIsShort(clean: Cleaner, number: string, name: Option<string>)
    ensures |Encode(IssueHead(clean, number, name))| <= 105
  {
    var title := if name.None? || name.value == "" then Some("Untitled") else name;
    var first, second := SafeSegment(clean, Some(number), 24), SafeSegment(clean, title, 72);
    TruncationKeepsLimit(clean(Some(number)), 24);
    TruncationKeepsLimit(clean(title), 72);
    AsciiLength("Issue ");
    AsciiLength(" - ");
    ThreePartsLength("Issue ", first, " - ");
    JoinedLength("Issue " + first + " - ", second);
  }

  lemma MarkerIsShort(issueId: int)
    requires -0x8000_0000_0000_0000 <= issueId < 0x8000_0000_0000_0000
    ensures |Encode(" [cv-issue-")| + |Encode(IntText(issueId))| + |Encode("].cbz")| <= 36
  {
    IntTextIsShort(issueId);
    AsciiLength(" [cv-issue-");
    AsciiLength(IntText(issueId));
    AsciiLength("].cbz");
  }

  /** A file name has at most 141 bytes: the parts that vary are cut. */
  lemma IssueFilenameFits(clean: Cleaner, number: string, name: Option<string>, issueId: int)
    requires -0x8000_0000_0000_0000 <= issueId < 0x8000_0000_0000_0000
    ensures |Encode(IssueFilename(clean, number, name, issueId))| <= 141
  {
    HeadIsShort(clean, number, name);
    MarkerIsShort(issueId);
    ThreePartsLength(IssueHead(clean, number, name), " [cv-issue-", IntText(issueId));
    JoinedLength(IssueHead(clean, number, name) + " [cv-issue-" + IntText(issueId), "].cbz");
  }

  lemma ShortTextIsKept(value: string, maxBytes: nat)
    requires |Encode(value)| <= maxBytes
    ensures Truncated(value, maxBytes) == value
  {
    FitCountIsLongest(value, maxBytes);
  }

  /** Numbers and titles that are short enough appear in the file name as they were cleaned; a missing
      title is "Untitled". */
  lemma ShortTextsAppear(clean: Cleaner, number: string, name: Option<string>, issueId: int)
    requires |Encode(clean(Some(number)))| <= 24
    requires |Encode(clean(Some(if name == None || name == Some("") then "Untitled" else name.value)))| <= 72
    ensures IssueFilename(clean, number, name, issueId)
         == "Issue " + clean(Some(number)) + " - "
            + clean(Some(if name == None || name == Some("") then "Untitled" else name.value))
            + " [cv-issue-" + IntText(issueId) + "].cbz"
  {
    ShortTextIsKept(clean(Some(number)), 24);
    ShortTextIsKept(clean(Some(if name == None || name == Some("") then "Untitled" else name.value)), 72);
  }

  // ----- Identity -----

  lemma IntTextDetermines(a: int, b: int)
    requires IntText(a) == IntText(b)
    ensures a == b
  {
    var x, y := if a < 0 then -a else a, if b < 0 then -b else b;
    NumberOfDigits(x);
    NumberOfDigits(y);
    assert Digits(x)[0] != '-' && Digits(y)[0] != '-';
    assert a < 0 ==> IntText(a)[0] == '-' && IntText(a)[1..] == Digits(x);
    assert b < 0 ==> IntText(b)[0] == '-' && IntText(b)[1..] == Digits(y);
  }

  lemma IntTextShape(n: int)
    ensures IntText(n) != ""
    ensures forall i | 0 < i < |IntText(n)| :: '0' <= IntText(n)[i] <= '9'
    ensures IntText(n)[0] == '-' ==> |IntText(n)| > 1
  {
  }

  lemma ShorterIdClashes(x: string, y: string, marker: string, short: string, long: string)
    requires |marker| >= 2 && marker[|marker| - 1] == '-' && marker[|marker| - 2] != '-'
    requires |short| < |long| && forall i | 0 < i < |long| :: '0' <= long[i] <= '9'
    ensures x + marker + short != y + marker + long
  {
    var s, t := x + marker + short, y + marker + long;
    if |s| == |t| {
      var i := |s| - |short|;
      assert s[i - 1] == '-' && s[i - 2] == marker[|marker| - 2];
      var j := i - 1 - (|t| - |long|);
      assert t[i - 1] == long[j];
      assert j == 0 ==> t[i - 2] == '-';
    }
  }

  /** An id behind a marker that ends in two different characters, the last of them '-', can be read
      off the end of a text, whatever comes before the marker. */
  lemma MarkedIdDetermines(x: string, y: string, marker: string, a: int, b: int, end: string)
    requires |marker| >= 2 && marker[|marker| - 1] == '-' && marker[|marker| - 2] != '-'
    requires x + marker + IntText(a) + end == y + marker + IntText(b) + end
    ensures a == b
  {
    var s, t := x + marker + IntText(a), y + marker + IntText(b);
    assert (s + end)[..|s|] == s && (t + end)[..|t|] == t;
    IntTextShape(a);
    IntTextShape(b);
    if |IntText(a)| == |IntText(b)| {
      assert s[|s| - |IntText(a)|..] == IntText(a) && t[|t| - |IntText(b)|..] == IntText(b);
      IntTextDetermines(a, b);
    } else if |IntText(a)| < |IntText(b)| {
      ShorterIdClashes(x, y, marker, IntText(a), IntText(b));
    } else {
      ShorterIdClashes(y, x, marker, IntText(b), IntText(a));
    }
  }

  /** Different issue ids always give different file names. */
  lemma IssueFilenamesDiffer(
      clean: Cleaner, number: string, name: Option<string>, issueId: int,
      otherNumber: string, otherName: Option<string>, otherId: int)
    requires issueId != otherId
    ensures IssueFilename(clean, number, name, issueId) != IssueFilename(clean, otherNumber, otherName, otherId)
  {
    var marker, end := " [cv-issue-", "].cbz";
    var head := IssueHead(clean, number, name);
    var otherHead := IssueHead(clean, otherNumber, otherName);
    assert IssueFilename(clean, number, name, issueId) == head + marker + IntText(issueId) + end;
    assert IssueFilename(clean, otherNumber, otherName, otherId) == otherHead + marker + IntText(otherId) + end;
    if head + marker + IntText(issueId) + end == otherHead + marker + IntText(otherId) + end {
      MarkedIdDetermines(head, otherHead, marker, issueId, otherId, end);
    }
  }

  function SeriesHead(clean: Cleaner, name: string, year: Option<nat>, volumeId: int): string {
    SeriesName(clean, name, year, volumeId) + (" (" + YearText(year))
  }

  lemma SeriesSegmentSplits(clean: Cleaner, name: string, year: Option<nat>, volumeId: int)
    ensures SeriesSegment(clean, name, year, volumeId)
         == SeriesHead(clean, name, year, volumeId) + ") [cv-" + IntText(volumeId) + "]"
  {
  }

  /** Different volumes always give different series segments. */
  lemma SeriesSegmentsDiffer(
      clean: Cleaner, name: string, year: Option<nat>, volumeId: int,
      otherName: string, otherYear: Option<nat>, otherId: int)
    requires volumeId != otherId
    ensures SeriesSegment(clean, name, year, volumeId) != SeriesSegment(clean, otherName, otherYear, otherId)
  {
    var head := SeriesHead(clean, name, year, volumeId);
    var otherHead := SeriesHead(clean, otherName, otherYear, otherId);
    SeriesSegmentSplits(clean, name, year, volumeId);
    SeriesSegmentSplits(clean, otherName, otherYear, otherId);
    if SeriesSegment(clean, name, year, volumeId) == SeriesSegment(clean, otherName, otherYear, otherId) {
      MarkedIdDetermines(head, otherHead, ") [cv-", volumeId, otherId, "]");
    }
  }
}
