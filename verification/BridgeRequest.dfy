/** The bridge's request frame on standard input, and its hexadecimal output encoding. Strings are
    byte strings: one character for each byte. */
module BridgeRequest {
  import opened DigitText
  import opened Options

  const MAX_FIELD_BYTES := 16384
  const HEADER := "PULLBOX_MEGA_BRIDGE 1"
  const OPERATION := "DOWNLOAD"

  datatype Request = Request(link: string, session: string, destination: string)

  // ----- Sizes and tokens -----

  /** At most ten digits, no larger than a field may be. */
  function ParseSize(raw: string): Option<nat> {
    if raw == "" || |raw| > 10 || !AllDigits(raw) || Number(raw) > MAX_FIELD_BYTES then None
    else Some(Number(raw))
  }

  predicate IsSpace(c: char) {
    c == ' ' || '\t' <= c <= '\r'
  }

  predicate NoSpace(s: string) {
    forall i | 0 <= i < |s| :: !IsSpace(s[i])
  }

  /** Length of the front that holds no white space. */
  function TokenLength(s: string): (n: nat)
    ensures n <= |s| && (forall i | 0 <= i < n :: !IsSpace(s[i])) && (n < |s| ==> IsSpace(s[n]))
  {
    if s == "" || IsSpace(s[0]) then 0 else 1 + TokenLength(s[1..])
  }

  /** What repeated formatted extraction yields from a line. */
  function Tokens(s: string): seq<string>
    decreases |s|
  {
    if s == "" then []
    else if IsSpace(s[0]) then Tokens(s[1..])
    else [s[..TokenLength(s)]] + Tokens(s[TokenLength(s)..])
  }

  lemma LastToken(word: string)
    requires word != "" && NoSpace(word)
    ensures Tokens(word) == [word]
  {
    assert TokenLength(word) == |word|;
    assert word[..|word|] == word && !IsSpace(word[0]);
  }

  lemma NextToken(word: string, rest: string)
    requires word != "" && NoSpace(word)
    ensures Tokens(word + (" " + rest)) == [word] + Tokens(rest)
  {
    var s := word + (" " + rest);
    assert forall i | 0 <= i < |word| :: s[i] == word[i];
    assert s[|word|] == ' ' && TokenLength(s) == |word|;
    assert s[..|word|] == word && s[|word|..] == " " + rest;
    assert (" " + rest)[1..] == rest;
  }

  /** A size is its number's digits behind zeros, ten characters at most. */
  lemma SizesMean(raw: string, n: nat)
    ensures ParseSize(raw) == Some(n) <==> n <= 16384 && |raw| <= 10 && IsPadded(raw, Digits(n))
  {
    if ParseSize(raw) == Some(n) {
      LeadingZeros(raw);
    }
    if |raw| <= 10 && IsPadded(raw, Digits(n)) {
      NumberLeadingZeros(|raw| - |Digits(n)|, Digits(n));
      NumberOfDigits(n);
    }
  }

  /** Words with blanks before, between and behind them. */
  function Spaced(words: seq<string>, blanks: seq<string>): string
    requires |blanks| == |words| + 1
  {
    if words == [] then blanks[0] else blanks[0] + (words[0] + Spaced(words[1..], blanks[1..]))
  }

  predicate IsBlank(s: string) {
    forall i | 0 <= i < |s| :: s[i] as int == 32 || 9 <= s[i] as int <= 13
  }

  predicate IsSolid(s: string) {
    s != "" && forall i | 0 <= i < |s| :: s[i] as int != 32 && !(9 <= s[i] as int <= 13)
  }

  /** The blanks between words are not empty; those at the ends may be. */
  ghost predicate AreSpaced(words: seq<string>, blanks: seq<string>) {
    && |blanks| == |words| + 1
    && (forall i | 0 <= i < |words| :: IsSolid(words[i]))
    && (forall i | 0 <= i < |blanks| :: IsBlank(blanks[i]))
    && (forall i | 0 < i < |words| :: blanks[i] != "")
  }

  lemma {:induction false} SkipBlanks(blank: string, rest: string)
    requires IsBlank(blank)
    ensures Tokens(blank + rest) == Tokens(rest)
  {
    if blank == "" {
      assert blank + rest == rest;
    } else {
      assert (blank + rest)[1..] == blank[1..] + rest;
      SkipBlanks(blank[1..], rest);
    }
  }

  lemma FirstWord(word: string, rest: string)
    requires IsSolid(word) && (rest == "" || IsSpace(rest[0]))
    ensures Tokens(word + rest) == [word] + Tokens(rest)
  {
    var s := word + rest;
    assert forall i | 0 <= i < |word| :: s[i] == word[i];
    assert rest != "" ==> s[|word|] == rest[0];
    assert TokenLength(s) == |word|;
    assert s[..|word|] == word && s[|word|..] == rest;
  }

  lemma RestStartsBlank(words: seq<string>, blanks: seq<string>)
    requires AreSpaced(words, blanks) && words != []
    ensures AreSpaced(words[1..], blanks[1..])
    ensures var rest := Spaced(words[1..], blanks[1..]); rest == "" || IsSpace(rest[0])
  {
    var rest := Spaced(words[1..], blanks[1..]);
    assert blanks[1..][0] == blanks[1];
    assert |words| > 1 ==> blanks[1] != "";
    assert rest != "" && blanks[1] != "" ==> rest[0] == blanks[1][0];
  }

  lemma {:induction false} TokensOfSpaced(words: seq<string>, blanks: seq<string>)
    requires AreSpaced(words, blanks)
    ensures Tokens(Spaced(words, blanks)) == words
    decreases |words|
  {
    if words == [] {
      SkipBlanks(blanks[0], "");
      assert blanks[0] + "" == blanks[0];
    } else {
      var rest := Spaced(words[1..], blanks[1..]);
      TokensOfSpaced(words[1..], blanks[1..]);
      RestStartsBlank(words, blanks);
      SkipBlanks(blanks[0], words[0] + rest);
      FirstWord(words[0], rest);
      assert words == [words[0]] + words[1..];
    }
  }

  lemma MoreBlank(c: char, words: seq<string>, blanks: seq<string>)
    requires AreSpaced(words, blanks) && IsSpace(c)
    ensures var more := [[c] + blanks[0]] + blanks[1..];
            AreSpaced(words, more) && Spaced(words, more) == [c] + Spaced(words, blanks)
  {
    var more := [[c] + blanks[0]] + blanks[1..];
    assert more[1..] == blanks[1..];
  }

  lemma SpacedWord(word: string, words: seq<string>, blanks: seq<string>)
    requires AreSpaced(words, blanks) && IsSolid(word) && (words != [] ==> blanks[0] != "")
    ensures AreSpaced([word] + words, [""] + blanks)
    ensures Spaced([word] + words, [""] + blanks) == word + Spaced(words, blanks)
  {
    var more := [""] + blanks;
    assert ([word] + words)[1..] == words && more[1..] == blanks;
    assert "" + (word + Spaced(words, blanks)) == word + Spaced(words, blanks);
    assert forall i | 0 < i < |more| :: more[i] == blanks[i - 1];
  }

  lemma SolidFront(words: seq<string>, blanks: seq<string>)
    requires AreSpaced(words, blanks) && words != []
    ensures Spaced(words, blanks) != "" && (blanks[0] == "" ==> !IsSpace(Spaced(words, blanks)[0]))
  {
    var rest := Spaced(words[1..], blanks[1..]);
    assert (words[0] + rest)[0] == words[0][0];
    assert blanks[0] == "" ==> Spaced(words, blanks) == words[0] + rest;
  }

  /** Extraction splits every line into its words: the line is these words and blanks. */
  lemma {:induction false} TokensSplit(s: string) returns (blanks: seq<string>)
    ensures AreSpaced(Tokens(s), blanks) && Spaced(Tokens(s), blanks) == s
    decreases |s|
  {
    if s == "" {
      blanks := [""];
    } else if IsSpace(s[0]) {
      var later := TokensSplit(s[1..]);
      blanks := [[s[0]] + later[0]] + later[1..];
      MoreBlank(s[0], Tokens(s), later);
      assert s == [s[0]] + s[1..];
    } else {
      var word, rest := s[..TokenLength(s)], s[TokenLength(s)..];
      var later := TokensSplit(rest);
      blanks := [""] + later;
      assert Tokens(s) == [word] + Tokens(rest);
      if Tokens(rest) != [] {
        SolidFront(Tokens(rest), later);
      }
      SpacedWord(word, Tokens(rest), later);
      assert s == word + rest;
    }
  }

  // ----- What counts as a frame -----

  predicate NoNul(s: string) {
    forall i | 0 <= i < |s| :: s[i] != '\0'
  }

  datatype Lengths = Lengths(link: nat, session: nat, destination: nat)

  /** The lengths a well-formed lengths line announces. */
  function ParseLengths(line: string): (lengths: Option<Lengths>)
    ensures lengths.Some? ==> lengths.value.link > 0 && lengths.value.destination > 0
  {
    var tokens := Tokens(line);
    if |tokens| != 4 || tokens[0] != OPERATION then None
    else
      match (ParseSize(tokens[1]), ParseSize(tokens[2]), ParseSize(tokens[3]))
      case (Some(link), Some(session), Some(destination)) =>
        if link == 0 || destination == 0 then None else Some(Lengths(link, session, destination))
      case _ => None
  }

  function LengthsOf(request: Request): Lengths {
    Lengths(|request.link|, |request.session|, |request.destination|)
  }

  predicate NulFree(request: Request) {
    NoNul(request.link) && NoNul(request.session) && NoNul(request.destination)
  }

  function Payload(request: Request, tail: string): string {
    request.link + (request.session + (request.destination + tail))
  }

  function Envelope(line: string, body: string): string {
    HEADER + ("\n" + (line + ("\n" + body)))
  }

  /** `stream` is a frame of `request` with this lengths line, followed by `tail`. */
  ghost predicate IsFrame(stream: string, line: string, request: Request, tail: string) {
    && !Contains(line, '\n') && ParseLengths(line) == Some(LengthsOf(request)) && NulFree(request)
    && stream == Envelope(line, Payload(request, tail))
  }

  lemma FirstLine(a: string, x: string, b: string, y: string)
    requires !Contains(a, '\n') && !Contains(b, '\n')
    requires a + ("\n" + x) == b + ("\n" + y)
    ensures a == b && x == y
  {
    var s := a + ("\n" + x);
    assert s[|a|] == '\n' && s[|b|] == '\n';
    assert forall i | 0 <= i < |a| :: s[i] == a[i];
    assert forall i | 0 <= i < |b| :: s[i] == b[i];
    assert s[..|a|] == a && s[..|b|] == b;
    assert s[|a| + 1..] == x && s[|b| + 1..] == y;
  }

  lemma NoLineEnd(a: string, b: string, y: string)
    requires !Contains(a, '\n')
    ensures a != b + ("\n" + y)
  {
    assert (b + ("\n" + y))[|b|] == '\n';
  }

  // ----- The reader -----

  lemma HeaderLine(stream: string, header: string, body: string, ok: bool, ended: bool)
    requires !Contains(header, '\n')
    requires ok && !ended ==> stream == header + ("\n" + body)
    requires ok && ended ==> stream == header
    requires !ok ==> stream == ""
    ensures forall line, after | stream == Envelope(line, after) ::
              ok && !ended && header == HEADER && body == line + ("\n" + after)
  {
    forall line, after | stream == Envelope(line, after)
      ensures ok && !ended && header == HEADER && body == line + ("\n" + after)
    {
      assert !Contains(HEADER, '\n');
      if ok && !ended {
        FirstLine(header, body, HEADER, line + ("\n" + after));
      } else {
        NoLineEnd(header, HEADER, line + ("\n" + after));
      }
    }
  }

  lemma LengthsLine(stream: string, body: string, line: string, rest: string, more: bool, ended: bool)
    requires !Contains(line, '\n')
    requires forall l, after | stream == Envelope(l, after) :: !ended && body == l + ("\n" + after)
    requires more ==> !ended && body == line + ("\n" + rest)
    requires !more ==> ended || body == line || body == ""
    ensures forall l, after | !Contains(l, '\n') && stream == Envelope(l, after) :: more && l == line && after == rest
  {
    forall l, after | !Contains(l, '\n') && stream == Envelope(l, after) ensures more && l == line && after == rest {
      if more {
        FirstLine(line, rest, l, after);
      } else {
        NoLineEnd(line, l, after);
      }
    }
  }

  lemma SamePayload(a: Request, x: string, b: Request, y: string)
    requires LengthsOf(a) == LengthsOf(b) && Payload(a, x) == Payload(b, y)
    ensures a == b && x == y
  {
    var s, i, j, k := Payload(a, x), |a.link|, |a.link| + |a.session|, |a.link| + |a.session| + |a.destination|;
    assert s[..i] == a.link && s[i..j] == a.session && s[j..k] == a.destination && s[k..] == x;
    assert s[..i] == b.link && s[i..j] == b.session && s[j..k] == b.destination && s[k..] == y;
  }

  /** Standard input: the unread bytes, and whether the end has been hit. */
  class Input {
    var rest: string
    var atEnd: bool

    constructor (data: string)
      ensures rest == data && !atEnd
    {
      rest, atEnd := data, false;
    }

    /** A line without its newline; at the end of the data, whatever is left if anything is. */
    method GetLine() returns (ok: bool, line: string)
      modifies this
      ensures !Contains(line, '\n')
      ensures ok && !atEnd ==> old(!atEnd) && old(rest) == line + ("\n" + rest)
      ensures ok && atEnd ==> old(!atEnd) && old(rest) == line && line != "" && rest == ""
      ensures !ok ==> old(atEnd) || old(rest) == ""
    {
      if atEnd {
        return false, "";
      }
      var n := 0;
      while n < |rest| && rest[n] != '\n'
        invariant n <= |rest| && forall i | 0 <= i < n :: rest[i] != '\n'
      {
        n := n + 1;
      }
      line := rest[..n];
      if n < |rest| {
        assert rest == line + ("\n" + rest[n + 1..]);
        rest := rest[n + 1..];
        ok := true;
      } else {
        assert line == rest;
        rest, atEnd, ok := "", true, line != "";
      }
    }

    method ReadExact(length: nat) returns (ok: bool, value: string)
      modifies this
      ensures ok <==> length == 0 || (old(!atEnd) && length <= |old(rest)|)
      ensures ok ==> |value| == length && old(rest) == value + rest && atEnd == old(atEnd)
    {
      if length == 0 {
        return true, "";
      }
      if atEnd || |rest| < length {
        value, rest, atEnd, ok := if atEnd then "" else rest, "", true, false;
        return;
      }
      value, rest, ok := rest[..length], rest[length..], true;
    }

    /** The two header lines. The second line may end with the data; no field can follow it then. */
    method ReadLengths() returns (lengths: Option<Lengths>)
      requires !atEnd
      modifies this
      ensures lengths.Some? ==> lengths.value.link > 0
      ensures lengths.Some? && !atEnd ==> exists line ::
                !Contains(line, '\n') && ParseLengths(line) == lengths && old(rest) == Envelope(line, rest)
      ensures forall line, body | !Contains(line, '\n') && old(rest) == Envelope(line, body) ::
                lengths == ParseLengths(line) && (lengths.Some? ==> !atEnd && rest == body)
    {
      ghost var stream := rest;
      var ok, header := GetLine();
      ghost var body := rest;
      ghost var ended := atEnd;
      HeaderLine(stream, header, body, ok, ended);
      if !ok || header != HEADER {
        return None;
      }
      var line;
      ok, line := GetLine();
      LengthsLine(stream, body, line, rest, ok && !atEnd, ended);
      if !ok {
        return None;
      }
      lengths := ParseLengths(line);
    }

    method ReadFields(lengths: Lengths) returns (request: Option<Request>)
      requires lengths.link > 0
      modifies this
      ensures request.Some? ==>
                && !old(atEnd) && LengthsOf(request.value) == lengths && NulFree(request.value)
                && old(rest) == Payload(request.value, rest)
      ensures forall r, tail |
                !old(atEnd) && LengthsOf(r) == lengths && NulFree(r) && old(rest) == Payload(r, tail) ::
                request == Some(r) && rest == tail
    {
      ghost var start := rest;
      var link, session, destination;
      var ok;
      ok, link := ReadExact(lengths.link);
      if !ok {
        return None;
      }
      ok, session := ReadExact(lengths.session);
      if !ok {
        return None;
      }
      ok, destination := ReadExact(lengths.destination);
      if !ok {
        return None;
      }
      var fields := Request(link, session, destination);
      forall r, tail | LengthsOf(r) == lengths && start == Payload(r, tail) ensures r == fields && tail == rest {
        SamePayload(fields, rest, r, tail);
      }
      request := if NulFree(fields) then Some(fields) else None;
    }

    /** Accepts exactly the frames, returns their three fields and leaves what follows them unread. */
    method ReadBridgeRequest() returns (request: Option<Request>)
      requires !atEnd
      modifies this
      ensures request.Some? ==> exists line :: IsFrame(old(rest), line, request.value, rest)
      ensures forall line, r, tail | IsFrame(old(rest), line, r, tail) :: request == Some(r) && rest == tail
    {
      var lengths := ReadLengths();
      if lengths.None? {
        return None;
      }
      ghost var line: string := "";
      if !atEnd {
        line :| !Contains(line, '\n') && ParseLengths(line) == lengths && old(rest) == Envelope(line, rest);
      }
      request := ReadFields(lengths.value);
      if request.Some? {
        assert IsFrame(old(rest), line, request.value, rest);
      }
    }
  }

  /** A stream starts with one frame at most. */
  lemma FramesAgree(stream: string, line: string, a: Request, x: string, other: string, b: Request, y: string)
    requires IsFrame(stream, line, a, x) && IsFrame(stream, other, b, y)
    ensures line == other && a == b && x == y
  {
    assert !Contains(HEADER, '\n');
    FirstLine(HEADER, line + ("\n" + Payload(a, x)), HEADER, other + ("\n" + Payload(b, y)));
    FirstLine(line, Payload(a, x), other, Payload(b, y));
    SamePayload(a, x, b, y);
  }

  // ----- The writer -----

  function Words(a: string, b: string, c: string, d: string): string {
    a + (" " + (b + (" " + (c + (" " + d)))))
  }

  /** The lengths line the transfer runner writes. */
  function LengthsText(request: Request): string {
    Words(OPERATION, Digits(|request.link|), Digits(|request.session|), Digits(|request.destination|))
  }

  /** The bytes the transfer runner sends. */
  function SentBytes(request: Request): string {
    Envelope(LengthsText(request), Payload(request, ""))
  }

  /** The limits on a request: a link and a destination, all fields bounded and free of NUL. */
  predicate Acceptable(request: Request) {
    && 1 <= |request.link| <= MAX_FIELD_BYTES
    && |request.session| <= MAX_FIELD_BYTES
    && 1 <= |request.destination| <= MAX_FIELD_BYTES
    && NulFree(request)
  }

  lemma SizeReadsBack(n: nat)
    requires n <= MAX_FIELD_BYTES
    ensures ParseSize(Digits(n)) == Some(n)
  {
    NumberOfDigits(n);
    assert PowerOfTen(2) == 100 && PowerOfTen(3) == 1000 && PowerOfTen(5) == 100000;
    DigitsLength(n, 5, 100000);
  }

  predicate IsWord(s: string) {
    s != "" && NoSpace(s)
  }

  lemma FourTokens(a: string, b: string, c: string, d: string)
    requires IsWord(a) && IsWord(b) && IsWord(c) && IsWord(d)
    ensures Tokens(Words(a, b, c, d)) == [a, b, c, d]
  {
    LastToken(d);
    NextToken(c, d);
    NextToken(b, c + (" " + d));
    NextToken(a, b + (" " + (c + (" " + d))));
    assert [a] + ([b] + ([c] + [d])) == [a, b, c, d];
  }

  lemma WordsOnOneLine(a: string, b: string, c: string, d: string)
    requires NoSpace(a) && NoSpace(b) && NoSpace(c) && NoSpace(d)
    ensures !Contains(Words(a, b, c, d), '\n')
  {
  }

  lemma LengthsReadBack(request: Request)
    requires Acceptable(request)
    ensures !Contains(LengthsText(request), '\n')
    ensures ParseLengths(LengthsText(request)) == Some(LengthsOf(request))
  {
    var link, session, destination := Digits(|request.link|), Digits(|request.session|), Digits(|request.destination|);
    FourTokens(OPERATION, link, session, destination);
    WordsOnOneLine(OPERATION, link, session, destination);
    SizeReadsBack(|request.link|);
    SizeReadsBack(|request.session|);
    SizeReadsBack(|request.destination|);
  }

  lemma EnvelopeAppend(line: string, body: string, tail: string)
    ensures Envelope(line, body) + tail == Envelope(line, body + tail)
  {
  }

  /** Round trip: the sent bytes are a frame of the request, whatever follows them, so the reader
      returns the three fields and consumes exactly the sent bytes. */
  lemma SentBytesAreFrame(request: Request, tail: string)
    requires Acceptable(request)
    ensures IsFrame(SentBytes(request) + tail, LengthsText(request), request, tail)
  {
    LengthsReadBack(request);
    EnvelopeAppend(LengthsText(request), Payload(request, ""), tail);
    assert Payload(request, "") + tail == Payload(request, tail);
  }

  /** The reader accepts nothing beyond the limits: every frame it accepts holds a request that the
      runner could have sent. */
  lemma FramesAreAcceptable(stream: string, line: string, request: Request, tail: string)
    requires IsFrame(stream, line, request, tail)
    ensures Acceptable(request)
  {
  }

  /** Sending and reading, end to end. */
  method SendAndRead(request: Request, tail: string) returns (received: Option<Request>, unread: string)
    requires Acceptable(request)
    ensures received == Some(request) && unread == tail
  {
    SentBytesAreFrame(request, tail);
    var input := new Input(SentBytes(request) + tail);
    received := input.ReadBridgeRequest();
    unread := input.rest;
  }

  // ----- Hexadecimal output -----

  predicate IsBytes(s: string) {
    forall i | 0 <= i < |s| :: s[i] as int < 256
  }

  function HexValue(c: char): (d: Option<nat>)
    ensures d.Some? ==> d.value < 16
  {
    if '0' <= c <= '9' then Some(c as int - '0' as int)
    else if 'a' <= c <= 'f' then Some(c as int - 'a' as int + 10)
    else if 'A' <= c <= 'F' then Some(c as int - 'A' as int + 10)
    else None
  }

  function HexDigit(d: nat): (c: char)
    requires d < 16
    ensures HexValue(c) == Some(d)
  {
    if d < 10 then '0' + d as char else 'a' + (d - 10) as char
  }

  function HexByte(c: char): string
    requires c as int < 256
  {
    [HexDigit(c as int / 16), HexDigit(c as int % 16)]
  }

  function Hex(value: string): (hex: string)
    requires IsBytes(value)
    ensures |hex| == 2 * |value|
  {
    if value == "" then "" else Hex(value[..|value| - 1]) + HexByte(value[|value| - 1])
  }

  /** Reads pairs of hexadecimal digits. */
  function HexDecode(s: string): (value: Option<string>)
    ensures value.Some? ==> IsBytes(value.value)
  {
    if s == "" then Some("")
    else if |s| == 1 then None
    else
      match (HexDecode(s[..|s| - 2]), HexValue(s[|s| - 2]), HexValue(s[|s| - 1]))
      case (Some(front), Some(high), Some(low)) => Some(front + [(high * 16 + low) as char])
      case _ => None
  }

  lemma HexAppend(hex: string, c: char)
    requires c as int < 256 && HexDecode(hex).Some?
    ensures HexDecode(hex + HexByte(c)) == Some(HexDecode(hex).value + [c])
  {
    var s, high, low := hex + HexByte(c), c as int / 16, c as int % 16;
    assert |s| == |hex| + 2 && s[..|s| - 2] == hex;
    assert HexValue(s[|s| - 2]) == Some(high) && HexValue(s[|s| - 1]) == Some(low);
    assert (high * 16 + low) as char == c;
  }

  lemma HexReadsNext(front: string, c: char)
    requires IsBytes(front) && c as int < 256 && HexDecode(Hex(front)) == Some(front)
    ensures IsBytes(front + [c]) && HexDecode(Hex(front + [c])) == Some(front + [c])
  {
    var value := front + [c];
    assert value[..|value| - 1] == front && value[|value| - 1] == c;
    assert Hex(value) == Hex(front) + HexByte(c);
    HexAppend(Hex(front), c);
  }

  lemma {:induction false} HexReadsBack(value: string)
    requires IsBytes(value)
    ensures HexDecode(Hex(value)) == Some(value)
  {
    if value == "" {
    } else {
      var front, c := value[..|value| - 1], value[|value| - 1];
      HexReadsBack(front);
      HexReadsNext(front, c);
      assert value == front + [c];
    }
  }

  method HexEncode(value: string) returns (output: string)
    requires IsBytes(value)
    ensures output == Hex(value) && HexDecode(output) == Some(value)
  {
    output := "";
    for i := 0 to |value|
      invariant output == Hex(value[..i])
    {
      assert value[..i + 1][..i] == value[..i];
      output := output + HexByte(value[i]);
    }
    assert value[..|value|] == value;
    HexReadsBack(value);
  }
}
