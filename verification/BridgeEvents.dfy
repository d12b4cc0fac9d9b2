/** The runner's side of the bridge: which of the bridge's lines it can read back as events. */
module BridgeEvents {
  import opened BridgeRequest
  import opened BridgeRun
  import opened DigitText
  import opened Options
  import Utf8

  const MAX_INTEGER := 10 * 1024 * 1024 * 1024 * 1024
  const MAX_NAME_DIGITS := 510

  /** Names are decoded text here; file-name cleaning happens after parsing. */
  datatype Event =
    | MetaEvent(size: nat, name: string)
    | ProgressEvent(transferred: nat, total: nat)
    | CompleteEvent(bytes: nat, name: string)
    | ErrorEvent(code: string, retryable: bool, intervention: bool)

  // ----- Lines as text -----

  function FlagText(flag: bool): string {
    if flag then "1" else "0"
  }

  predicate HasByteName(line: Line) {
    (line.Meta? || line.Complete?) ==> IsBytes(line.name)
  }

  function RenderLine(line: Line): string
    requires HasByteName(line)
  {
    match line
    case Error(code, retryable, intervention) => Words("ERROR", code, FlagText(retryable), FlagText(intervention))
    case Meta(size, name) => "META" + (" " + (Digits(size) + (" " + Hex(name))))
    case Progress(transferred, total) => "PROGRESS" + (" " + (Digits(transferred) + (" " + Digits(total))))
    case Complete(bytes, name) => "COMPLETE" + (" " + (Digits(bytes) + (" " + Hex(name))))
  }

  // ----- Parsing -----

  function PositiveInteger(raw: string): Option<nat> {
    if raw == "" || !AllDigits(raw) || Number(raw) > MAX_INTEGER then None else Some(Number(raw))
  }

  function BytesOf(s: string): (bytes: seq<Utf8.Byte>)
    requires IsBytes(s)
    ensures |bytes| == |s|
  {
    seq(|s|, i requires 0 <= i < |s| => s[i] as int)
  }

  function DecodeFilename(raw: string): Option<string> {
    if |raw| > MAX_NAME_DIGITS || |raw| % 2 != 0 || HexDecode(raw).None? then None
    else Utf8.Decode(BytesOf(HexDecode(raw).value))
  }

  /** [a-z][a-z0-9_]{0,99} */
  predicate IsCode(s: string) {
    && 1 <= |s| <= 100 && 'a' <= s[0] <= 'z'
    && forall i | 0 < i < |s| :: 'a' <= s[i] <= 'z' || '0' <= s[i] <= '9' || s[i] == '_'
  }

  function Flag(raw: string): Option<bool> {
    if raw == "1" then Some(true) else if raw == "0" then Some(false) else None
  }

  function ParseEvent(raw: string): Option<Event> {
    var parts := Tokens(raw);
    if |parts| == 3 && parts[0] == "META" then
      match (PositiveInteger(parts[1]), DecodeFilename(parts[2]))
      case (Some(size), Some(name)) => Some(MetaEvent(size, name))
      case _ => None
    else if |parts| == 3 && parts[0] == "PROGRESS" then
      match (PositiveInteger(parts[1]), PositiveInteger(parts[2]))
      case (Some(transferred), Some(total)) => if transferred > total then None else Some(ProgressEvent(transferred, total))
      case _ => None
    else if |parts| == 3 && parts[0] == "COMPLETE" then
      match (PositiveInteger(parts[1]), DecodeFilename(parts[2]))
      case (Some(bytes), Some(name)) => Some(CompleteEvent(bytes, name))
      case _ => None
    else if |parts| == 4 && parts[0] == "ERROR" && IsCode(parts[1]) then
      match (Flag(parts[2]), Flag(parts[3]))
      case (Some(retryable), Some(intervention)) => Some(ErrorEvent(parts[1], retryable, intervention))
      case _ => None
    else None
  }

  // ----- Which lines read back -----

  /** The text of a name the runner accepts: 1 to 255 bytes of UTF-8. */
  ghost predicate IsReadableName(name: string, text: string) {
    IsBytes(name) && 1 <= |name| <= 255 && BytesOf(name) == Utf8.Encode(text)
  }

  /** The event a line stands for, when the runner accepts it. */
  ghost predicate ReadsAs(line: Line, event: Event) {
    match line
    case Error(code, retryable, intervention) => IsCode(code) && event == ErrorEvent(code, retryable, intervention)
    case Meta(size, name) => event.MetaEvent? && event.size == size <= MAX_INTEGER && IsReadableName(name, event.name)
    case Progress(transferred, total) =>
      transferred <= total <= MAX_INTEGER && event == ProgressEvent(transferred, total)
    case Complete(bytes, name) =>
      event.CompleteEvent? && event.bytes == bytes <= MAX_INTEGER && IsReadableName(name, event.name)
  }

  lemma IntegerReadsBack(n: nat)
    ensures IsWord(Digits(n))
    ensures PositiveInteger(Digits(n)) == if n <= MAX_INTEGER then Some(n) else None
  {
    NumberOfDigits(n);
  }

  lemma {:induction false} HexIsWord(value: string)
    requires IsBytes(value)
    ensures NoSpace(Hex(value))
  {
    if value == "" {
    } else {
      HexIsWord(value[..|value| - 1]);
    }
  }

  lemma HexDecodesAs(hex: string, name: string)
    requires IsBytes(name) && |hex| == 2 * |name| && HexDecode(hex) == Some(name)
    ensures DecodeFilename(hex) == if |name| > 255 then None else Utf8.Decode(BytesOf(name))
  {
  }

  lemma HexNameDecodes(name: string)
    requires IsBytes(name)
    ensures DecodeFilename(Hex(name)) == if |name| > 255 then None else Utf8.Decode(BytesOf(name))
  {
    HexReadsBack(name);
    HexDecodesAs(Hex(name), name);
  }

  lemma NameReadsBack(name: string, text: string)
    requires IsBytes(name) && |name| > 0
    ensures DecodeFilename(Hex(name)) == Some(text) <==> IsReadableName(name, text)
  {
    HexNameDecodes(name);
    Utf8.DecodesTo(BytesOf(name), text);
  }

  lemma ThreeTokens(a: string, b: string, c: string)
    requires IsWord(a) && IsWord(b) && NoSpace(c)
    ensures Tokens(a + (" " + (b + (" " + c)))) == if c == "" then [a, b] else [a, b, c]
  {
    NextToken(b, c);
    NextToken(a, b + (" " + c));
    if c != "" {
      LastToken(c);
    }
  }

  lemma ErrorReadsBack(line: Line, event: Event)
    requires line.Error? && IsWord(line.code)
    ensures ParseEvent(RenderLine(line)) == Some(event) <==> ReadsAs(line, event)
  {
    FourTokens("ERROR", line.code, FlagText(line.retryable), FlagText(line.intervention));
    assert Flag(FlagText(line.retryable)) == Some(line.retryable);
    assert Flag(FlagText(line.intervention)) == Some(line.intervention);
  }

  lemma ProgressReadsBack(line: Line, event: Event)
    requires line.Progress?
    ensures ParseEvent(RenderLine(line)) == Some(event) <==> ReadsAs(line, event)
  {
    IntegerReadsBack(line.transferred);
    IntegerReadsBack(line.total);
    ThreeTokens("PROGRESS", Digits(line.transferred), Digits(line.total));
  }

  /** A line of a word and a number alone is no event. */
  lemma NamelessIsNoEvent(raw: string, word: string, number: string)
    requires Tokens(raw) == [word, number]
    ensures ParseEvent(raw) == None
  {
  }

  lemma ParseMeta(raw: string, number: string, name: string)
    requires Tokens(raw) == ["META", number, name]
    ensures ParseEvent(raw) ==
            match (PositiveInteger(number), DecodeFilename(name))
            case (Some(size), Some(text)) => Some(MetaEvent(size, text))
            case _ => None
  {
  }

  lemma ParseComplete(raw: string, number: string, name: string)
    requires Tokens(raw) == ["COMPLETE", number, name]
    ensures ParseEvent(raw) ==
            match (PositiveInteger(number), DecodeFilename(name))
            case (Some(bytes), Some(text)) => Some(CompleteEvent(bytes, text))
            case _ => None
  {
  }

  lemma NamedLineTokens(word: string, size: nat, name: string)
    requires IsWord(word) && IsBytes(name)
    ensures Tokens(word + (" " + (Digits(size) + (" " + Hex(name)))))
         == if name == "" then [word, Digits(size)] else [word, Digits(size), Hex(name)]
  {
    IntegerReadsBack(size);
    HexIsWord(name);
    ThreeTokens(word, Digits(size), Hex(name));
  }

  lemma MetaReadsBack(line: Line, event: Event)
    requires line.Meta? && IsBytes(line.name)
    ensures ParseEvent(RenderLine(line)) == Some(event) <==> ReadsAs(line, event)
  {
    NamedLineTokens("META", line.size, line.name);
    IntegerReadsBack(line.size);
    if line.name == "" {
      NamelessIsNoEvent(RenderLine(line), "META", Digits(line.size));
    } else {
      ParseMeta(RenderLine(line), Digits(line.size), Hex(line.name));
      if event.MetaEvent? {
        NameReadsBack(line.name, event.name);
      }
    }
  }

  lemma CompleteReadsBack(line: Line, event: Event)
    requires line.Complete? && IsBytes(line.name)
    ensures ParseEvent(RenderLine(line)) == Some(event) <==> ReadsAs(line, event)
  {
    NamedLineTokens("COMPLETE", line.bytes, line.name);
    IntegerReadsBack(line.bytes);
    if line.name == "" {
      NamelessIsNoEvent(RenderLine(line), "COMPLETE", Digits(line.bytes));
    } else {
      ParseComplete(RenderLine(line), Digits(line.bytes), Hex(line.name));
      if event.CompleteEvent? {
        NameReadsBack(line.name, event.name);
      }
    }
  }

  /** The runner reads a line of the bridge as an event exactly in these cases; any other line is a
      protocol error to it, an empty or overlong name among them. */
  lemma LineReadsBack(line: Line, event: Event)
    requires HasByteName(line)
    requires line.Error? ==> IsWord(line.code)
    ensures ParseEvent(RenderLine(line)) == Some(event) <==> ReadsAs(line, event)
  {
    match line
    case Error(_, _, _) => ErrorReadsBack(line, event);
    case Meta(_, _) => MetaReadsBack(line, event);
    case Progress(_, _) => ProgressReadsBack(line, event);
    case Complete(_, _) => CompleteReadsBack(line, event);
  }

  // ----- Every error line of every run is readable -----

  lemma CodeIsWord(s: string)
    requires IsCode(s)
    ensures IsWord(s)
  {
  }

  lemma SdkCodesAreCodes(error: SdkError, accountSession: bool)
    ensures IsCode(ErrorCodeFor(error, accountSession))
  {
  }

  lemma RequestCodesAreCodes()
    ensures IsCode("mega_request_timeout") && IsCode("mega_link_invalid") && IsCode("mega_link_unavailable")
    ensures IsCode("mega_folder_ambiguous") && IsCode("mega_bridge_protocol_error")
  {
  }

  lemma TransferCodesAreCodes()
    ensures IsCode("mega_bridge_internal") && IsCode("mega_transfer_cancelled")
    ensures IsCode("mega_bridge_output_missing")
  {
  }

  lemma PathCodesAreCodes()
    ensures IsCode("mega_bridge_destination_invalid") && IsCode("mega_bridge_cache_unavailable")
  {
  }

  predicate IsCoded(line: Line) {
    line.Error? ==> IsCode(line.code)
  }

  lemma ReplyIsCoded(reply: Reply, accountSession: bool)
    ensures IsCoded(ReplyLine(reply, accountSession))
  {
    RequestCodesAreCodes();
    SdkCodesAreCodes(if reply.Answered? then reply.error else EInternal, accountSession);
  }

  lemma FolderFailureIsCoded(environment: Environment, link: string)
    requires FolderFailure(environment, link).Some?
    ensures IsCoded(FolderFailure(environment, link).value)
  {
    RequestCodesAreCodes();
    ReplyIsCoded(environment.folderLogin, false);
    ReplyIsCoded(environment.folderFetch, false);
  }

  lemma FileFailureIsCoded(environment: Environment)
    requires FileFailure(environment).Some?
    ensures IsCoded(FileFailure(environment).value)
  {
    RequestCodesAreCodes();
    ReplyIsCoded(environment.publicNode, false);
  }

  lemma AccountFailureIsCoded(environment: Environment, session: string)
    requires AccountFailure(environment, session).Some?
    ensures IsCoded(AccountFailure(environment, session).value)
  {
    ReplyIsCoded(environment.accountLogin, true);
    ReplyIsCoded(environment.accountFetch, true);
  }

  lemma EarlyFailureIsCoded(environment: Environment)
    requires EarlyFailure(environment).Some?
    ensures IsCoded(EarlyFailure(environment).value)
  {
    var received := RequestOf(environment.stdin);
    if received.None? {
      RequestCodesAreCodes();
    } else if !environment.destinationUsable || !environment.cacheCreated || !environment.cacheDirectoriesCreated {
      PathCodesAreCodes();
    } else if IsFolderLink(received.value.link) {
      FolderFailureIsCoded(environment, received.value.link);
    } else if AccountFailure(environment, received.value.session).Some? {
      AccountFailureIsCoded(environment, received.value.session);
    } else {
      FileFailureIsCoded(environment);
    }
  }

  lemma TransferIsCoded(environment: Environment, cancelled: bool, i: nat)
    requires i < |TransferLines(environment, cancelled)|
    ensures IsCoded(TransferLines(environment, cancelled)[i])
  {
    var progress := WaitLines(environment.unfinishedWaits) + ProgressLines(environment.lastWait.updates);
    assert forall k | 0 <= k < |progress| :: progress[k].Progress?;
    TransferCodesAreCodes();
    SdkCodesAreCodes(TransferCode(environment), false);
  }

  /** Every error line of every run reads back as itself. */
  lemma RunErrorsReadBack(environment: Environment, i: nat)
    requires i < |RunLines(environment)| && RunLines(environment)[i].Error?
    ensures var line := RunLines(environment)[i];
            ParseEvent(RenderLine(line)) == Some(ErrorEvent(line.code, line.retryable, line.intervention))
  {
    var line := RunLines(environment)[i];
    if EarlyFailure(environment).Some? {
      EarlyFailureIsCoded(environment);
    } else {
      TransferIsCoded(environment, CancellationSeen(environment), i);
    }
    CodeIsWord(line.code);
    LineReadsBack(line, ErrorEvent(line.code, line.retryable, line.intervention));
  }

  // ----- When a whole run is readable -----

  /** The runner reads the line as some event. */
  predicate Reads(line: Line) {
    HasByteName(line) && ParseEvent(RenderLine(line)).Some?
  }

  ghost predicate AllRead(lines: seq<Line>) {
    forall i | 0 <= i < |lines| :: Reads(lines[i])
  }

  /** A name of 1 to 255 bytes that is UTF-8. */
  predicate IsFileName(name: string) {
    IsBytes(name) && 1 <= |name| <= 255 && Utf8.Decode(BytesOf(name)).Some?
  }

  predicate WithinLimits(line: Line) {
    match line
    case Error(code, _, _) => IsCode(code)
    case Meta(size, name) => size <= MAX_INTEGER && IsFileName(name)
    case Progress(transferred, total) => transferred <= total <= MAX_INTEGER
    case Complete(bytes, name) => bytes <= MAX_INTEGER && IsFileName(name)
  }

  lemma FileNameText(name: string)
    requires IsBytes(name)
    ensures IsFileName(name) <==> exists text :: IsReadableName(name, text)
  {
    if IsFileName(name) {
      Utf8.DecodesTo(BytesOf(name), Utf8.Decode(BytesOf(name)).value);
      assert IsReadableName(name, Utf8.Decode(BytesOf(name)).value);
    }
    if text :| IsReadableName(name, text) {
      Utf8.DecodesTo(BytesOf(name), text);
    }
  }

  lemma LimitsMeanEvent(line: Line)
    requires HasByteName(line)
    ensures WithinLimits(line) <==> exists event :: ReadsAs(line, event)
  {
    match line
    case Error(code, retryable, intervention) =>
      assert IsCode(code) ==> ReadsAs(line, ErrorEvent(code, retryable, intervention));
    case Meta(size, name) =>
      FileNameText(name);
      if WithinLimits(line) {
        var text :| IsReadableName(name, text);
        assert ReadsAs(line, MetaEvent(size, text));
      }
    case Progress(transferred, total) =>
      assert WithinLimits(line) ==> ReadsAs(line, ProgressEvent(transferred, total));
    case Complete(bytes, name) =>
      FileNameText(name);
      if WithinLimits(line) {
        var text :| IsReadableName(name, text);
        assert ReadsAs(line, CompleteEvent(bytes, text));
      }
  }

  lemma ReadsWithinLimits(line: Line)
    requires HasByteName(line)
    requires line.Error? ==> IsWord(line.code)
    ensures Reads(line) <==> WithinLimits(line)
  {
    LimitsMeanEvent(line);
    if Reads(line) {
      LineReadsBack(line, ParseEvent(RenderLine(line)).value);
    }
    if event :| ReadsAs(line, event) {
      LineReadsBack(line, event);
    }
  }

  lemma AllReadParts(a: seq<Line>, b: seq<Line>)
    ensures AllRead(a + b) <==> AllRead(a) && AllRead(b)
  {
    var both := a + b;
    assert forall i | 0 <= i < |a| :: both[i] == a[i];
    assert forall i | 0 <= i < |b| :: both[|a| + i] == b[i];
  }

  lemma OneRead(line: Line)
    ensures AllRead([line]) <==> Reads(line)
  {
    assert [line][0] == line;
  }

  /** An update does not report more than its total, nor a total beyond the limit. */
  predicate UpdateWithinLimits(update: Option<(int, int)>) {
    update.Some? ==> AtLeastZero(update.value.0) <= AtLeastZero(update.value.1) <= MAX_INTEGER
  }

  predicate UpdatesWithinLimits(updates: seq<Option<(int, int)>>) {
    forall i | 0 <= i < |updates| :: UpdateWithinLimits(updates[i])
  }

  lemma UpdatesNext(front: seq<Option<(int, int)>>, last: Option<(int, int)>)
    ensures UpdatesWithinLimits(front + [last]) <==> UpdatesWithinLimits(front) && UpdateWithinLimits(last)
  {
    var updates := front + [last];
    assert updates[|front|] == last;
    assert forall i | 0 <= i < |front| :: updates[i] == front[i];
  }

  lemma UpdateReads(update: Option<(int, int)>)
    ensures AllRead(UpdateLines(update)) <==> UpdateWithinLimits(update)
  {
    if update.Some? {
      var line := Progress(AtLeastZero(update.value.0), AtLeastZero(update.value.1));
      OneRead(line);
      ReadsWithinLimits(line);
    }
  }

  lemma {:induction false} ProgressReads(updates: seq<Option<(int, int)>>)
    ensures AllRead(ProgressLines(updates)) <==> UpdatesWithinLimits(updates)
  {
    if updates == [] {
    } else {
      var front, last := updates[..|updates| - 1], updates[|updates| - 1];
      assert updates == front + [last];
      ProgressReads(front);
      UpdatesNext(front, last);
      UpdateReads(last);
      AllReadParts(ProgressLines(front), UpdateLines(last));
    }
  }

  predicate WaitsWithinLimits(waits: seq<Wait>) {
    forall i | 0 <= i < |waits| :: UpdatesWithinLimits(waits[i].updates)
  }

  lemma WaitsNext(front: seq<Wait>, last: Wait)
    ensures WaitsWithinLimits(front + [last]) <==> WaitsWithinLimits(front) && UpdatesWithinLimits(last.updates)
  {
    var waits := front + [last];
    assert waits[|front|] == last;
    assert forall i | 0 <= i < |front| :: waits[i] == front[i];
  }

  lemma {:induction false} WaitsRead(waits: seq<Wait>)
    ensures AllRead(WaitLines(waits)) <==> WaitsWithinLimits(waits)
  {
    if waits == [] {
    } else {
      var front, last := waits[..|waits| - 1], waits[|waits| - 1];
      assert waits == front + [last];
      WaitsRead(front);
      WaitsNext(front, last);
      ProgressReads(last.updates);
      AllReadParts(WaitLines(front), ProgressLines(last.updates));
    }
  }

  /** Everything a transfer announces stays within the runner's limits. */
  ghost predicate TransferWithinLimits(environment: Environment) {
    && AtLeastZero(environment.nodeSize) <= MAX_INTEGER && IsFileName(NameOf(environment))
    && (environment.tokenCreated ==>
          && WaitsWithinLimits(environment.unfinishedWaits) && UpdatesWithinLimits(environment.lastWait.updates)
          && (Verdict(environment, CancellationSeen(environment)).Complete? ==>
                environment.fileSize.value <= MAX_INTEGER))
  }

  lemma VerdictReads(environment: Environment, cancelled: bool)
    requires IsBytes(NameOf(environment))
    ensures var verdict := Verdict(environment, cancelled);
            Reads(verdict) <==>
            (verdict.Complete? ==> environment.fileSize.value <= MAX_INTEGER && IsFileName(NameOf(environment)))
  {
    var verdict := Verdict(environment, cancelled);
    TransferCodesAreCodes();
    SdkCodesAreCodes(TransferCode(environment), false);
    if verdict.Error? {
      CodeIsWord(verdict.code);
    }
    ReadsWithinLimits(verdict);
  }

  lemma TransferReads(environment: Environment)
    requires IsBytes(NameOf(environment))
    ensures AllRead(TransferLines(environment, CancellationSeen(environment))) <==> TransferWithinLimits(environment)
  {
    var name, cancelled := NameOf(environment), CancellationSeen(environment);
    var meta := Meta(AtLeastZero(environment.nodeSize), name);
    OneRead(meta);
    ReadsWithinLimits(meta);
    if environment.tokenCreated {
      var waits, last := WaitLines(environment.unfinishedWaits), ProgressLines(environment.lastWait.updates);
      var verdict := Verdict(environment, cancelled);
      WaitsRead(environment.unfinishedWaits);
      ProgressReads(environment.lastWait.updates);
      VerdictReads(environment, cancelled);
      OneRead(verdict);
      AllReadParts(waits, last);
      AllReadParts(waits + last, [verdict]);
      AllReadParts([meta], waits + last + [verdict]);
    } else {
      var failure := Error("mega_bridge_internal", true, false);
      TransferCodesAreCodes();
      CodeIsWord(failure.code);
      OneRead(failure);
      ReadsWithinLimits(failure);
      AllReadParts([meta], [failure]);
    }
  }

  /** The runner reads every line of a run exactly when the run fails early or everything its transfer
      announces stays within the limits. */
  lemma RunReadsBack(environment: Environment)
    requires IsBytes(NameOf(environment))
    ensures AllRead(RunLines(environment)) <==>
            EarlyFailure(environment).Some? || TransferWithinLimits(environment)
  {
    if EarlyFailure(environment).Some? {
      var line := EarlyFailure(environment).value;
      EarlyFailureIsError(environment);
      EarlyFailureIsCoded(environment);
      CodeIsWord(line.code);
      OneRead(line);
      ReadsWithinLimits(line);
    } else {
      TransferReads(environment);
    }
  }

  /** A run can complete although the runner cannot read it: a file whose name is empty. */
  lemma CompletedRunCanBeUnreadable() returns (environment: Environment)
    ensures Completed(RunLines(environment)) && environment.nodeName == Some("")
    ensures !Reads(RunLines(environment)[0])
  {
    var request := Request("x", "", "d");
    var reply, wait := Answered(ApiOk), Wait([], false);
    environment := Environment(
      SentBytes(request), true, true, true, reply, reply, reply, reply, false, None, map[], reply, true, 1, Some(""),
      false, true, [], wait, Some(ApiOk), Some(1));
    SentBytesAreFrame(request, "");
    assert SentBytes(request) + "" == SentBytes(request);
    RequestOfFrame(environment.stdin, LengthsText(request), request, "");
    RunCompletesWhen(environment);
    ReadsWithinLimits(Meta(1, ""));
  }
}
