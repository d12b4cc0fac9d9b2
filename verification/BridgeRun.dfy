/** One run of the bridge: the lines it writes and the code it exits with. Everything the SDK, the
    file system and the signals answer is a field of the run's environment. */
module BridgeRun {
  import opened Options
  import opened BridgeRequest
  import opened FolderWalk

  // ----- Answers of the outside world -----

  datatype SdkError =
    | ApiOk | EOverQuota | ESid | EAccess | ENoEnt | EKey | EArgs
    | ETooMany | ETooManyConnections | EInternal | EAgain | EOther(code: int)

  /** What a bounded wait for a request ends with. */
  datatype Reply = TimedOut | NoErrorObject | Answered(error: SdkError)

  /** The update callbacks that arrive during one wait, and whether a signal has arrived by its end. */
  datatype Wait = Wait(updates: seq<Option<(int, int)>>, signalled: bool)

  datatype Environment = Environment(
    stdin: string,
    destinationUsable: bool,
    cacheCreated: bool,
    cacheDirectoriesCreated: bool,
    accountLogin: Reply,
    accountFetch: Reply,
    folderLogin: Reply,
    folderFetch: Reply,
    handleIsFile: bool,
    root: Option<int>,
    graph: Graph,
    publicNode: Reply,
    publicNodeIsFile: bool,
    nodeSize: int,
    nodeName: Option<string>,
    signalledBefore: bool,
    tokenCreated: bool,
    unfinishedWaits: seq<Wait>,
    lastWait: Wait,
    transferError: Option<SdkError>,
    fileSize: Option<nat>)

  // ----- Lines -----

  datatype Line =
    | Error(code: string, retryable: bool, intervention: bool)
    | Meta(size: nat, name: string)
    | Progress(transferred: nat, total: nat)
    | Complete(bytes: nat, name: string)

  function ErrorCodeFor(error: SdkError, accountSession: bool): string {
    match error
    case EOverQuota => "mega_quota_exceeded"
    case ESid => "mega_session_expired"
    case EAccess => if accountSession then "mega_auth_required" else "mega_link_unavailable"
    case ENoEnt => "mega_link_unavailable"
    case EKey => "mega_link_invalid"
    case EArgs => "mega_link_invalid"
    case ETooMany => "mega_rate_limited"
    case ETooManyConnections => "mega_rate_limited"
    case _ => "mega_host_unavailable"
  }

  predicate IsRetryable(error: SdkError) {
    error.EOverQuota? || error.ETooMany? || error.ETooManyConnections? || error.EInternal? || error.EAgain?
  }

  predicate IsIntervention(error: SdkError) {
    error.ESid? || error.EAccess? || error.ENoEnt? || error.EKey? || error.EArgs?
  }

  function SdkErrorLine(error: SdkError, accountSession: bool): Line {
    Error(ErrorCodeFor(error, accountSession), IsRetryable(error), IsIntervention(error))
  }

  function AtLeastZero(x: int): nat {
    if x >= 0 then x else 0
  }

  /** The line of one update; a callback without a transfer writes nothing. */
  function UpdateLines(update: Option<(int, int)>): (lines: seq<Line>)
    ensures forall i | 0 <= i < |lines| :: lines[i].Progress?
  {
    match update
    case None => []
    case Some((transferred, total)) => [Progress(AtLeastZero(transferred), AtLeastZero(total))]
  }

  /** The progress lines of one wait. */
  function ProgressLines(updates: seq<Option<(int, int)>>): (lines: seq<Line>)
    ensures forall i | 0 <= i < |lines| :: lines[i].Progress?
  {
    if updates == [] then [] else ProgressLines(updates[..|updates| - 1]) + UpdateLines(updates[|updates| - 1])
  }

  // ----- Links -----

  predicate OccursAt(s: string, pattern: string, i: nat) {
    i + |pattern| <= |s| && s[i..i + |pattern|] == pattern
  }

  /** First occurrence of a pattern. */
  function Find(s: string, pattern: string, from: nat := 0): (at: Option<nat>)
    requires from <= |s|
    ensures at.Some? ==> OccursAt(s, pattern, at.value)
    ensures forall i: nat | from <= i && OccursAt(s, pattern, i) :: at.Some? && at.value <= i
    decreases |s| - from
  {
    if OccursAt(s, pattern, from) then Some(from)
    else if from == |s| then None
    else Find(s, pattern, from + 1)
  }

  predicate IsFolderLink(link: string) {
    Find(link, "/folder/").Some? || Find(link, "#F!").Some?
  }

  function UntilDelimiter(s: string): (n: nat)
    ensures n <= |s|
  {
    if s == "" || s[0] in "/?#" then 0 else 1 + UntilDelimiter(s[1..])
  }

  /** The file a folder link points into, empty when it names the folder only. */
  function SelectedFolderFileHandle(link: string): string {
    match Find(link, "/file/")
    case None => ""
    case Some(at) =>
      var start := at + |"/file/"|;
      link[start..][..UntilDelimiter(link[start..])]
  }

  // ----- The lines of a run -----

  predicate Answers(reply: Reply) {
    reply == Answered(ApiOk)
  }

  /** The error line of a reply that is not a success. */
  function ReplyLine(reply: Reply, accountSession: bool): Line {
    match reply
    case TimedOut => Error("mega_request_timeout", true, false)
    case NoErrorObject => SdkErrorLine(EInternal, accountSession)
    case Answered(error) => SdkErrorLine(error, accountSession)
  }

  /** The first reply that is not a success, as its error line. */
  function FirstBadReply(first: Reply, second: Reply, accountSession: bool): Option<Line> {
    if !Answers(first) then Some(ReplyLine(first, accountSession))
    else if !Answers(second) then Some(ReplyLine(second, accountSession))
    else None
  }

  /** The whole folder unfolds within the limit and holds one file. */
  ghost predicate HoldsOneFile(graph: Graph, root: int) {
    exists entries :: UnfoldsTo(graph, root, entries) && |entries| <= MAX_FOLDER_NODES && |FilesOf(entries)| == 1
  }

  ghost function FolderFailure(environment: Environment, link: string): Option<Line> {
    var bad := FirstBadReply(environment.folderLogin, environment.folderFetch, false);
    if bad.Some? then bad
    else if SelectedFolderFileHandle(link) != "" then
      if environment.handleIsFile then None else Some(Error("mega_link_invalid", false, true))
    else if environment.root.None? then Some(Error("mega_link_unavailable", false, true))
    else if HoldsOneFile(environment.graph, environment.root.value) then None
    else Some(Error("mega_folder_ambiguous", false, true))
  }

  function FileFailure(environment: Environment): Option<Line> {
    if !Answers(environment.publicNode) then Some(ReplyLine(environment.publicNode, false))
    else if environment.publicNodeIsFile then None
    else Some(Error("mega_link_invalid", false, true))
  }

  function AccountFailure(environment: Environment, session: string): Option<Line> {
    if session == "" then None else FirstBadReply(environment.accountLogin, environment.accountFetch, true)
  }

  /** The bytes on standard input start with a frame. */
  ghost predicate HoldsFrame(stdin: string) {
    exists line, request, tail :: IsFrame(stdin, line, request, tail)
  }

  /** The request at the front of standard input. */
  ghost function RequestOf(stdin: string): Option<Request> {
    if HoldsFrame(stdin) then
      var line, request, tail :| IsFrame(stdin, line, request, tail);
      Some(request)
    else None
  }

  lemma RequestOfFrame(stdin: string, line: string, request: Request, tail: string)
    requires IsFrame(stdin, line, request, tail)
    ensures RequestOf(stdin) == Some(request)
  {
    var l, r, t :| IsFrame(stdin, l, r, t) && RequestOf(stdin) == Some(r);
    FramesAgree(stdin, line, request, tail, l, r, t);
  }

  /** The error line of a run that never starts a transfer. */
  ghost function EarlyFailure(environment: Environment): Option<Line> {
    if RequestOf(environment.stdin).None? then Some(Error("mega_bridge_protocol_error", false, true))
    else if !environment.destinationUsable then Some(Error("mega_bridge_destination_invalid", false, true))
    else if !environment.cacheCreated || !environment.cacheDirectoriesCreated then
      Some(Error("mega_bridge_cache_unavailable", true, false))
    else
      var request := RequestOf(environment.stdin).value;
      if IsFolderLink(request.link) then FolderFailure(environment, request.link)
      else
        var account := AccountFailure(environment, request.session);
        if account.Some? then account else FileFailure(environment)
  }

  function NameOf(environment: Environment): string {
    if environment.nodeName.Some? then environment.nodeName.value else "download"
  }

  function TransferCode(environment: Environment): SdkError {
    if environment.transferError.Some? then environment.transferError.value else EInternal
  }

  function WaitLines(waits: seq<Wait>): (lines: seq<Line>)
    ensures forall i | 0 <= i < |lines| :: lines[i].Progress?
  {
    if waits == [] then []
    else WaitLines(waits[..|waits| - 1]) + ProgressLines(waits[|waits| - 1].updates)
  }

  /** How a transfer ends once its last wait is over. */
  function Verdict(environment: Environment, cancelled: bool): Line {
    if cancelled then Error("mega_transfer_cancelled", false, false)
    else if TransferCode(environment) != ApiOk then SdkErrorLine(TransferCode(environment), false)
    else
      match environment.fileSize
      case None => Error("mega_bridge_output_missing", true, false)
      case Some(bytes) => Complete(bytes, NameOf(environment))
  }

  function TransferLines(environment: Environment, cancelled: bool): seq<Line> {
    [Meta(AtLeastZero(environment.nodeSize), NameOf(environment))] +
    if !environment.tokenCreated then [Error("mega_bridge_internal", true, false)]
    else
      WaitLines(environment.unfinishedWaits) + ProgressLines(environment.lastWait.updates)
      + [Verdict(environment, cancelled)]
  }

  ghost predicate Signalled(waits: seq<Wait>) {
    exists i :: 0 <= i < |waits| && waits[i].signalled
  }

  /** A cancellation signal arrived before the transfer ended. */
  ghost predicate CancellationSeen(environment: Environment) {
    environment.signalledBefore || environment.lastWait.signalled || Signalled(environment.unfinishedWaits)
  }

  ghost function RunLines(environment: Environment): seq<Line> {
    var early := EarlyFailure(environment);
    if early.Some? then [early.value] else TransferLines(environment, CancellationSeen(environment))
  }

  // ----- What every run keeps -----

  /** One error line, or the metadata line, progress lines, and one final error or completion. */
  predicate IsTranscript(lines: seq<Line>) {
    && lines != []
    && var last := lines[|lines| - 1];
    && (last.Error? || (last.Complete? && |lines| > 1))
    && (|lines| > 1 ==> lines[0].Meta? && forall i | 0 < i < |lines| - 1 :: lines[i].Progress?)
  }

  predicate Completed(lines: seq<Line>) {
    lines != [] && lines[|lines| - 1].Complete?
  }

  predicate IsMixed(line: Line) {
    line.Error? && line.retryable && line.intervention
  }

  lemma NoReplyIsMixed(reply: Reply, accountSession: bool)
    ensures ReplyLine(reply, accountSession).Error? && !IsMixed(ReplyLine(reply, accountSession))
  {
  }

  lemma EarlyFailureIsError(environment: Environment)
    requires EarlyFailure(environment).Some?
    ensures EarlyFailure(environment).value.Error? && !IsMixed(EarlyFailure(environment).value)
  {
    NoReplyIsMixed(environment.folderLogin, false);
    NoReplyIsMixed(environment.folderFetch, false);
    NoReplyIsMixed(environment.publicNode, false);
    NoReplyIsMixed(environment.accountLogin, true);
    NoReplyIsMixed(environment.accountFetch, true);
  }

  lemma TransferIsTranscript(environment: Environment, cancelled: bool)
    ensures IsTranscript(TransferLines(environment, cancelled))
    ensures forall i | 0 <= i < |TransferLines(environment, cancelled)| :: !IsMixed(TransferLines(environment, cancelled)[i])
    ensures Completed(TransferLines(environment, cancelled)) ==> !cancelled
  {
    var progress := WaitLines(environment.unfinishedWaits) + ProgressLines(environment.lastWait.updates);
    assert forall i | 0 <= i < |progress| :: progress[i].Progress?;
    var verdict := Verdict(environment, cancelled);
    if environment.tokenCreated {
      assert TransferLines(environment, cancelled)
          == [Meta(AtLeastZero(environment.nodeSize), NameOf(environment))] + progress + [verdict];
    }
  }

  /** Every run writes a transcript, no error line is both retryable and an intervention, and a
      completion means that no cancellation had been seen. */
  lemma RunWritesTranscript(environment: Environment)
    ensures IsTranscript(RunLines(environment))
    ensures forall i | 0 <= i < |RunLines(environment)| :: !IsMixed(RunLines(environment)[i])
    ensures Completed(RunLines(environment)) ==> !CancellationSeen(environment)
  {
    if EarlyFailure(environment).Some? {
      EarlyFailureIsError(environment);
    } else {
      TransferIsTranscript(environment, CancellationSeen(environment));
    }
  }

  /** A run completes exactly when nothing failed before the transfer, no signal arrived, the SDK
      reported success and the file exists; the completion repeats the announced name. */
  lemma RunCompletesWhen(environment: Environment)
    ensures Completed(RunLines(environment)) <==>
            && EarlyFailure(environment).None? && environment.tokenCreated && !CancellationSeen(environment)
            && environment.transferError == Some(ApiOk) && environment.fileSize.Some?
    ensures Completed(RunLines(environment)) ==>
              var lines := RunLines(environment);
              && lines[0] == Meta(AtLeastZero(environment.nodeSize), NameOf(environment))
              && lines[|lines| - 1] == Complete(environment.fileSize.value, NameOf(environment))
  {
    if EarlyFailure(environment).Some? {
      EarlyFailureIsError(environment);
    }
  }

  // ----- Which failure gives which line -----

  /** The code of each error: seven codes name one or two causes each, and all other errors share the
      eighth. */
  lemma ErrorCodesMean(error: SdkError, accountSession: bool)
    ensures var code := ErrorCodeFor(error, accountSession);
            && (code == "mega_quota_exceeded" <==> error == EOverQuota)
            && (code == "mega_session_expired" <==> error == ESid)
            && (code == "mega_auth_required" <==> error == EAccess && accountSession)
            && (code == "mega_link_unavailable" <==> error == ENoEnt || (error == EAccess && !accountSession))
            && (code == "mega_link_invalid" <==> error == EKey || error == EArgs)
            && (code == "mega_rate_limited" <==> error == ETooMany || error == ETooManyConnections)
            && (code == "mega_host_unavailable" <==>
                  error == ApiOk || error == EInternal || error == EAgain || error.EOther?)
  {
    assert |"mega_quota_exceeded"| == 19 && |"mega_session_expired"| == 20 && |"mega_auth_required"| == 18;
    assert |"mega_link_unavailable"| == 21 && |"mega_link_invalid"| == 17 && |"mega_rate_limited"| == 17;
    assert |"mega_host_unavailable"| == 21 && "mega_link_invalid"[5] != "mega_rate_limited"[5];
    assert "mega_link_unavailable"[5] != "mega_host_unavailable"[5];
  }

  /** What a session or the link itself causes needs an intervention, what passes by itself may be
      tried again, and nothing does both. */
  lemma ErrorFlagsMean(error: SdkError)
    ensures IsIntervention(error) <==> error in {ESid, EAccess, ENoEnt, EKey, EArgs}
    ensures IsRetryable(error) <==> error in {EOverQuota, ETooMany, ETooManyConnections, EInternal, EAgain}
    ensures !(IsIntervention(error) && IsRetryable(error))
  {
  }

  /** A link goes to the folder branch exactly when one of the two markers occurs in it. */
  lemma FolderLinksMean(link: string)
    ensures IsFolderLink(link) <==> exists i: nat :: OccursAt(link, "/folder/", i) || OccursAt(link, "#F!", i)
  {
    if Find(link, "/folder/").Some? {
      assert OccursAt(link, "/folder/", Find(link, "/folder/").value);
    }
    if Find(link, "#F!").Some? {
      assert OccursAt(link, "#F!", Find(link, "#F!").value);
    }
  }

  predicate IsDelimiter(c: char) {
    c == '/' || c == '?' || c == '#'
  }

  lemma {:induction false} UntilDelimiterStops(s: string)
    ensures var n := UntilDelimiter(s);
            && (forall i | 0 <= i < n :: !IsDelimiter(s[i]))
            && (n < |s| ==> IsDelimiter(s[n]))
  {
    if s == "" || IsDelimiter(s[0]) {
    } else {
      UntilDelimiterStops(s[1..]);
    }
  }

  /** The selected handle starts behind the first file marker and ends before the next delimiter or with
      the link; without a marker none is selected. */
  lemma SelectedHandleMeans(link: string, at: nat)
    ensures (forall i: nat :: !OccursAt(link, "/file/", i)) ==> SelectedFolderFileHandle(link) == ""
    ensures OccursAt(link, "/file/", at) && (forall i: nat | i < at :: !OccursAt(link, "/file/", i)) ==>
              var handle := SelectedFolderFileHandle(link);
              var end := at + 6 + |handle|;
              && end <= |link| && link[at + 6..end] == handle
              && (forall i | 0 <= i < |handle| :: !IsDelimiter(handle[i]))
              && (end < |link| ==> IsDelimiter(link[end]))
  {
    if OccursAt(link, "/file/", at) && (forall i: nat | i < at :: !OccursAt(link, "/file/", i)) {
      assert Find(link, "/file/") == Some(at);
      UntilDelimiterStops(link[at + 6..]);
    }
  }

  /** Everything a folder link needs before its transfer. */
  ghost predicate FolderResolves(environment: Environment, link: string) {
    && environment.folderLogin == Answered(ApiOk) && environment.folderFetch == Answered(ApiOk)
    && if SelectedFolderFileHandle(link) != "" then environment.handleIsFile
       else environment.root.Some? && HoldsOneFile(environment.graph, environment.root.value)
  }

  /** Everything a file link needs: the account first, if a session was sent, then the node. */
  predicate FileResolves(environment: Environment, session: string) {
    && (session != "" ==> environment.accountLogin == Answered(ApiOk) && environment.accountFetch == Answered(ApiOk))
    && environment.publicNode == Answered(ApiOk) && environment.publicNodeIsFile
  }

  /** A transfer starts exactly when the request and its destination are accepted, the cache exists and
      the link resolves; a session is not used for a folder link. */
  lemma TransferStartsWhen(environment: Environment)
    ensures EarlyFailure(environment).None? <==>
            && HoldsFrame(environment.stdin) && environment.destinationUsable
            && environment.cacheCreated && environment.cacheDirectoriesCreated
            && var request := RequestOf(environment.stdin).value;
               if IsFolderLink(request.link) then FolderResolves(environment, request.link)
               else FileResolves(environment, request.session)
  {
  }

  /** Which line reports what is not an answer of the SDK, by the first of these that applies. */
  lemma EarlyFailureMeans(environment: Environment)
    ensures var failure := EarlyFailure(environment);
            if !HoldsFrame(environment.stdin) then failure == Some(Error("mega_bridge_protocol_error", false, true))
            else if !environment.destinationUsable then failure == Some(Error("mega_bridge_destination_invalid", false, true))
            else if !environment.cacheCreated || !environment.cacheDirectoriesCreated then
              failure == Some(Error("mega_bridge_cache_unavailable", true, false))
            else
              var request := RequestOf(environment.stdin).value;
              if IsFolderLink(request.link) then
                environment.folderLogin == Answered(ApiOk) && environment.folderFetch == Answered(ApiOk) ==>
                  && (SelectedFolderFileHandle(request.link) != "" && !environment.handleIsFile ==>
                        failure == Some(Error("mega_link_invalid", false, true)))
                  && (SelectedFolderFileHandle(request.link) == "" && environment.root.None? ==>
                        failure == Some(Error("mega_link_unavailable", false, true)))
                  && (SelectedFolderFileHandle(request.link) == "" && environment.root.Some?
                      && !HoldsOneFile(environment.graph, environment.root.value) ==>
                        failure == Some(Error("mega_folder_ambiguous", false, true)))
              else
                (request.session == ""
                 || (environment.accountLogin == Answered(ApiOk) && environment.accountFetch == Answered(ApiOk)))
                && environment.publicNode == Answered(ApiOk) && !environment.publicNodeIsFile ==>
                  failure == Some(Error("mega_link_invalid", false, true))
  {
  }

  /** How a transfer that was started ends, by the first of these that applies: a cancellation, an error
      of the SDK, a missing file. */
  lemma TransferEndsWith(environment: Environment)
    requires EarlyFailure(environment).None? && environment.tokenCreated
    ensures var lines := RunLines(environment);
            var last := lines[|lines| - 1];
            && (CancellationSeen(environment) <==> last == Error("mega_transfer_cancelled", false, false))
            && (!CancellationSeen(environment) && environment.transferError != Some(ApiOk) ==>
                  var error := if environment.transferError.None? then EInternal else environment.transferError.value;
                  last == Error(ErrorCodeFor(error, false), IsRetryable(error), IsIntervention(error)))
            && (!CancellationSeen(environment) && environment.transferError == Some(ApiOk) && environment.fileSize.None? ==>
                  last == Error("mega_bridge_output_missing", true, false))
  {
    ErrorCodesMean(TransferCode(environment), false);
    assert |"mega_transfer_cancelled"| == 23 && |"mega_bridge_output_missing"| == 26;
  }

  // ----- The run -----

  lemma RegroupLines(base: seq<Line>, a: seq<Line>, b: seq<Line>, c: seq<Line>, d: seq<Line>)
    ensures base + a + b + c + d == base + (a + (b + c + d))
  {
  }

  lemma Regroup(base: seq<Line>, lines: seq<Line>, more: seq<Line>)
    ensures base + lines + more == base + (lines + more)
  {
  }

  lemma NextPrefix<T>(items: seq<T>, i: nat)
    requires i < |items|
    ensures items[..i + 1] == items[..i] + [items[i]] && items[..i + 1][..i] == items[..i]
  {
  }

  lemma WholePrefix<T>(items: seq<T>)
    ensures items[..|items|] == items
  {
  }

  /** What an update adds to the output. */
  lemma ProgressGrows(base: seq<Line>, updates: seq<Option<(int, int)>>, i: nat)
    requires i < |updates|
    ensures base + ProgressLines(updates[..i]) + UpdateLines(updates[i]) == base + ProgressLines(updates[..i + 1])
  {
    NextPrefix(updates, i);
    Regroup(base, ProgressLines(updates[..i]), UpdateLines(updates[i]));
  }

  /** What a wait adds to the output. */
  lemma WaitGrows(base: seq<Line>, waits: seq<Wait>, i: nat)
    requires i < |waits|
    ensures base + WaitLines(waits[..i]) + ProgressLines(waits[i].updates) == base + WaitLines(waits[..i + 1])
  {
    NextPrefix(waits, i);
    Regroup(base, WaitLines(waits[..i]), ProgressLines(waits[i].updates));
  }

  lemma SignalledNext(waits: seq<Wait>, i: nat)
    requires i < |waits|
    ensures Signalled(waits[..i + 1]) <==> Signalled(waits[..i]) || waits[i].signalled
  {
    var more := waits[..i + 1];
    assert more[i] == waits[i] && forall j | 0 <= j < i :: more[j] == waits[..i][j];
  }

  class Bridge {
    var output: seq<Line>
    var cancelRequested: bool

    constructor ()
      ensures output == [] && !cancelRequested
    {
      output, cancelRequested := [], false;
    }

    method EmitLine(line: Line)
      modifies `output
      ensures output == old(output) + [line]
    {
      output := output + [line];
    }

    method EmitError(code: string, retryable: bool, intervention: bool)
      modifies `output
      ensures output == old(output) + [Error(code, retryable, intervention)]
    {
      EmitLine(Error(code, retryable, intervention));
    }

    /** `output` has grown by the error line of this failure, or not at all. */
    twostate predicate Reported(failure: Option<Line>)
      reads this
    {
      output == old(output) + if failure.Some? then [failure.value] else []
    }

    method WaitForRequest(reply: Reply, accountSession: bool) returns (ok: bool)
      modifies `output
      ensures ok <==> Answers(reply)
      ensures Reported(if Answers(reply) then None else Some(ReplyLine(reply, accountSession)))
    {
      if reply.TimedOut? {
        EmitError("mega_request_timeout", true, false);
        return false;
      }
      var code := if reply.Answered? then reply.error else EInternal;
      if code == ApiOk {
        return true;
      }
      EmitError(ErrorCodeFor(code, accountSession), IsRetryable(code), IsIntervention(code));
      ok := false;
    }

    method ValidateAccountSession(environment: Environment, session: string) returns (ok: bool)
      modifies `output
      ensures ok <==> AccountFailure(environment, session).None?
      ensures Reported(AccountFailure(environment, session))
    {
      if session == "" {
        return true;
      }
      ok := WaitForRequest(environment.accountLogin, true);
      if ok {
        ok := WaitForRequest(environment.accountFetch, true);
      }
    }

    method ResolveFolderNode(environment: Environment, link: string) returns (ok: bool)
      modifies `output
      ensures ok <==> FolderFailure(environment, link).None?
      ensures Reported(FolderFailure(environment, link))
    {
      ok := WaitForRequest(environment.folderLogin, false);
      if !ok {
        return;
      }
      ok := WaitForRequest(environment.folderFetch, false);
      if !ok {
        return;
      }
      if SelectedFolderFileHandle(link) != "" {
        if environment.handleIsFile {
          return true;
        }
        EmitError("mega_link_invalid", false, true);
        return false;
      }
      if environment.root.None? {
        EmitError("mega_link_unavailable", false, true);
        return false;
      }
      var file := ResolveOnlyFile(environment.graph, environment.root.value);
      if file.None? {
        EmitError("mega_folder_ambiguous", false, true);
        return false;
      }
      ok := true;
    }

    method ResolveFileNode(environment: Environment) returns (ok: bool)
      modifies `output
      ensures ok <==> FileFailure(environment).None?
      ensures Reported(FileFailure(environment))
    {
      ok := WaitForRequest(environment.publicNode, false);
      if !ok {
        return;
      }
      if !environment.publicNodeIsFile {
        EmitError("mega_link_invalid", false, true);
        return false;
      }
      ok := true;
    }

    /** The update callback; without a transfer it does nothing. */
    method OnTransferUpdate(update: Option<(int, int)>)
      modifies `output
      ensures output == old(output) + UpdateLines(update)
    {
      if update.Some? {
        var (transferred, total) := update.value;
        EmitLine(Progress(AtLeastZero(transferred), AtLeastZero(total)));
      }
    }

    /** One wait for the transfer, during which updates and signals arrive. */
    method AwaitTransfer(wait: Wait)
      modifies this
      ensures output == old(output) + ProgressLines(wait.updates)
      ensures cancelRequested == (old(cancelRequested) || wait.signalled)
    {
      for i := 0 to |wait.updates|
        invariant output == old(output) + ProgressLines(wait.updates[..i])
        invariant cancelRequested == old(cancelRequested)
      {
        ProgressGrows(old(output), wait.updates, i);
        OnTransferUpdate(wait.updates[i]);
      }
      WholePrefix(wait.updates);
      cancelRequested := cancelRequested || wait.signalled;
    }

    /** Waits until the transfer is over. A cancellation that was seen stays seen. */
    method AwaitAll(waits: seq<Wait>)
      modifies this
      ensures output == old(output) + WaitLines(waits)
      ensures cancelRequested <==> old(cancelRequested) || Signalled(waits)
    {
      for i := 0 to |waits|
        invariant output == old(output) + WaitLines(waits[..i])
        invariant cancelRequested <==> old(cancelRequested) || Signalled(waits[..i])
      {
        WaitGrows(old(output), waits, i);
        SignalledNext(waits, i);
        AwaitTransfer(waits[i]);
      }
      WholePrefix(waits);
    }

    /** What follows the last wait. */
    method ReportVerdict(environment: Environment) returns (ok: bool)
      modifies `output
      ensures output == old(output) + [Verdict(environment, cancelRequested)]
      ensures ok <==> Verdict(environment, cancelRequested).Complete?
    {
      var code := TransferCode(environment);
      if cancelRequested {
        EmitError("mega_transfer_cancelled", false, false);
        return false;
      }
      if code != ApiOk {
        EmitError(ErrorCodeFor(code, false), IsRetryable(code), IsIntervention(code));
        return false;
      }
      if environment.fileSize.None? {
        EmitError("mega_bridge_output_missing", true, false);
        return false;
      }
      EmitLine(Complete(environment.fileSize.value, NameOf(environment)));
      ok := true;
    }

    method TransferNode(environment: Environment) returns (ok: bool)
      modifies this
      ensures var cancelled := old(cancelRequested) || environment.lastWait.signalled
                            || Signalled(environment.unfinishedWaits);
              && output == old(output) + TransferLines(environment, cancelled)
              && (ok <==> Completed(TransferLines(environment, cancelled)))
    {
      var name := NameOf(environment);
      EmitLine(Meta(AtLeastZero(environment.nodeSize), name));
      if !environment.tokenCreated {
        EmitError("mega_bridge_internal", true, false);
        return false;
      }
      AwaitAll(environment.unfinishedWaits);
      AwaitTransfer(environment.lastWait);
      ok := ReportVerdict(environment);
      RegroupLines(old(output), [Meta(AtLeastZero(environment.nodeSize), name)], WaitLines(environment.unfinishedWaits),
              ProgressLines(environment.lastWait.updates), [Verdict(environment, cancelRequested)]);
    }

    /** A whole run, from the bytes on standard input to the exit code. */
    method Run(environment: Environment) returns (exitCode: int)
      requires output == [] && !cancelRequested
      modifies this
      ensures output == RunLines(environment)
      ensures IsTranscript(output) && forall i | 0 <= i < |output| :: !IsMixed(output[i])
      ensures exitCode == 0 <==> Completed(output)
      ensures exitCode == 2 <==> !HoldsFrame(environment.stdin) || !environment.destinationUsable
      ensures exitCode in {0, 1, 2}
    {
      RunWritesTranscript(environment);
      RunCompletesWhen(environment);
      var input := new Input(environment.stdin);
      var received := input.ReadBridgeRequest();
      assert received == RequestOf(environment.stdin);
      if received.None? {
        EmitError("mega_bridge_protocol_error", false, true);
        return 2;
      }
      var request := received.value;
      if !environment.destinationUsable {
        EmitError("mega_bridge_destination_invalid", false, true);
        return 2;
      }
      if !environment.cacheCreated {
        EmitError("mega_bridge_cache_unavailable", true, false);
        return 1;
      }
      if !environment.cacheDirectoriesCreated {
        EmitError("mega_bridge_cache_unavailable", true, false);
        return 1;
      }
      var success := false;
      var node: bool;
      cancelRequested := environment.signalledBefore;
      if !IsFolderLink(request.link) && request.session != "" {
        node := ValidateAccountSession(environment, request.session);
        if node {
          node := ResolveFileNode(environment);
        }
      } else if IsFolderLink(request.link) {
        node := ResolveFolderNode(environment, request.link);
      } else {
        node := ResolveFileNode(environment);
      }
      if node {
        success := TransferNode(environment);
      }
      exitCode := if success then 0 else 1;
    }
  }
}
