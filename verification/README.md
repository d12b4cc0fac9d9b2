# Verification of Pullbox's allocation, migration and transfer logic

A Dafny model of the parts of Pullbox that decide something hard, with proofs over every input, every
run or every reachable state. `dafny verify dfyconfig.toml` checks all of it.

What is modelled, one module for each component:

- **Fixture allocation** (`SwapLoop`, `RealisticSkew`, `Balanced`, over `Fixtures`, `RowOrder` and `Sums`): placing an exact number of
  issues over an exact number of volumes under a cap. The swap loop, the largest-remainder apportionment, the
  threshold-greedy selection and the water filling are methods with loops; feasibility, optimality and fairness
  are proved about what they return, and that the shuffle and the request determine it.
- **Fixture names** (`Utf8`, `FixtureNames`): the UTF-8 truncation loop of section 3 of RFC 3629 text, the
  byte budget of series segments, and the identity that file names carry.
- **Story-arc memberships** (`Ranking`, `StoryArcs`): the window functions of the table rebuild, the
  downgrade guard and the reverse rebuild, over tables as sets of rows.
- **Exact issue numbers** (`DigitText`, `IssueNumbers`, `KeysetScan`, `IssueBackfill`): the canonical decimal
  printer and the paged loops that use it.
- **Library digest** (`LibraryDigest`): the paged, length-framed hash input.
- **MEGA bridge** (`FolderWalk`, `BridgeRequest`, `BridgeRun`, `BridgeEvents`): the request frame, the bounded
  folder walk, the lines of a whole run, and how the Python side reads both back.
- **Series types** (`TypeRepair`): the in-place repair of two tables.
- **Library roots** (`DefaultRoot`): adding and removing the default managed destination.
- **Maintenance gate** (`MaintenanceGate`): all interleavings of tasks around the gate and its lock.

Code that updates state is modelled by methods and classes proved against a function of the old state; SQL set
expressions and pure code are functions. The shuffle of both allocation profiles is an arbitrary permutation
given as input. Answers of the SDK, the file system and the signals are fields of an `Environment`; every claim
about a run holds for all of them. Text classifiers and name cleaning are function parameters.

## Where the code does less than expected

Each of these is proved of the code as it is: an exact condition, and a lemma with a concrete input.

- The skewed profile divides by zero (generator.py line 231) exactly when as many files as volumes are
  requested and every volume that the shuffle puts first has capacity 1 (`RealisticSkewAssignments`); the
  request is feasible then (`FeasibleRequestCanDivideByZero`).
- The balanced profile ignores `max_issues_per_series` exactly when `file_count // series_count` exceeds it
  (line 178 does not cap); it then places exactly that quotient on every volume, and plans exactly when the
  files divide evenly and enough volumes hold the quotient (`BaseAboveCapNeedsFullRows`, `CapCanBeIgnored`).
- The balanced profile selects by the first `base` issues of a volume only, so it can report insufficient
  capacity for a feasible request (`GreedySelectionCanMissFeasibleChoice`). With a base inside the cap it decides
  feasibility for every shuffle when the files divide evenly or no more volumes than requested hold `base`
  issues (`GreedyDecidesFeasibility`). Otherwise some shuffle fails exactly when some choice among the volumes
  that hold `base` issues falls short (`ShuffleFailsWhen`).
- The UTF-8 truncation helper falls back to the seven bytes of "Unknown" when not even one character fits, so
  it keeps its limit exactly when the text is empty or a character fits (`TruncationKeepsLimit`,
  `FallbackCanExceedLimit`). This is a limit of the helper alone: its callers pass eight bytes or more.
- The story-arc downgrade guard accepts a membership that was born without a sequence number and was given one
  later (`GuardAcceptsEditedRow`). Downgrading and upgrading again is the identity exactly on tables without such
  edits and with each number text equal to its issue's (`UpgradeUndoesDowngrade`).
- A run of the bridge can complete although the transfer runner cannot read it, for example when the file's name
  is empty (`CompletedRunCanBeUnreadable`). Every line is readable exactly when the run fails early or its
  transfer announces a name of 1 to 255 bytes of UTF-8, sizes up to 10 TiB, and no progress beyond its total
  (`RunReadsBack`).
- An operation woken by the end of one maintenance window can start inside the next one
  (`WokenOperationCanStartInsideWindow`). A run starts an operation inside a window exactly when some woken
  operation runs on while the gate is closed, which is the recheck the code omits (`RunStartsInsideWindow`).

## Model

| member | source | states |
|---|---|---|
| Sums.SeparatedChoiceIsBest | scripts/import_scale_fixtures/generator.py:213-219 | Exchange argument: when a threshold separates the chosen rows from the others, no other choice of as many rows weighs more, for any weight |
| SwapLoop.ImproveSelection | scripts/import_scale_fixtures/generator.py:207-223 | The swap loop terminates and keeps the shuffled rows as a multiset. It exchanges the rows of the front that hold least for the rows of the rest that hold most, the lower position first among equals, pairwise in that order; no choice that keeps more rows of the front reaches the files, and none that keeps as many has more capacity. It ends short of the files exactly when every choice falls short |
| SwapLoop.SwapOutcomeIsUnique | scripts/import_scale_fixtures/generator.py:207-223 | Only one selection that reaches the files meets that description |
| SwapLoop.UpperPartIsBest | scripts/import_scale_fixtures/generator.py:213-219 | When every kept row holds at least what every dropped row does, no choice of as many rows holds more |
| SwapLoop.SwapKeepsPool | scripts/import_scale_fixtures/generator.py:216-219 | A swap keeps the multiset of rows and changes the selected capacity by exactly the difference of the two rows |
| RealisticSkew.QuotaFits | scripts/import_scale_fixtures/generator.py:230-233 | The whole part of a quota never exceeds a row's room, and a nonzero fraction leaves room for one more |
| RealisticSkew.ResidualRowsHaveFractions | scripts/import_scale_fixtures/generator.py:235-243 | When the fractions add up to `residual` wholes, the first `residual` rows of the remainder order all have a nonzero fraction |
| RealisticSkew.ResidualFits | scripts/import_scale_fixtures/generator.py:235-243 | The residual is between 0 and the number of rows, and each extra issue goes to a row that lost a fraction |
| RealisticSkew.GrantExtras | scripts/import_scale_fixtures/generator.py:243-244 | The final loop gives one more issue to exactly the first `residual` rows in order and raises the total by `residual` |
| RealisticSkew.Apportion | scripts/import_scale_fixtures/generator.py:227-244 | The counts sum to the file count, each lies between 1 and the row's capacity, is one more than the floor of its quota or two more, and the extras follow the remainder order |
| RealisticSkew.ApportionmentFollowsCapacity | scripts/import_scale_fixtures/generator.py:230-244 | A row with more capacity never gets fewer issues; rows with equal capacity differ by at most one, the earlier row first |
| RealisticSkew.ApportionmentIsUnique | scripts/import_scale_fixtures/generator.py:227-244 | Sum, quota rule and remainder order determine the counts: no two different lists satisfy them |
| RealisticSkew.ApportionmentIsLargestRemainder | scripts/import_scale_fixtures/generator.py:227-244 | In plain arithmetic: each row gets the whole shares that its part of the remaining issues pays for, and the rows with the larger remainders get one more, the earlier row among equals |
| RealisticSkew.SkewPlanIsUnique | scripts/import_scale_fixtures/generator.py:198-245 | The shuffle and the request determine the plan: its rows, their order and their counts |
| RealisticSkew.RealisticSkewAssignments | scripts/import_scale_fixtures/generator.py:198-245 | Every outcome by its exact condition: too few rows, no choice of rows suffices, division by zero; otherwise a plan of different catalog rows with an exact sum, inside capacity, selected with the fewest exchanges and apportioned by largest remainder |
| RealisticSkew.FeasibleRequestCanDivideByZero | scripts/import_scale_fixtures/generator.py:230-231 | Concrete input: a feasible request that meets the condition for the division by zero |
| Balanced.ThresholdSelectionIsBest | scripts/import_scale_fixtures/generator.py:164-172 | No choice of as many rows supplies more of the first `base` issues of each row than the greedy order's front, for every shuffle |
| Balanced.ThresholdOrderIsGreedy | scripts/import_scale_fixtures/generator.py:164-172 | The selected rows are those that hold more of the first `base` issues, in the shuffle's order among equals |
| Balanced.GreedySelectionIsUnique | scripts/import_scale_fixtures/generator.py:164-172 | Only one selection of as many rows meets that description |
| Balanced.SelectAt | scripts/import_scale_fixtures/generator.py:165-170 | One pass over the shuffle at one threshold continues the greedy order, and completes that threshold unless the selection is full |
| Balanced.SelectByThreshold | scripts/import_scale_fixtures/generator.py:161-176 | The double loop fills the selection exactly when there are enough rows, and then with the front of the greedy order |
| Balanced.FillRound | scripts/import_scale_fixtures/generator.py:180-190 | One round raises the water level by one for a front of the rows, conserves issues, and makes no progress only when every row is at capacity |
| Balanced.WaterFill | scripts/import_scale_fixtures/generator.py:178-195 | Terminates; succeeds exactly when the selected rows suffice; the counts then sum to the file count and stand at one water level up to one issue |
| Balanced.WaterFillingIsFair | scripts/import_scale_fixtures/generator.py:180-190 | With a base inside the cap no row exceeds its capacity, and a row with room left is at most one below any other |
| Balanced.WaterFillingIsMaxMin | scripts/import_scale_fixtures/generator.py:180-190 | Any other placement of the same total inside the capacities gives a row more only by taking from a row that holds at most one more than it |
| Balanced.WaterFillingIsUnique | scripts/import_scale_fixtures/generator.py:178-195 | Rows, base, cap and total determine the counts |
| Balanced.BaseAboveCapStays | scripts/import_scale_fixtures/generator.py:178-190 | With a base above the cap, a plan holds exactly the base for every row |
| Balanced.BalancedAssignments | scripts/import_scale_fixtures/generator.py:155-195 | For the whole quotient of files by volumes: too few rows exactly when there are. With the quotient inside the cap, and files that divide evenly or no more rows than requested that hold it, planned exactly when some choice of rows suffices; above the cap, exactly when the files divide evenly and enough rows hold it. A plan is exact, takes the greedy selection, which no choice betters on the first issues of each row, gives no row less than those, is water-filled, and respects the cap exactly when the quotient does |
| Balanced.BalancedPlanIsUnique | scripts/import_scale_fixtures/generator.py:155-195 | The shuffle, the quotient and the request determine the plan |
| Balanced.GreedyDecidesFeasibility | scripts/import_scale_fixtures/generator.py:161-195 | For every shuffle, under that condition, the greedy rows suffice exactly when any choice of rows does |
| Balanced.BaseAboveCapNeedsFullRows | scripts/import_scale_fixtures/generator.py:178-194 | With a base above the cap, the greedy rows suffice exactly when the files divide evenly and enough rows hold the base |
| Balanced.ShuffleFailsWhen | scripts/import_scale_fixtures/generator.py:159-172 | With enough rows that hold the base, some shuffle fails exactly when some choice among those rows falls short of the files |
| Balanced.CapCanBeIgnored | scripts/import_scale_fixtures/generator.py:178 | Concrete input: every plan it leads to exceeds the cap |
| Balanced.GreedySelectionCanMissFeasibleChoice | scripts/import_scale_fixtures/generator.py:158-194 | Concrete input: a feasible request that the greedy selection cannot serve |
| Utf8.DecodeUndoesEncode | scripts/import_scale_fixtures/generator.py:348-354 | Decoding encoded text returns the text |
| Utf8.EncodeUndoesDecode | scripts/import_scale_fixtures/generator.py:353-356 | Bytes that decode strictly are the encoding of what they decode to |
| Utf8.CutDecodes | scripts/import_scale_fixtures/generator.py:351-356 | Encoded text cut at any byte decodes exactly when the cut is a character boundary, and then to the characters in front of it |
| Utf8.FitCountIsLongest | scripts/import_scale_fixtures/generator.py:349-351 | The fitting front is the longest: it fits, one character more does not, and at most three bytes stay unused |
| Utf8.TruncateUtf8 | scripts/import_scale_fixtures/generator.py:347-357 | Text that fits comes back unchanged; otherwise the longest front that fits comes back without the spaces and dots at its end, or "Unknown" when no character fits |
| Utf8.TruncationKeepsLimit | scripts/import_scale_fixtures/generator.py:347-357 | The byte limit is kept exactly when the text is empty or a character fits, so always from four bytes on |
| Utf8.TruncationIsLongest | scripts/import_scale_fixtures/generator.py:351-357 | A cut at four bytes or more keeps at least one character and leaves at most three bytes unused before stripping |
| Utf8.FallbackCanExceedLimit | scripts/import_scale_fixtures/generator.py:347-357 | Concrete input: seven bytes under a limit of one |
| FixtureNames.SeriesSegmentFits | scripts/import_scale_fixtures/generator.py:375-379 | A series segment has at most 140 bytes for every name, cleaning, year of four digits and 64-bit volume id |
| FixtureNames.SeriesSegmentsDiffer | scripts/import_scale_fixtures/generator.py:375-379 | Different volume ids give different segments, whatever the names and years |
| FixtureNames.IssueFilenameFits | scripts/import_scale_fixtures/generator.py:391-394 | A file name has at most 141 bytes for every number, title and 64-bit id |
| FixtureNames.ShortTextsAppear | scripts/import_scale_fixtures/generator.py:391-394 | Numbers up to 24 and titles up to 72 bytes appear as they were cleaned; a missing title is "Untitled" |
| FixtureNames.IssueFilenamesDiffer | scripts/import_scale_fixtures/generator.py:391-394 | Different issue ids give different file names, whatever the numbers and titles |
| Ranking.RankSorts | alembic/versions/a2b3c4d5e678_expand_story_arc_domain.py:362-365 | Row numbers sort the rows, differ for different rows, and lie between 1 and the row count |
| Ranking.RanksFill | alembic/versions/a2b3c4d5e678_expand_story_arc_domain.py:362-365 | Every number from 1 to the row count is some row's number |
| StoryArcs.UnnumberedRowsFollow | alembic/versions/a2b3c4d5e678_expand_story_arc_domain.py:349-360 | Numbered rows keep their number; rows without one follow all of them in issue order, with distinct numbers directly above the arc's maximum or 0, also when that maximum is negative |
| StoryArcs.OrdinalsSort | alembic/versions/a2b3c4d5e678_expand_story_arc_domain.py:361-365 | Ordinals order an arc by assigned sequence number and then issue |
| StoryArcs.OrdinalsAreOneToN | alembic/versions/a2b3c4d5e678_expand_story_arc_domain.py:361-365 | The ordinals of an arc are exactly 1 to its number of memberships |
| StoryArcs.GuardAcceptsUpgrade | alembic/versions/a2b3c4d5e678_expand_story_arc_domain.py:808-852 | A freshly upgraded table is unique per issue and arc and passes the membership and ordinal checks |
| StoryArcs.UpgradedColumns | alembic/versions/a2b3c4d5e678_expand_story_arc_domain.py:367-378 | An upgraded row is resolved, legacy, without evidence or synchronization, with its issue's number text, and remembers whether its number was NULL |
| StoryArcs.GuardRefusesOtherText | alembic/versions/a2b3c4d5e678_expand_story_arc_domain.py:819-820 | A number text that differs from its issue's known text is refused |
| StoryArcs.AcceptedRowIsRebuilt | alembic/versions/a2b3c4d5e678_expand_story_arc_domain.py:808-888 | Downgrading and upgrading an accepted table rebuilds each row with its provenance, its own number, and its number text where the issue's is known |
| StoryArcs.DowngradeUndoesUpgrade | alembic/versions/a2b3c4d5e678_expand_story_arc_domain.py:342-381 | Downgrading an upgraded table returns the legacy rows whose issue exists, NULL sequence numbers included; all of them exactly when every issue exists |
| StoryArcs.UpgradeUndoesDowngrade | alembic/versions/a2b3c4d5e678_expand_story_arc_domain.py:855-888 | For a table the guard accepts, downgrading and upgrading is the identity exactly when every row still holds the number its position earns and its issue's text |
| StoryArcs.GuardAcceptsEditedRow | alembic/versions/a2b3c4d5e678_expand_story_arc_domain.py:838-852 | Concrete table that the guard accepts although the downgrade forgets a number |
| IssueNumbers.TextReadsBack | alembic/versions/z1a2b3c4d567_add_issue_number_text.py:29-44 | The formatted text parses back to the same numeric value |
| IssueNumbers.EqualValuesFormatAlike | alembic/versions/z1a2b3c4d567_add_issue_number_text.py:37-44 | Numerically equal values, with trailing zeros, exponents or a negative zero, format alike |
| IssueNumbers.FormatIsCanonical | alembic/versions/z1a2b3c4d567_add_issue_number_text.py:29-44 | Two values print alike exactly when they are numerically equal |
| IssueNumbers.FormatsWhenWritable | alembic/versions/z1a2b3c4d567_add_issue_number_text.py:29-44 | A value formats exactly when some plain decimal text of at most 320 characters reads back to it, and then to the shortest such text |
| IssueNumbers.PlainTextIsShortest | alembic/versions/z1a2b3c4d567_add_issue_number_text.py:37-41 | Every other text of the value is longer than the trimmed one |
| IssueNumbers.TrimJoin | alembic/versions/z1a2b3c4d567_add_issue_number_text.py:40-41 | Trimming strips zeros of the fraction, and the point when nothing is left behind it, and never a zero of the whole part |
| KeysetScan.PageAdvances | alembic/versions/z1a2b3c4d567_add_issue_number_text.py:57-76 | A page is empty exactly when nothing is left; otherwise it is the front of the remaining id order, continuing after its last id gives the rest, and fewer ids are left |
| KeysetScan.PageCovers | alembic/versions/z1a2b3c4d567_add_issue_number_text.py:57-76 | A page holds exactly the ids between the cursor and its own last id |
| KeysetScan.InOrderAscends | alembic/versions/z1a2b3c4d567_add_issue_number_text.py:50-52 | The scan order is strictly ascending |
| IssueBackfill.IssueTable.FormatPage | alembic/versions/z1a2b3c4d567_add_issue_number_text.py:68-74 | A page has updates for exactly its rows when every number formats, and fails when one does not |
| IssueBackfill.IssueTable.Backfill | alembic/versions/z1a2b3c4d567_add_issue_number_text.py:47-76 | For every batch size: succeeds exactly when every scanned number has a plain text of at most 320 characters, then equals one pass over all rows and leaves the shortest text in each; a failure leaves a filled front |
| IssueBackfill.BackfillIsUnique | alembic/versions/z1a2b3c4d567_add_issue_number_text.py:79-92 | Numbers unique by value in each series, as the legacy unique constraint has it, get texts unique as strings |
| IssueBackfill.IssueTable.Upgrade | alembic/versions/z1a2b3c4d567_add_issue_number_text.py:131-132 | Succeeds exactly when every scanned number has such a text and no text occurs twice in a series; under the legacy unique constraint the duplicate check never fires |
| IssueBackfill.IssueTable.AssertDowngradeIsLossless | alembic/versions/z1a2b3c4d567_add_issue_number_text.py:95-121 | For every batch size: passes exactly when dropping the texts and filling them in again restores every text that was there |
| LibraryDigest.DigestInput | scripts/benchmark_import_execute.py:92-109 | For every page size the hashed bytes are the frames of the table's own names, encoded, in ascending order of their positive ids; fails exactly when an encoded name has 2^64 bytes or more |
| LibraryDigest.FeedPage | scripts/benchmark_import_execute.py:105-109 | A page appends the frames of exactly its names in order and moves the cursor to its last id |
| LibraryDigest.BigEndianWeighs | scripts/benchmark_import_execute.py:107 | The length bytes, weighted by falling powers of 256, add up to the length |
| LibraryDigest.FrameShape | scripts/benchmark_import_execute.py:107-108 | A frame is eight bytes that spell the length, and then the name |
| LibraryDigest.FrameStandsAt | scripts/benchmark_import_execute.py:105-109 | Each frame stands behind those of the names before it |
| LibraryDigest.BigEndianDetermines | scripts/benchmark_import_execute.py:107 | Two numbers that fit have different big-endian bytes unless they are equal |
| LibraryDigest.FramedDetermines | scripts/benchmark_import_execute.py:105-109 | No two lists of encoded names produce the same hashed bytes |
| LibraryDigest.DigestInputDetermines | scripts/benchmark_import_execute.py:105-109 | No two lists of names produce the same hashed bytes |
| LibraryDigest.DigestInputDeterminesTable | scripts/benchmark_import_execute.py:92-109 | Two tables with the same positive ids that feed the same bytes hold the same names there |
| FolderWalk.FolderScan.CollectFolderFiles | native/mega_bridge/main.cpp:234-267 | Over any child relation, cycles included: terminates, succeeds exactly when the folder's unfolding is complete and fits the budget that is left, and then has appended its files in preorder and counted its entries |
| FolderWalk.ResolveOnlyFile | native/mega_bridge/main.cpp:304-311 | A folder resolves exactly when it unfolds completely to at most 10000 entries with one file, and to that file |
| FolderWalk.WalkFails | native/mega_bridge/main.cpp:247-264 | Once an entry or what lies below it does not fit, nothing the folder unfolds to fits |
| FolderWalk.ListUnfoldsOnce | native/mega_bridge/main.cpp:234-267 | A child list unfolds in one way only, whatever depth is allowed |
| BridgeRequest.Input.ReadExact | native/mega_bridge/main.cpp:89-98 | Succeeds exactly for length 0 or when that many bytes are left before the end was hit, and then consumes exactly them |
| BridgeRequest.Input.GetLine | native/mega_bridge/main.cpp:104-105 | Consumes a line and its newline, or what is left at the end of the data |
| BridgeRequest.Input.ReadLengths | native/mega_bridge/main.cpp:102-130 | Accepts exactly a header and a well-formed lengths line, and leaves the fields unread |
| BridgeRequest.Input.ReadFields | native/mega_bridge/main.cpp:132-143 | Returns the three fields of the announced lengths exactly when they are there and free of NUL |
| BridgeRequest.Input.ReadBridgeRequest | native/mega_bridge/main.cpp:100-144 | Accepts exactly the frames, returns their three fields, and leaves what follows unread |
| BridgeRequest.SentBytesAreFrame | src/pullbox/providers/artifact_hosts/mega.py:341-348 | The bytes the runner sends are a frame of the request, whatever follows them, newlines and spaces in fields included |
| BridgeRequest.FramesAreAcceptable | src/pullbox/providers/artifact_hosts/mega.py:440-445 | Every frame the reader accepts holds a request within the runner's own limits |
| BridgeRequest.FramesAgree | native/mega_bridge/main.cpp:100-144 | A byte stream starts with one frame at most: its lengths line, its request and its tail are determined |
| BridgeRequest.LengthsReadBack | native/mega_bridge/main.cpp:110-130 | The lengths line of an acceptable request parses to its three lengths |
| BridgeRequest.SizesMean | native/mega_bridge/main.cpp:64-87 | A size is read exactly from its digits behind zeros, ten characters at most, up to 16384 |
| BridgeRequest.TokensOfSpaced | native/mega_bridge/main.cpp:110-120 | Words with blanks between them are read as these words |
| BridgeRequest.TokensSplit | native/mega_bridge/main.cpp:110-120 | Every line is the words read from it, with blanks around and between them |
| BridgeRequest.SendAndRead | native/mega_bridge/main.cpp:100-144 | Sending and reading returns the request and leaves exactly the bytes behind it |
| BridgeRequest.HexEncode | native/mega_bridge/main.cpp:46-55 | The output decodes to the input |
| BridgeRequest.HexReadsBack | native/mega_bridge/main.cpp:46-55 | Decoding undoes hexadecimal encoding for every byte string |
| BridgeRun.Bridge.WaitForRequest | native/mega_bridge/main.cpp:186-201 | Succeeds exactly on a success reply without output, and otherwise writes the one error line of that reply |
| BridgeRun.Bridge.ResolveFolderNode | native/mega_bridge/main.cpp:269-312 | Succeeds exactly when both requests succeed and either the selected handle is a file or the folder holds one file; otherwise writes one error line, that of the first failure |
| BridgeRun.Bridge.TransferNode | native/mega_bridge/main.cpp:347-404 | Writes the metadata line, the progress of every wait in order, and one verdict; a cancellation seen at any wait decides it |
| BridgeRun.Bridge.Run | native/mega_bridge/main.cpp:418-498 | The lines of a whole run, read from the bytes on standard input on; exit code 0 exactly with a completion, 2 exactly when those bytes do not start with a frame or the destination is rejected, otherwise 1 |
| BridgeRun.RunWritesTranscript | native/mega_bridge/main.cpp:418-498 | Every run writes one error, or metadata, progress lines and one final error or completion; no error is both retryable and an intervention; no completion follows an observed cancellation |
| BridgeRun.RunCompletesWhen | native/mega_bridge/main.cpp:347-404 | A run completes exactly when nothing failed early, no signal arrived, the transfer succeeded and the file exists; the completion repeats the announced name |
| BridgeRun.TransferStartsWhen | native/mega_bridge/main.cpp:423-492 | A transfer starts exactly when the frame and the destination are accepted, the cache exists and the link resolves: a folder link without the session, a file link after the account if a session was sent |
| BridgeRun.EarlyFailureMeans | native/mega_bridge/main.cpp:269-330 | Which line reports a failure that is not an answer of the SDK, by the first that applies |
| BridgeRun.TransferEndsWith | native/mega_bridge/main.cpp:383-401 | A started transfer ends with a cancellation, then the SDK's error, then a missing file, by the first that applies |
| BridgeRun.ErrorCodesMean | native/mega_bridge/main.cpp:146-168 | Which errors each code stands for, in both directions |
| BridgeRun.ErrorFlagsMean | native/mega_bridge/main.cpp:170-184 | Which errors may be tried again and which need an intervention; none does both |
| BridgeRun.FolderLinksMean | native/mega_bridge/main.cpp:406-409 | A link is a folder link exactly when one of the two markers occurs in it |
| BridgeRun.SelectedHandleMeans | native/mega_bridge/main.cpp:221-232 | The selected handle starts behind the first file marker and ends before the next delimiter or with the link |
| BridgeEvents.LineReadsBack | src/pullbox/providers/artifact_hosts/mega.py:361-403 | The runner reads a bridge line as an event exactly when its numbers, name or code are within its limits, and then as the event the line stands for |
| BridgeEvents.RunErrorsReadBack | src/pullbox/providers/artifact_hosts/mega.py:381-384 | Every error line of every run reads back with its code and both flags |
| BridgeEvents.RunReadsBack | src/pullbox/providers/artifact_hosts/mega.py:361-403 | The runner reads every line of a run exactly when the run fails early or its announced name, its sizes and all its updates are within the limits |
| BridgeEvents.CompletedRunCanBeUnreadable | src/pullbox/providers/artifact_hosts/mega.py:390-394 | Concrete run that completes although its first line is a protocol error to the runner |
| TypeRepair.ConsensusOfList | alembic/versions/n9o0p1q2r345_repair_series_type_classification.py:248-260 | The consensus depends on which types the titles state, not on their order or number |
| TypeRepair.ClassifySeries | alembic/versions/n9o0p1q2r345_repair_series_type_classification.py:302-313 | A series gets the type the evidence gives: what its title or description says; for a series that is not standard, what all its issue titles agree on, or a volume for several collection types; failing that its own type, unless that is a one-shot or a special |
| TypeRepair.Catalog.GroupBySeries | alembic/versions/n9o0p1q2r345_repair_series_type_classification.py:289-299 | Each group lists exactly the issues of its series, whatever order the query returns |
| TypeRepair.Catalog.RepairIssues | alembic/versions/n9o0p1q2r345_repair_series_type_classification.py:317-347 | Rewrites exactly the rows of one group, each to its repaired type |
| TypeRepair.Catalog.RepairConnection | alembic/versions/n9o0p1q2r345_repair_series_type_classification.py:263-352 | The tables end as a function of their start, so no order of series or issues matters; every series ends with the type the evidence gives; it reports a change exactly when the tables differ |
| TypeRepair.EvidenceDecides | alembic/versions/n9o0p1q2r345_repair_series_type_classification.py:302-315 | The repaired type is the one the classifier's answers on the series and its issue titles give, and no other |
| TypeRepair.SeriesChangesWhen | alembic/versions/n9o0p1q2r345_repair_series_type_classification.py:308-315 | Without evidence of its own a series changes exactly when its issues agree on another type, when they state several collection types and it is no volume, or when neither holds and it is a one-shot or a special |
| TypeRepair.IssueTypesAfter | alembic/versions/n9o0p1q2r345_repair_series_type_classification.py:317-347 | The type of every issue after the repair: the stated type or else the new inherited one for issues of a moved series that hold the plain or the old inherited type and are not protected; unchanged otherwise |
| TypeRepair.RepairTwice | alembic/versions/n9o0p1q2r345_repair_series_type_classification.py:263-352 | A second run updates nothing, in whatever order the queries of either run return the rows |
| TypeRepair.RepairIsIdempotent | alembic/versions/n9o0p1q2r345_repair_series_type_classification.py:301-352 | Repairing repaired tables gives the same tables |
| TypeRepair.RepairedTypesAreFinal | alembic/versions/n9o0p1q2r345_repair_series_type_classification.py:302-315 | A repaired series keeps its type when classified again |
| TypeRepair.OnlyInheritedTypesChange | alembic/versions/n9o0p1q2r345_repair_series_type_classification.py:317-347 | An issue changes only with its series, only away from the plain type or the type inherited before, and to the type its title states or the new inherited one |
| TypeRepair.NoStaleInheritance | alembic/versions/n9o0p1q2r345_repair_series_type_classification.py:333-347 | After a series changes type, an issue that keeps the stale inherited type without stating it is protected by its import source |
| TypeRepair.OnlyStandardSeriesLoseParent | alembic/versions/n9o0p1q2r345_repair_series_type_classification.py:349-352 | A parent is lost only, and always, by a series that becomes standard; title and description never change |
| DefaultRoot.LibraryRoots.Upgrade | alembic/versions/h9c0d1e2f345_add_library_root_management.py:65-73 | All rows keep path and state, get both roles, and the selected root becomes the default |
| DefaultRoot.LibraryRoots.Downgrade | alembic/versions/h9c0d1e2f345_add_library_root_management.py:87-114 | Accepts exactly the representable tables; a refusal leaves the table alone |
| DefaultRoot.LibraryRoots.UpgradeAndDowngrade | alembic/versions/h9c0d1e2f345_add_library_root_management.py:35-114 | Upgrading and then downgrading always succeeds and restores the legacy table |
| DefaultRoot.UpgradeSelectsOneDefault | alembic/versions/h9c0d1e2f345_add_library_root_management.py:25-32 | At most one default, one exactly when a root is enabled, and it is the lowest enabled root at the configured directory or else the lowest enabled root |
| DefaultRoot.UpgradeIsRepresentable | alembic/versions/h9c0d1e2f345_add_library_root_management.py:87-109 | The downgrade checks pass on every freshly upgraded table |
| DefaultRoot.AcceptedIffRebuilt | alembic/versions/h9c0d1e2f345_add_library_root_management.py:87-109 | The downgrade accepts exactly the tables that upgrading its result restores in all three columns |
| MaintenanceGate.StepKeepsInvariant | src/pullbox/database.py:388-403 | Every step of every task keeps: gate closed, reason set, lock held and one active window agree; every window that began is active or ended once; an open gate leaves nobody parked; no lock waiter is forgotten; an operation that did not park starts outside windows |
| MaintenanceGate.RunKeepsInvariant | src/pullbox/database.py:352-403 | The same at every suspension point of every run |
| MaintenanceGate.EveryExitReopens | src/pullbox/database.py:393-403 | A window ends exactly when its body returns, raises or is cancelled, or its engine disposal raises or is cancelled; each of these reopens the gate, clears the reason, wakes every parked operation, frees the lock, wakes its first waiter, and passes the exit on |
| MaintenanceGate.BodyBeginsWithoutEngine | src/pullbox/database.py:378-399 | At the moment a body begins there is no engine: it was disposed of, or there was none |
| MaintenanceGate.LockIsHandedOn | src/pullbox/database.py:393 | From every invariant state with the lock free, steps of the waiters alone lead to an empty queue or a window, and into a window as long as one waiter is not cancelled |
| MaintenanceGate.StartInsideWindow | src/pullbox/database.py:352-354 | A step starts an operation inside a window exactly when the operation was woken and runs on while the gate is closed; it was woken before that window began |
| MaintenanceGate.RunStartsInsideWindow | src/pullbox/database.py:352-354 | A run has started an operation inside a window exactly when one of its steps so far was such a step |
| MaintenanceGate.WokenOperationCanStartInsideWindow | src/pullbox/database.py:352-354 | Concrete run in which that happens |

## Left out

- Float rounding of the quotas: the model uses exact rationals with a common denominator.
- The seeded shuffle: any permutation of the candidates is allowed as its result.
- Row objects of the catalog beyond volume id and issue count: the allocation reads nothing else.
- FixtureNames.SeriesSegment: models the path segment, not the publisher and initial directories that `_series_directory` may put above it, because those only prefix the segment.
- XML filtering, NFC, character replacement and reserved device names: one `Cleaner` function stands for them, and nothing is claimed about its result.
- The story-arc guard's checks of other tables (staged imports, placements, folder cohorts, external identities, arc policy): each is one emptiness query on a table the rebuild does not touch.
- `_backfill_normalized_story_arc_names`: the same keyset loop as the issue-number backfill, with a formatter that cannot fail.
- Surrogate ids and timestamps of memberships: the downgrade reads neither.
- IssueBackfill.IssueTable.Backfill: does not model the transaction around the migration, so a failure shows the filled front rather than a rollback.
- How a stored float becomes decimal text: a row holds the sign, coefficient and exponent that its text spells.
- SHA-256 itself, and names that cannot be encoded as UTF-8: the model stops at the bytes that are fed.
- FolderWalk.Graph: child lists do not change during one walk.
- BridgeRun.Environment: whether the destination can be used is given, not computed from a file system; update callbacks arrive only while the transfer is awaited, and a signal is observed at the end of a wait; threads, output locking, secret erasure and removal of the cache directory are not modelled.
- BridgeEvents.ParseEvent: stands for parsing only, so file-name cleaning, event counts, line length limits and timeouts of the runner are not modelled; it splits at the blanks of ASCII that C and Python share.
- Regular expressions, entity unescaping and the description window of the series classifier: the `Classifier` parameter gives their results.
- DDL, indexes, constraints and batch rebuilds of all migrations, except that the unique constraints appear as hypotheses.
- MaintenanceGate.After: operations are opaque between start and end, a window's body issues no gated operation of its own, the engine may be created again by any step, and the disposal at application shutdown is not modelled.
- MaintenanceGate.LockIsHandedOn: shows that steps into a window exist, not that a scheduler eventually takes them.
- Seed scripts, archive and image writers, settings, routes and user interface: outside the logic modelled here.
