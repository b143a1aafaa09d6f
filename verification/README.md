# Verified model of p101-inspect and inspect-capture

This project models the evidence chain of `p101-inspect`: how `inspect-capture` records the
fingerprints of a run, how `analyze` binds a finished analysis, how both are checked again, and how
findings are indexed, compared and judged. It proves that what the writers write the readers accept, that
acceptance means exactly what it should, and that later steps never spoil earlier ones.

## How the model is built

- **Bytes and lines** (`CText.dfy`). A byte is a `char`, a file a `string`. `fgets` splits at newlines and at its
  8192-byte buffer; the string functions see each buffer up to its first NUL. `strtoumax`, `strtol` and `strtoul`
  follow sections 7.8.2.3 and 7.22.1.4 of ISO C17 with 64-bit types; white space, signs and `0x` are accepted.
- **Directories and streams** (`Files.dfy`). A directory is an object with a map from names to bytes. Every create,
  print and close may fail and may leave the file damaged; until a stream is closed, any part of its text may have
  reached the file. In a path that names no directory nothing can be created. A failure is remembered (`faulty`), so
  contracts can say that nothing fails without one. Reading is reliable.
- **The libraries** (`Library.dfy`) are functions of the bytes they get: the fingerprint, the receipt printer and
  reader, the analysis and the pattern matcher. The chain theorems assume that the receipts printed for the analysis at
  hand are read back as printed (`AnalysisChain.ReceiptsReadBack`), and the capture theorems that the schema name is
  ordinary text.
- **The evidence chain**: `Artifacts.dfy` (artifact lines), `Evidence.dfy` (the table of flags), `AnalysisManifest.dfy`
  and `AnalysisChain.dfy` (the analysis side), `CaptureReceipt.dfy`, `CaptureRun.dfy` and `CaptureManifest.dfy` (the
  capture side).
- **What uses it**: `FindingIndex.dfy` and `ModelCompare.dfy`, `Expectations.dfy`, `RulePacks.dfy`, `FileSearch.dfy`,
  `Meanings.dfy` (what keys and packs ask for, by name), `Texts.dfy` (the written files line by line),
  `ArgumentVectors.dfy`, `ReportDirectory.dfy`, and `CaptureProgram.dfy`, `AnalyzeRun.dfy` and `RunCommand.dfy`, which
  put the pieces together.
- **Number printing** of the bundled Unity runner: `UnityPrint.dfy`.

The main results are `Evidence.AcceptedIffPermutation`, `AnalysisManifest.VerifyAnalysisManifest`,
`AnalysisChain.TamperingIff`, `Artifacts.ParseLineIff`, `CaptureRun.Capture`, `CaptureRun.CaptureRoundTrip`,
`CaptureManifest.VouchesIffDated`, `ReportDirectory.CreateReportDirectory`, `FindingIndex.IndexDecides`,
`FindingIndex.FileUniqueIff`, `Expectations.ModelVerify`, `RulePacks.CheckComposes`, `ArgumentVectors.ReadArgumentsIff`,
`AnalyzeRun.ComparisonMeans`, `RunCommand.Run` and `UnityPrint.FloatTextDenotes`. Lemmas called `...ByName`, `...ByLine`
and `...Mean` tie the definitions used in these results to the file names, keys, roles and patterns themselves.

A program that makes several print calls in a row is written as one loop over the list of texts. `hide` statements
only keep definitions a proof does not need out of it.

## Behaviour worth knowing

- An error raised while `command.txt` is written is lost: `src/paths.c:231-238` takes it for a failing clock and
  resets it, and the run goes on to fingerprint whatever was written (`CaptureManifest.LostError`). The only trace is
  the missing `generated_at_unix` line: with it `command.txt` is complete, without it nothing is promised
  (`CaptureManifest.VouchesIffDated`).
- Two findings or more never determine the index file among all collections: one finding whose last field holds the
  later rows prints the same (`FindingIndex.FileUniqueIff`). That is why `IndexDecides` needs clean fields on both sides.
- `create_directory_component` accepts any existing name: the report directory is a directory after success exactly when
  nothing else stood at its path before (`ReportDirectory.FolderIffMayBe`, with an input in `FileInTheWay`). A run then
  fails at its first file, so a capture with exit 0 or 1 does lie in a directory (`CaptureProgram.ObserveRun`).
- `analyze` adds nothing for a signalled command (`src/inspect_main.c:448`, `AnalyzeRun.AnalyzeExitIsWorse` and
  `AnalyzeOfFinished`), while `run` does, since `inspect-capture` itself exits 1 for it.
- An unsatisfied expectation whose text is 8165 bytes or longer is trouble, not a failure
  (`Expectations.BrokenIff`).
- `run` ignores a capture status above 2 (`RunCommand.RunExitIsWorse`).
- `exit=` without digits counts as exit status 0 (`CaptureReceipt.ExitTexts`), and of several status lines the last one
  wins (`CaptureReceipt.AbsorbAllSplits`).

## Model

| member | source | states |
|---|---|---|
| CText.ChunksOfLines | src/inspect_main.c:528-572 | `fgets` with the 8192-byte buffer reads back exactly the newline-terminated lines that were written, whatever follows them |
| CText.ChunksJoin | src/inspect_main.c:528-572 | the pieces `fgets` delivers, joined, are the whole file: no byte is skipped or read twice |
| CText.ScanDigits | src/inspect_main.c:736-766 | any printed digit string, decimal or hexadecimal, is converted to its value and the conversion ends exactly at its end |
| CText.ScanDecimalInt | src/inspect_main.c:991 | a number printed with `%d`, negative ones included, reads back as itself |
| CText.ScanSpelled | src/inspect_main.c:549-550 | a text that begins with white space, a sign and digits is read as that number, up to its last digit |
| CText.ScannedIsSpelled | src/inspect_main.c:549-550 | only such a text is read as a number at all |
| CText.PrintedWidths | src/report.c:186 | a 64-bit count takes at most 20 decimal digits and the `%016` hexadecimal form exactly 16 characters |
| CText.NoLeadingZero | test/unity/unity.c:276-292 | the decimal numeral of a positive number has no leading zero |
| CText.PaddedOfValue | src/report.c:186 | a lower-case digit string of some width is exactly what its value prints as in that width |
| Numbers.NumberIsRead | src/inspect_main.c:736-766 | a text of white space, a sign, in base 16 perhaps `0x`, and digits below 2^64 is converted to its value, negated modulo 2^64 after a minus sign, whatever stops it |
| Numbers.ReadIsNumber | src/inspect_main.c:736-766 | whatever is converted without a range error is such a text with that value |
| Artifacts.ParseUnsignedField | src/inspect_main.c:736-766 | moving a cursor: exact prefix, then whatever `strtoumax` accepts up to the maximum; the cursor ends where the conversion ended and stays put on failure |
| Artifacts.ParseArtifactLine | src/inspect_main.c:671-734 | the cursor-moving parser yields the role and the four numbers of `ParseLine`, and fails exactly when it does |
| Artifacts.ParseLineIff | src/inspect_main.c:671-766 | a line is accepted for an entry if and only if it is `artifact=`, a role of 1 to 63 bytes without a tab, and the four named numbers with the entry's values, and then the text or the line ends; anything left over refuses it |
| Artifacts.LineRoundTrip | src/inspect_main.c:671-766 | a printed artifact line parses back to its role, counts, newline flag and 64-bit hash if and only if the role is non-empty, tab-free and under 64 bytes |
| Artifacts.LineInjective | src/report.c:186 | two entries with valid roles that print the same line are the same entry |
| Artifacts.SignedCountAccepted | src/inspect_main.c:736-766 | an input for which parsing and printing again gives another line: a plus sign before the byte count is accepted |
| Artifacts.CanonicalIff | src/inspect_main.c:671-766 | an accepted line is the one its entry prints if and only if it is in canonical form: plain counts without sign, space or leading zero, 16 lower-case hash digits without `0x`, one newline at the end |
| Artifacts.LineIsLine | src/report.c:186 | a printed artifact line always fits the line buffer of the reader and holds no stray newline or NUL |
| Evidence.VerifyArtifact | src/inspect_main.c:605-669 | a line is accepted when its role is in the table, not yet observed, and the file has the stated fingerprint; then exactly that flag is set, in place, and nothing else changes |
| Evidence.ObserveIff | src/inspect_main.c:626-664 | a line is accepted exactly when it claims something the directory shows and no earlier line claimed; accepting it removes exactly that claim |
| Evidence.AcceptedIffPermutation | src/inspect_main.c:605-669 | the flags fill up exactly when the lines all parse and, as a multiset, are one line per required file with its present fingerprint |
| Evidence.CheckObserved | src/inspect_main.c:583-590 | the closing loop: accepted exactly when no flag is missing |
| Evidence.ClaimsPermutation | src/inspect_main.c:605-669 | what a body of artifact lines claims does not depend on their order |
| Evidence.RecordsClaim | src/report.c:170-190 | the lines written for a table claim exactly what the directory shows for it |
| Evidence.WantedSame | src/inspect_main.c:650-664 | two directories satisfy the same claims exactly when every required file has the same fingerprint in both |
| AnalysisManifest.ObserveLines | src/inspect_main.c:1985-1993 | the reading loop gives up at the first refused line and otherwise leaves the flags as all lines together set them |
| AnalysisManifest.VerifyAnalysisManifest | src/inspect_main.c:1927-2019 | accepts exactly when the header is right and the other lines are a permutation of the 17 names, each with the fingerprint of the file as it is |
| AnalysisManifest.AcceptedByName | src/inspect_main.c:1927-2019 | an accepted manifest by file name: its own, its header, and the 17 files whose fingerprints it must claim |
| AnalysisManifest.WriteAnalysisManifest | src/inspect_main.c:1009-1082 | on success the manifest lists the 17 fingerprints of the directory as it was, and no other file has changed; on failure only the manifest may have |
| AnalysisManifest.ManifestRoundTrip | src/inspect_main.c:1009-1082 | the manifest written for a directory is accepted there |
| AnalysisManifest.AcceptedBodies | src/inspect_main.c:1977-2010 | an accepted manifest has exactly 18 lines, and any reordering of the lines after the header is accepted too |
| AnalysisManifest.EveryLineCounts | src/inspect_main.c:1977-2010 | dropping a line or repeating one turns acceptance into rejection, and every line names one of the 17 files |
| AnalysisManifest.SameFilesIff | src/inspect_main.c:650-664 | for the 17 files: same claims exactly when all 17 fingerprints agree |
| AnalysisChain.WriteAnalysisReceipt | src/inspect_main.c:1084-1160 | on success the receipt carries the outcome and the fingerprint of the manifest as it was, and nothing else has changed |
| AnalysisChain.ReceiptFits | src/inspect_main.c:1119-1142 | the receipt of an analysis fits together: clean exactly for status 0, and no failure and no stage exactly then; the identities are the hash of the manifest, the first diagnostic that of the first finding |
| AnalysisChain.AnalysisResult | src/inspect_main.c:1852-1925 | accepts exactly when the receipt is valid and fingerprints the present manifest, the manifest is accepted, and the model holds its schema line; the status is the recorded outcome |
| AnalysisChain.SoundByName | src/inspect_main.c:1852-1925 | the chain by file name: which file binds which, and the line the model must hold |
| AnalysisChain.BindAnalysis | src/inspect_main.c:435-442 | running both writers in order leaves a directory whose manifest and receipt bind it, touching no other file |
| AnalysisChain.ChainRoundTrip | src/inspect_main.c:1852-1925 | a directory bound by the two writers is accepted unchanged, with status 0 for a clean analysis and 1 otherwise |
| AnalysisChain.ManifestEditRejected | src/inspect_main.c:1887-1905 | any edit that changes the fingerprint of the manifest, receipt untouched, is rejected |
| AnalysisChain.FileEditIff | src/inspect_main.c:1852-2019 | with receipt and manifest untouched, an accepted directory stays accepted exactly when none of the 17 fingerprints has changed and the model keeps its schema line |
| AnalysisChain.TamperingIff | src/inspect_main.c:1852-2019 | for every edit that leaves the receipt alone and forges no manifest of equal fingerprint: the directory stays accepted if and only if the manifest is untouched, none of the 17 fingerprints has changed and the model keeps its schema line |
| FileSearch.StrStr | src/inspect_main.c:1825 | the search within one line answers whether the needle occurs at some index |
| FileSearch.FileContains | src/inspect_main.c:1805-1850 | reports whether some line, as `fgets` delivers it, holds the needle; fails exactly when the file cannot be read |
| FileSearch.FoundIsPresent | src/inspect_main.c:1805-1850 | whatever the line search finds does occur in the file |
| FileSearch.EmptyNeedle | src/inspect_main.c:1821-1832 | the empty needle is found in every file but the empty one, whatever its lines are |
| FileSearch.FoundIffPresent | src/inspect_main.c:1805-1850 | when every line fits the buffer and there is no NUL, a needle without newlines is found exactly when the whole file holds it; only the empty needle in an empty file is missed |
| CaptureReceipt.VerifyCapture | src/inspect_main.c:475-603 | accepts exactly when the header is right, the artifact lines are a permutation of the seven required ones with present fingerprints, every exit status is in range and there is a command status; also fixes the status it leaves behind, accepted or not |
| CaptureReceipt.AcceptedByName | src/inspect_main.c:475-603 | an accepted receipt by name: file, header, the fingerprint of each of seven named files under its role, acceptable exit statuses, and at least one status |
| CaptureReceipt.ReadReceipt | src/inspect_main.c:528-572 | the loop computes flags, status and the seen-mark of absorbing the lines one by one, stopping at the first refused line |
| CaptureReceipt.ExitTexts | src/inspect_main.c:543-560 | exactly which texts after `exit=` are accepted and as which status: a number from 0 to 255, with white space, a sign and -0 allowed, up to the end of the line; and no text at all, as 0 |
| CaptureReceipt.AbsorbAllSplits | src/inspect_main.c:528-572 | the loop result depends only on the artifact lines in order and the command-status lines in order, the last status winning |
| CaptureReceipt.StatusBeforeRefusal | src/inspect_main.c:533-572 | the status left behind is the last one among the lines before the first refused line, or the initial one if there is none |
| CaptureReceipt.LoopDecides | src/inspect_main.c:528-599 | loop, closing check and seen-mark together succeed exactly on accepted bodies and then report the last status |
| CaptureReceipt.ReorderingIsHarmless | src/inspect_main.c:528-599 | reordering the lines of a body keeps acceptance, and the status when a single line reports it |
| CaptureReceipt.OtherLinesIgnored | src/inspect_main.c:533-572 | inserting a line that is neither an artifact line nor a command status changes neither acceptance nor status |
| CaptureReceipt.ArtifactLinesAllCount | src/inspect_main.c:535-590 | dropping any artifact line, or adding one, turns acceptance into rejection |
| CaptureRun.PutAll | src/report.c:66-76 | consecutive prints append all their texts unless one of them fails; an error pending before stays, and a new one is left exactly when one fails |
| CaptureRun.WriteFile | src/paths.c:176-200 | on success the file holds exactly the texts; after a failure it is as before, or holds a beginning of the texts, each of which may have been cut short; no other file changes, and an error is raised exactly on failure |
| CaptureRun.CommandIsLine | src/paths.c:188-193 | what is printed for a command is its words with single spaces between them and a newline |
| CaptureRun.CommandReadBack | src/paths.c:188-193 | commands whose words hold no space print the same only if they are the same |
| CaptureRun.WriteArtifactFingerprint | src/report.c:170-190 | prints the fingerprint of the file as the directory had it before the receipt was begun, or leaves an error |
| CaptureRun.WriteReceipt | src/report.c:55-94 | without an error the receipt is the preamble, the status, the seven fingerprints and the disclaimer, and no other file has changed |
| CaptureRun.WriteToolReceipt | src/report.c:102-168 | without an error the tool receipt carries the fingerprint of the receipt file as it lies in the directory |
| CaptureRun.ToolReceiptFits | src/report.c:124-155 | the tool receipt fits together: clean exactly for exit 0, and no failure, stage and diagnostic exactly then; its input is the hash of the receipt |
| CaptureRun.WriteReceipts | src/report.c:55-100 | without an error every recorded fingerprint is that of the file as it is at the end, and the tool receipt binds the finished receipt |
| CaptureRun.FinishCapture | src/runner.c:10-39 | exit 0 or 1 only with a finished capture and the summary in place, and 0 exactly when the command exited 0; exit 2 only after an error, and an error only if one was pending, a file could not be written or fingerprinted, or the message not be printed; no other file than the summary and the two receipts changes |
| CaptureRun.WriteManifestFile | src/paths.c:202-291 | once the file is open, an error afterwards can only come from writing it: one pending before, a failing clock and a failing `uname` are reset. On success the text is complete but for the time, left out when an error was pending or the clock failed, and the host, left out when `uname` failed |
| CaptureRun.Prepare | src/runner.c:76-89 | without an error the logs are empty, the manifest is as above for the error `command.txt` left, and `command.txt` is complete, or as before or as a failed write leaves it if writing it failed |
| CaptureRun.Capture | src/runner.c:48-100 | exit 2 if and only if there is an error: something could not be written or fingerprinted, the command not be run or the message not be printed. In every other run each artifact line records the fingerprint of the final contents, the tool receipt binds the receipt, and the command was started from a directory prepared as above |
| CaptureManifest.ManifestShows | src/paths.c:255-271 | read line by line, a manifest has its time line exactly when a time was printed and its host line exactly when a host was |
| Texts.ManifestByLine | src/paths.c:271-283 | after its options a manifest says where the files are, whether arguments and results were logged, and the command |
| CaptureManifest.ManifestTells | src/paths.c:228-271 | the manifest is complete exactly when writing `command.txt`, the clock and `uname` all went well; it has its time line exactly when the first two did, and then `command.txt` is complete |
| CaptureManifest.LostError | src/paths.c:231-238 | a launch whose `command.txt` is the empty file of a failed write and whose manifest swallowed the error |
| CaptureManifest.VouchesIffDated | src/paths.c:228-271 | a manifest guarantees a complete `command.txt` in every run that can leave it if and only if it has its time line |
| CaptureRun.CaptureRoundTrip | src/inspect_main.c:475-603 | the receipt of a finished capture is accepted on unchanged files exactly when the command exited or was signalled, with status 0, 1 or 2 for exit zero, any other exit and a signal; a raw status is never accepted |
| CaptureRun.StatusLineReadBack | src/report.c:192-206 | the status line is read back as the status it reports; the raw form is not a command status at all |
| CaptureRun.ReceiptReadable | src/report.c:66-93 | every line of a written receipt is read back as one line |
| CaptureRun.BodyOfReceipt | src/report.c:66-93 | of a written receipt the reader sees exactly the seven artifact lines and the one status line |
| Texts.ReceiptRecords | src/report.c:78-88 | a receipt ends with the lines of seven named files under their roles, in order, and the disclaimer |
| CaptureRun.RunIdPlain | src/paths.c:75 | the run identifier is printable and fits its buffer for every process id and time |
| CaptureRun.RunIdInjective | src/paths.c:73 | process, second and nanosecond can be read back from the run identifier: different runs have different ones |
| CaptureProgram.ObserveRun | src/runner.c:48-100 | the whole run with naming and creating the directory: exit 2 if and only if there is an error, and one only without a clock, without a way to make the directory, or as in the capture; otherwise nothing but a directory stood at the path, the path and all its parents are directories now, and the capture is complete |
| CaptureProgram.Start | src/main.c:9-93 | from an argument vector to the capture it asks for: exit 2 exactly on a usage error, unacceptable arguments, help that cannot be printed or a failed run, each told from the others; otherwise a complete capture of exactly the arguments read, in a directory whose path names directories only, or help and nothing captured |
| FindingIndex.StrCmpZero | src/inspect_main.c:870-900 | `strcmp` is antisymmetric in sign and zero exactly on equal texts |
| FindingIndex.CompareZero | src/inspect_main.c:870-900 | the six-key comparator is antisymmetric in sign and zero exactly when all six fields agree |
| FindingIndex.CompareTransitive | src/inspect_main.c:870-900 | the comparator is transitive, so it orders findings totally up to equal keys |
| FindingIndex.CompareIsOrder | src/inspect_main.c:870-900 | the comparator puts a finding first exactly when, in the first of the six fields that differs, its text is a proper prefix or has the smaller byte at the first difference, or its line number is smaller |
| FindingIndex.SortedKeysUnique | src/inspect_main.c:967-971 | two lists sorted by the comparator with the same multiset of keys list the same keys in the same order |
| FindingIndex.IndexIsCanonical | src/inspect_main.c:947-1007 | whatever order the findings come in and whatever correct sort is used, equal multisets of six-field findings give byte-identical index files |
| FindingIndex.IndexAscends | src/inspect_main.c:967-993 | an index file is its header and one row of six tab-separated fields per finding, in ascending order of the fields, losing and inventing none |
| FindingIndex.RowsInjective | src/inspect_main.c:986-993 | rows without tabs in their fields and newlines in their identifiers are read back one by one: the border is the last newline before the next tab |
| FindingIndex.IndexDecides | src/inspect_main.c:947-1007 | when no string field holds a tab and no identifier a newline, two index files are equal exactly when the multisets of six-field findings are; newlines in the other fields do no harm |
| FindingIndex.TabsCollide | src/inspect_main.c:991 | an input: with a tab inside a field, different findings give the same file |
| FindingIndex.NewlinesCollide | src/inspect_main.c:991 | an input: with a newline inside an identifier, different findings give the same file even without any tab in a field |
| FindingIndex.RowUniqueIff | src/inspect_main.c:991 | a printed row determines its finding exactly when no string field of it holds a tab |
| FindingIndex.FileUniqueIff | src/inspect_main.c:986-993 | a file determines its collection among all collections if and only if there is no finding, or a single one without tabs: two or more print the same file as one finding whose last field swallows the later rows |
| ModelCompare.QSort | src/inspect_main.c:971 | rearranges the array into an order the comparator accepts, losing and inventing nothing |
| ModelCompare.WriteFindingIndex | src/inspect_main.c:947-1007 | on success the index file is the canonical index of the findings, and no other file has changed |
| ModelCompare.CompareFilePair | src/inspect_main.c:2880-2928 | byte by byte: reports a difference exactly when the two files differ, a proper prefix included; fails exactly when one cannot be read |
| ModelCompare.CompareModels | src/inspect_main.c:2820-2878 | exits 2 exactly when one of the two chains is not sound, otherwise 0 exactly when model and finding index agree |
| Expectations.AnalysisHasFinding | src/inspect_main.c:2149-2170 | found exactly when some finding identifier matches the pattern |
| Expectations.NodePresent | src/inspect_main.c:2507-2544 | present exactly when some entered call, or some resource class, matches |
| Expectations.EdgeCount | src/inspect_main.c:2478-2492 | counts the edges with the given name |
| Expectations.CheckExpectation | src/inspect_main.c:2377-2558 | the chain of key comparisons gives up exactly on expectations `Check` calls malformed, and otherwise answers as it does |
| Expectations.JudgeLine | src/inspect_main.c:2358-2583 | cutting the line in place at its newline and first `=` judges it as its text says |
| Expectations.CheckLines | src/inspect_main.c:2344-2587 | the loop gives up exactly when some line is broken, wherever it stands, and otherwise counts a failure exactly when some line fails |
| Expectations.ModelVerify | src/inspect_main.c:2290-2622 | 2 unless the chain is sound, the inputs load and the file opens with its header and has no broken line; then 0 exactly when every expectation holds |
| Expectations.BrokenIff | src/inspect_main.c:2364-2583 | a line is trouble exactly when it is malformed, or fails and is too long for the message buffer |
| Expectations.LongFailureIsTrouble | src/inspect_main.c:2566-2571 | a well-formed failing expectation that gives trouble instead of a failure |
| Expectations.FileOrderIrrelevant | src/inspect_main.c:2344-2587 | permuting the lines of an expectations file, or adding blank lines and comments, keeps its exit status |
| Expectations.BlankOrComment | src/inspect_main.c:2364-2367 | blank lines and comments are skipped |
| Expectations.MinEdgesMeans | src/inspect_main.c:2442-2495 | `min_edges=NAME:COUNT` holds exactly when at least that many edges have the name, while it fits the 64-byte buffer |
| Expectations.MinEdgesAntitone | src/inspect_main.c:2442-2495 | lowering the count of a satisfied `min_edges` keeps it satisfied |
| Expectations.RequireEdgeMeans | src/inspect_main.c:2437-2495 | `require_edge` holds exactly when some edge has the name |
| Expectations.RequireEdgeIsMinEdgesOne | src/inspect_main.c:2437-2495 | `require_edge=E` and `min_edges=E:1` agree exactly when the name is not 62 or 63 bytes long |
| Expectations.ForbidNegatesRequire | src/inspect_main.c:2422-2555 | `forbid` and `forbid_call` are never malformed and deny exactly what `require` and `require_call` assert |
| Expectations.CountsMean | src/inspect_main.c:2390-2421 | a printed `finding_count` or `min_nodes` is met by exactly, or at least, that many |
| Meanings.KeysMean | src/inspect_main.c:2377-2555 | `result`, `forbid`, `require` and the three keys about nodes ask for the recorded result, the diagnostic identifiers of findings, the names of entered calls and the classes of resources |
| Meanings.CountKeysMean | src/inspect_main.c:2390-2421 | `finding_count` and `min_nodes` for every value: met by the count it spells, an empty text counting as 0, and by nothing else |
| Meanings.MinEdgesAsks | src/inspect_main.c:2442-2477 | `min_edges` for every value: under 64 bytes, a name, the last colon and a count |
| Meanings.EdgeNamed | src/inspect_main.c:2108-2137 | the names tell the kinds of edges apart |
| Meanings.OneExpectation | src/inspect_main.c:2321-2618 | what a file with a single expectation exits with |
| Meanings.VerifyMeans | src/inspect_main.c:2299-2311 | `model verify` is trouble for an unsound directory, a receipt that records trouble, inputs that do not load and a file that does not open, and otherwise succeeds without a file |
| RulePacks.FindPack | src/inspect_main.c:2172-2191 | exactly the three built-in names are known |
| RulePacks.RuleHasEvidence | src/inspect_main.c:2193-2288 | answers whether the analysis shows what the rule is about, for each of the six kinds and for unknown ones |
| RulePacks.CatalogueReportable | src/rule_catalog.inc:3-28 | every built-in rule forbids a finding and its message fits, so a violation is never trouble |
| RulePacks.CheckPack | src/inspect_main.c:2664-2709 | no violation is counted exactly when the pack passes |
| RulePacks.ModelCheck | src/inspect_main.c:2625-2716 | 2 exactly when the inputs do not load or the arguments are not `--rules` pairs of known packs; otherwise 0 exactly when every named pack passes |
| RulePacks.PassesIff | src/rule_catalog.inc:3-28 | a built-in pack passes exactly when no finding matches any of its patterns |
| Meanings.PacksMean | src/rule_catalog.inc:3-28 | each built-in pack exits 1 exactly when some finding's diagnostic identifier matches one of its patterns, given literally |
| Meanings.RulesMean | src/inspect_main.c:2193-2288 | what a rule of each of the six kinds looks at, and when it is violated |
| RulePacks.CheckComposes | src/inspect_main.c:2640-2712 | a list of known packs succeeds exactly when each pack alone does, and is never trouble |
| RulePacks.SecureIsBoth | src/rule_catalog.inc:3-28 | `secure-c` succeeds exactly when `resource-clean` and `concurrency` both do |
| RulePacks.FindingsOnlyHurt | src/inspect_main.c:2664-2709 | adding findings never turns a failing built-in pack into a passing one |
| RulePacks.PackIsForbidFile | src/inspect_main.c:2422-2430 | an expectations file with one `forbid=` line per pattern of a pack exits as checking the pack does |
| ArgumentVectors.BuildCaptureArguments | src/inspect_main.c:1304-1334 | the vector fits its allocation with the last slot still null and holds the intended words followed by nulls only |
| ArgumentVectors.TerminatedHolds | src/inspect_main.c:1330-1335 | the words before the first null pointer are exactly those that were stored |
| ArgumentVectors.ParseArguments | src/cli.c:28-148 | the option loop over `getopt`, clustered options included, reads a vector as `ReadArguments` says, whose meaning is `ReadArgumentsIff`, and raises a usage error exactly where it has none |
| ArgumentVectors.ReadArgumentsIff | src/cli.c:54-144 | for any vector: it is read without an error if and only if it is spelled as option words and then operands, which begin at `--` or the first word that is no option, and the result is the meaning of those options in order; no character is skipped or read twice |
| ArgumentVectors.OptionsMean | src/cli.c:66-92 | each flag is on exactly when some option word gives it, and the last directory given counts |
| ArgumentVectors.ReadIsSpelled | src/cli.c:54-138 | every vector read without an error is spelled so |
| ArgumentVectors.SpelledIsRead | src/cli.c:54-138 | every vector spelled so is read as its options mean |
| ArgumentVectors.CaptureArgumentsReadBack | src/inspect_main.c:1304-1334 | the capture program reads back exactly the two logging flags, the capture path and the command word for word, whatever the words look like, and accepts them unless path or command is empty |
| ArgumentVectors.ParseAnalyze | src/inspect_main.c:298-340 | the option loop of `analyze` with its early exits reads a vector as `ReadAnalyze` says, whose meaning is `ReadAnalyzeIff` |
| ArgumentVectors.ReadAnalyzeIff | src/inspect_main.c:298-340 | `analyze` accepts a vector if and only if it is spelled as one capture not named like an option, at most one output under either option, and any number of `--force`, in any order; it reads just that |
| ArgumentVectors.AnalyzeIsSpelled | src/inspect_main.c:298-340 | every accepted vector is spelled so |
| ArgumentVectors.SpelledIsAnalyzed | src/inspect_main.c:298-340 | every vector spelled so is accepted as what it stands for |
| ArgumentVectors.AnalyzeArgumentsReadBack | src/inspect_main.c:1342-1347 | `analyze` reads back the two directories exactly when the capture path is not itself one of its options |
| ArgumentVectors.JoinedCaptureIsNoOption | src/inspect_main.c:1294-1302 | the capture path `run` joins is never mistaken for an option |
| ReportDirectory.CreateUpTo | src/paths.c:147-150 | terminating the buffer, creating and restoring attempts exactly the prefix, with the same outcome, and leaves the buffer byte for byte as it was |
| ReportDirectory.WalkPath | src/paths.c:133-157 | attempts the component prefixes in order up to the first refusal, restoring the buffer; it succeeds if and only if `mkdir` refuses none of them for a reason of its own and no parent is something other than a directory; then all exist, and each names a directory exactly when it did not name something else before |
| ReportDirectory.CreateReportDirectory | src/paths.c:119-161 | a path of 1024 bytes or more is refused before any attempt; otherwise exactly as the walk |
| ReportDirectory.FolderIffMayBe | src/paths.c:119-161 | after success the path names a directory if and only if nothing but a directory stood there before the call |
| ReportDirectory.SoAreParents | src/paths.c:119-161 | and then the path and all its parents do |
| ReportDirectory.FileInTheWay | src/paths.c:39-53 | an input: with a file at the path the call succeeds and the file is still there |
| ReportDirectory.CreateComponent | src/paths.c:39-53 | an error is raised exactly when `mkdir` fails otherwise than with `EEXIST`; without one the path names a directory exactly when it did not name something else before |
| ReportDirectory.PrefixesAreBoundaries | src/paths.c:134-145 | a prefix is attempted exactly when a component ends there |
| ReportDirectory.ParentsFirst | src/paths.c:133-157 | every prefix is attempted after all shorter ones |
| ReportDirectory.NextParent | src/paths.c:133-157 | the parent of each prefix is the prefix attempted just before it, whatever slashes stand between |
| ReportDirectory.ReportDirectoryNamed | src/paths.c:133-157 | the attempts include the path without its trailing slashes and every parent, for any mix of slashes |
| ReportDirectory.MakeReportPaths | src/paths.c:55-97 | succeeds exactly when the chosen directory has at most 1005 bytes, and then nothing was cut: each of the nine paths is the directory, a slash and the name of its file |
| AnalyzeRun.CopyFileToStream | src/inspect_main.c:1717-1768 | the chunked copy terminates and on success appends exactly the bytes of the source, at every length |
| AnalyzeRun.CopyAnalysisInputs | src/inspect_main.c:902-945 | on success the three copies equal the three capture files, and no other file has changed; it fails only if one cannot be read or written |
| AnalyzeRun.WriteContents | src/inspect_main.c:415-434 | on success model, copies, index and summary all hold what they should and every other rendered report is as it was: no later step spoils an earlier one |
| AnalyzeRun.ContentsKept | src/inspect_main.c:435-442 | writing manifest and receipt spoils none of the copies, reports, index, model and summary |
| AnalyzeRun.Analyze | src/inspect_main.c:272-473 | a finished, self-consistent analysis of the bytes in the capture, and without `--force` only of an accepted receipt; no analysis only for one of the stated reasons: the output exists, the receipt is refused, inputs are missing or not analyzable, or a file cannot be written or fingerprinted; the command status is what checking the receipt leaves, accepted or not |
| AnalyzeRun.AnalyzeExitIsWorse | src/inspect_main.c:447-451 | the status of `analyze` is the worse of command and analysis if and only if the command was not signalled or the analysis is trouble itself; for a signalled command it is that of the analysis |
| AnalyzeRun.AnalyzeOfFinished | src/inspect_main.c:447-451 | of a finished capture `analyze` reads the status the command ended with; a clean analysis exits 0 for a signalled command as for one that exited 0, and 1 for any other |
| AnalyzeRun.BoundAsItStands | src/inspect_main.c:435-442 | the recorded fingerprints are those of the files as they are when everything has been written |
| AnalyzeRun.FinishedByName | src/inspect_main.c:396-435 | by file name: what is analyzed, which capture file each copy is of, and what model, index and summary hold |
| AnalyzeRun.FinishedIsSound | src/inspect_main.c:1852-1925 | a finished analysis passes the chain check exactly when its model carries the schema line, and then with the recorded outcome |
| AnalyzeRun.LoadGivesTheSame | src/inspect_main.c:2051-2098 | loading a finished analysis reads byte for byte the inputs of the capture, so it yields the same analysis |
| AnalyzeRun.ComparisonMeans | src/inspect_main.c:2820-2928 | `model compare` on two finished analyses exits 2 exactly when a model lacks its schema line, and otherwise 0 exactly when the models print the same and the findings agree in all six fields, and else 1 |
| AnalyzeRun.VerifyAnswersForTheAnalysis | src/inspect_main.c:2290-2622 | `model verify` of a finished analysis is trouble exactly when the model lacks its schema line or the expectations are; otherwise it succeeds without expectations, and with them answers for the analysis that was made |
| RunCommand.RunExitIsWorse | src/inspect_main.c:1335-1351 | the combined status is the worse of the two exactly for capture statuses 0, 1 and 2; a larger one is ignored |
| RunCommand.SpawnCapture | src/inspect_main.c:1304-1336 | building the vector, starting the capture program with it and parsing it there: without trouble the capture is complete, its arguments are exactly what was asked for, and its path names directories only; trouble only if the program could not run to its end or the capture failed for one of its reasons |
| RunCommand.Run | src/inspect_main.c:1281-1355 | the exit status is the worse of how the command and the analysis ended, or 2 without a finished analysis, for which there is always one of the stated reasons; a finished analysis means the vector was read back, the capture is complete, its receipt accepted and the analysis of exactly those bytes bound |
| UnityPrint.Printer.PrintNumberUnsigned | test/unity/unity.c:276-292 | prints the decimal numeral of every 64-bit word; the divisor never wraps and the digit loop ends after the last digit |
| UnityPrint.Printer.PrintNumber | test/unity/unity.c:261-272 | prints every signed 64-bit number, the most negative one through complement and increment |
| UnityPrint.PrintedNumberReadsBack | test/unity/unity.c:261-292 | the printed text converts back to the number, without a range error |
| UnityPrint.FillBuffer | test/unity/unity.c:480-485 | fills the buffer backwards with the digits, never past its 16 bytes |
| UnityPrint.PrintBuffer | test/unity/unity.c:488-495 | prints the buffer backwards with the point where it belongs |
| UnityPrint.PrintMantissa | test/unity/unity.c:468-523 | for 7 and for 9 significant digits: prints mantissa and exponent from a rounded mantissa on, within the 16-byte buffer |
| UnityPrint.FloatTextDenotes | test/unity/unity.c:468-523 | for 7 and for 9 significant digits: the printed text, read as a decimal, denotes exactly the mantissa times ten to the exponent: point placement, dropped zeros and exponent lose nothing |
| UnityPrint.FloatForm | test/unity/unity.c:468-523 | the text has no exponent exactly for small negative powers of ten; no zero ends its fraction; with an exponent a number of at most 7, or 9, digits has one digit before the point |

## Left out

- The p101 libraries themselves (event model, analyses, interleaving search, receipt JSON, FNV fingerprint): they are
  parameters; that equal fingerprints may belong to different bytes is therefore not excluded.
- `fnmatch` (section 2.13 of POSIX XCU): an arbitrary predicate, so the rule results hold for any matcher.
- Processes, signals, clocks, `uname` and the texts that depend on them: the observed command may do anything to the
  directory until it ends; what the clock, `uname` and the process id answer is a parameter, and the first two may
  fail. A process still writing after the command has ended is not modelled.
- Other programs that change the file system while the report directory is being created: apart from the walk itself
  nothing is created or removed there.
- Read errors (`ferror`) and writing diagnostics to standard error: both are taken to succeed.
- `getopt` stops at the first word that is not an option, as POSIX prescribes; the reordering some C libraries do is
  not modelled and does not matter for the vector `run` builds.
- The option loop of `run`, the default output name of `analyze`, `view`, `lesson`, `interleaving`, `model explain`
  and usage texts: presentation or easy members.
- The scaling and rounding of `UnityPrintFloat` in floating point: the model starts from the rounded mantissa.
- RunCommand.Run: starts after the options of `run` are read, and the spawned program is `inspect-capture` itself; for
  another tool only the combination of statuses is covered, by `RunCommand.RunExitIsWorse`.
- AnalysisChain.TamperingIff: an edit that replaces the manifest by another one with the same fingerprint is not covered,
  since the receipt cannot tell the two apart.
