/** `analyze`, from a capture to a finished analysis, and what can be done with one. */
module AnalyzeRun {
  import opened Wrappers
  import opened CText
  import opened Files
  import opened Artifacts
  import opened Library
  import opened Evidence
  import opened AnalysisManifest
  import opened AnalysisChain
  import opened FileSearch
  import opened FindingIndex
  import opened ModelCompare
  import opened Expectations
  import CaptureReceipt
  import CaptureRun

  const COPY_BUFFER_SIZE: nat := 8192
  const SUMMARY := "summary.md"

  /** The three files copied from the capture, and their names in the analysis. */
  const SOURCES: seq<string> := ["resources.log", "calls.log", "stderr.txt"]
  const COPIES: seq<string> := ["input-resources.log", "input-calls.log", "input-stderr.txt"]

  // ----- Copying -----

  /** `copy_file_to_stream`: a short read ends the loop, and so does an empty one after a full buffer. */
  method CopyFileToStream(source: Directory, name: string, out: Output) returns (ok: bool)
    requires source != out.dir
    modifies out, out.dir
    ensures out.dir.files - {out.name} == old(out.dir.files) - {out.name}
    ensures old(out.dir.faulty) ==> out.dir.faulty
    ensures !ok ==> out.dir.faulty || source.Now().Read(name).None?
    ensures ok ==> source.Now().Read(name).Some? && out.text == old(out.text) + source.Now().Read(name).value
  {
    ok := source.Now().Read(name).Some?;
    if !ok { return; }
    ghost var contents := source.Now().Read(name).value;
    var stream := new Reader(source.Now().Read(name).value);
    var buffer := stream.Fread(COPY_BUFFER_SIZE);
    ghost var copied := "";
    while ok && |buffer| > 0
      invariant source.Now().Read(name) == Some(contents)
      invariant out.dir.files - {out.name} == old(out.dir.files) - {out.name}
      invariant old(out.dir.faulty) ==> out.dir.faulty
      invariant !ok ==> out.dir.faulty
      invariant fresh(stream)
      invariant ok ==> contents == copied + buffer + stream.rest && out.text == old(out.text) + copied
      invariant |buffer| <= COPY_BUFFER_SIZE
      invariant ok && |buffer| < COPY_BUFFER_SIZE ==> stream.rest == ""
      decreases |stream.rest| + |buffer|, ok
    {
      ok := out.Put(buffer);
      copied := copied + buffer;
      if ok && |buffer| == COPY_BUFFER_SIZE {
        buffer := stream.Fread(COPY_BUFFER_SIZE);
      } else {
        buffer := "";
      }
    }
  }

  method CopyOne(capture: Directory, source: string, output: Directory, copy: string) returns (ok: bool)
    requires capture != output
    modifies output
    ensures output.files - {copy} == old(output.files) - {copy}
    ensures old(output.faulty) ==> output.faulty
    ensures !ok ==> output.faulty || capture.Now().Read(source).None?
    ensures ok ==> output.Now().Read(copy).Some? && output.Now().Read(copy) == capture.Now().Read(source)
  {
    var out := output.Create(copy);
    if out == null { return false; }
    assert output.files - {copy} == old(output.files) - {copy};
    ok := CopyFileToStream(capture, source, out);
    if ok {
      assert out.text == capture.Now().Read(source).value by {
        assert "" + capture.Now().Read(source).value == capture.Now().Read(source).value;
      }
    }
    assert output.files - {copy} == old(output.files) - {copy};
    var closed := out.Close();
    assert output.files - {copy} == old(output.files) - {copy};
    ok := ok && closed;
  }

  /** `copy_analysis_inputs` */
  method CopyAnalysisInputs(capture: Directory, output: Directory) returns (ok: bool)
    requires capture != output
    modifies output
    ensures output.files - Copies() == old(output.files) - Copies()
    ensures old(output.faulty) ==> output.faulty
    ensures !ok ==> output.faulty || !InputsThere(capture.Now())
    ensures ok ==> InputsCopied(capture.Now(), output.Now())
  {
    CopiesDiffer();
    ok := true;
    var index := 0;
    while index < |SOURCES| && ok
      invariant index <= |SOURCES|
      invariant output.files - Copies() == old(output.files) - Copies()
      invariant old(output.faulty) ==> output.faulty
      invariant !ok ==> output.faulty || !InputsThere(capture.Now())
      invariant ok ==> forall i :: 0 <= i < index ==>
        output.Now().Read(COPIES[i]).Some? && output.Now().Read(COPIES[i]) == capture.Now().Read(SOURCES[i])
    {
      ghost var before := output.Now();
      ok := CopyOne(capture, SOURCES[index], output, COPIES[index]);
      OtherFilesKept(before, output.Now(), COPIES[index]);
      DropBoth(before.files, output.files, COPIES[index], Copies());
      index := index + 1;
    }
  }

  /** The capture has the three files an analysis needs. */
  ghost predicate InputsThere(capture: Snapshot) {
    forall i :: 0 <= i < |SOURCES| ==> capture.Read(SOURCES[i]).Some?
  }

  ghost function Copies(): (r: set<string>) {
    {COPIES[0], COPIES[1], COPIES[2]}
  }

  lemma CopiesDiffer()
    ensures COPIES[0] != COPIES[1] && COPIES[0] != COPIES[2] && COPIES[1] != COPIES[2]
  {
    assert |COPIES[0]| != |COPIES[1]| && |COPIES[0]| != |COPIES[2]| && |COPIES[1]| != |COPIES[2]|;
  }

  /** Changing one file keeps what every other name reads as. */
  lemma OtherFilesKept(before: Snapshot, after: Snapshot, changed: string)
    requires before.path == after.path && before.files - {changed} == after.files - {changed}
    ensures forall name :: name != changed ==> after.Read(name) == before.Read(name)
  {
    forall name | name != changed ensures after.Read(name) == before.Read(name) {
      ReadOutside(before, after, {changed}, name);
    }
  }

  /** The analysis holds the capture's three inputs byte for byte. */
  ghost predicate InputsCopied(capture: Snapshot, output: Snapshot) {
    forall i :: 0 <= i < |SOURCES| ==>
      output.Read(COPIES[i]).Some? && output.Read(COPIES[i]) == capture.Read(SOURCES[i])
  }

  // ----- `analyze` -----

  /** The text of `summary.md`. */
  function SummaryText(capture: string, findings: nat, status: Status): (text: string) {
    "# p101 replay analysis\n\n" + "Capture: `" + capture + "`\n\n"
    + "Capture verification: **VERIFIED**\n\n" + "Findings: " + Numeral(findings, 10) + "\n\n"
    + "Overall result: **" + (if status == 0 then "CLEAN" else "FINDINGS") + "**\n\n"
    + "This report is bounded by the captured p101 wrapper events. "
    + "It cannot see direct libc calls, third-party internals, or events that were never emitted.\n"
  }

  /** Open, print once and close. */
  method WriteOne(dir: Directory, name: string, text: string) returns (ok: bool)
    modifies dir
    ensures dir.files - {name} == old(dir.files) - {name}
    ensures dir.faulty <==> old(dir.faulty) || !ok
    ensures ok ==> dir.Now().Joins(name) && dir.files == old(dir.files)[name := text]
  {
    var out := dir.Create(name);
    if out == null { return false; }
    ok := out.Put(text);
    assert "" + text == text;
    assert OnlyChanged(old(dir.files), dir.files, name);
    var closed := out.Close();
    ok := ok && closed;
  }

  /** `p101_tool_analysis_write_bundle`: the reports of an analysis, or some damage and a failure. */
  method WriteBundle(analysis: Analysis, dir: Directory) returns (ok: bool)
    modifies dir
    ensures dir.faulty <==> old(dir.faulty) || !ok
    ensures ok ==> dir.files == old(dir.files) + analysis.bundle
    ensures ok ==> forall name :: name in analysis.bundle ==> dir.Now().Joins(name)
  {
    ok := *;
    ok := ok && forall name :: name in analysis.bundle ==> dir.Now().Joins(name);
    if ok {
      dir.files := dir.files + analysis.bundle;
    } else {
      dir.files, dir.faulty := *, true;
    }
  }

  /** The files the later steps write. */
  ghost function Written(): (r: set<string>) {
    Copies() + {MODEL, INDEX, SUMMARY, MANIFEST, RECEIPT}
  }

  /** Every report that is not overwritten on purpose is as it was rendered. */
  ghost predicate ReportsKept(analysis: Analysis, output: Snapshot) {
    forall name :: name in analysis.bundle && name !in Written() ==> output.Read(name) == Some(analysis.bundle[name])
  }

  lemma ReportsStay(analysis: Analysis, before: Snapshot, after: Snapshot)
    requires ReportsKept(analysis, before)
    requires before.path == after.path && before.files - Written() == after.files - Written()
    ensures ReportsKept(analysis, after)
  {
    forall name | name in analysis.bundle && name !in Written() ensures after.Read(name) == before.Read(name) {
      ReadOutside(before, after, Written(), name);
    }
  }

  /** Changing some of the names keeps what is outside all of them. */
  lemma KeptOutside(a: map<string, string>, b: map<string, string>, some: set<string>, all: set<string>)
    requires a - some == b - some && some <= all
    ensures a - all == b - all
  {
    assert a - all == (a - some) - all;
    assert b - all == (b - some) - all;
  }

  /** What the files of a finished analysis hold. */
  ghost predicate Contents(analysis: Analysis, capture: Snapshot, output: Snapshot) {
    && InputsCopied(capture, output)
    && output.Read(MODEL) == Some(analysis.modelJson)
    && output.Read(INDEX) == Some(CanonicalIndex(analysis.findings))
    && output.Read(SUMMARY) == Some(SummaryText(capture.path, |analysis.findings|, analysis.status))
    && ReportsKept(analysis, output)
  }

  /** What the library makes of the capture's three inputs. */
  function AnalysisOf(lib: Library, capture: Snapshot): (r: Option<Analysis>) {
    match (capture.Read("resources.log"), capture.Read("calls.log"), capture.Read("stderr.txt"))
    case (Some(resources), Some(calls), Some(stderr)) => lib.analyze(resources, calls, stderr)
    case _ => None
  }

  lemma InputsByName(lib: Library, capture: Snapshot)
    ensures AnalysisOf(lib, capture).Some? ==> InputsThere(capture)
  {
    assert SOURCES[0] == "resources.log" && SOURCES[1] == "calls.log" && SOURCES[2] == "stderr.txt";
  }

  /** The files, and the chain that binds them. */
  ghost predicate FinishedAnalysis(lib: Library, analysis: Analysis, capture: Snapshot, output: Snapshot) {
    && capture.Read(SOURCES[0]).Some? && capture.Read(SOURCES[1]).Some? && capture.Read(SOURCES[2]).Some?
    && lib.analyze(capture.Read(SOURCES[0]).value, capture.Read(SOURCES[1]).value, capture.Read(SOURCES[2]).value) == Some(analysis)
    && Contents(analysis, capture, output)
    && Bound(lib, analysis, output, output)
  }

  lemma NamesApart()
    ensures MODEL !in {INDEX, SUMMARY, MANIFEST, RECEIPT} && MODEL !in Copies()
    ensures INDEX !in {SUMMARY, MANIFEST, RECEIPT} && INDEX !in Copies()
    ensures SUMMARY !in {MANIFEST, RECEIPT} && SUMMARY !in Copies()
    ensures forall i :: 0 <= i < |COPIES| ==> COPIES[i] !in {INDEX, SUMMARY, MANIFEST, RECEIPT}
  {
    assert COPIES[0][0] == 'i' && COPIES[1][0] == 'i' && COPIES[2][0] == 'i';
    assert MODEL[0] == 'r' && INDEX[0] == 'f' && SUMMARY[0] == 's' && MANIFEST[0] == 'a' && RECEIPT[0] == 'a';
  }

  /** The steps that fill the analysis directory after its reports, in order. */
  method WriteContents(analysis: Analysis, capture: Directory, output: Directory) returns (ok: bool)
    requires capture != output && ReportsKept(analysis, output.Now())
    modifies output
    ensures old(output.faulty) ==> output.faulty
    ensures !ok ==> output.faulty || !InputsThere(capture.Now())
    ensures ok ==> Contents(analysis, capture.Now(), output.Now())
  {
    hide CanonicalIndex;
    hide SummaryText;
    hide ReportsKept;
    hide Written;
    NamesApart();
    ghost var s0 := output.Now();
    ok := WriteOne(output, MODEL, analysis.modelJson);
    ghost var s1 := output.Now();
    if ok { ok := CopyAnalysisInputs(capture, output); }
    ghost var s2 := output.Now();
    if ok { ok := WriteFindingIndex(analysis, output); }
    ghost var s3 := output.Now();
    if ok { ok := WriteOne(output, SUMMARY, SummaryText(capture.path, |analysis.findings|, analysis.status)); }
    if ok {
      assert s1.Read(MODEL) == Some(analysis.modelJson);
      ReadOutside(s1, s2, Copies(), MODEL);
      OtherFilesKept(s2, s3, INDEX);
      OtherFilesKept(s3, output.Now(), SUMMARY);
      AllWritten();
      KeptOutside(s0.files, s1.files, {MODEL}, Written());
      KeptOutside(s1.files, s2.files, Copies(), Written());
      KeptOutside(s2.files, s3.files, {INDEX}, Written());
      KeptOutside(s3.files, output.files, {SUMMARY}, Written());
      ReportsStay(analysis, s0, output.Now());
    }
  }

  lemma AllWritten()
    ensures {MODEL} <= Written() && {INDEX} <= Written() && {SUMMARY} <= Written() && Copies() <= Written()
    ensures {MANIFEST, RECEIPT} <= Written()
  {
  }

  /** A directory bound from its earlier state is bound as it stands: the fingerprints are of its present files. */
  lemma BoundAsItStands(lib: Library, analysis: Analysis, before: Snapshot, after: Snapshot)
    requires Bound(lib, analysis, before, after)
    ensures Bound(lib, analysis, after, after)
  {
    hide FilePrint;
    hide AnalysisReceipt;
    NamesPrintable();
    assert forall i :: 0 <= i < |NAMES| ==> NAMES[i][0] != RECEIPT[0];
    forall i | 0 <= i < |NAMES| ensures FilePrint(lib, after, NAMES[i]) == FilePrint(lib, before, NAMES[i]) {
      SamePrint(lib, before, after, {MANIFEST, RECEIPT}, NAMES[i]);
    }
    SameManifest(lib, before, after);
  }

  lemma SameManifest(lib: Library, a: Snapshot, b: Snapshot)
    requires AllPrinted(lib, a, Table())
    requires forall i :: 0 <= i < |NAMES| ==> FilePrint(lib, b, NAMES[i]) == FilePrint(lib, a, NAMES[i])
    ensures AllPrinted(lib, b, Table()) && ManifestText(lib, b) == ManifestText(lib, a)
  {
    hide FilePrint;
    hide Line;
    hide Flatten;
    assert forall i :: 0 <= i < |Table()| ==> Table()[i].name == NAMES[i];
    assert RecordLines(lib, a, Table()) == RecordLines(lib, b, Table());
  }

  lemma ContentsKept(analysis: Analysis, capture: Snapshot, before: Snapshot, after: Snapshot)
    requires Contents(analysis, capture, before)
    requires before.path == after.path && before.files - {MANIFEST, RECEIPT} == after.files - {MANIFEST, RECEIPT}
    ensures Contents(analysis, capture, after)
  {
    hide CanonicalIndex;
    hide SummaryText;
    hide ReportsKept;
    hide Written;
    AllWritten();
    KeptOutside(before.files, after.files, {MANIFEST, RECEIPT}, Written());
    ReportsStay(analysis, before, after);
    NamesApart();
    ReadOutside(before, after, {MANIFEST, RECEIPT}, MODEL);
    ReadOutside(before, after, {MANIFEST, RECEIPT}, INDEX);
    ReadOutside(before, after, {MANIFEST, RECEIPT}, SUMMARY);
    forall i | 0 <= i < |COPIES| ensures after.Read(COPIES[i]) == before.Read(COPIES[i]) {
      ReadOutside(before, after, {MANIFEST, RECEIPT}, COPIES[i]);
    }
  }

  /** Everything `analyze` writes. */
  method WriteAnalysis(lib: Library, analysis: Analysis, capture: Directory, output: Directory) returns (ok: bool)
    requires capture != output
    modifies output
    ensures old(output.faulty) ==> output.faulty
    ensures !ok ==> output.faulty || !InputsThere(capture.Now()) || !Bindable(lib, output.Now())
    ensures ok ==> Contents(analysis, capture.Now(), output.Now()) && Bound(lib, analysis, output.Now(), output.Now())
  {
    hide Contents;
    hide Bound;
    hide Bindable;
    ok := WriteBundle(analysis, output);
    if ok { ok := WriteContents(analysis, capture, output); }
    if ok {
      ghost var before := output.Now();
      ok := BindAnalysis(lib, analysis, output);
      if ok {
        ContentsKept(analysis, capture.Now(), before, output.Now());
        BoundAsItStands(lib, analysis, before, output.Now());
      }
    }
  }

  /** A non-clean command turns a clean analysis into findings; a signalled one does not. */
  function AnalyzeExit(commandStatus: int, status: Status): (r: Status) {
    if commandStatus == 1 && status == 0 then 1 else status
  }

  /** The worse of the two statuses, except exactly for a signalled command whose analysis is not trouble itself. */
  lemma AnalyzeExitIsWorse(commandStatus: Status, status: Status)
    ensures AnalyzeExit(commandStatus, status) == (if commandStatus > status then commandStatus else status)
      <==> commandStatus != 2 || status == 2
    ensures commandStatus == 2 ==> AnalyzeExit(commandStatus, status) == status
  {
  }

  /** What `analyze` makes of a finished capture: the status read is that of the command, so a clean analysis of a
      signalled command exits 0, and of one that exited otherwise than with 0, exits 1. */
  lemma AnalyzeOfFinished(lib: Library, runId: string, ended: CaptureRun.WaitStatus, capture: Snapshot)
    requires lib.PlainConstants() && Printable(runId) && |runId| < 128
    requires CaptureRun.Finished(lib, runId, ended, capture) && !ended.Raw?
    ensures CaptureReceipt.Reports(lib, capture, CaptureReceipt.StatusLeft(lib, capture, 0))
    ensures CaptureReceipt.StatusLeft(lib, capture, 0) == CaptureRun.ReportedStatus(ended)
    ensures AnalyzeExit(CaptureReceipt.StatusLeft(lib, capture, 0), 0)
      == if ended.Signalled? || ended == CaptureRun.Exited(0) then 0 else 1
  {
    hide CaptureRun.Finished;
    hide CaptureReceipt.CaptureAccepted;
    hide CaptureReceipt.CaptureStatus;
    hide CaptureReceipt.StatusLeft;
    CaptureRun.CaptureRoundTrip(lib, runId, ended, capture);
    CaptureReceipt.AcceptedLeavesStatus(lib, capture, 0);
  }

  /** `analyze_command` once its arguments are read. `outputExists` is what `lstat` finds. */
  method Analyze(lib: Library, capture: Directory, output: Directory, outputExists: bool, force: bool)
    returns (exit: int, ghost analysis: Option<Analysis>, commandStatus: int)
    requires capture != output
    modifies output
    ensures exit == 0 || exit == 1 || exit == 2
    ensures exit != 2 ==> analysis.Some?
    ensures analysis.None? ==>
      (outputExists || (!force && !CaptureReceipt.CaptureAccepted(lib, capture.Now()))
       || !InputsThere(capture.Now()) || AnalysisOf(lib, capture.Now()).None? || output.faulty || !Bindable(lib, output.Now()))
    ensures analysis.Some? ==> !outputExists && exit == AnalyzeExit(commandStatus, analysis.value.status)
    ensures analysis.Some? ==> FinishedAnalysis(lib, analysis.value, capture.Now(), output.Now())
    ensures analysis.Some? ==> force || CaptureReceipt.Reports(lib, capture.Now(), commandStatus)
    ensures commandStatus == if outputExists then 0 else CaptureReceipt.StatusLeft(lib, capture.Now(), 0)
  {
    hide Contents;
    hide Bound;
    hide CaptureReceipt.CaptureAccepted;
    hide CaptureReceipt.CaptureStatus;
    hide CaptureReceipt.StatusLeft;
    hide Bindable;
    exit, analysis, commandStatus := 2, None, 0;
    if outputExists { return; }
    var verified;
    verified, commandStatus := CaptureReceipt.VerifyCapture(lib, capture, commandStatus);
    if !verified && !force { return; }
    var resources, calls, stderr :=
      capture.Now().Read(SOURCES[0]), capture.Now().Read(SOURCES[1]), capture.Now().Read(SOURCES[2]);
    if resources.None? || calls.None? || stderr.None? { return; }
    var made := lib.analyze(resources.value, calls.value, stderr.value);
    if made.None? { return; }
    var ok := WriteAnalysis(lib, made.value, capture, output);
    if !ok { return; }
    exit, analysis := AnalyzeExit(commandStatus, made.value.status), made;
  }

  // ----- What a finished analysis gives -----

  /** The model an analysis writes carries its schema line where `file_contains` finds it. */
  ghost predicate HasSchema(analysis: Analysis) {
    FoundInLines(SCHEMA_LINE, Lines(analysis.modelJson))
  }

  /** A finished analysis passes the chain check, with the recorded outcome, exactly when its model carries the schema
      line. */
  lemma FinishedIsSound(lib: Library, analysis: Analysis, capture: Snapshot, output: Snapshot)
    requires ReceiptsReadBack(lib, analysis)
    requires FinishedAnalysis(lib, analysis, capture, output)
    ensures Sound(lib, output) <==> HasSchema(analysis)
    ensures Sound(lib, output) ==> RecordedStatus(lib, output) == if analysis.status == 0 then 0 else 1
  {
    hide Bound;
    hide FoundInLines;
    hide Lines;
    hide ManifestAccepted;
    hide FilePrint;
    hide ReceiptsReadBack;
    hide CanonicalIndex;
    hide SummaryText;
    hide InputsCopied;
    assert SchemaPresent(output) <==> HasSchema(analysis);
    if HasSchema(analysis) {
      hide Sound;
      hide RecordedStatus;
      ChainRoundTrip(lib, analysis, output, output);
    }
  }

  /** Which file plays which part, by name: what is analyzed, and what the finished directory holds. */
  lemma FinishedByName(lib: Library, analysis: Analysis, capture: Snapshot, output: Snapshot)
    requires FinishedAnalysis(lib, analysis, capture, output)
    ensures AnalysisOf(lib, capture) == Some(analysis)
    ensures output.Read("input-resources.log") == capture.Read("resources.log")
    ensures output.Read("input-calls.log") == capture.Read("calls.log")
    ensures output.Read("input-stderr.txt") == capture.Read("stderr.txt")
    ensures output.Read("run-model.json") == Some(analysis.modelJson)
    ensures output.Read("finding-index.tsv") == Some(CanonicalIndex(analysis.findings))
    ensures output.Read("summary.md") == Some(SummaryText(capture.path, |analysis.findings|, analysis.status))
  {
    hide Bound;
    hide CanonicalIndex;
    hide SummaryText;
    hide ReportsKept;
    assert SOURCES[0] == "resources.log" && SOURCES[1] == "calls.log" && SOURCES[2] == "stderr.txt";
    assert COPIES[0] == "input-resources.log" && COPIES[1] == "input-calls.log" && COPIES[2] == "input-stderr.txt";
  }

  /** Loading the finished directory analyses the very bytes the capture held, so it yields the same analysis. */
  lemma LoadGivesTheSame(lib: Library, analysis: Analysis, capture: Snapshot, output: Snapshot)
    requires FinishedAnalysis(lib, analysis, capture, output)
    ensures Load(lib, output) == Some(analysis)
  {
    hide Bound;
    hide CanonicalIndex;
    hide SummaryText;
    assert COPIES[0] == "input-resources.log" && COPIES[1] == "input-calls.log" && COPIES[2] == "input-stderr.txt";
  }

  /** `model compare` on two finished analyses: trouble exactly when one of the models lacks its schema line, and
      otherwise equal exactly when the models print the same and the findings agree in all six fields, however
      ordered. */
  lemma ComparisonMeans(lib: Library, a: Analysis, b: Analysis, captureA: Snapshot, captureB: Snapshot,
                        before: Snapshot, after: Snapshot)
    requires ReceiptsReadBack(lib, a) && ReceiptsReadBack(lib, b)
    requires FinishedAnalysis(lib, a, captureA, before) && FinishedAnalysis(lib, b, captureB, after)
    requires CleanFindings(a.findings) && CleanFindings(b.findings)
    ensures CompareExit(lib, before, after) ==
      if !HasSchema(a) || !HasSchema(b) then 2
      else if a.modelJson == b.modelJson && multiset(Keys(a.findings)) == multiset(Keys(b.findings)) then 0
      else 1
  {
    hide Sound;
    hide HasSchema;
    hide Agree;
    hide FinishedAnalysis;
    hide ReceiptsReadBack;
    FinishedIsSound(lib, a, captureA, before);
    FinishedIsSound(lib, b, captureB, after);
    AgreementMeans(lib, a, b, captureA, captureB, before, after);
    hide CleanFindings;
    hide Keys;
  }

  lemma AgreementMeans(lib: Library, a: Analysis, b: Analysis, captureA: Snapshot, captureB: Snapshot,
                       before: Snapshot, after: Snapshot)
    requires FinishedAnalysis(lib, a, captureA, before) && FinishedAnalysis(lib, b, captureB, after)
    requires CleanFindings(a.findings) && CleanFindings(b.findings)
    ensures Agree(before, after) <==>
      a.modelJson == b.modelJson && multiset(Keys(a.findings)) == multiset(Keys(b.findings))
  {
    hide Bound;
    hide CanonicalIndex;
    hide CleanFindings;
    hide Keys;
    hide SummaryText;
    IndexDecides(a.findings, b.findings);
  }

  /** `model verify` on a finished analysis answers for the analysis that was made, not for one it has to trust. */
  lemma VerifyAnswersForTheAnalysis(lib: Library, analysis: Analysis, capture: Snapshot, output: Snapshot,
                                    expectations: string)
    requires ReceiptsReadBack(lib, analysis)
    requires FinishedAnalysis(lib, analysis, capture, output)
    ensures VerifyExit(lib, output, None) == if HasSchema(analysis) then 0 else 2
    ensures VerifyExit(lib, output, Some(Some(expectations)))
      == if HasSchema(analysis) then FileExit(lib, analysis, if analysis.status == 0 then 0 else 1, expectations) else 2
  {
    hide FinishedAnalysis;
    hide FileExit;
    hide HasSchema;
    hide ReceiptsReadBack;
    hide Sound;
    hide RecordedStatus;
    hide Load;
    FinishedIsSound(lib, analysis, capture, output);
    LoadGivesTheSame(lib, analysis, capture, output);
  }
}
