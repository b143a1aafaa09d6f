/** The receipt that binds the manifest of a finished analysis, and the check of the whole chain. */
module AnalysisChain {
  import opened Wrappers
  import opened CText
  import opened Files
  import opened Artifacts
  import opened Library
  import opened Evidence
  import opened AnalysisManifest
  import opened FileSearch

  const RECEIPT := "analysis-receipt.json"
  const MODEL := "run-model.json"
  const SCHEMA_LINE := "\"schema\": \"p101-run-model-v1\""

  function OutcomeOf(analysis: Analysis): (r: Outcome) {
    if analysis.status == 0 then Clean else Findings
  }

  function Identity(mark: Fingerprint): (identity: string)
    ensures |identity| > 0
  {
    "fnv1a64:" + Padded(mark.hash, 16, 16)
  }

  /** The receipt of an analysis whose manifest has the given fingerprint. */
  function AnalysisReceipt(analysis: Analysis, mark: Fingerprint): (r: ToolReceipt) {
    ToolReceipt(
      "p101-inspect", "3.0.0",
      "p101-run-receipt-v1", Identity(mark),
      "p101-runtime-policy-v2", "native-causal-model", Identity(mark),
      OutcomeOf(analysis),
      if analysis.status == 0 then NoFailure else FindingsPresent,
      if analysis.status == 0 then "" else "runtime-policy",
      if analysis.findings == [] then "" else analysis.findings[0].diagnosticId,
      4, 4)
  }

  /** `write_analysis_receipt` */
  method WriteAnalysisReceipt(lib: Library, analysis: Analysis, dir: Directory) returns (ok: bool)
    modifies dir
    ensures dir.files - {RECEIPT} == old(dir.files) - {RECEIPT}
    ensures old(dir.faulty) ==> dir.faulty
    ensures !ok ==> dir.faulty || FilePrint(lib, old(dir.Now()), MANIFEST).None? || !dir.Now().Joins(RECEIPT)
    ensures !ok ==> dir.Now().Read(MANIFEST) == old(dir.Now().Read(MANIFEST))
    ensures ok ==> FilePrint(lib, old(dir.Now()), MANIFEST).Some? && dir.Now().Joins(RECEIPT)
    ensures ok ==>
      var mark := FilePrint(lib, old(dir.Now()), MANIFEST).value;
      dir.files == old(dir.files)[RECEIPT := lib.printReceipt(AnalysisReceipt(analysis, mark), mark)]
  {
    hide FilePrint;
    var mark := FilePrint(lib, dir.Now(), MANIFEST);
    if !dir.Now().Joins(RECEIPT) || mark.None? { return false; }
    var stream := dir.Create(RECEIPT);
    if stream == null { return false; }
    var text := lib.printReceipt(AnalysisReceipt(analysis, mark.value), mark.value);
    ok := stream.Put(text);
    assert "" + text == text;
    assert OnlyChanged(old(dir.files), dir.files, RECEIPT);
    var closed := stream.Close();
    ok := ok && closed;
    ReadOutside(old(dir.Now()), dir.Now(), {RECEIPT}, MANIFEST);
  }

  /** What the receipt of an analysis says fits together: it is clean exactly for status 0, and then names no failure, no
      stage and only then; both identities are the manifest's hash; the first diagnostic is that of the first finding. */
  lemma ReceiptFits(analysis: Analysis, mark: Fingerprint)
    ensures var receipt := AnalysisReceipt(analysis, mark);
      && (receipt.outcome == Clean <==> analysis.status == 0) && receipt.outcome != Trouble
      && (receipt.failureReason == NoFailure <==> receipt.outcome == Clean)
      && (receipt.failedStage == "" <==> receipt.outcome == Clean)
      && (analysis.findings != [] ==> receipt.firstDiagnostic == analysis.findings[0].diagnosticId)
      && (analysis.findings == [] ==> receipt.firstDiagnostic == "")
      && receipt.inputIdentity == receipt.runIdentity == "fnv1a64:" + Padded(mark.hash, 16, 16)
      && receipt.checksAttempted == receipt.checksCompleted == 4
      && receipt.toolName == "p101-inspect" && receipt.toolVersion == "3.0.0" && receipt.inputSchema == "p101-run-receipt-v1"
      && receipt.policySchema == "p101-runtime-policy-v2"
      && (analysis.status != 0 ==> receipt.failedStage == "runtime-policy")
      && ExitStatus(receipt.outcome) == (if analysis.status == 0 then 0 else 1)
  {
    hide Padded;
  }

  // ----- Acceptance -----

  ghost predicate SchemaPresent(dir: Snapshot) {
    && dir.Read(MODEL).Some?
    && FoundInLines(SCHEMA_LINE, Lines(dir.Read(MODEL).value))
  }

  /** The receipt is valid and binds the manifest, the manifest binds the files, and the model is one. */
  ghost predicate Sound(lib: Library, dir: Snapshot) {
    && dir.Read(RECEIPT).Some?
    && lib.readReceipt(dir.Read(RECEIPT).value).Some?
    && var validation := lib.readReceipt(dir.Read(RECEIPT).value).value;
    && validation.mark.Some?
    && FilePrint(lib, dir, MANIFEST) == validation.mark
    && ManifestAccepted(lib, dir)
    && SchemaPresent(dir)
  }

  /** The chain by name: which file binds which, and what the model has to hold. */
  lemma SoundByName(lib: Library, dir: Snapshot)
    ensures Sound(lib, dir) <==>
      && dir.Read("analysis-receipt.json").Some?
      && var validation := lib.readReceipt(dir.Read("analysis-receipt.json").value);
      && validation.Some? && validation.value.mark.Some?
      && FilePrint(lib, dir, "analysis-manifest.txt") == validation.value.mark
      && ManifestAccepted(lib, dir)
      && dir.Read("run-model.json").Some?
      && FoundInLines("\"schema\": \"p101-run-model-v1\"", Lines(dir.Read("run-model.json").value))
  {
    hide ManifestAccepted;
    hide FoundInLines;
    hide FilePrint;
    hide Lines;
  }

  /** The outcome recorded in a sound directory, as an exit status. */
  ghost function RecordedStatus(lib: Library, dir: Snapshot): (r: int)
    requires Sound(lib, dir)
  {
    ExitStatus(lib.readReceipt(dir.Read(RECEIPT).value).value.outcome)
  }

  /** `analysis_result` */
  method AnalysisResult(lib: Library, dir: Directory) returns (ok: bool, status: int)
    ensures ok <==> Sound(lib, dir.Now())
    ensures ok ==> status == RecordedStatus(lib, dir.Now())
  {
    hide ManifestAccepted;
    hide FilePrint;
    hide FoundInLines;
    ok, status := false, 2;
    if !dir.Now().Joins(MODEL) || !dir.Now().Joins(MANIFEST) {
      assert dir.Now().Read(MODEL).None? || !ManifestAccepted(lib, dir.Now()) by { NotAccepted(lib, dir.Now()); }
      return;
    }
    var receipt := dir.Now().Read(RECEIPT);
    if receipt.None? { return; }
    var validation := lib.readReceipt(receipt.value);
    if validation.None? || validation.value.mark.None? { return; }
    var mark := FilePrint(lib, dir.Now(), MANIFEST);
    if mark != validation.value.mark { return; }
    var accepted := VerifyAnalysisManifest(lib, dir);
    if !accepted { return; }
    var readable, present := FileContains(dir, MODEL, SCHEMA_LINE);
    if !readable || !present { return; }
    ok, status := true, ExitStatus(validation.value.outcome);
  }

  lemma NotAccepted(lib: Library, dir: Snapshot)
    requires dir.Read(MANIFEST).None?
    ensures !ManifestAccepted(lib, dir)
  {
  }

  // ----- The chain over a whole analysis -----

  /** The directory the two writers leave, from the directory they start with. */
  ghost predicate Bound(lib: Library, analysis: Analysis, before: Snapshot, after: Snapshot) {
    && AllPrinted(lib, before, Table())
    && after.path == before.path
    && after.files - {MANIFEST, RECEIPT} == before.files - {MANIFEST, RECEIPT}
    && after.Read(MANIFEST) == Some(ManifestText(lib, before))
    && FilePrint(lib, after, MANIFEST).Some?
    && var mark := FilePrint(lib, after, MANIFEST).value;
    && after.Read(RECEIPT) == Some(lib.printReceipt(AnalysisReceipt(analysis, mark), mark))
  }

  /** Every file the manifest lists can be fingerprinted, and so can the manifest, if it is there. */
  ghost predicate Bindable(lib: Library, dir: Snapshot) {
    && AllPrinted(lib, dir, Table())
    && (dir.Read(MANIFEST).Some? ==> FilePrint(lib, dir, MANIFEST).Some?)
    && dir.Joins(RECEIPT)
  }

  lemma SameTablePrinted(lib: Library, a: Snapshot, b: Snapshot)
    requires a.path == b.path && a.files - {MANIFEST, RECEIPT} == b.files - {MANIFEST, RECEIPT}
    ensures AllPrinted(lib, a, Table()) <==> AllPrinted(lib, b, Table())
  {
    hide FilePrint;
    NamesPrintable();
    assert forall i :: 0 <= i < |NAMES| ==> NAMES[i][0] != RECEIPT[0];
    forall i | 0 <= i < |NAMES| ensures FilePrint(lib, a, NAMES[i]) == FilePrint(lib, b, NAMES[i]) {
      SamePrint(lib, a, b, {MANIFEST, RECEIPT}, NAMES[i]);
    }
    assert forall i :: 0 <= i < |Table()| ==> Table()[i].name == NAMES[i];
  }

  /** Both writers, in the order `analyze_command` runs them. */
  method BindAnalysis(lib: Library, analysis: Analysis, dir: Directory) returns (ok: bool)
    modifies dir
    ensures dir.files - {MANIFEST, RECEIPT} == old(dir.files) - {MANIFEST, RECEIPT}
    ensures old(dir.faulty) ==> dir.faulty
    ensures !ok ==> dir.faulty || !Bindable(lib, dir.Now())
    ensures ok ==> Bound(lib, analysis, old(dir.Now()), dir.Now())
  {
    hide FilePrint;
    hide ManifestText;
    hide AllPrinted;
    ghost var before := dir.Now();
    ok := WriteAnalysisManifest(lib, dir);
    ghost var middle := dir.Now();
    DropBoth(before.files, middle.files, MANIFEST, {MANIFEST, RECEIPT});
    if ok {
      ok := WriteAnalysisReceipt(lib, analysis, dir);
      DropBoth(middle.files, dir.files, RECEIPT, {MANIFEST, RECEIPT});
      SamePrint(lib, middle, dir.Now(), {RECEIPT}, MANIFEST);
      assert MANIFEST in middle.files - {RECEIPT};
      assert ok ==> dir.files[MANIFEST] == middle.files[MANIFEST];
    }
    SameTablePrinted(lib, before, dir.Now());
  }

  lemma DropBoth(a: map<string, string>, b: map<string, string>, name: string, names: set<string>)
    requires a - {name} == b - {name} && name in names
    ensures a - names == b - names
  {
    assert a - names == (a - {name}) - names;
    assert b - names == (b - {name}) - names;
  }

  /** What the writers need of the library: the receipts they print for an analysis are read back as printed. */
  ghost predicate ReceiptsReadBack(lib: Library, analysis: Analysis) {
    forall mark :: lib.readReceipt(lib.printReceipt(AnalysisReceipt(analysis, mark), mark))
      == Some(Validation(OutcomeOf(analysis), Some(mark)))
  }

  /** The unchanged directory is accepted with the outcome of the analysis. */
  lemma ChainRoundTrip(lib: Library, analysis: Analysis, before: Snapshot, after: Snapshot)
    requires ReceiptsReadBack(lib, analysis)
    requires Bound(lib, analysis, before, after) && SchemaPresent(after)
    ensures Sound(lib, after)
    ensures RecordedStatus(lib, after) == if analysis.status == 0 then 0 else 1
  {
    hide FilePrint;
    hide ManifestText;
    hide AllPrinted;
    hide SchemaPresent;
    hide ManifestAccepted;
    var mark := FilePrint(lib, after, MANIFEST).value;
    var receipt := AnalysisReceipt(analysis, mark);
    assert lib.readReceipt(lib.printReceipt(receipt, mark)) == Some(Validation(receipt.outcome, Some(mark)));
    ReceiptDoesNotDisturb(lib, before, after);
  }

  /** The receipt is not among the files the manifest binds, so writing it keeps the manifest accepted. */
  lemma ReceiptDoesNotDisturb(lib: Library, before: Snapshot, after: Snapshot)
    requires AllPrinted(lib, before, Table())
    requires after.path == before.path && after.files - {MANIFEST, RECEIPT} == before.files - {MANIFEST, RECEIPT}
    requires after.Read(MANIFEST) == Some(ManifestText(lib, before))
    ensures ManifestAccepted(lib, after)
  {
    hide FilePrint;
    hide ManifestText;
    var middle := Snapshot(before.path, before.files[MANIFEST := ManifestText(lib, before)]);
    ManifestRoundTrip(lib, before, middle);
    SameOutside(before.files, middle.files, after.files);
    AcceptanceFrame(lib, middle, after);
  }

  lemma SameOutside(before: map<string, string>, middle: map<string, string>, after: map<string, string>)
    requires MANIFEST in middle && middle == before[MANIFEST := middle[MANIFEST]]
    requires after - {MANIFEST, RECEIPT} == before - {MANIFEST, RECEIPT}
    ensures after - {MANIFEST, RECEIPT} == middle - {MANIFEST, RECEIPT}
  {
  }

  /** Acceptance of a manifest does not look at the receipt. */
  lemma AcceptanceFrame(lib: Library, a: Snapshot, b: Snapshot)
    requires a.path == b.path && a.Read(MANIFEST) == b.Read(MANIFEST)
    requires a.files - {MANIFEST, RECEIPT} == b.files - {MANIFEST, RECEIPT}
    ensures ManifestAccepted(lib, a) <==> ManifestAccepted(lib, b)
  {
    hide FilePrint;
    hide Lines;
    hide Claims;
    hide AllParse;
    NamesPrintable();
    assert forall i :: 0 <= i < |NAMES| ==> NAMES[i][0] != RECEIPT[0];
    forall i | 0 <= i < |NAMES| ensures FilePrint(lib, a, NAMES[i]) == FilePrint(lib, b, NAMES[i]) {
      SamePrint(lib, a, b, {MANIFEST, RECEIPT}, NAMES[i]);
    }
    SameFilesIff(lib, a, b);
  }

  // ----- Tampering -----

  /** Changing the manifest's fingerprint, receipt untouched, is always noticed. */
  lemma ManifestEditRejected(lib: Library, before: Snapshot, after: Snapshot)
    requires Sound(lib, before) && after.Read(RECEIPT) == before.Read(RECEIPT)
    requires FilePrint(lib, after, MANIFEST) != FilePrint(lib, before, MANIFEST)
    ensures !Sound(lib, after)
  {
  }

  /** With receipt and manifest untouched, the directory stays accepted exactly when none of the 17 fingerprints
      has changed and the model still holds its schema line. */
  lemma FileEditIff(lib: Library, before: Snapshot, after: Snapshot)
    requires Sound(lib, before)
    requires after.Read(RECEIPT) == before.Read(RECEIPT) && after.Read(MANIFEST) == before.Read(MANIFEST)
    ensures Sound(lib, after) <==>
      SchemaPresent(after)
      && forall i :: 0 <= i < |NAMES| ==> FilePrint(lib, after, NAMES[i]) == FilePrint(lib, before, NAMES[i])
  {
    hide SchemaPresent;
    hide Lines;
    hide Wanted;
    hide Claims;
    hide AllParse;
    hide Table;
    assert FilePrint(lib, after, MANIFEST) == FilePrint(lib, before, MANIFEST);
    hide FilePrint;
    SameFilesIff(lib, after, before);
  }
  /** For every edit that leaves the receipt alone and does not forge a manifest of the same fingerprint: the directory
      stays accepted exactly when the manifest is untouched, none of the 17 fingerprints has changed, and the model still
      holds its schema line. */
  lemma TamperingIff(lib: Library, before: Snapshot, after: Snapshot)
    requires Sound(lib, before) && after.Read(RECEIPT) == before.Read(RECEIPT)
    requires FilePrint(lib, after, MANIFEST) == FilePrint(lib, before, MANIFEST)
      ==> after.Read(MANIFEST) == before.Read(MANIFEST)
    ensures Sound(lib, after) <==>
      after.Read(MANIFEST) == before.Read(MANIFEST)
      && SchemaPresent(after)
      && forall i :: 0 <= i < |NAMES| ==> FilePrint(lib, after, NAMES[i]) == FilePrint(lib, before, NAMES[i])
  {
    if after.Read(MANIFEST) == before.Read(MANIFEST) {
      hide Sound;
      hide FilePrint;
      FileEditIff(lib, before, after);
    } else {
      hide Sound;
      hide FilePrint;
      ManifestEditRejected(lib, before, after);
    }
  }
}
