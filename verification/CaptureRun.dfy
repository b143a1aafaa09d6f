/** A capture run: the files it writes, the receipt that fingerprints them, and the receipt of the receipt.
    Every print, open and close may fail; failures are remembered in one sticky error. */
module CaptureRun {
  import opened Wrappers
  import opened CText
  import opened Files
  import opened Artifacts
  import opened Library
  import opened Evidence
  import opened CaptureReceipt
  import ArgumentVectors

  const TOOL_RECEIPT := "tool-receipt.json"
  function Disclaimer(): (text: string) {
    "does_not_prove=complete instrumentation, "
    + ("external truth, global process ordering, "
    + ("or cryptographic authenticity" + "\n"))
  }

  type ExitByte = n: int | 0 <= n <= 255

  type Nanoseconds = n: nat | n < 1000000000

  /** `struct utsname`, as far as the manifest shows it. */
  datatype Host = Host(sysname: string, release: string, machine: string)

  /** What the system answers a run; none where the call fails. `now` names the run, `clock` dates the manifest. */
  datatype World = World(pid: U64, now: Option<(U64, Nanoseconds)>, clock: Option<I64>, host: Option<Host>)

  /** What `waitpid` reports. */
  datatype WaitStatus = Exited(code: ExitByte) | Signalled(signal: I64) | Raw(value: I64)

  /** `p101_observe_status_is_success` */
  predicate IsSuccess(status: WaitStatus) {
    status == Exited(0)
  }

  // ----- Texts -----

  /** `write_status` for the observed command. */
  function StatusLine(status: WaitStatus): (text: string) {
    match status
    case Exited(code) => "status=command\texit=" + (DecimalInt(code) + "\n")
    case Signalled(signal) => "status=command\tsignal=" + (DecimalInt(signal) + "\n")
    case Raw(value) => "status=command\traw=" + (DecimalInt(value) + "\n")
  }

  function Preamble(lib: Library, runId: string): (r: seq<string>) {
    [ RECEIPT_HEADER,
      "schema=p101-run-receipt-v1" + "\n",
      "run_id=" + (runId + "\n"),
      "event_schema=" + (lib.eventSchema + "\n"),
      "event_log_version=" + (Numeral(lib.logVersion, 10) + "\n"),
      "ordering=per-context-sequence" + "\n",
      "durability=buffered-until-close" + "\n",
      "fingerprint=fnv1a64" + "\n",
      "fingerprint_security=change-detection-only" + "\n",
      "analysis=deferred" + "\n"]
  }

  /** The lines of the receipt of a directory. */
  function ReceiptLines(lib: Library, runId: string, status: WaitStatus, dir: Snapshot): (r: seq<string>)
    requires AllPrinted(lib, dir, CaptureTable())
  {
    Preamble(lib, runId) + [StatusLine(status)] + RecordLines(lib, dir, CaptureTable()) + [Disclaimer()]
  }

  function ReceiptText(lib: Library, runId: string, status: WaitStatus, dir: Snapshot): (text: string)
    requires AllPrinted(lib, dir, CaptureTable())
  {
    Flatten(ReceiptLines(lib, runId, status, dir))
  }

  /** The receipt `write_tool_receipt` builds around the fingerprint of `receipt.txt`. */
  function CaptureToolReceipt(runId: string, status: WaitStatus, mark: Fingerprint): (r: ToolReceipt) {
    ToolReceipt(
      "inspect-capture", "1.0.0",
      "p101-run-receipt-v1", "fnv1a64:" + Padded(mark.hash, 16, 16),
      "inspect-capture-policy-v1", "event-v5:buffered:bounded-fnv1a64", runId,
      if IsSuccess(status) then Clean else Findings,
      if IsSuccess(status) then NoFailure else FindingsPresent,
      if IsSuccess(status) then "" else "observed-command",
      if IsSuccess(status) then "" else "observed command did not exit successfully",
      7, 7)
  }

  /** The words of a command with single spaces between them. */
  function CommandTexts(command: seq<string>): (r: seq<string>) {
    seq(|command|, i requires 0 <= i < |command| => (if i == 0 then "" else " ") + command[i]) + ["\n"]
  }

  /** The command on one line. */
  function CommandLine(words: seq<string>): (text: string)
    requires words != []
  {
    if |words| == 1 then words[0] + "\n" else words[0] + (" " + CommandLine(words[1..]))
  }

  function LaterTexts(words: seq<string>): (r: seq<string>)
    ensures |r| == |words| + 1
  {
    seq(|words|, i requires 0 <= i < |words| => " " + words[i]) + ["\n"]
  }

  lemma {:induction false} LaterIsLine(words: seq<string>)
    ensures Flatten(LaterTexts(words)) == if words == [] then "\n" else " " + CommandLine(words)
  {
    var texts := LaterTexts(words);
    if words == [] {
      assert texts == ["\n"] && texts[1..] == [];
    } else {
      LaterIsLine(words[1..]);
      assert texts[1..] == LaterTexts(words[1..]);
      assert Flatten(texts) == texts[0] + Flatten(texts[1..]);
      hide Flatten;
      hide LaterTexts;
      assert (" " + words[0]) + (" " + (if |words| > 1 then CommandLine(words[1..]) else ""))
        == " " + (words[0] + (" " + (if |words| > 1 then CommandLine(words[1..]) else "")));
      assert (" " + words[0]) + "\n" == " " + (words[0] + "\n");
    }
  }

  /** What is printed for a command is its words with single spaces between them. */
  lemma CommandIsLine(words: seq<string>)
    requires words != []
    ensures Flatten(CommandTexts(words)) == CommandLine(words)
  {
    var texts := CommandTexts(words);
    LaterIsLine(words[1..]);
    assert texts[1..] == LaterTexts(words[1..]) && texts[0] == words[0] by { assert "" + words[0] == words[0]; }
    assert Flatten(texts) == texts[0] + Flatten(texts[1..]);
  }

  lemma {:induction false} SpacesInLine(words: seq<string>)
    requires words != [] && forall w :: w in words ==> ' ' !in w
    ensures ' ' in CommandLine(words) <==> |words| > 1
  {
    var text := CommandLine(words);
    if |words| > 1 { assert text[|words[0]|] == ' '; } else { assert words[0] in words; }
  }

  /** The words can be read back, as long as none holds a space: two commands print the same only if they are the same. */
  lemma {:induction false} CommandReadBack(a: seq<string>, b: seq<string>)
    requires a != [] && b != [] && (forall w :: w in a ==> ' ' !in w) && (forall w :: w in b ==> ' ' !in w)
    requires CommandLine(a) == CommandLine(b)
    ensures a == b
  {
    SpacesInLine(a);
    SpacesInLine(b);
    if |a| == 1 {
      assert CommandLine(a)[..|CommandLine(a)| - 1] == a[0] && CommandLine(b)[..|CommandLine(b)| - 1] == b[0];
    } else {
      assert a[0] in a && b[0] in b;
      SplitUnique(a[0], CommandLine(a[1..]), b[0], CommandLine(b[1..]), ' ');
      CommandReadBack(a[1..], b[1..]);
      assert a == [a[0]] + a[1..] && b == [b[0]] + b[1..];
    }
  }

  function ManifestHead(lib: Library, runId: string): (texts: seq<string>)
    ensures |texts| == 6
  {
    [ "inspect-capture manifest" + "\n",
      "schema=inspect-capture-manifest-v2" + "\n",
      "run_id=" + (runId + "\n"),
      "event_schema=" + (lib.eventSchema + "\n"),
      "event_log_version=" + (Numeral(lib.logVersion, 10) + "\n"),
      "event_timestamp_fields=" + ("sequence,monotonic_ns,wall_unix_ns" + "\n")]
  }

  function TimeTexts(time: Option<I64>): (r: seq<string>) {
    match time
    case None => []
    case Some(seconds) => ["generated_at_unix=" + (DecimalInt(seconds) + "\n")]
  }

  function HostTexts(host: Option<Host>): (r: seq<string>) {
    match host
    case None => []
    case Some(h) =>
      ["host_sysname=" + (h.sysname + "\n"), "host_release=" + (h.release + "\n"), "host_machine=" + (h.machine + "\n")]
  }

  function Logging(enabled: bool): (text: string) {
    if enabled then "enabled" else "redacted"
  }

  function ManifestTail(path: string, arguments: ArgumentVectors.Arguments): (r: seq<string>) {
    [ "report_dir=" + (path + "\n"),
      "call_arguments=" + (Logging(arguments.logArguments) + "\n"),
      "call_results=" + (Logging(arguments.logResults) + "\n"),
      "resource_log=" + (path + "/resources.log" + "\n"),
      "call_log=" + (path + "/calls.log" + "\n"),
      "command="] + CommandTexts(arguments.command)
  }

  /** The manifest of a directory; the time and the host are there or left out. */
  function ManifestText(lib: Library, runId: string, path: string, arguments: ArgumentVectors.Arguments,
                        time: Option<I64>, host: Option<Host>): (text: string)
  {
    Flatten(ManifestHead(lib, runId) + TimeTexts(time) + HostTexts(host) + ManifestTail(path, arguments))
  }

  /** The time the manifest shows: an error pending from before is taken for a failing clock. */
  function ShownTime(clock: Option<I64>, pending: bool): (r: Option<I64>) {
    if pending then None else clock
  }

  /** `p101-<pid>-<seconds>-<nanoseconds, nine digits>` */
  function RunId(pid: U64, seconds: U64, nanoseconds: Nanoseconds): (text: string) {
    "p101-" + (Numeral(pid, 10) + ("-" + (Numeral(seconds, 10) + ("-" + Padded(nanoseconds, 10, 9)))))
  }

  /** What the tool receipt of a run says fits together: it is clean exactly for exit 0, and then names no failure, no
      stage and no diagnostic and only then; its input is the hash of the receipt. */
  lemma ToolReceiptFits(runId: string, status: WaitStatus, mark: Fingerprint)
    ensures var receipt := CaptureToolReceipt(runId, status, mark);
      && (receipt.outcome == Clean <==> status == Exited(0)) && receipt.outcome != Trouble
      && (receipt.failureReason == NoFailure <==> receipt.outcome == Clean)
      && (receipt.failedStage == "" <==> receipt.outcome == Clean)
      && (receipt.firstDiagnostic == "" <==> receipt.outcome == Clean)
      && receipt.inputIdentity == "fnv1a64:" + Padded(mark.hash, 16, 16) && receipt.runIdentity == runId
      && receipt.checksAttempted == receipt.checksCompleted == 7
      && receipt.toolName == "inspect-capture" && receipt.toolVersion == "1.0.0"
      && receipt.inputSchema == "p101-run-receipt-v1" && receipt.policySchema == "inspect-capture-policy-v1"
      && (status != Exited(0) ==> receipt.failedStage == "observed-command")
  {
    hide Padded;
  }

  // ----- Printing with a sticky error -----

  /** What consecutive prints of the texts leave when some of them fail halfway: a beginning of each. */
  ghost predicate Printed(texts: seq<string>, s: string) {
    exists pieces: seq<string> :: Pieces(texts, pieces) && s == Flatten(pieces)
  }

  ghost predicate Pieces(texts: seq<string>, pieces: seq<string>) {
    |pieces| == |texts| && forall i :: 0 <= i < |texts| ==> pieces[i] <= texts[i]
  }

  /** What a failed attempt to write the texts leaves in a file it has opened. */
  ghost predicate LeftBehind(texts: seq<string>, s: string) {
    exists printed :: Printed(texts, printed) && s <= printed
  }

  lemma PrintedMore(texts: seq<string>, i: nat, s: string, piece: string)
    requires i < |texts| && Printed(texts[..i], s) && piece <= texts[i]
    ensures Printed(texts[..i + 1], s + piece)
  {
    var pieces :| Pieces(texts[..i], pieces) && s == Flatten(pieces);
    var more := pieces + [piece];
    assert more[..i] == pieces && more[..i + 1] == more;
    FlattenSnoc(more, i);
    forall k | 0 <= k < i + 1 ensures more[k] <= texts[..i + 1][k] {
      assert k < i ==> texts[..i][k] == texts[k];
    }
    assert Pieces(texts[..i + 1], more);
  }

  lemma NothingPrinted()
    ensures Printed([], "")
  {
    assert Pieces([], []) && Flatten([]) == "";
  }

  /** A run of consecutive print calls: each text is printed whether or not an earlier one failed. */
  method PutAll(out: Output, err: ErrorState, texts: seq<string>) returns (ghost failed: bool)
    modifies out, out.dir, err
    ensures OnlyChanged(old(out.dir.files), out.dir.files, out.name) || texts == []
    ensures texts == [] ==> out.dir.files == old(out.dir.files)
    ensures err.raised <==> old(err.raised) || failed
    ensures out.dir.faulty <==> old(out.dir.faulty) || failed
    ensures !failed ==> out.text == old(out.text) + Flatten(texts)
    ensures old(out.text) <= out.text && Printed(texts, out.text[|old(out.text)|..])
  {
    hide Printed;
    failed := false;
    ghost var before := out.dir.files;
    ghost var start := out.text;
    assert texts[..0] == [] && start[|start|..] == "";
    NothingPrinted();
    var index := 0;
    while index < |texts|
      invariant index <= |texts|
      invariant index == 0 ==> out.dir.files == before
      invariant index > 0 ==> OnlyChanged(before, out.dir.files, out.name)
      invariant err.raised <==> old(err.raised) || failed
      invariant out.dir.faulty <==> old(out.dir.faulty) || failed
      invariant !failed ==> out.text == start + Flatten(texts[..index])
      invariant start <= out.text && Printed(texts[..index], out.text[|start|..])
    {
      ghost var s := out.text;
      var ok := out.Put(texts[index]);
      if !ok { err.raised, failed := true, true; }
      FlattenSnoc(texts, index);
      PrintedMore(texts, index, s[|start|..], out.text[|s|..]);
      assert s[|start|..] + out.text[|s|..] == out.text[|start|..];
      index := index + 1;
    }
    assert texts[..|texts|] == texts;
  }

  lemma FlattenSnoc(texts: seq<string>, i: nat)
    requires i < |texts|
    ensures Flatten(texts[..i + 1]) == Flatten(texts[..i]) + texts[i]
  {
    assert texts[..i + 1] == texts[..i] + [texts[i]];
    FlattenAppend(texts[..i], [texts[i]]);
    assert [texts[i]][1..] == [];
    assert texts[i] + "" == texts[i];
  }

  method CloseOrRaise(out: Output, err: ErrorState) returns (ghost failed: bool)
    modifies out.dir, err
    ensures OnlyChanged(old(out.dir.files), out.dir.files, out.name) && out.dir.files[out.name] <= out.text
    ensures err.raised <==> old(err.raised) || failed
    ensures out.dir.faulty <==> old(out.dir.faulty) || failed
    ensures !failed ==> out.dir.files == old(out.dir.files)[out.name := out.text]
  {
    var ok := out.Close();
    if !ok { err.raised := true; }
    failed := !ok;
  }

  method OpenOrRaise(dir: Directory, err: ErrorState, name: string) returns (out: Output?)
    modifies dir, err
    ensures err.raised <==> old(err.raised) || out == null
    ensures dir.faulty <==> old(dir.faulty) || out == null
    ensures out == null ==> dir.files == old(dir.files)
    ensures out != null ==> fresh(out) && out.dir == dir && out.name == name && out.text == ""
    ensures out != null ==> dir.folder && dir.Now().Joins(name) && dir.files == old(dir.files)[name := ""]
  {
    out := dir.Create(name);
    if out == null { err.raised := true; }
  }

  /** Open, print and close one file; whatever fails leaves an error. */
  method WriteFile(dir: Directory, err: ErrorState, name: string, texts: seq<string>) returns (ghost failed: bool)
    modifies dir, err
    ensures err.raised <==> old(err.raised) || failed
    ensures dir.faulty <==> old(dir.faulty) || failed
    ensures dir.files - {name} == old(dir.files) - {name}
    ensures !failed ==> dir.Now().Joins(name) && dir.files == old(dir.files)[name := Flatten(texts)]
    ensures failed ==> dir.Now() == old(dir.Now())
                       || (dir.Now().Read(name).Some? && LeftBehind(texts, dir.Now().Read(name).value))
  {
    hide Printed;
    var out := OpenOrRaise(dir, err, name);
    failed := out == null;
    if out != null {
      ghost var printing := PutAll(out, err, texts);
      assert "" + Flatten(texts) == Flatten(texts);
      assert out.text[|""|..] == out.text;
      ghost var closing := CloseOrRaise(out, err);
      failed := printing || closing;
    }
  }

  // ----- The receipt -----

  /** While the receipt is being written: nothing else has changed, and without an error the text so far is
      `base` followed by the lines of the first `k` artifacts as the directory had them. */
  ghost predicate Recording(lib: Library, before: Snapshot, out: Output, raised: bool, base: seq<string>, k: nat)
    requires k <= |CaptureTable()|
    reads out, out.dir
  {
    && out.dir.path == before.path
    && out.name == RECEIPT_NAME
    && OnlyChanged(before.files, out.dir.files, RECEIPT_NAME)
    && (!raised ==> AllPrinted(lib, before, CaptureTable()[..k])
                    && out.text == Flatten(base + RecordLines(lib, before, CaptureTable()[..k])))
  }

  /** `write_artifact_fingerprint` for the next artifact of the table. */
  method WriteArtifactFingerprint(lib: Library, out: Output, err: ErrorState, role: string, name: string,
                                  ghost before: Snapshot, ghost base: seq<string>, ghost k: nat)
    requires k < |CaptureTable()| && CaptureTable()[k].role == role && CaptureTable()[k].name == name
    requires name != RECEIPT_NAME
    requires Recording(lib, before, out, err.raised, base, k)
    modifies out, out.dir, err
    ensures old(err.raised) ==> err.raised
    ensures old(out.dir.faulty) ==> out.dir.faulty
    ensures err.raised ==> old(err.raised) || out.dir.faulty || FilePrint(lib, before, name).None?
    ensures Recording(lib, before, out, err.raised, base, k + 1)
  {
    hide FilePrint;
    hide Line;
    if err.raised { return; }
    assert FilePrint(lib, out.dir.Now(), name) == FilePrint(lib, before, name) by {
      SamePrint(lib, before, out.dir.Now(), {RECEIPT_NAME}, name);
    }
    var mark := FilePrint(lib, out.dir.Now(), name);
    if mark.None? {
      err.raised := true;
      return;
    }
    NextRecord(lib, before, base, k);
    var ok := out.Put(Line(Entry(role, mark.value)));
    if !ok { err.raised := true; }
  }

  lemma NextRecord(lib: Library, dir: Snapshot, base: seq<string>, k: nat)
    requires k < |CaptureTable()| && AllPrinted(lib, dir, CaptureTable()[..k])
    requires FilePrint(lib, dir, CaptureTable()[k].name).Some?
    ensures AllPrinted(lib, dir, CaptureTable()[..k + 1])
    ensures Flatten(base + RecordLines(lib, dir, CaptureTable()[..k + 1]))
      == Flatten(base + RecordLines(lib, dir, CaptureTable()[..k])) + RecordLine(lib, dir, CaptureTable()[k])
  {
    hide FilePrint;
    hide Line;
    var table := CaptureTable();
    var upTo := table[..k + 1];
    forall i | 0 <= i < |upTo| ensures FilePrint(lib, dir, upTo[i].name).Some? {
      assert upTo[i] == if i < k then table[..k][i] else table[k];
    }
    RecordLinesStep(lib, dir, table, k);
    var line := RecordLine(lib, dir, table[k]);
    var lines := base + RecordLines(lib, dir, table[..k]);
    assert base + RecordLines(lib, dir, upTo) == lines + [line];
    FlattenSnoc(lines + [line], |lines|);
    assert (lines + [line])[..|lines|] == lines && (lines + [line])[..|lines| + 1] == lines + [line];
  }

  /** The seven fingerprints, in the order they are written. */
  method WriteFingerprints(lib: Library, out: Output, err: ErrorState, ghost before: Snapshot, ghost base: seq<string>)
    requires Recording(lib, before, out, err.raised, base, 0)
    modifies out, out.dir, err
    ensures old(err.raised) ==> err.raised
    ensures old(out.dir.faulty) ==> out.dir.faulty
    ensures err.raised ==> old(err.raised) || out.dir.faulty || !AllPrinted(lib, before, CaptureTable())
    ensures Recording(lib, before, out, err.raised, base, |CaptureTable()|)
  {
    SevenPrinted(lib, before);
    hide AllPrinted;
    hide FilePrint;
    hide Recording;
    WriteArtifactFingerprint(lib, out, err, "manifest", "manifest.txt", before, base, 0);
    WriteArtifactFingerprint(lib, out, err, "command", "command.txt", before, base, 1);
    WriteArtifactFingerprint(lib, out, err, "stdout", "stdout.txt", before, base, 2);
    WriteArtifactFingerprint(lib, out, err, "stderr", "stderr.txt", before, base, 3);
    WriteArtifactFingerprint(lib, out, err, "resources", "resources.log", before, base, 4);
    WriteArtifactFingerprint(lib, out, err, "calls", "calls.log", before, base, 5);
    WriteArtifactFingerprint(lib, out, err, "summary", "summary.txt", before, base, 6);
  }

  lemma SevenPrinted(lib: Library, dir: Snapshot)
    ensures AllPrinted(lib, dir, CaptureTable()) ==>
      && FilePrint(lib, dir, "manifest.txt").Some? && FilePrint(lib, dir, "command.txt").Some?
      && FilePrint(lib, dir, "stdout.txt").Some? && FilePrint(lib, dir, "stderr.txt").Some?
      && FilePrint(lib, dir, "resources.log").Some? && FilePrint(lib, dir, "calls.log").Some?
      && FilePrint(lib, dir, "summary.txt").Some?
  {
    hide FilePrint;
    var table := CaptureTable();
    assert table[0].name == "manifest.txt" && table[1].name == "command.txt" && table[2].name == "stdout.txt";
    assert table[3].name == "stderr.txt" && table[4].name == "resources.log" && table[5].name == "calls.log";
    assert table[6].name == "summary.txt";
  }

  /** Everything the receipt says before its fingerprints. */
  method WritePreamble(lib: Library, out: Output, err: ErrorState, runId: string, status: WaitStatus, ghost before: Snapshot)
    requires out.dir.path == before.path && out.name == RECEIPT_NAME && out.text == ""
    requires OnlyChanged(before.files, out.dir.files, RECEIPT_NAME)
    modifies out, out.dir, err
    ensures old(err.raised) ==> err.raised
    ensures old(out.dir.faulty) ==> out.dir.faulty
    ensures err.raised ==> old(err.raised) || out.dir.faulty
    ensures Recording(lib, before, out, err.raised, Preamble(lib, runId) + [StatusLine(status)], 0)
  {
    hide Printed;
    hide FilePrint;
    hide Preamble;
    hide StatusLine;
    ghost var _ := PutAll(out, err, Preamble(lib, runId));
    ghost var _ := PutAll(out, err, [StatusLine(status)]);
    assert CaptureTable()[..0] == [];
    assert !err.raised ==> out.text == Flatten(Preamble(lib, runId)) + Flatten([StatusLine(status)]);
    hide Flatten;
    FlattenAppend(Preamble(lib, runId), [StatusLine(status)]);
    var base := Preamble(lib, runId) + [StatusLine(status)];
    assert base + [] == base;
  }

  /** The last line, and closing the file. */
  method FinishReceipt(lib: Library, out: Output, err: ErrorState, ghost before: Snapshot, ghost base: seq<string>)
    requires Recording(lib, before, out, err.raised, base, |CaptureTable()|)
    modifies out, out.dir, err
    ensures old(err.raised) ==> err.raised
    ensures old(out.dir.faulty) ==> out.dir.faulty
    ensures err.raised ==> old(err.raised) || out.dir.faulty
    ensures OnlyChanged(before.files, out.dir.files, RECEIPT_NAME)
    ensures !err.raised ==> AllPrinted(lib, before, CaptureTable())
    ensures !err.raised ==>
      out.dir.files[RECEIPT_NAME] == Flatten(base + RecordLines(lib, before, CaptureTable()) + [Disclaimer()])
  {
    assert CaptureTable()[..|CaptureTable()|] == CaptureTable();
    hide Printed;
    hide FilePrint;
    hide RecordLines;
    hide Flatten;
    hide Disclaimer;
    hide CaptureTable;
    ghost var _ := PutAll(out, err, [Disclaimer()]);
    if !err.raised {
      FlattenAppend(base + RecordLines(lib, before, CaptureTable()), [Disclaimer()]);
    }
    ghost var _ := CloseOrRaise(out, err);
  }

  /** `p101_observe_write_receipt_file` up to closing the receipt. */
  method WriteReceipt(lib: Library, dir: Directory, err: ErrorState, runId: string, status: WaitStatus)
    modifies dir, err
    ensures old(err.raised) ==> err.raised
    ensures old(dir.faulty) ==> dir.faulty
    ensures err.raised ==> old(err.raised) || dir.faulty || !AllPrinted(lib, old(dir.Now()), CaptureTable())
    ensures dir.files - {RECEIPT_NAME} == old(dir.files) - {RECEIPT_NAME}
    ensures !err.raised ==> AllPrinted(lib, old(dir.Now()), CaptureTable()) && dir.Now().Joins(RECEIPT_NAME)
    ensures !err.raised ==> dir.files == old(dir.files)[RECEIPT_NAME := ReceiptText(lib, runId, status, old(dir.Now()))]
  {
    hide FilePrint;
    hide RecordLines;
    hide Preamble;
    hide StatusLine;
    hide Flatten;
    hide Disclaimer;
    hide Recording;
    ghost var before := dir.Now();
    ghost var base := Preamble(lib, runId) + [StatusLine(status)];
    var out := OpenOrRaise(dir, err, RECEIPT_NAME);
    if out == null { return; }
    WritePreamble(lib, out, err, runId, status, before);
    WriteFingerprints(lib, out, err, before, base);
    FinishReceipt(lib, out, err, before, base);
  }

  /** `write_tool_receipt`: it fingerprints the receipt as it lies in the directory. */
  method WriteToolReceipt(lib: Library, dir: Directory, err: ErrorState, runId: string, status: WaitStatus)
    modifies dir, err
    ensures old(err.raised) ==> err.raised
    ensures old(dir.faulty) ==> dir.faulty
    ensures err.raised ==> old(err.raised) || dir.faulty || (dir.Now() == old(dir.Now()) && FilePrint(lib, dir.Now(), RECEIPT_NAME).None?)
    ensures dir.files - {TOOL_RECEIPT} == old(dir.files) - {TOOL_RECEIPT}
    ensures !err.raised ==> FilePrint(lib, old(dir.Now()), RECEIPT_NAME).Some? && dir.Now().Joins(TOOL_RECEIPT)
    ensures !err.raised ==>
      var mark := FilePrint(lib, old(dir.Now()), RECEIPT_NAME).value;
      dir.files == old(dir.files)[TOOL_RECEIPT := lib.printReceipt(CaptureToolReceipt(runId, status, mark), mark)]
  {
    hide FilePrint;
    var mark := FilePrint(lib, dir.Now(), RECEIPT_NAME);
    if mark.None? {
      err.raised := true;
      return;
    }
    var text := lib.printReceipt(CaptureToolReceipt(runId, status, mark.value), mark.value);
    ghost var _ := WriteFile(dir, err, TOOL_RECEIPT, [text]);
    assert Flatten([text]) == text by {
      FlattenSnoc([text], 0);
      assert [text][..1] == [text] && [text][..0] == [];
      assert "" + text == text;
    }
  }

  // ----- The run -----

  /** A finished capture: every artifact line records the fingerprint of that file as it is now, and the tool
      receipt records the fingerprint of the receipt as it is now. */
  ghost predicate Finished(lib: Library, runId: string, status: WaitStatus, dir: Snapshot) {
    && AllPrinted(lib, dir, CaptureTable())
    && dir.Read(RECEIPT_NAME) == Some(ReceiptText(lib, runId, status, dir))
    && FilePrint(lib, dir, RECEIPT_NAME).Some?
    && var mark := FilePrint(lib, dir, RECEIPT_NAME).value;
    && dir.Read(TOOL_RECEIPT) == Some(lib.printReceipt(CaptureToolReceipt(runId, status, mark), mark))
  }

  /** Every file the receipt lists can be fingerprinted, and so can the receipt, if it is there. */
  ghost predicate Fingerprintable(lib: Library, dir: Snapshot) {
    && AllPrinted(lib, dir, CaptureTable())
    && (dir.Read(RECEIPT_NAME).Some? ==> FilePrint(lib, dir, RECEIPT_NAME).Some?)
  }

  /** Both receipts: the second only when nothing has failed. */
  method WriteReceipts(lib: Library, dir: Directory, err: ErrorState, runId: string, status: WaitStatus)
    modifies dir, err
    ensures old(err.raised) ==> err.raised
    ensures old(dir.faulty) ==> dir.faulty
    ensures err.raised ==> old(err.raised) || dir.faulty || !Fingerprintable(lib, dir.Now())
    ensures dir.files - {RECEIPT_NAME, TOOL_RECEIPT} == old(dir.files) - {RECEIPT_NAME, TOOL_RECEIPT}
    ensures !err.raised ==> Finished(lib, runId, status, dir.Now())
  {
    hide FilePrint;
    hide ReceiptText;
    hide CaptureToolReceipt;
    hide AllPrinted;
    ghost var before := dir.Now();
    WriteReceipt(lib, dir, err, runId, status);
    ghost var middle := dir.Now();
    assert middle.files - {RECEIPT_NAME, TOOL_RECEIPT} == (middle.files - {RECEIPT_NAME}) - {TOOL_RECEIPT};
    assert before.files - {RECEIPT_NAME, TOOL_RECEIPT} == (before.files - {RECEIPT_NAME}) - {TOOL_RECEIPT};
    if !err.raised {
      WriteToolReceipt(lib, dir, err, runId, status);
      assert dir.files - {RECEIPT_NAME, TOOL_RECEIPT} == (dir.files - {TOOL_RECEIPT}) - {RECEIPT_NAME};
      assert middle.files - {RECEIPT_NAME, TOOL_RECEIPT} == (middle.files - {TOOL_RECEIPT}) - {RECEIPT_NAME};
      if !err.raised {
        ReceiptsBind(lib, runId, status, before, middle, dir.Now());
      }
    } else {
      SamePrinted(lib, before, middle);
    }
  }

  /** Writing receipts does not change which artifacts can be fingerprinted. */
  lemma SamePrinted(lib: Library, a: Snapshot, b: Snapshot)
    requires a.path == b.path && a.files - {RECEIPT_NAME} == b.files - {RECEIPT_NAME}
    ensures AllPrinted(lib, a, CaptureTable()) <==> AllPrinted(lib, b, CaptureTable())
  {
    hide FilePrint;
    forall i | 0 <= i < |CaptureTable()|
      ensures FilePrint(lib, a, CaptureTable()[i].name) == FilePrint(lib, b, CaptureTable()[i].name) {
      NotAReceipt(i);
      SamePrint(lib, a, b, {RECEIPT_NAME}, CaptureTable()[i].name);
    }
  }

  /** Neither receipt is among the artifacts, so the fingerprints written are still those of the files. */
  lemma ReceiptsBind(lib: Library, runId: string, status: WaitStatus, before: Snapshot, middle: Snapshot, after: Snapshot)
    requires before.path == middle.path == after.path
    requires AllPrinted(lib, before, CaptureTable()) && middle.Joins(RECEIPT_NAME) && after.Joins(TOOL_RECEIPT)
    requires middle.files == before.files[RECEIPT_NAME := ReceiptText(lib, runId, status, before)]
    requires FilePrint(lib, middle, RECEIPT_NAME).Some?
    requires var mark := FilePrint(lib, middle, RECEIPT_NAME).value;
      after.files == middle.files[TOOL_RECEIPT := lib.printReceipt(CaptureToolReceipt(runId, status, mark), mark)]
    ensures Finished(lib, runId, status, after)
  {
    hide CaptureToolReceipt;
    hide ReceiptText;
    SamePrint(lib, middle, after, {TOOL_RECEIPT}, RECEIPT_NAME);
    hide FilePrint;
    forall i | 0 <= i < |CaptureTable()|
      ensures FilePrint(lib, after, CaptureTable()[i].name) == FilePrint(lib, before, CaptureTable()[i].name) {
      NotAReceipt(i);
      SamePrint(lib, before, middle, {RECEIPT_NAME}, CaptureTable()[i].name);
      SamePrint(lib, middle, after, {TOOL_RECEIPT}, CaptureTable()[i].name);
    }
    SameReceipt(lib, runId, status, before, after);
  }

  lemma NotAReceipt(i: nat)
    requires i < |CaptureTable()|
    ensures CaptureTable()[i].name != RECEIPT_NAME && CaptureTable()[i].name != TOOL_RECEIPT
  {
    assert CaptureTable()[i].name[2] != RECEIPT_NAME[2];
    assert CaptureTable()[i].name[0] != TOOL_RECEIPT[0];
  }

  lemma SameReceipt(lib: Library, runId: string, status: WaitStatus, a: Snapshot, b: Snapshot)
    requires AllPrinted(lib, a, CaptureTable())
    requires forall i :: 0 <= i < |CaptureTable()| ==>
      FilePrint(lib, b, CaptureTable()[i].name) == FilePrint(lib, a, CaptureTable()[i].name)
    ensures AllPrinted(lib, b, CaptureTable())
    ensures ReceiptText(lib, runId, status, a) == ReceiptText(lib, runId, status, b)
  {
    hide FilePrint;
    hide Line;
    hide Flatten;
    hide Preamble;
    hide StatusLine;
    assert RecordLines(lib, a, CaptureTable()) == RecordLines(lib, b, CaptureTable());
  }

  /** The lines of `summary.txt`. */
  function SummaryTexts(dirPath: string, command: seq<string>, status: WaitStatus): (r: seq<string>)
    requires command != []
  {
    var code := match status
      case Exited(code) => "command: exit=" + DecimalInt(code) + "\n"
      case Signalled(signal) => "command: signal=" + DecimalInt(signal) + "\n"
      case Raw(value) => "command: status=" + DecimalInt(value) + "\n";
    [ "inspect-capture summary\n", "====================\n\n",
      "command: " + command[0] + "\n", "report_dir: " + dirPath + "\n\n",
      "analysis: deferred to p101-inspect analyze\n", code,
      "\nfiles:\n",
      "  stdout: " + dirPath + "/stdout.txt\n", "  stderr: " + dirPath + "/stderr.txt\n",
      "  resources: " + dirPath + "/resources.log\n", "  calls: " + dirPath + "/calls.log\n",
      "  manifest: " + dirPath + "/manifest.txt\n", "  receipt: " + dirPath + "/receipt.txt\n",
      "  tool_receipt: " + dirPath + "/tool-receipt.json\n"]
  }

  /** `finish_capture` */
  method FinishCapture(lib: Library, dir: Directory, err: ErrorState, runId: string, command: seq<string>, status: WaitStatus)
    returns (exit: int, ghost told: bool)
    requires command != []
    modifies dir, err
    ensures old(err.raised) ==> exit == 2
    ensures exit == 2 ==> err.raised
    ensures old(dir.faulty) ==> dir.faulty
    ensures err.raised ==> old(err.raised) || dir.faulty || !told || !Fingerprintable(lib, dir.Now())
    ensures !told ==> exit != 2 && err.raised
    ensures exit != 2 ==> Finished(lib, runId, status, dir.Now())
    ensures exit != 2 ==> dir.Now().Read("summary.txt") == Some(Flatten(SummaryTexts(dir.path, command, status)))
    ensures dir.files - {"summary.txt", RECEIPT_NAME, TOOL_RECEIPT} == old(dir.files) - {"summary.txt", RECEIPT_NAME, TOOL_RECEIPT}
    ensures exit == 0 || exit == 1 || exit == 2
    ensures exit != 2 ==> (exit == 0 <==> status == Exited(0))
  {
    hide Finished;
    hide SummaryTexts;
    hide Fingerprintable;
    ghost var _ := WriteFile(dir, err, "summary.txt", SummaryTexts(dir.path, command, status));
    assert dir.files - {"summary.txt", RECEIPT_NAME, TOOL_RECEIPT} == (dir.files - {"summary.txt"}) - {RECEIPT_NAME, TOOL_RECEIPT};
    assert old(dir.files) - {"summary.txt", RECEIPT_NAME, TOOL_RECEIPT} == (old(dir.files) - {"summary.txt"}) - {RECEIPT_NAME, TOOL_RECEIPT};
    label Summarised:
    WriteReceipts(lib, dir, err, runId, status);
    assert dir.files - {"summary.txt", RECEIPT_NAME, TOOL_RECEIPT} == (dir.files - {RECEIPT_NAME, TOOL_RECEIPT}) - {"summary.txt"};
    assert old@Summarised(dir.files) - {"summary.txt", RECEIPT_NAME, TOOL_RECEIPT}
      == (old@Summarised(dir.files) - {RECEIPT_NAME, TOOL_RECEIPT}) - {"summary.txt"};
    if err.raised { return 2, true; }
    assert "summary.txt" in old@Summarised(dir.files) - {RECEIPT_NAME, TOOL_RECEIPT};
    var printed := *;
    if !printed { err.raised := true; }
    told := printed;
    exit := if IsSuccess(status) then 0 else 1;
  }

  /** `p101_observe_write_manifest_file`. Once the file is open, an error pending from before, a failing clock and a
      failing `uname` are all reset, so an error afterwards can only come from writing this file. */
  method WriteManifestFile(lib: Library, dir: Directory, err: ErrorState, runId: string,
                           arguments: ArgumentVectors.Arguments, world: World)
    returns (ghost began: bool, ghost failed: bool)
    modifies dir, err
    ensures dir.files - {"manifest.txt"} == old(dir.files) - {"manifest.txt"}
    ensures !began ==> err.raised && failed
    ensures dir.faulty <==> old(dir.faulty) || failed
    ensures began ==> (err.raised <==> failed)
    ensures !failed ==> dir.folder && dir.Now().Joins("manifest.txt")
    ensures !failed ==> dir.files == old(dir.files)["manifest.txt" :=
      ManifestText(lib, runId, dir.path, arguments, ShownTime(world.clock, old(err.raised)), world.host)]
  {
    hide Printed;
    hide ManifestHead;
    hide HostTexts;
    hide ManifestTail;
    var out := OpenOrRaise(dir, err, "manifest.txt");
    began, failed := out != null, out == null;
    if out == null { return; }
    if world.clock.None? { err.raised := true; }
    var haveTime := !err.raised;
    if !haveTime { err.raised := false; }
    if world.host.None? { err.raised := true; }
    if world.host.None? { err.raised := false; }
    var texts := ManifestHead(lib, runId);
    texts := texts + (if haveTime then TimeTexts(world.clock) else []);
    texts := texts + HostTexts(world.host) + ManifestTail(dir.path, arguments);
    hide Flatten;
    ghost var printing := PutAll(out, err, texts);
    assert "" + Flatten(texts) == Flatten(texts);
    ghost var closing := CloseOrRaise(out, err);
    failed := printing || closing;
  }

  /** The observed command: it may do anything to the directory, and end in any way. */
  method ObservedCommand(dir: Directory, err: ErrorState) returns (status: WaitStatus, ghost ran: bool)
    modifies dir, err
    ensures err.raised <==> old(err.raised) || !ran
    ensures dir.faulty == old(dir.faulty)
  {
    var fails := *;
    if fails { err.raised := true; }
    ran := !fails;
    dir.files := *;
    status := *;
  }

  /** The directory as the observed command finds it. The manifest is written after `command.txt`, and takes the error
      `commandFailed` of writing that file for a failing clock; that file is then as it was (`earlier`), or holds what a
      failed attempt leaves. */
  ghost predicate Launched(lib: Library, runId: string, arguments: ArgumentVectors.Arguments, world: World,
                           earlier: Option<string>, commandFailed: bool, dir: Snapshot)
  {
    && var command := dir.Read("command.txt");
    && dir.Read("resources.log") == Some("") && dir.Read("calls.log") == Some("")
    && dir.Read("manifest.txt")
       == Some(ManifestText(lib, runId, dir.path, arguments, ShownTime(world.clock, commandFailed), world.host))
    && (!commandFailed ==> command == Some(Flatten(CommandTexts(arguments.command))))
    && (commandFailed ==>
          command == earlier || (command.Some? && LeftBehind(CommandTexts(arguments.command), command.value)))
  }

  /** The four files written before the command is started. */
  method Prepare(lib: Library, dir: Directory, err: ErrorState, runId: string, arguments: ArgumentVectors.Arguments,
                 world: World)
    returns (ghost commandFailed: bool)
    requires !err.raised
    modifies dir, err
    ensures old(dir.faulty) ==> dir.faulty
    ensures err.raised ==> dir.faulty
    ensures !err.raised ==> dir.folder
    ensures !err.raised ==>
      Launched(lib, runId, arguments, world, old(dir.Now().Read("command.txt")), commandFailed, dir.Now())
  {
    hide LeftBehind;
    hide ManifestText;
    hide CommandTexts;
    commandFailed := WriteFile(dir, err, "command.txt", CommandTexts(arguments.command));
    ghost var s1 := dir.Now();
    ghost var began, manifestFailed := WriteManifestFile(lib, dir, err, runId, arguments, world);
    ghost var s2 := dir.Now();
    if err.raised { return; }
    ghost var _ := WriteFile(dir, err, "resources.log", []);
    ghost var s3 := dir.Now();
    ghost var _ := WriteFile(dir, err, "calls.log", []);
    if !err.raised {
      hide Flatten;
      assert Flatten([]) == "" by { NoTexts(); }
      NamesDiffer();
      ReadOutside(s1, s2, {"manifest.txt"}, "command.txt");
      ReadOutside(s2, s3, {"resources.log"}, "command.txt");
      ReadOutside(s3, dir.Now(), {"calls.log"}, "command.txt");
      ReadOutside(s2, s3, {"resources.log"}, "manifest.txt");
      ReadOutside(s3, dir.Now(), {"calls.log"}, "manifest.txt");
      ReadOutside(s3, dir.Now(), {"calls.log"}, "resources.log");
    }
  }

  lemma NoTexts()
    ensures Flatten([]) == ""
  {
  }

  lemma NamesDiffer()
    ensures "command.txt" != "manifest.txt" && "command.txt" != "resources.log" && "command.txt" != "calls.log"
    ensures "manifest.txt" != "resources.log" && "manifest.txt" != "calls.log" && "resources.log" != "calls.log"
  {
    assert "command.txt"[0] == 'c' && "manifest.txt"[0] == 'm' && "resources.log"[0] == 'r';
    assert "command.txt"[1] == 'o' && "calls.log"[1] == 'a' && "calls.log"[0] == 'c';
  }

  /** `p101_observe_run` from the point where the report directory exists, and the last check of `main`. It is trouble only
      after an error: something could not be written or fingerprinted, or the run is `spoiled` because the command could
      not be run or the closing message not be printed. */
  method Capture(lib: Library, dir: Directory, err: ErrorState, runId: string, arguments: ArgumentVectors.Arguments,
                 world: World)
    returns (exit: int, status: WaitStatus, ghost launched: Snapshot, ghost commandFailed: bool, ghost spoiled: bool)
    requires arguments.command != []
    modifies dir, err
    ensures exit == 0 || exit == 1 || exit == 2
    ensures exit == 2 <==> err.raised
    ensures err.raised ==> old(err.raised) || dir.faulty || spoiled || !Fingerprintable(lib, dir.Now())
    ensures exit != 2 ==> !err.raised && dir.folder && launched.path == dir.path
    ensures exit != 2 ==> (exit == 0 <==> status == Exited(0))
    ensures exit != 2 ==> dir.Now().Read("summary.txt") == Some(Flatten(SummaryTexts(dir.path, arguments.command, status)))
    ensures exit != 2 ==>
      Launched(lib, runId, arguments, world, old(dir.Now().Read("command.txt")), commandFailed, launched)
    ensures exit != 2 ==> Finished(lib, runId, status, dir.Now())
  {
    hide Finished;
    hide Launched;
    hide SummaryTexts;
    hide Fingerprintable;
    exit, status, launched, commandFailed, spoiled := 2, Exited(0), dir.Now(), false, false;
    if err.raised { return; }
    commandFailed := Prepare(lib, dir, err, runId, arguments, world);
    if err.raised { return; }
    launched := dir.Now();
    ghost var ran, told;
    status, ran := ObservedCommand(dir, err);
    spoiled := !ran;
    if err.raised { return; }
    exit, told := FinishCapture(lib, dir, err, runId, arguments.command, status);
    spoiled := !told;
    if err.raised { exit := 2; }
  }

  // ----- Round trip: what was captured is accepted -----

  /** The status `verify_capture` reports for a command that ended this way. */
  function ReportedStatus(status: WaitStatus): (r: int)
    requires !status.Raw?
  {
    if status == Exited(0) then 0 else if status.Exited? then 1 else 2
  }

  /** A line without a stray newline or NUL that fits the reader's buffer. */
  predicate ReadableLine(line: string) {
    IsLine(line) && '\0' !in line
  }

  lemma InlineLine(a: string, b: string)
    requires Inline(a) && Inline(b) && |a| + |b| < 1000
    ensures ReadableLine(a + (b + "\n"))
  {
    var line := a + (b + "\n");
    assert forall i :: 0 <= i < |line| - 1 ==> line[i] == if i < |a| then a[i] else b[i - |a|];
  }

  lemma DigitsPrintable(s: string, base: Base)
    requires AllDigits(s, base)
    ensures Printable(s)
  {
    forall i | 0 <= i < |s| ensures ' ' <= s[i] {
      assert DigitValue(s[i]) < base;
    }
  }

  lemma RunIdPlain(pid: U64, seconds: U64, nanoseconds: Nanoseconds)
    ensures Printable(RunId(pid, seconds, nanoseconds)) && |RunId(pid, seconds, nanoseconds)| < 128
  {
    PrintedWidths(pid);
    PrintedWidths(seconds);
    assert Power(10, 9) == 1000000000;
    NumeralLength(nanoseconds, 10, 9);
    DigitsPrintable(Numeral(pid, 10), 10);
    DigitsPrintable(Numeral(seconds, 10), 10);
    DigitsPrintable(Padded(nanoseconds, 10, 9), 10);
    hide Numeral;
    hide AllDigits;
  }

  /** Different runs have different names: process, second and nanosecond can all be read back. */
  lemma RunIdInjective(pid: U64, seconds: U64, nanoseconds: Nanoseconds, pid2: U64, seconds2: U64, nanoseconds2: Nanoseconds)
    requires RunId(pid, seconds, nanoseconds) == RunId(pid2, seconds2, nanoseconds2)
    ensures pid == pid2 && seconds == seconds2 && nanoseconds == nanoseconds2
  {
    var a, b := "-" + Padded(nanoseconds, 10, 9), "-" + Padded(nanoseconds2, 10, 9);
    var c, d := "-" + (Numeral(seconds, 10) + a), "-" + (Numeral(seconds2, 10) + b);
    assert RunId(pid, seconds, nanoseconds)[5..] == Numeral(pid, 10) + c;
    assert RunId(pid2, seconds2, nanoseconds2)[5..] == Numeral(pid2, 10) + d;
    NumberThenDash(pid, c, pid2, d);
    assert c[1..] == Numeral(seconds, 10) + a && d[1..] == Numeral(seconds2, 10) + b;
    NumberThenDash(seconds, a, seconds2, b);
    assert a[1..] == Padded(nanoseconds, 10, 9) && b[1..] == Padded(nanoseconds2, 10, 9);
    PaddedValue(nanoseconds, 10, 9);
    PaddedValue(nanoseconds2, 10, 9);
  }

  lemma NumberThenDash(m: nat, rest: string, n: nat, others: string)
    requires rest != "" && rest[0] == '-' && others != "" && others[0] == '-'
    requires Numeral(m, 10) + rest == Numeral(n, 10) + others
    ensures m == n && rest == others
  {
    ScanNumeral(m, rest, 10);
    ScanNumeral(n, others, 10);
    hide ScanNumber;
    var s := Numeral(m, 10) + rest;
    assert s[|Numeral(m, 10)|..] == rest && s[|Numeral(n, 10)|..] == others;
  }

  lemma {:induction false} NoKinds(lines: seq<string>)
    requires forall i :: 0 <= i < |lines| ==> !IsArtifact(lines[i]) && !IsCommandStatus(lines[i])
    ensures ArtifactLines(lines) == [] && StatusLines(lines) == []
  {
    hide IsArtifact;
    hide IsCommandStatus;
    if lines != [] {
      assert forall i :: 0 <= i < |lines[1..]| ==> lines[1..][i] == lines[i + 1];
      NoKinds(lines[1..]);
    }
  }

  lemma {:induction false} OnlyArtifacts(lines: seq<string>)
    requires forall i :: 0 <= i < |lines| ==> IsArtifact(lines[i])
    ensures ArtifactLines(lines) == lines && StatusLines(lines) == []
  {
    hide IsArtifact;
    hide IsCommandStatus;
    if lines != [] {
      assert forall i :: 0 <= i < |lines[1..]| ==> lines[1..][i] == lines[i + 1];
      ArtifactIsNotStatus(lines[0]);
      OnlyArtifacts(lines[1..]);
    }
  }

  lemma PreambleKinds(lib: Library, runId: string)
    ensures Preamble(lib, runId)[0] == RECEIPT_HEADER
    ensures ArtifactLines(Preamble(lib, runId)[1..]) == [] && StatusLines(Preamble(lib, runId)[1..]) == []
    ensures AllGood(Preamble(lib, runId)[1..])
  {
    var lines := Preamble(lib, runId)[1..];
    forall i | 0 <= i < |lines| ensures !IsArtifact(lines[i]) && !IsCommandStatus(lines[i]) {
      assert lines[i][0] != 'a' || lines[i][1] != 'r';
      assert lines[i][0] != 's' || lines[i][1] != 't';
    }
    NoKinds(lines);
  }

  lemma RecordsKinds(lib: Library, dir: Snapshot)
    requires AllPrinted(lib, dir, CaptureTable())
    ensures ArtifactLines(RecordLines(lib, dir, CaptureTable())) == RecordLines(lib, dir, CaptureTable())
    ensures StatusLines(RecordLines(lib, dir, CaptureTable())) == []
    ensures AllGood(RecordLines(lib, dir, CaptureTable()))
  {
    hide FilePrint;
    hide ExitCode;
    hide BytesText;
    var lines := RecordLines(lib, dir, CaptureTable());
    forall i | 0 <= i < |lines| ensures IsArtifact(lines[i]) && GoodLine(lines[i]) {
      assert lines[i] == RecordLine(lib, dir, CaptureTable()[i]);
      ArtifactIsNotStatus(lines[i]);
    }
    OnlyArtifacts(lines);
  }

  /** The status line a run writes is read back as the status it reports; a raw status is not one at all. */
  lemma StatusLineReadBack(status: WaitStatus)
    ensures !IsArtifact(StatusLine(status)) && GoodLine(StatusLine(status))
    ensures IsCommandStatus(StatusLine(status)) <==> !status.Raw?
    ensures !status.Raw? ==> StatusOf(StatusLine(status)) == ReportedStatus(status)
  {
    hide ScanNumber;
    hide Numeral;
    var line := StatusLine(status);
    assert line[0] == 's' && ARTIFACT_PREFIX[0] == 'a';
    match status
    case Exited(code) =>
      var number := DecimalInt(code) + "\n";
      assert line[|EXIT_PREFIX|..] == number;
      ScanDecimalInt(code, "\n");
    case Signalled(signal) =>
      assert line[15] == 's' && EXIT_PREFIX[15] == 'e';
      assert line[..|SIGNAL_PREFIX|] == SIGNAL_PREFIX;
    case Raw(value) =>
      assert line[15] == 'r' && EXIT_PREFIX[15] == 'e' && SIGNAL_PREFIX[15] == 's';
      assert !IsExit(line) && !IsSignal(line);
  }

  lemma DecimalIntShort(n: int)
    requires -UINT_LIMIT < n < UINT_LIMIT
    ensures |DecimalInt(n)| <= 21
  {
    PrintedWidths(if n < 0 then -n else n);
  }

  lemma StatusLineReadable(status: WaitStatus)
    ensures ReadableLine(StatusLine(status))
  {
    hide DecimalInt;
    hide ReadableLine;
    var n: int := match status case Exited(code) => code case Signalled(signal) => signal case Raw(value) => value;
    DecimalIntShort(n);
    DecimalIntInline(n);
    assert Inline(EXIT_PREFIX) && Inline(SIGNAL_PREFIX) && Inline("status=command\traw=");
    hide Inline;
    InlineLine(EXIT_PREFIX, DecimalInt(n));
    InlineLine(SIGNAL_PREFIX, DecimalInt(n));
    InlineLine("status=command\traw=", DecimalInt(n));
  }

  lemma PrintableLine(text: string)
    requires Printable(text) && |text| < 1000
    ensures ReadableLine(text + "\n")
  {
    PrintableIsPlain(text);
    InlineLine("", text);
    assert "" + (text + "\n") == text + "\n";
  }

  lemma FirstFixedLines()
    ensures ReadableLine(RECEIPT_HEADER)
    ensures ReadableLine("schema=p101-run-receipt-v1" + "\n")
    ensures ReadableLine("ordering=per-context-sequence" + "\n")
  {
    assert RECEIPT_HEADER == "inspect-capture receipt" + "\n";
    hide ReadableLine;
    PrintableLine("inspect-capture receipt");
    PrintableLine("schema=p101-run-receipt-v1");
    PrintableLine("ordering=per-context-sequence");
  }

  lemma LastFixedLines()
    ensures ReadableLine("durability=buffered-until-close" + "\n")
    ensures ReadableLine("fingerprint=fnv1a64" + "\n")
    ensures ReadableLine("fingerprint_security=change-detection-only" + "\n")
    ensures ReadableLine("analysis=deferred" + "\n")
  {
    hide ReadableLine;
    PrintableLine("durability=buffered-until-close");
    PrintableLine("fingerprint=fnv1a64");
    PrintableLine("fingerprint_security=change-detection-only");
    PrintableLine("analysis=deferred");
  }

  lemma DisclaimerPrintable()
    ensures Printable("does_not_prove=complete instrumentation, ")
    ensures Printable("external truth, global process ordering, ")
    ensures Printable("or cryptographic authenticity")
  {
  }

  lemma DisclaimerReadable()
    ensures ReadableLine(Disclaimer())
  {
    hide Printable;
    hide ReadableLine;
    DisclaimerPrintable();
    JoinPrintable("does_not_prove=complete instrumentation, ", "external truth, global process ordering, ",
                  "or cryptographic authenticity");
  }

  lemma JoinPrintable(a: string, b: string, c: string)
    requires Printable(a) && Printable(b) && Printable(c) && |a| + |b| + |c| < 1000
    ensures ReadableLine(a + (b + (c + "\n")))
  {
    hide ReadableLine;
    PrintableLine(a + (b + c));
    assert a + (b + c) + "\n" == a + (b + (c + "\n"));
  }

  lemma PreambleReadable(lib: Library, runId: string)
    requires lib.PlainConstants() && Printable(runId) && |runId| < 128
    ensures forall line :: line in Preamble(lib, runId) ==> ReadableLine(line)
  {
    FirstFixedLines();
    LastFixedLines();
    hide ReadableLine;
    PrintableIsPlain(runId);
    PrintableIsPlain(lib.eventSchema);
    DigitsInline(Numeral(lib.logVersion, 10), 10);
    PrintedWidths(lib.logVersion);
    assert Inline("run_id=") && Inline("event_schema=") && Inline("event_log_version=");
    hide Inline;
    hide Numeral;
    InlineLine("run_id=", runId);
    InlineLine("event_schema=", lib.eventSchema);
    InlineLine("event_log_version=", Numeral(lib.logVersion, 10));
  }

  /** Every line of a receipt is read back as one line. */
  lemma ReceiptReadable(lib: Library, runId: string, status: WaitStatus, dir: Snapshot)
    requires lib.PlainConstants() && Printable(runId) && |runId| < 128
    requires AllPrinted(lib, dir, CaptureTable())
    ensures Lines(ReceiptText(lib, runId, status, dir)) == ReceiptLines(lib, runId, status, dir)
  {
    hide FilePrint;
    hide Preamble;
    hide StatusLine;
    hide Disclaimer;
    hide CaptureTable;
    PreambleReadable(lib, runId);
    StatusLineReadable(status);
    CaptureTableReady();
    RecordLinesAreLines(lib, dir, CaptureTable());
    DisclaimerReadable();
    hide IsLine;
    hide RecordLines;
    hide Lines;
    LinesOfFile(ReceiptLines(lib, runId, status, dir));
  }

  /** What the reader makes of four groups of lines: the preamble, the status, the artifacts and the disclaimer. */
  lemma BodyParts(head: seq<string>, status: string, records: seq<string>, last: string)
    requires ArtifactLines(head) == [] && StatusLines(head) == [] && AllGood(head)
    requires !IsArtifact(status) && GoodLine(status)
    requires ArtifactLines(records) == records && StatusLines(records) == [] && AllGood(records)
    requires !IsArtifact(last) && !IsCommandStatus(last)
    ensures var body := head + [status] + records + [last];
      && ArtifactLines(body) == records
      && StatusLines(body) == (if IsCommandStatus(status) then [status] else [])
      && AllGood(body)
  {
    PartsGood(head, status, records, last);
    hide IsArtifact;
    hide AllGood;
    hide IsCommandStatus;
    hide GoodLine;
    OneKind(status);
    OneKind(last);
    hide ArtifactLines;
    hide StatusLines;
    KindsAround(head, status, records);
    KindsAround(head + [status] + records, last, []);
    assert head + [status] + records + [last] + [] == head + [status] + records + [last];
  }

  lemma PartsGood(head: seq<string>, status: string, records: seq<string>, last: string)
    requires AllGood(head) && GoodLine(status) && AllGood(records) && !IsCommandStatus(last)
    ensures AllGood(head + [status] + records + [last])
  {
    assert GoodLine(last);
    hide GoodLine;
    GoodAppend(head, [status]);
    GoodAppend(head + [status], records);
    GoodAppend(head + [status] + records, [last]);
  }

  lemma GoodAppend(a: seq<string>, b: seq<string>)
    requires AllGood(a) && forall i :: 0 <= i < |b| ==> GoodLine(b[i])
    ensures AllGood(a + b)
  {
    hide GoodLine;
  }

  /** What the reader makes of the body of a written receipt. */
  lemma BodyOfReceipt(lib: Library, runId: string, status: WaitStatus, dir: Snapshot)
    requires AllPrinted(lib, dir, CaptureTable())
    ensures var lines := ReceiptLines(lib, runId, status, dir);
      && lines[0] == RECEIPT_HEADER
      && ArtifactLines(lines[1..]) == RecordLines(lib, dir, CaptureTable())
      && StatusLines(lines[1..]) == (if status.Raw? then [] else [StatusLine(status)])
      && AllGood(lines[1..])
  {
    hide FilePrint;
    hide Disclaimer;
    hide CaptureTable;
    hide RecordLines;
    hide StatusLine;
    var head, records := Preamble(lib, runId), RecordLines(lib, dir, CaptureTable());
    PreambleKinds(lib, runId);
    RecordsKinds(lib, dir);
    StatusLineReadBack(status);
    DisclaimerKind();
    hide Preamble;
    hide IsArtifact;
    hide IsCommandStatus;
    hide GoodLine;
    hide AllGood;
    hide ArtifactLines;
    hide StatusLines;
    BodyParts(head[1..], StatusLine(status), records, Disclaimer());
    DropFirst(head, [StatusLine(status)], records, [Disclaimer()]);
  }

  lemma DropFirst<T>(a: seq<T>, b: seq<T>, c: seq<T>, d: seq<T>)
    requires a != []
    ensures (a + b + c + d)[0] == a[0] && (a + b + c + d)[1..] == a[1..] + b + c + d
  {
  }

  lemma DisclaimerKind()
    ensures !IsArtifact(Disclaimer()) && !IsCommandStatus(Disclaimer()) && GoodLine(Disclaimer())
  {
    assert Disclaimer()[0] == "does_not_prove=complete instrumentation, "[0] == 'd';
  }

  lemma OneKind(line: string)
    ensures ArtifactLines([line]) == if IsArtifact(line) then [line] else []
    ensures StatusLines([line]) == if IsCommandStatus(line) then [line] else []
  {
    hide IsArtifact;
    hide IsCommandStatus;
  }

  /** The receipt of a finished capture is accepted on the unchanged files exactly when the command exited or was
      signalled, and the status reported is 0, 1 or 2 for a clean exit, any other exit and a signal. */
  lemma CaptureRoundTrip(lib: Library, runId: string, status: WaitStatus, dir: Snapshot)
    requires lib.PlainConstants() && Printable(runId) && |runId| < 128
    requires Finished(lib, runId, status, dir)
    ensures CaptureAccepted(lib, dir) <==> !status.Raw?
    ensures !status.Raw? ==> CaptureStatus(lib, dir) == ReportedStatus(status)
    ensures status == Exited(0) ==> CaptureStatus(lib, dir) == 0
    ensures status.Exited? && status.code != 0 ==> CaptureStatus(lib, dir) == 1
    ensures status.Signalled? ==> CaptureStatus(lib, dir) == 2
  {
    if !status.Raw? {
      assert ReportedStatus(status) == if status.Signalled? then 2 else if status.code == 0 then 0 else 1;
    }
    hide FilePrint;
    hide ReceiptText;
    hide ReceiptLines;
    hide CaptureTable;
    hide RecordLines;
    hide Lines;
    hide StatusLine;
    hide ReportedStatus;
    ReceiptReadable(lib, runId, status, dir);
    WrittenBodyAccepted(lib, runId, status, dir);
    hide BodyAccepted;
    hide BodyStatus;
  }

  lemma WrittenBodyAccepted(lib: Library, runId: string, status: WaitStatus, dir: Snapshot)
    requires AllPrinted(lib, dir, CaptureTable())
    ensures var lines := ReceiptLines(lib, runId, status, dir);
      && lines[0] == RECEIPT_HEADER
      && (BodyAccepted(lib, dir, lines[1..]) <==> !status.Raw?)
      && (!status.Raw? ==> AllGood(lines[1..]) && BodyStatus(lines[1..]) == ReportedStatus(status))
  {
    hide FilePrint;
    hide CaptureTable;
    hide RecordLines;
    hide StatusLine;
    hide ArtifactLines;
    hide StatusLines;
    hide StatusOf;
    hide ReportedStatus;
    BodyOfReceipt(lib, runId, status, dir);
    hide ReceiptLines;
    CaptureTableReady();
    RecordsClaim(lib, dir, CaptureTable());
    StatusLineReadBack(status);
    hide WritableRoles;
    hide Claims;
    hide AllParse;
    hide AllGood;
  }
}
