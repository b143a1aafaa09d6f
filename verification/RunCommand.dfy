/** `run`: the capture program is started with the vector built for it, and its capture is analyzed. */
module RunCommand {
  import opened Wrappers
  import opened CText
  import opened Files
  import opened Library
  import opened ArgumentVectors
  import opened ReportDirectory
  import opened CaptureRun
  import opened CaptureProgram
  import opened AnalyzeRun
  import opened AnalysisChain
  import CaptureReceipt

  /** `spawn_and_wait`: the exit code of the child, or trouble. */
  function Spawned(status: WaitStatus): (r: int) {
    if status.Exited? then status.code else 2
  }

  /** How `run` combines its two steps. */
  function RunExit(captureStatus: int, analyzeStatus: Status): (r: int) {
    if captureStatus == 2 then 2
    else if captureStatus == 1 && analyzeStatus == 0 then 1
    else analyzeStatus
  }

  /** Over the statuses a capture program can exit with, the combination is the worse of the two exactly for the
      documented statuses 0, 1 and 2; any larger one is ignored. */
  lemma RunExitIsWorse(captureStatus: ExitByte, analyzeStatus: Status)
    ensures RunExit(captureStatus, analyzeStatus) == (if captureStatus > analyzeStatus then captureStatus else analyzeStatus)
      <==> captureStatus <= 2
    ensures captureStatus > 2 ==> RunExit(captureStatus, analyzeStatus) == analyzeStatus
  {
  }

  /** What `run` asks of the capture program. */
  function Asked(logArguments: bool, logResults: bool, capture: string, command: seq<string>): (r: Arguments) {
    Arguments(Some(capture), command, false, logArguments, logResults, false)
  }

  /** Building the vector, starting the capture program with it, and waiting. The program may fail to start or be
      killed, which counts as trouble and leaves the run `spoiled`; otherwise trouble can only come from the capture. */
  method SpawnCapture(lib: Library, tool: string, logArguments: bool, logResults: bool, command: seq<string>,
                      tree: FileTree, capture: Directory, world: World)
    returns (captureStatus: int, ghost run: Option<Captured>, ghost spoiled: bool)
    requires command != [] && capture.path != "" && '\0' !in capture.path && Placed(tree, capture)
    modifies tree, capture
    ensures 0 <= captureStatus <= 2
    ensures captureStatus == 2 ==> spoiled || capture.faulty || !Fingerprintable(lib, capture.Now())
                                   || !Reachable(world, old(tree.kind), tree.refuses, capture.path)
    ensures captureStatus != 2 ==> run.Some? && Complete(lib, world, run.value, capture.Now())
    ensures captureStatus != 2 ==> AllFolders(tree.kind, capture.path)
    ensures captureStatus != 2 ==> run.value.arguments == Asked(logArguments, logResults, capture.path, command)
    ensures captureStatus != 2 ==> (captureStatus == 0 <==> run.value.status == Exited(0))
  {
    hide Complete;
    hide AllFolders;
    hide Placed;
    hide ReadArguments;
    hide CaptureWords;
    hide Holds;
    var argv := BuildCaptureArguments(tool, logArguments, logResults, capture.path, command);
    TerminatedHolds(argv[..], CaptureWords(tool, logArguments, logResults, capture.path, command));
    var words := Terminated(argv[..]);
    assert words != [] by { NotEmpty(tool, logArguments, logResults, capture.path, command); }
    CaptureArgumentsReadBack(tool, logArguments, logResults, capture.path, command);
    hide Fingerprintable;
    hide Reachable;
    var exit;
    ghost var trouble;
    exit, run, trouble, spoiled := CaptureProgram.Start(lib, words, tree, capture, world);
    var killed := *;
    spoiled := spoiled || killed;
    captureStatus := Spawned(if killed then Signalled(9) else Exited(exit));
  }

  lemma NotEmpty(tool: string, logArguments: bool, logResults: bool, capture: string, command: seq<string>)
    ensures CaptureWords(tool, logArguments, logResults, capture, command) != []
  {
  }

  /** Trouble without a finished analysis; otherwise the worse of what the command and the analysis ended with. */
  ghost function RunOutcome(run: Option<Captured>, analysis: Option<Analysis>): (r: int) {
    if run.None? || analysis.None? then 2
    else
      var captured, status: int := if run.value.status == Exited(0) then 0 else 1, analysis.value.status;
      if captured > status then captured else status
  }

  /** `run_command` from its options on, with `inspect-capture` as the capture program. `madeDirectory` is whether the
      output directory could be created, `analysisExists` what `lstat` finds after the capture. */
  method Run(lib: Library, tool: string, logArguments: bool, logResults: bool, path: string, command: seq<string>,
             madeDirectory: bool, analysisExists: bool, tree: FileTree, capture: Directory, output: Directory, world: World)
    returns (exit: int, ghost run: Option<Captured>, ghost analysis: Option<Analysis>, ghost spoiled: bool)
    requires capture != output && capture.path == path + "/capture" && output.path == path + "/analysis"
    requires lib.PlainConstants() && '\0' !in path && Placed(tree, capture)
    modifies tree, capture, output
    ensures exit == RunOutcome(run, analysis)
    ensures analysis.None? ==>
      (command == [] || !madeDirectory || |path| + |"/analysis"| >= PATH_SIZE || analysisExists || spoiled
       || !Reachable(world, old(tree.kind), tree.refuses, capture.path)
       || capture.faulty || !Fingerprintable(lib, capture.Now()) || !CaptureReceipt.CaptureAccepted(lib, capture.Now())
       || AnalysisOf(lib, capture.Now()).None? || output.faulty || !Bindable(lib, output.Now()))
    ensures analysis.Some? ==> run.Some? && run.value.arguments == Asked(logArguments, logResults, capture.path, command)
    ensures analysis.Some? ==> Complete(lib, world, run.value, capture.Now()) && AllFolders(tree.kind, capture.path)
    ensures analysis.Some? ==> CaptureReceipt.CaptureAccepted(lib, capture.Now())
    ensures analysis.Some? ==> FinishedAnalysis(lib, analysis.value, capture.Now(), output.Now())
  {
    hide FinishedAnalysis;
    hide Complete;
    hide AllFolders;
    hide Placed;
    hide ReadAnalyze;
    hide CaptureReceipt.CaptureAccepted;
    hide CaptureReceipt.CaptureStatus;
    hide Fingerprintable;
    hide Reachable;
    hide Bindable;
    exit, run, analysis, spoiled := 2, None, None, false;
    if command == [] || !madeDirectory { return; }
    if !Snapshot(path, map[]).Joins("capture") || !Snapshot(path, map[]).Joins("analysis") { return; }
    assert capture.path[|path|] == '/';
    assert '\0' !in "/capture" by { assert Printable("/capture"); }
    var captureStatus;
    captureStatus, run, spoiled := SpawnCapture(lib, tool, logArguments, logResults, command, tree, capture, world);
    if captureStatus == 2 { return; }
    CompleteIsAccepted(lib, world, run.value, capture.Now());
    JoinedCaptureIsNoOption(path);
    InputsByName(lib, capture.Now());
    var options := ParseAnalyze(["analyze", "-o", output.path, capture.path]);
    if options.None? { return; }
    var analyzeExit, commandStatus;
    analyzeExit, analysis, commandStatus := Analyze(lib, capture, output, analysisExists, options.value.force);
    exit := RunExit(captureStatus, analyzeExit);
  }

  /** A capture that finished with exit 0 or 1 is accepted unless the command neither exited nor was signalled. */
  lemma CompleteIsAccepted(lib: Library, world: World, run: Captured, dir: Snapshot)
    requires lib.PlainConstants() && Complete(lib, world, run, dir)
    ensures CaptureReceipt.CaptureAccepted(lib, dir) <==> !run.status.Raw?
    ensures !run.status.Raw? ==> CaptureReceipt.CaptureStatus(lib, dir) == ReportedStatus(run.status)
  {
    hide Launched;
    hide Finished;
    hide CaptureReceipt.CaptureAccepted;
    hide CaptureReceipt.CaptureStatus;
    CaptureRoundTrip(lib, run.runId, run.status, dir);
  }
}
