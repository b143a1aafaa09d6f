/** The capture program as a whole: from its argument vector to a finished capture. */
module CaptureProgram {
  import opened Wrappers
  import opened CText
  import opened Files
  import opened Library
  import opened ArgumentVectors
  import opened ReportDirectory
  import opened CaptureRun

  /** What happened in a run that got as far as starting the command. */
  datatype Captured = Captured(
    arguments: Arguments, runId: string, status: WaitStatus, earlier: Option<string>, launched: Snapshot, commandFailed: bool)

  /** A finished capture of what the arguments ask for, in the directory they name. */
  ghost predicate Complete(lib: Library, world: World, run: Captured, dir: Snapshot) {
    && Acceptable(run.arguments)
    && dir.path == ChosenDirectory(run.arguments.reportDir, world.pid)
    && Printable(run.runId) && |run.runId| < 128
    && run.launched.path == dir.path
    && Launched(lib, run.runId, run.arguments, world, run.earlier, run.commandFailed, run.launched)
    && Finished(lib, run.runId, run.status, dir)
  }

  /** The object for a report directory is one in which files can be made, once the directories are there, exactly when
      nothing but a directory stands at its path beforehand. */
  ghost predicate Placed(tree: FileTree, dir: Directory)
    reads tree
  {
    dir.folder <==> MayBeFolder(tree.kind, dir.path)
  }

  /** The run can be named and its directory made: the clock answers, the path leaves room for the file names, and
      `mkdir` meets no obstacle. */
  ghost predicate Reachable(world: World, kind: string -> Kind, refuses: string -> bool, path: string) {
    world.now.Some? && |path| <= 1005 && Creatable(kind, refuses, path)
  }

  /** `p101_observe_run`. It is trouble only after an error: no clock, no directory, something that could not be written or
      fingerprinted, or a run that is `spoiled` because the command could not be run or the last message not be printed. A
      capture that ends with exit 0 or 1 could write its files, so its directory is one. */
  method ObserveRun(lib: Library, tree: FileTree, dir: Directory, err: ErrorState, arguments: Arguments, world: World)
    returns (exit: int, ghost run: Captured, ghost spoiled: bool)
    requires !err.raised && Acceptable(arguments) && '\0' !in dir.path
    requires dir.path == ChosenDirectory(arguments.reportDir, world.pid) && Placed(tree, dir)
    modifies tree, dir, err
    ensures exit == 0 || exit == 1 || exit == 2
    ensures exit == 2 <==> err.raised
    ensures err.raised ==> spoiled || dir.faulty || !Fingerprintable(lib, dir.Now()) || !Reachable(world, old(tree.kind), tree.refuses, dir.path)
    ensures exit != 2 ==> run.arguments == arguments && Complete(lib, world, run, dir.Now())
    ensures exit != 2 ==> old(MayBeFolder(tree.kind, dir.path)) && AllFolders(tree.kind, dir.path) && Grown(old(tree.kind), tree.kind)
    ensures exit != 2 ==> (exit == 0 <==> run.status == Exited(0))
  {
    hide Launched;
    hide Finished;
    hide Made;
    hide AllFolders;
    hide Creatable;
    hide MayBeFolder;
    hide Grown;
    hide Fingerprintable;
    ghost var start := tree.kind;
    exit, run, spoiled := 2, Captured(arguments, "", Exited(0), None, dir.Now(), false), false;
    if world.now.None? {
      err.raised := true;
      return;
    }
    var (seconds, nanoseconds) := world.now.value;
    var runId := RunId(world.pid, seconds, nanoseconds);
    RunIdPlain(world.pid, seconds, nanoseconds);
    hide RunId;
    hide Printable;
    EnterDirectory(tree, err, arguments.reportDir, world.pid, dir.path);
    if err.raised { return; }
    var status;
    ghost var launched, commandFailed;
    ghost var earlier := dir.Now().Read("command.txt");
    exit, status, launched, commandFailed, spoiled := Capture(lib, dir, err, runId, arguments, world);
    run := Captured(arguments, runId, status, earlier, launched, commandFailed);
    if exit != 2 { SoAreParents(start, tree.kind, dir.path); }
  }

  /** Naming and creating the report directory. */
  method EnterDirectory(tree: FileTree, err: ErrorState, reportDir: Option<string>, pid: U64, ghost path: string)
    requires !err.raised && '\0' !in path && path == ChosenDirectory(reportDir, pid)
    modifies tree, err
    ensures err.raised ==> |path| > 1005 || !Creatable(old(tree.kind), tree.refuses, path)
    ensures !err.raised ==> Made(old(tree.kind), tree.kind, path) && Grown(old(tree.kind), tree.kind)
  {
    hide Made;
    hide Creatable;
    hide Grown;
    hide ChosenDirectory;
    hide PathsNamed;
    var paths := MakeReportPaths(err, reportDir, pid);
    if err.raised { return; }
    ghost var made := CreateReportDirectory(tree, err, paths.dir);
  }

  /** Why the program may exit 2. */
  datatype Trouble = NoTrouble | UsageError | HelpUnprinted | Unacceptable | RunFailed

  /** `main`: `dir` is the directory the arguments name. Asked for help, it captures nothing. */
  method Start(lib: Library, argv: seq<string>, tree: FileTree, dir: Directory, world: World)
    returns (exit: int, ghost run: Option<Captured>, ghost trouble: Trouble, ghost spoiled: bool)
    requires argv != [] && '\0' !in dir.path && Placed(tree, dir)
    requires ReadArguments(argv).Some? ==> dir.path == ChosenDirectory(ReadArguments(argv).value.reportDir, world.pid)
    modifies tree, dir
    ensures exit == 0 || exit == 1 || exit == 2
    ensures exit == 2 <==> trouble != NoTrouble
    ensures trouble == UsageError <==> ReadArguments(argv).None?
    ensures trouble == HelpUnprinted ==> ReadArguments(argv).Some? && ReadArguments(argv).value.showHelp
    ensures trouble == Unacceptable <==>
      ReadArguments(argv).Some? && !ReadArguments(argv).value.showHelp && !Acceptable(ReadArguments(argv).value)
    ensures trouble == RunFailed ==>
      spoiled || dir.faulty || !Fingerprintable(lib, dir.Now()) || !Reachable(world, old(tree.kind), tree.refuses, dir.path)
    ensures exit != 2 ==> (run.None? <==> ReadArguments(argv).value.showHelp)
    ensures run.None? ==> exit != 1 && dir.files == old(dir.files)
    ensures exit != 2 && run.Some? ==> run.value.arguments == ReadArguments(argv).value
    ensures exit != 2 && run.Some? ==> Complete(lib, world, run.value, dir.Now()) && AllFolders(tree.kind, dir.path)
    ensures exit != 2 && run.Some? ==> (exit == 0 <==> run.value.status == Exited(0))
  {
    hide ReadArguments;
    hide Complete;
    hide AllFolders;
    hide Placed;
    hide Fingerprintable;
    hide Reachable;
    exit, run, trouble, spoiled := 2, None, UsageError, false;
    var ok, arguments := ParseArguments(argv);
    if !ok { return; }
    if arguments.showHelp {
      var printed := *;
      exit := if printed then 0 else 2;
      trouble := if printed then NoTrouble else HelpUnprinted;
      return;
    }
    trouble := Unacceptable;
    if !Acceptable(arguments) { return; }
    var err := new ErrorState();
    ghost var captured;
    exit, captured, spoiled := ObserveRun(lib, tree, dir, err, arguments, world);
    run, trouble := Some(captured), if exit == 2 then RunFailed else NoTrouble;
  }
}
