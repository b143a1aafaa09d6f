/** Reading the receipt of a capture: artifact lines, the command's status, and everything else ignored. */
module CaptureReceipt {
  import opened Wrappers
  import opened CText
  import opened Files
  import opened Artifacts
  import opened Library
  import opened Evidence

  const RECEIPT_NAME := "receipt.txt"
  const RECEIPT_HEADER := "inspect-capture receipt\n"
  const EXIT_PREFIX := "status=command\texit="
  const SIGNAL_PREFIX := "status=command\tsignal="
  const ARTIFACT_PREFIX := "artifact="

  function CaptureTable(): (r: seq<Artifact>) {
    [ Artifact("manifest", "manifest.txt", false),
      Artifact("command", "command.txt", false),
      Artifact("stdout", "stdout.txt", false),
      Artifact("stderr", "stderr.txt", false),
      Artifact("resources", "resources.log", false),
      Artifact("calls", "calls.log", false),
      Artifact("summary", "summary.txt", false)]
  }

  lemma CaptureTableReady()
    ensures DistinctRoles(CaptureTable()) && WritableRoles(CaptureTable())
  {
    forall i, j | 0 <= i < j < |CaptureTable()| ensures CaptureTable()[i].role != CaptureTable()[j].role {
      assert CaptureTable()[i].role[0] != CaptureTable()[j].role[0] || CaptureTable()[i].role[3] != CaptureTable()[j].role[3];
    }
    assert forall i :: 0 <= i < |CaptureTable()| ==> Printable(CaptureTable()[i].role);
    forall i | 0 <= i < |CaptureTable()| ensures ValidRole(CaptureTable()[i].role) && Inline(CaptureTable()[i].role) {
      PrintableIsPlain(CaptureTable()[i].role);
    }
  }

  // ----- The reading loop, one line at a time -----

  /** What the loop keeps: the flags, the status it will report, whether it saw one, and whether it goes on. */
  datatype State = State(table: seq<Artifact>, status: int, commandSeen: bool, ok: bool)

  predicate IsArtifact(line: string) {
    ARTIFACT_PREFIX <= line
  }

  predicate IsExit(line: string) {
    EXIT_PREFIX <= line
  }

  predicate IsSignal(line: string) {
    SIGNAL_PREFIX <= line
  }

  predicate IsCommandStatus(line: string) {
    IsExit(line) || IsSignal(line)
  }

  /** The number after the prefix, read by `strtol`; digits are optional, anything after them is not. */
  function ExitCode(line: string): (code: Option<int>)
    requires IsExit(line)
    ensures code.Some? ==> 0 <= code.value <= 255
  {
    var number := line[|EXIT_PREFIX|..];
    var c := StrToLong(number, 10);
    if c.rangeError || (c.end < |number| && number[c.end] != '\n') || c.value < 0 || c.value > 255 then None
    else Some(c.value)
  }

  /** The end of a text, or of its line. */
  predicate Ends(rest: string) {
    rest == "" || rest[0] == '\n'
  }

  /** The exit status a number stands for: at most 255, nothing after it on the line, and negative only as -0. */
  function ExitOf(sign: string, digits: string, rest: string): (r: Option<int>)
    requires AllDigits(digits, 10)
  {
    var value := Value(digits, 10);
    if Ends(rest) && value <= 255 && (sign == "-" ==> value == 0) then Some(value) else None
  }

  /** A text that begins with a number, after white space and a sign, is accepted as that number; a text that does not
      is accepted only when it is empty, and counts as 0. */
  lemma ExitTexts(line: string)
    requires IsExit(line)
    ensures var text := line[|EXIT_PREFIX|..];
      && (forall spaces, sign, digits, rest :: SpelledAs(text, spaces, sign, digits, rest) ==>
            ExitCode(line) == ExitOf(sign, digits, rest))
      && ((forall spaces, sign, digits, rest :: !SpelledAs(text, spaces, sign, digits, rest)) ==>
            ExitCode(line) == if Ends(text) then Some(0) else None)
  {
    hide ExitCode;
    hide Value;
    var text := line[|EXIT_PREFIX|..];
    forall spaces, sign, digits, rest | SpelledAs(text, spaces, sign, digits, rest)
      ensures ExitCode(line) == ExitOf(sign, digits, rest) {
      ExitOfDigits(line, spaces, sign, digits, rest);
    }
    if ScanNumber(text, 10) == NoNumber {
      NoDigits(line);
    } else {
      var spaces, sign, digits, rest := ScannedIsSpelled(text);
    }
  }

  lemma NoDigits(line: string)
    requires IsExit(line) && ScanNumber(line[|EXIT_PREFIX|..], 10) == NoNumber
    ensures ExitCode(line) == if Ends(line[|EXIT_PREFIX|..]) then Some(0) else None
  {
    hide ScanNumber;
  }

  lemma ExitOfDigits(line: string, spaces: string, sign: string, digits: string, rest: string)
    requires IsExit(line) && SpelledAs(line[|EXIT_PREFIX|..], spaces, sign, digits, rest)
    ensures ExitCode(line) == ExitOf(sign, digits, rest)
  {
    hide ScanNumber;
    hide Value;
    var text := line[|EXIT_PREFIX|..];
    ScanSpelled(text, spaces, sign, digits, rest);
    assert text[|spaces| + |sign| + |digits|..] == rest;
  }

  predicate GoodLine(line: string) {
    IsExit(line) ==> ExitCode(line).Some?
  }

  /** The status a command-status line reports. */
  function StatusOf(line: string): (r: int)
    requires IsCommandStatus(line) && GoodLine(line)
  {
    if IsExit(line) then (if ExitCode(line) == Some(0) then 0 else 1) else 2
  }

  function Absorb(lib: Library, dir: Snapshot, st: State, line: string): (r: State) {
    if IsArtifact(line) then
      match Observe(lib, dir, st.table, line)
      case None => st.(ok := false)
      case Some(table) => st.(table := table)
    else if IsCommandStatus(line) then
      if GoodLine(line) then st.(status := StatusOf(line), commandSeen := true) else st.(ok := false)
    else st
  }

  /** The loop over the remaining lines; it stops as soon as a line is refused. */
  function AbsorbAll(lib: Library, dir: Snapshot, st: State, lines: seq<string>): (r: State)
    decreases |lines|
  {
    if lines == [] || !st.ok then st else AbsorbAll(lib, dir, Absorb(lib, dir, st, lines[0]), lines[1..])
  }

  function Start(status: int): (r: State) {
    State(CaptureTable(), status, false, true)
  }

  // ----- Acceptance -----

  /** The artifact lines of a body, in order. */
  function ArtifactLines(lines: seq<string>): (r: seq<string>) {
    if lines == [] then []
    else if IsArtifact(lines[0]) then [lines[0]] + ArtifactLines(lines[1..])
    else ArtifactLines(lines[1..])
  }

  /** The command-status lines of a body, in order. */
  function StatusLines(lines: seq<string>): (r: seq<string>)
    ensures forall i :: 0 <= i < |r| ==> IsCommandStatus(r[i]) && r[i] in lines
  {
    if lines == [] then []
    else if IsCommandStatus(lines[0]) then [lines[0]] + StatusLines(lines[1..])
    else StatusLines(lines[1..])
  }

  predicate AllGood(lines: seq<string>) {
    forall i :: 0 <= i < |lines| ==> GoodLine(lines[i])
  }

  /** Every artifact line counts, every exit status is in range, and there is a command status. */
  ghost predicate BodyAccepted(lib: Library, dir: Snapshot, body: seq<string>) {
    && AllParse(ArtifactLines(body))
    && Claims(ArtifactLines(body)) == Wanted(lib, dir, CaptureTable())
    && AllGood(body)
    && StatusLines(body) != []
  }

  /** Of several status lines the last one wins. */
  function BodyStatus(body: seq<string>): (r: int)
    requires AllGood(body) && StatusLines(body) != []
  {
    var last := StatusLines(body)[|StatusLines(body)| - 1];
    assert last in body;
    StatusOf(last)
  }

  ghost predicate CaptureAccepted(lib: Library, dir: Snapshot) {
    && dir.Read(RECEIPT_NAME).Some?
    && var lines := Lines(dir.Read(RECEIPT_NAME).value);
    && lines != []
    && lines[0] == RECEIPT_HEADER
    && BodyAccepted(lib, dir, lines[1..])
  }

  // ----- The same by name -----

  /** What the directory shows for some files, each under its role. */
  ghost function RoleClaims(lib: Library, dir: Snapshot, files: seq<(string, string)>): (r: multiset<Claim>) {
    if files == [] then multiset{}
    else multiset{Claim(files[0].0, FilePrint(lib, dir, files[0].1))} + RoleClaims(lib, dir, files[1..])
  }

  function TableOf(files: seq<(string, string)>): (r: seq<Artifact>)
    ensures |r| == |files|
  {
    seq(|files|, i requires 0 <= i < |files| => Artifact(files[i].0, files[i].1, false))
  }

  lemma {:induction false} WantedIsRoles(lib: Library, dir: Snapshot, files: seq<(string, string)>)
    ensures Wanted(lib, dir, TableOf(files)) == RoleClaims(lib, dir, files)
  {
    hide FilePrint;
    if files != [] {
      WantedIsRoles(lib, dir, files[1..]);
      WantedFirst(lib, dir, files[0].0, files[0].1, TableOf(files[1..]));
      assert TableOf(files) == [Artifact(files[0].0, files[0].1, false)] + TableOf(files[1..]);
    }
  }

  /** What a genuine receipt claims: the fingerprint of each of seven files under its role. */
  ghost function SevenClaims(lib: Library, dir: Snapshot): (r: multiset<Claim>) {
    RoleClaims(lib, dir, [
      ("manifest", "manifest.txt"), ("command", "command.txt"), ("stdout", "stdout.txt"), ("stderr", "stderr.txt"),
      ("resources", "resources.log"), ("calls", "calls.log"), ("summary", "summary.txt")])
  }

  lemma WantedIsSeven(lib: Library, dir: Snapshot)
    ensures Wanted(lib, dir, CaptureTable()) == SevenClaims(lib, dir)
  {
    var files := [
      ("manifest", "manifest.txt"), ("command", "command.txt"), ("stdout", "stdout.txt"), ("stderr", "stderr.txt"),
      ("resources", "resources.log"), ("calls", "calls.log"), ("summary", "summary.txt")];
    assert CaptureTable() == TableOf(files);
    hide TableOf;
    hide CaptureTable;
    hide Wanted;
    hide RoleClaims;
    WantedIsRoles(lib, dir, files);
  }

  lemma {:induction false} ArtifactLinesAre(lines: seq<string>, line: string)
    ensures multiset(ArtifactLines(lines))[line] == if "artifact=" <= line then multiset(lines)[line] else 0
  {
    if lines != [] {
      ArtifactLinesAre(lines[1..], line);
      assert lines == [lines[0]] + lines[1..];
    }
  }

  /** An accepted receipt: the file and its header by name, the seven claims by role and file, an acceptable status in
      every line that states an exit, and at least one line that states an exit or a signal. */
  lemma AcceptedByName(lib: Library, dir: Snapshot)
    ensures CaptureAccepted(lib, dir) <==>
      && dir.Read("receipt.txt").Some?
      && var lines := Lines(dir.Read("receipt.txt").value);
      && lines != [] && lines[0] == "inspect-capture receipt\n"
      && AllParse(ArtifactLines(lines[1..])) && Claims(ArtifactLines(lines[1..])) == SevenClaims(lib, dir)
      && (forall i :: 1 <= i < |lines| && "status=command\texit=" <= lines[i] ==> ExitCode(lines[i]).Some?)
      && (exists i :: 1 <= i < |lines| && ("status=command\texit=" <= lines[i] || "status=command\tsignal=" <= lines[i]))
  {
    hide Lines;
    hide SevenClaims;
    hide Claims;
    hide AllParse;
    hide ArtifactLines;
    hide ExitCode;
    WantedIsSeven(lib, dir);
    hide Wanted;
    hide CaptureTable;
    if dir.Read("receipt.txt").Some? && Lines(dir.Read("receipt.txt").value) != [] {
      var lines := Lines(dir.Read("receipt.txt").value);
      SomeStatus(lines[1..]);
      hide StatusLines;
      hide IsCommandStatus;
      assert forall i :: 1 <= i < |lines| ==> lines[i] == lines[1..][i - 1];
      assert forall i :: 0 <= i < |lines[1..]| ==> lines[1..][i] == lines[i + 1];
      assert AllGood(lines[1..]) <==>
        forall i :: 1 <= i < |lines| && "status=command\texit=" <= lines[i] ==> ExitCode(lines[i]).Some?;
    }
  }

  lemma {:induction false} SomeStatus(lines: seq<string>)
    ensures StatusLines(lines) != [] <==> exists i :: 0 <= i < |lines| && IsCommandStatus(lines[i])
  {
    hide IsCommandStatus;
    if lines != [] {
      SomeStatus(lines[1..]);
      assert forall i :: 0 < i < |lines| ==> lines[i] == lines[1..][i - 1];
    }
  }

  ghost function CaptureStatus(lib: Library, dir: Snapshot): (r: int)
    requires CaptureAccepted(lib, dir)
  {
    BodyStatus(Lines(dir.Read(RECEIPT_NAME).value)[1..])
  }

  /** The receipt is accepted and reports this status. */
  ghost predicate Reports(lib: Library, dir: Snapshot, status: int) {
    CaptureAccepted(lib, dir) && CaptureStatus(lib, dir) == status
  }

  // ----- The loop decides acceptance -----

  /** The loop's result in terms of the artifact lines and the status lines alone. */
  lemma {:induction false} AbsorbAllSplits(lib: Library, dir: Snapshot, st: State, lines: seq<string>)
    requires st.ok
    ensures var end := AbsorbAll(lib, dir, st, lines);
      && (end.ok <==> ObserveAll(lib, dir, st.table, ArtifactLines(lines)).Some? && AllGood(lines))
      && (end.ok ==> ObserveAll(lib, dir, st.table, ArtifactLines(lines)) == Some(end.table))
      && (end.ok ==> end.commandSeen == (st.commandSeen || StatusLines(lines) != []))
      && (end.ok && StatusLines(lines) != [] ==> end.status == BodyStatus(lines))
      && (end.ok && StatusLines(lines) == [] ==> end.status == st.status)
    decreases |lines|
  {
    hide Observe;
    hide ExitCode;
    hide IsExit;
    hide IsSignal;
    hide IsArtifact;
    if lines != [] {
      var next := Absorb(lib, dir, st, lines[0]);
      ArtifactIsNotStatus(lines[0]);
      if next.ok {
        GoodTail(lines);
        hide AllGood;
        AbsorbAllSplits(lib, dir, next, lines[1..]);
      } else {
        RefusedLine(lib, dir, st, lines);
      }
    }
  }

  lemma RefusedLine(lib: Library, dir: Snapshot, st: State, lines: seq<string>)
    requires st.ok && lines != [] && !Absorb(lib, dir, st, lines[0]).ok
    ensures !AbsorbAll(lib, dir, st, lines).ok
    ensures ObserveAll(lib, dir, st.table, ArtifactLines(lines)).None? || !AllGood(lines)
  {
    hide Observe;
    hide ExitCode;
  }

  lemma GoodTail(lines: seq<string>)
    requires lines != []
    ensures AllGood(lines) <==> GoodLine(lines[0]) && AllGood(lines[1..])
  {
    hide GoodLine;
    assert forall i :: 0 < i < |lines| ==> lines[i] == lines[1..][i - 1];
    assert forall i :: 0 <= i < |lines[1..]| ==> lines[1..][i] == lines[i + 1];
  }

  lemma ArtifactIsNotStatus(line: string)
    ensures IsArtifact(line) ==> !IsCommandStatus(line) && GoodLine(line)
  {
    hide ExitCode;
    assert IsArtifact(line) ==> line[0] == 'a';
    assert IsCommandStatus(line) ==> line[0] == 's';
  }

  lemma LoopDecides(lib: Library, dir: Snapshot, status: int, body: seq<string>)
    ensures var end := AbsorbAll(lib, dir, Start(status), body);
      && (end.ok && AllObserved(end.table) && end.commandSeen <==> BodyAccepted(lib, dir, body))
      && (BodyAccepted(lib, dir, body) ==> end.status == BodyStatus(body))
  {
    hide AbsorbAll;
    hide ObserveAll;
    hide BodyStatus;
    CaptureTableReady();
    AbsorbAllSplits(lib, dir, Start(status), body);
    AcceptedIffPermutation(lib, dir, CaptureTable(), ArtifactLines(body));
  }

  /** The status the caller is left with, accepted or not: what the loop has when it ends, or `initial` if the loop is
      never entered. */
  ghost function StatusLeft(lib: Library, dir: Snapshot, initial: int): (r: int) {
    match dir.Read(RECEIPT_NAME)
    case None => initial
    case Some(text) =>
      var lines := Lines(text);
      if lines != [] && lines[0] == RECEIPT_HEADER then AbsorbAll(lib, dir, Start(initial), lines[1..]).status else initial
  }

  /** Of an accepted receipt it is the status reported. */
  lemma AcceptedLeavesStatus(lib: Library, dir: Snapshot, initial: int)
    requires CaptureAccepted(lib, dir)
    ensures StatusLeft(lib, dir, initial) == CaptureStatus(lib, dir)
  {
    hide Lines;
    hide AbsorbAll;
    hide BodyAccepted;
    hide BodyStatus;
    LoopDecides(lib, dir, initial, Lines(dir.Read(RECEIPT_NAME).value)[1..]);
  }

  /** The lines before the first refused one. */
  lemma {:induction false} TakenLines(lib: Library, dir: Snapshot, st: State, lines: seq<string>) returns (k: nat)
    requires st.ok
    ensures k <= |lines| && AbsorbAll(lib, dir, st, lines[..k]).ok
    ensures k < |lines| ==> !AbsorbAll(lib, dir, st, lines[..k + 1]).ok
    ensures AbsorbAll(lib, dir, st, lines).status == AbsorbAll(lib, dir, st, lines[..k]).status
    decreases |lines|
  {
    hide IsArtifact;
    hide IsCommandStatus;
    hide GoodLine;
    k := 0;
    if lines != [] {
      var next := Absorb(lib, dir, st, lines[0]);
      if next.ok {
        var later := TakenLines(lib, dir, next, lines[1..]);
        k := later + 1;
        assert lines[..k][1..] == lines[1..][..later];
        assert k < |lines| ==> lines[..k + 1][1..] == lines[1..][..later + 1];
      } else {
        assert lines[..1] == [lines[0]] && lines[..1][1..] == [];
      }
    }
  }

  /** What a body leaves, accepted or not: the last status among the lines before the first refused one, or none. */
  lemma StatusBeforeRefusal(lib: Library, dir: Snapshot, initial: int, body: seq<string>) returns (k: nat)
    ensures k <= |body| && AbsorbAll(lib, dir, Start(initial), body[..k]).ok && AllGood(body[..k])
    ensures k < |body| ==> !AbsorbAll(lib, dir, Start(initial), body[..k + 1]).ok
    ensures AbsorbAll(lib, dir, Start(initial), body).status
      == if StatusLines(body[..k]) == [] then initial else BodyStatus(body[..k])
  {
    k := TakenLines(lib, dir, Start(initial), body);
    hide AbsorbAll;
    hide BodyStatus;
    hide AllGood;
    AbsorbAllSplits(lib, dir, Start(initial), body[..k]);
  }

  /** `verify_capture`. `initial` is what the caller's status holds before the call. */
  method VerifyCapture(lib: Library, dir: Directory, initial: int) returns (ok: bool, status: int)
    ensures ok <==> CaptureAccepted(lib, dir.Now())
    ensures ok ==> status == CaptureStatus(lib, dir.Now())
    ensures status == StatusLeft(lib, dir.Now(), initial)
  {
    hide Lines;
    hide AbsorbAll;
    hide BodyAccepted;
    hide BodyStatus;
    ok, status := false, initial;
    if dir.Now().Read(RECEIPT_NAME).None? { return; }
    var stream := new Reader(dir.Now().Read(RECEIPT_NAME).value);
    ghost var lines := Lines(stream.rest);
    NoLines();
    var line := stream.Fgets();
    if line.None? || line.value != RECEIPT_HEADER { return; }
    assert lines[0] == line.value && lines[1..] == Lines(stream.rest);
    var artifacts := new Artifact[|CaptureTable()|](i requires 0 <= i < |CaptureTable()| => CaptureTable()[i]);
    assert artifacts[..] == CaptureTable();
    var commandSeen;
    ok, status, commandSeen := ReadReceipt(lib, dir, stream, artifacts, initial);
    LoopDecides(lib, dir.Now(), initial, lines[1..]);
    var complete := CheckObserved(artifacts);
    ok := ok && complete && commandSeen;
  }

  /** The loop of `verify_capture` after the header. */
  method ReadReceipt(lib: Library, dir: Directory, stream: Reader, artifacts: array<Artifact>, initial: int)
    returns (ok: bool, status: int, commandSeen: bool)
    modifies stream, artifacts
    ensures State(artifacts[..], status, commandSeen, ok)
      == AbsorbAll(lib, dir.Now(), State(old(artifacts[..]), initial, false, true), Lines(old(stream.rest)))
  {
    hide Lines;
    hide Observe;
    hide ParseLine;
    NoLines();
    ghost var now := dir.Now();
    ghost var end := AbsorbAll(lib, now, State(artifacts[..], initial, false, true), Lines(stream.rest));
    ok, status, commandSeen := true, initial, false;
    var line := stream.Fgets();
    ghost var pending := if line.Some? then [line.value] + Lines(stream.rest) else [];
    while ok && line.Some?
      invariant dir.Now() == now
      invariant pending == if line.Some? then [line.value] + Lines(stream.rest) else []
      invariant end == AbsorbAll(lib, now, State(artifacts[..], status, commandSeen, ok), pending)
      decreases |stream.rest| + (if line.Some? then 1 else 0)
    {
      ghost var st := State(artifacts[..], status, commandSeen, ok);
      if IsArtifact(line.value) {
        ok := VerifyArtifact(lib, dir, line.value, artifacts);
      } else if IsExit(line.value) {
        var code := ExitCode(line.value);
        if code.None? {
          ok := false;
        } else {
          status, commandSeen := if code.value == 0 then 0 else 1, true;
        }
      } else if IsSignal(line.value) {
        status, commandSeen := 2, true;
      }
      assert State(artifacts[..], status, commandSeen, ok) == Absorb(lib, now, st, pending[0]);
      assert pending[1..] == Lines(stream.rest);
      pending := pending[1..];
      line := stream.Fgets();
    }
  }

  // ----- Consequences for receipt bodies -----

  lemma {:induction false} ArtifactLinesAppend(a: seq<string>, b: seq<string>)
    ensures ArtifactLines(a + b) == ArtifactLines(a) + ArtifactLines(b)
  {
    hide IsArtifact;
    if a == [] {
      assert a + b == b;
    } else {
      ArtifactLinesAppend(a[1..], b);
      TailOfConcat(a, b);
    }
  }

  lemma {:induction false} StatusLinesAppend(a: seq<string>, b: seq<string>)
    ensures StatusLines(a + b) == StatusLines(a) + StatusLines(b)
  {
    hide IsCommandStatus;
    if a == [] {
      assert a + b == b;
    } else {
      StatusLinesAppend(a[1..], b);
      TailOfConcat(a, b);
    }
  }

  lemma TailOfConcat<T>(a: seq<T>, b: seq<T>)
    requires a != []
    ensures (a + b)[0] == a[0] && (a + b)[1..] == a[1..] + b
  {
  }

  /** Selecting lines by kind commutes with cutting the body at a line. */
  lemma KindsAround(left: seq<string>, line: string, right: seq<string>)
    ensures ArtifactLines(left + [line] + right) == ArtifactLines(left) + ArtifactLines([line]) + ArtifactLines(right)
    ensures StatusLines(left + [line] + right) == StatusLines(left) + StatusLines([line]) + StatusLines(right)
    ensures ArtifactLines(left + right) == ArtifactLines(left) + ArtifactLines(right)
    ensures StatusLines(left + right) == StatusLines(left) + StatusLines(right)
  {
    hide ArtifactLines;
    hide StatusLines;
    ArtifactLinesAppend(left, right);
    ArtifactLinesAppend(left, [line]);
    ArtifactLinesAppend(left + [line], right);
    StatusLinesAppend(left, right);
    StatusLinesAppend(left, [line]);
    StatusLinesAppend(left + [line], right);
  }

  lemma {:induction false} LinesByKind(lines: seq<string>, x: string)
    ensures multiset(ArtifactLines(lines))[x] == if IsArtifact(x) then multiset(lines)[x] else 0
    ensures multiset(StatusLines(lines))[x] == if IsCommandStatus(x) then multiset(lines)[x] else 0
  {
    hide IsArtifact;
    hide IsCommandStatus;
    if lines != [] {
      LinesByKind(lines[1..], x);
      assert lines == [lines[0]] + lines[1..];
    }
  }

  lemma KindsPermute(a: seq<string>, b: seq<string>)
    requires multiset(a) == multiset(b)
    ensures multiset(ArtifactLines(a)) == multiset(ArtifactLines(b))
    ensures multiset(StatusLines(a)) == multiset(StatusLines(b))
    ensures AllGood(a) ==> AllGood(b)
  {
    hide ArtifactLines;
    hide StatusLines;
    hide GoodLine;
    forall x ensures multiset(ArtifactLines(a))[x] == multiset(ArtifactLines(b))[x]
             ensures multiset(StatusLines(a))[x] == multiset(StatusLines(b))[x] {
      LinesByKind(a, x);
      LinesByKind(b, x);
    }
    assert forall i :: 0 <= i < |b| ==> b[i] in multiset(b) && b[i] in a;
  }

  /** Reordering the lines of a body never changes acceptance, nor the status when only one line reports it. */
  lemma ReorderingIsHarmless(lib: Library, dir: Snapshot, a: seq<string>, b: seq<string>)
    requires multiset(a) == multiset(b) && BodyAccepted(lib, dir, a)
    ensures BodyAccepted(lib, dir, b)
    ensures |StatusLines(a)| == 1 ==> BodyStatus(b) == BodyStatus(a)
  {
    hide AllParse;
    hide Claims;
    hide Wanted;
    hide AllGood;
    hide StatusOf;
    KindsPermute(a, b);
    ClaimsPermutation(ArtifactLines(a), ArtifactLines(b));
    assert |multiset(StatusLines(a))| == |multiset(StatusLines(b))|;
    if |StatusLines(a)| == 1 {
      assert StatusLines(a)[0] in multiset(StatusLines(b));
      assert StatusLines(b)[0] == StatusLines(a)[0];
    }
  }

  /** A line that is neither an artifact line nor a command status can be put anywhere. */
  lemma OtherLinesIgnored(lib: Library, dir: Snapshot, left: seq<string>, line: string, right: seq<string>)
    requires !IsArtifact(line) && !IsCommandStatus(line)
    ensures BodyAccepted(lib, dir, left + [line] + right) <==> BodyAccepted(lib, dir, left + right)
    ensures BodyAccepted(lib, dir, left + right) ==>
      BodyStatus(left + [line] + right) == BodyStatus(left + right)
  {
    hide AllParse;
    hide Claims;
    hide Wanted;
    KindsAround(left, line, right);
    assert ArtifactLines([line]) == [] && StatusLines([line]) == [];
    assert ArtifactLines(left) + [] == ArtifactLines(left);
    assert StatusLines(left) + [] == StatusLines(left);
    hide ArtifactLines;
    hide StatusLines;
    hide StatusOf;
    hide AllGood;
    GoodAround(left, line, right);
  }

  lemma GoodAround(left: seq<string>, line: string, right: seq<string>)
    requires GoodLine(line)
    ensures AllGood(left + [line] + right) <==> AllGood(left + right)
  {
    hide GoodLine;
    var with, without := left + [line] + right, left + right;
    if AllGood(with) {
      forall i | 0 <= i < |without| ensures GoodLine(without[i]) {
        assert without[i] == if i < |left| then with[i] else with[i + 1];
      }
    }
    if AllGood(without) {
      forall i | 0 <= i < |with| ensures GoodLine(with[i]) {
        assert with[i] == if i < |left| then without[i] else if i == |left| then line else without[i - 1];
      }
    }
  }

  /** Dropping any artifact line, or adding one more, turns acceptance into rejection. */
  lemma ArtifactLinesAllCount(lib: Library, dir: Snapshot, left: seq<string>, line: string, right: seq<string>)
    requires IsArtifact(line)
    ensures !(BodyAccepted(lib, dir, left + [line] + right) && BodyAccepted(lib, dir, left + right))
  {
    hide AllParse;
    hide Claims;
    hide Wanted;
    KindsAround(left, line, right);
    assert ArtifactLines([line]) == [line];
    AcceptedCount(lib, dir, left + [line] + right);
    AcceptedCount(lib, dir, left + right);
  }

  lemma AcceptedCount(lib: Library, dir: Snapshot, body: seq<string>)
    ensures BodyAccepted(lib, dir, body) ==> |ArtifactLines(body)| == |CaptureTable()|
  {
    hide Claims;
    hide AllParse;
    hide AllGood;
    WantedCount(lib, dir, CaptureTable());
    if BodyAccepted(lib, dir, body) { ClaimsCount(ArtifactLines(body)); }
  }
}
