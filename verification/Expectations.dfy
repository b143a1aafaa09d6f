/** Checking a loaded analysis against an expectations file. */
module Expectations {
  import opened Wrappers
  import opened CText
  import opened Files
  import opened Library
  import opened AnalysisChain

  const EXPECTATIONS_HEADER := "p101-expectations-v1\n"
  const EDGE_NAME_SIZE: nat := 64

  // ----- Loading -----

  /** `load_analysis_directory`: analyse the three inputs kept in the directory. */
  function Load(lib: Library, dir: Snapshot): (r: Option<Analysis>) {
    match (dir.Read("input-resources.log"), dir.Read("input-calls.log"), dir.Read("input-stderr.txt"))
    case (Some(resources), Some(calls), Some(stderr)) => lib.analyze(resources, calls, stderr)
    case _ => None
  }

  // ----- Questions about a loaded analysis -----

  /** `model_edge_name` */
  function EdgeName(kind: EdgeKind): (name: string)
    ensures |name| <= 19
  {
    match kind
    case CallParent => "call-parent"
    case CallReturn => "call-return"
    case CallCausedEvent => "call-caused-event"
    case ResourceLifetime => "resource-lifetime"
    case ProcessChildEvent => "process-child-event"
    case UnknownEdge => "unknown"
  }

  predicate HasFinding(lib: Library, analysis: Analysis, pattern: string) {
    exists i :: 0 <= i < |analysis.findings| && lib.matches(pattern, analysis.findings[i].diagnosticId)
  }

  /** The name a call or resource expectation compares with its pattern, for one node. */
  function Candidate(node: Node, resource: bool): (r: Option<string>) {
    match node
    case CallNode(enter, name) => if !resource && enter then name else None
    case ResourceNode(name) => if resource then name else None
    case OtherNode => None
  }

  predicate HasCandidate(lib: Library, analysis: Analysis, resource: bool, pattern: string) {
    exists i :: 0 <= i < |analysis.nodes| && Candidate(analysis.nodes[i], resource).Some?
      && lib.matches(pattern, Candidate(analysis.nodes[i], resource).value)
  }

  function CountEdges(edges: seq<EdgeKind>, name: string): (r: nat) {
    if edges == [] then 0
    else CountEdges(edges[..|edges| - 1], name) + (if EdgeName(edges[|edges| - 1]) == name then 1 else 0)
  }

  /** The edge name and the count of an edge expectation; none if it is malformed. */
  function EdgeRequest(key: string, value: string): (r: Option<(string, int)>) {
    if |value| >= EDGE_NAME_SIZE then None
    else if key != "min_edges" then Some((value, 1))
    else
      var colon := LastIndexOf(value, ':');
      if colon == |value| then None
      else
        var c := StrToUnsigned(value[colon + 1..], 10);
        if c.rangeError || colon + 1 + c.end < |value| then None else Some((value[..colon], c.value))
  }

  /** Whether an expectation holds; none if it is malformed. */
  function Check(lib: Library, analysis: Analysis, status: int, key: string, value: string): (r: Option<bool>) {
    if key == "result" then Some(value == if status == 0 then "clean" else "findings")
    else if key == "finding_count" || key == "min_nodes" then
      var c := StrToUnsigned(value, 10);
      var whole := !c.rangeError && c.end == |value|;
      if key == "finding_count" then Some(whole && |analysis.findings| == c.value)
      else Some(whole && |analysis.nodes| >= c.value)
    else if key == "forbid" then Some(!HasFinding(lib, analysis, value))
    else if key == "require" then Some(HasFinding(lib, analysis, value))
    else if key == "require_edge" || key == "min_edges" then
      (match EdgeRequest(key, value)
       case None => None
       case Some((name, required)) => Some(CountEdges(analysis.edges, name) >= required))
    else if key == "require_call" then Some(HasCandidate(lib, analysis, false, value))
    else if key == "forbid_call" then Some(!HasCandidate(lib, analysis, false, value))
    else if key == "require_resource" then Some(HasCandidate(lib, analysis, true, value))
    else None
  }

  datatype Verdict = Skipped | Holds | Fails | Broken

  /** The message about a failed expectation must fit its buffer. */
  const MESSAGE_OVERHEAD: nat := |"expectation not satisfied: "|

  /** What one line of the file amounts to. */
  function Judge(lib: Library, analysis: Analysis, status: int, line: string): (r: Verdict) {
    var text := line[..IndexOf(line, '\n')];
    if text == "" || text[0] == '#' then Skipped
    else
      var separator := IndexOf(text, '=');
      if separator == |text| then Broken
      else
        match Check(lib, analysis, status, text[..separator], text[separator + 1..])
        case None => Broken
        case Some(true) => Holds
        case Some(false) => if MESSAGE_OVERHEAD + |text| >= LINE_SIZE then Broken else Fails
  }

  // ----- What a whole file amounts to -----

  ghost predicate AnyBroken(lib: Library, analysis: Analysis, status: int, lines: seq<string>) {
    exists i :: 0 <= i < |lines| && Judge(lib, analysis, status, lines[i]) == Broken
  }

  ghost predicate AnyFailure(lib: Library, analysis: Analysis, status: int, lines: seq<string>) {
    exists i :: 0 <= i < |lines| && Judge(lib, analysis, status, lines[i]) == Fails
  }

  /** A broken line anywhere is trouble; otherwise clean exactly when nothing fails. */
  ghost function BodyExit(lib: Library, analysis: Analysis, status: int, lines: seq<string>): (r: int) {
    if AnyBroken(lib, analysis, status, lines) then 2
    else if AnyFailure(lib, analysis, status, lines) then 1
    else 0
  }

  /** The exit status of checking a file with these contents. */
  ghost function FileExit(lib: Library, analysis: Analysis, status: int, text: string): (r: int) {
    var lines := Lines(text);
    if lines == [] || lines[0] != EXPECTATIONS_HEADER then 2 else BodyExit(lib, analysis, status, lines[1..])
  }

  // ----- The loops as written -----

  /** `analysis_has_finding` */
  method AnalysisHasFinding(lib: Library, analysis: Analysis, pattern: string) returns (found: bool)
    ensures found == HasFinding(lib, analysis, pattern)
  {
    found := false;
    var index := 0;
    while index < |analysis.findings|
      invariant index <= |analysis.findings|
      invariant forall i :: 0 <= i < index ==> !lib.matches(pattern, analysis.findings[i].diagnosticId)
    {
      if lib.matches(pattern, analysis.findings[index].diagnosticId) { return true; }
      index := index + 1;
    }
  }

  method NodePresent(lib: Library, analysis: Analysis, resource: bool, pattern: string) returns (present: bool)
    ensures present == HasCandidate(lib, analysis, resource, pattern)
  {
    present := false;
    var index := 0;
    while index < |analysis.nodes|
      invariant index <= |analysis.nodes|
      invariant forall i :: 0 <= i < index ==>
        Candidate(analysis.nodes[i], resource) == None || !lib.matches(pattern, Candidate(analysis.nodes[i], resource).value)
    {
      var candidate := Candidate(analysis.nodes[index], resource);
      if candidate.Some? && lib.matches(pattern, candidate.value) { return true; }
      index := index + 1;
    }
  }

  method EdgeCount(analysis: Analysis, name: string) returns (actual: nat)
    ensures actual == CountEdges(analysis.edges, name)
  {
    actual := 0;
    var index := 0;
    while index < |analysis.edges|
      invariant index <= |analysis.edges|
      invariant actual == CountEdges(analysis.edges[..index], name)
    {
      assert analysis.edges[..index + 1][..index] == analysis.edges[..index];
      if EdgeName(analysis.edges[index]) == name { actual := actual + 1; }
      index := index + 1;
    }
    assert analysis.edges[..|analysis.edges|] == analysis.edges;
  }

  /** The chain of key comparisons; `well` is false where the source gives up on the file. */
  method CheckExpectation(lib: Library, analysis: Analysis, status: int, key: string, value: string)
    returns (well: bool, satisfied: bool)
    ensures well == Check(lib, analysis, status, key, value).Some?
    ensures well ==> Check(lib, analysis, status, key, value) == Some(satisfied)
  {
    hide StrToUnsigned;
    hide HasFinding;
    hide HasCandidate;
    hide CountEdges;
    well, satisfied := true, false;
    if key == "result" {
      var actual := if status == 0 then "clean" else "findings";
      satisfied := actual == value;
    } else if key == "finding_count" || key == "min_nodes" {
      var c := StrToUnsigned(value, 10);
      if key == "finding_count" {
        satisfied := !c.rangeError && c.end == |value| && |analysis.findings| == c.value;
      } else {
        satisfied := !c.rangeError && c.end == |value| && |analysis.nodes| >= c.value;
      }
    } else if key == "forbid" {
      var present := AnalysisHasFinding(lib, analysis, value);
      satisfied := !present;
    } else if key == "require" {
      satisfied := AnalysisHasFinding(lib, analysis, value);
    } else if key == "require_edge" || key == "min_edges" {
      if |value| >= EDGE_NAME_SIZE { return false, false; }
      var name, required := value, 1;
      if key == "min_edges" {
        var colon := LastIndexOf(name, ':');
        if colon == |name| { return false, false; }
        var c := StrToUnsigned(name[colon + 1..], 10);
        if c.rangeError || colon + 1 + c.end < |name| { return false, false; }
        name, required := name[..colon], c.value;
      }
      var actual := EdgeCount(analysis, name);
      satisfied := actual >= required;
    } else if key == "require_call" || key == "forbid_call" || key == "require_resource" {
      var present := NodePresent(lib, analysis, key == "require_resource", value);
      satisfied := if key == "forbid_call" then !present else present;
    } else {
      well := false;
    }
  }

  lemma CutAt(line: string, i: nat)
    requires i < |line| && '\0' !in line[..i]
    ensures CStr(line[i := '\0']) == line[..i]
  {
    var cut := line[i := '\0'];
    assert cut == line[..i] + ['\0'] + line[i + 1..];
    IndexOfSplit(line[..i], '\0', line[i + 1..]);
  }

  /** One turn of the reading loop: cut the line at its newline, then at its first `=`. */
  method JudgeLine(lib: Library, analysis: Analysis, status: int, buffer: string) returns (verdict: Verdict)
    requires '\0' !in buffer
    ensures verdict == Judge(lib, analysis, status, buffer)
  {
    hide Check;
    var line := buffer;
    var newline := IndexOf(line, '\n');
    if newline < |line| {
      CutAt(line, newline);
      line := line[newline := '\0'];
    }
    var text := CStr(line);
    assert text == buffer[..newline];
    if text == "" || text[0] == '#' { return Skipped; }
    var separator := IndexOf(text, '=');
    if separator == |text| { return Broken; }
    CutAt(text, separator);
    var key, value := CStr(text[separator := '\0']), text[separator + 1..];
    var well, satisfied := CheckExpectation(lib, analysis, status, key, value);
    if !well { return Broken; }
    if satisfied { return Holds; }
    assert |key| + 1 + |value| == |text|;
    if MESSAGE_OVERHEAD + |key| + 1 + |value| >= LINE_SIZE { return Broken; }
    verdict := Fails;
  }

  /** The reading loop: the number of failures, or giving up at the first broken line. */
  method CheckLines(lib: Library, analysis: Analysis, status: int, stream: Reader) returns (ok: bool, failures: nat)
    modifies stream
    ensures ok <==> !AnyBroken(lib, analysis, status, Lines(old(stream.rest)))
    ensures ok ==> (failures > 0 <==> AnyFailure(lib, analysis, status, Lines(old(stream.rest))))
  {
    hide Lines;
    hide Judge;
    assert Lines("") == [] by { NoLines(); }
    ghost var lines := Lines(stream.rest);
    ghost var k := 0;
    ok, failures := true, 0;
    LinesHaveNoNul(stream.rest);
    var line := stream.Fgets();
    ghost var pending := if line.Some? then [line.value] + Lines(stream.rest) else [];
    while line.Some?
      invariant ok && k <= |lines| && lines[k..] == pending
      invariant pending == if line.Some? then [line.value] + Lines(stream.rest) else []
      invariant forall i :: 0 <= i < |lines| ==> '\0' !in lines[i]
      invariant forall i :: 0 <= i < k ==> Judge(lib, analysis, status, lines[i]) != Broken
      invariant failures > 0 <==> exists i :: 0 <= i < k && Judge(lib, analysis, status, lines[i]) == Fails
      decreases |stream.rest| + (if line.Some? then 1 else 0)
    {
      assert lines[k] == pending[0] == line.value;
      var verdict := JudgeLine(lib, analysis, status, line.value);
      if verdict == Broken {
        return false, failures;
      }
      if verdict == Fails { failures := failures + 1; }
      assert lines[k + 1..] == pending[1..] == Lines(stream.rest);
      line := stream.Fgets();
      k, pending := k + 1, pending[1..];
    }
  }

  lemma LinesHaveNoNul(text: string)
    ensures forall i :: 0 <= i < |Lines(text)| ==> '\0' !in Lines(text)[i]
  {
    hide Chunks;
  }

  /** `model_verify`. `expectations` is absent without `-e`; with it, the bytes of the file if it opens. */
  method ModelVerify(lib: Library, dir: Directory, expectations: Option<Option<string>>) returns (exit: int)
    ensures exit == VerifyExit(lib, dir.Now(), expectations)
  {
    hide Sound;
    hide Load;
    hide Lines;
    hide BodyExit;
    var ok, status := AnalysisResult(lib, dir);
    if !ok || status == 2 { return 2; }
    var loaded := Load(lib, dir.Now());
    if loaded.None? { return 2; }
    if expectations.None? { return 0; }
    if expectations.value.None? { return 2; }
    var stream := new Reader(expectations.value.value);
    ghost var lines := Lines(stream.rest);
    assert Lines("") == [] by { NoLines(); }
    var line := stream.Fgets();
    if line.None? || line.value != EXPECTATIONS_HEADER { return 2; }
    assert lines == [line.value] + Lines(stream.rest);
    assert lines[1..] == Lines(stream.rest);
    var failures;
    ok, failures := CheckLines(lib, loaded.value, status, stream);
    if !ok {
      exit := 2;
    } else {
      exit := if failures == 0 then 0 else 1;
    }
    assert exit == BodyExit(lib, loaded.value, status, lines[1..]) by { BodyExitCases(lib, loaded.value, status, lines[1..]); }
  }

  /** What `model verify` exits with: trouble unless the chain is sound and the inputs load, then the file. */
  ghost function VerifyExit(lib: Library, dir: Snapshot, expectations: Option<Option<string>>): (r: int) {
    if !Sound(lib, dir) || RecordedStatus(lib, dir) == 2 || Load(lib, dir).None? then 2
    else if expectations.None? then 0
    else if expectations.value.None? then 2
    else FileExit(lib, Load(lib, dir).value, RecordedStatus(lib, dir), expectations.value.value)
  }

  lemma BodyExitCases(lib: Library, analysis: Analysis, status: int, lines: seq<string>)
    ensures BodyExit(lib, analysis, status, lines) ==
      if AnyBroken(lib, analysis, status, lines) then 2 else if AnyFailure(lib, analysis, status, lines) then 1 else 0
  {
  }

  // ----- Order and comments do not matter -----

  lemma BodyExitPermutation(lib: Library, analysis: Analysis, status: int, a: seq<string>, b: seq<string>)
    requires multiset(a) == multiset(b)
    ensures BodyExit(lib, analysis, status, a) == BodyExit(lib, analysis, status, b)
  {
    hide Judge;
    SameMembers(a, b);
    SameMembers(b, a);
  }

  lemma SameMembers(a: seq<string>, b: seq<string>)
    requires multiset(a) == multiset(b)
    ensures forall i :: 0 <= i < |a| ==> a[i] in b
  {
    forall i | 0 <= i < |a| ensures a[i] in b {
      assert a[i] in multiset(a);
      assert a[i] in multiset(b);
    }
  }

  lemma BodyExitSkips(lib: Library, analysis: Analysis, status: int, left: seq<string>, line: string, right: seq<string>)
    requires Judge(lib, analysis, status, line) == Skipped
    ensures BodyExit(lib, analysis, status, left + [line] + right) == BodyExit(lib, analysis, status, left + right)
  {
    hide Judge;
    var with, without := left + [line] + right, left + right;
    forall i | 0 <= i < |without| ensures without[i] in with {
      assert without[i] == if i < |left| then with[i] else with[i + 1];
    }
    forall i | 0 <= i < |with| ensures with[i] == line || with[i] in without {
      if i != |left| { assert with[i] == if i < |left| then without[i] else without[i - 1]; }
    }
  }

  lemma BlankOrComment(lib: Library, analysis: Analysis, status: int, line: string)
    requires line == "\n" || (line != "" && line[0] == '#')
    ensures Judge(lib, analysis, status, line) == Skipped
  {
    hide Check;
  }

  /** Writing the lines of an expectations file in another order, or adding blank lines and comments to it, leaves
      the exit status as it was. */
  lemma FileOrderIrrelevant(lib: Library, analysis: Analysis, status: int,
                            lines: seq<string>, others: seq<string>, extra: seq<string>)
    requires forall line :: line in lines || line in others ==> IsLine(line) && '\0' !in line
    requires forall line :: line in extra ==> Judge(lib, analysis, status, line) == Skipped
    requires multiset(others) == multiset(lines) + multiset(extra)
    ensures FileExit(lib, analysis, status, Flatten([EXPECTATIONS_HEADER] + lines))
      == FileExit(lib, analysis, status, Flatten([EXPECTATIONS_HEADER] + others))
  {
    hide Judge;
    FileOfLines(lib, analysis, status, lines);
    FileOfLines(lib, analysis, status, others);
    assert multiset(others) == multiset(lines + extra);
    BodyExitPermutation(lib, analysis, status, others, lines + extra);
    hide BodyExit;
    DropExtra(lib, analysis, status, lines, extra);
  }

  lemma {:induction false} DropExtra(lib: Library, analysis: Analysis, status: int, lines: seq<string>, extra: seq<string>)
    requires forall line :: line in extra ==> Judge(lib, analysis, status, line) == Skipped
    ensures BodyExit(lib, analysis, status, lines + extra) == BodyExit(lib, analysis, status, lines)
  {
    hide Judge;
    hide BodyExit;
    if extra == [] {
      assert lines + extra == lines;
    } else {
      assert lines + extra == lines + [extra[0]] + extra[1..];
      BodyExitSkips(lib, analysis, status, lines, extra[0], extra[1..]);
      DropExtra(lib, analysis, status, lines, extra[1..]);
    }
  }

  lemma FileOfLines(lib: Library, analysis: Analysis, status: int, lines: seq<string>)
    requires forall line :: line in lines ==> IsLine(line) && '\0' !in line
    ensures FileExit(lib, analysis, status, Flatten([EXPECTATIONS_HEADER] + lines)) == BodyExit(lib, analysis, status, lines)
  {
    hide BodyExit;
    assert IsLine(EXPECTATIONS_HEADER) && '\0' !in EXPECTATIONS_HEADER;
    LinesOfFile([EXPECTATIONS_HEADER] + lines);
    assert ([EXPECTATIONS_HEADER] + lines)[1..] == lines;
  }

  // ----- How the keys relate -----

  /** A key=value line whose key has no `=` and whose text has no newline. */
  lemma JudgeOf(lib: Library, analysis: Analysis, status: int, key: string, value: string)
    requires key != "" && key[0] != '#' && '=' !in key && '\n' !in key && '\n' !in value
    ensures Judge(lib, analysis, status, key + "=" + value + "\n") ==
      match Check(lib, analysis, status, key, value)
      case None => Broken
      case Some(true) => Holds
      case Some(false) => if MESSAGE_OVERHEAD + |key| + 1 + |value| >= LINE_SIZE then Broken else Fails
  {
    hide Check;
    var text := key + "=" + value;
    IndexOfSplit(text, '\n', "");
    assert text + ['\n'] + "" == text + "\n" && (text + "\n")[..|text|] == text;
    IndexOfSplit(key, '=', value);
    assert text[..|key|] == key && text[|key| + 1..] == value;
  }

  /** `require_edge` holds exactly when some edge has that name. */
  lemma {:induction false} CountEdgesPositive(edges: seq<EdgeKind>, name: string)
    ensures CountEdges(edges, name) >= 1 <==> exists i :: 0 <= i < |edges| && EdgeName(edges[i]) == name
  {
    hide EdgeName;
    if edges != [] {
      CountEdgesPositive(edges[..|edges| - 1], name);
      assert forall i :: 0 <= i < |edges| - 1 ==> edges[..|edges| - 1][i] == edges[i];
    }
  }

  lemma LastColon(name: string, count: string)
    requires ':' !in count
    ensures LastIndexOf(name + ":" + count, ':') == |name|
  {
    hide LastIndexOf;
    var s := name + ":" + count;
    var last := LastIndexOf(s, ':');
    assert s[|name|] == ':';
    assert last < |s| && last >= |name|;
  }

  lemma CheckEdges(lib: Library, analysis: Analysis, status: int, key: string, value: string)
    requires key == "require_edge" || key == "min_edges"
    ensures Check(lib, analysis, status, key, value) ==
      match EdgeRequest(key, value)
      case None => None
      case Some((name, required)) => Some(CountEdges(analysis.edges, name) >= required)
  {
    hide CountEdges;
    hide HasFinding;
    hide HasCandidate;
    hide EdgeRequest;
    hide StrToUnsigned;
  }

  lemma CountedRequest(name: string, n: U64)
    ensures EdgeRequest("min_edges", name + ":" + Numeral(n, 10)) ==
      if |name| + 1 + |Numeral(n, 10)| >= EDGE_NAME_SIZE then None else Some((name, n))
  {
    hide ScanNumber;
    hide LastIndexOf;
    hide Numeral;
    var count := Numeral(n, 10);
    var value := name + ":" + count;
    NoColon(n);
    hide AllDigits;
    LastColon(name, count);
    assert value[|name| + 1..] == count && value[..|name|] == name;
    ScanNumeral(n, "", 10);
    assert count + "" == count;
  }

  lemma NoColon(n: nat)
    ensures ':' !in Numeral(n, 10)
  {
    var count := Numeral(n, 10);
    forall i | 0 <= i < |count| ensures count[i] != ':' {
      assert DigitValue(count[i]) < 10;
    }
  }

  /** A counted expectation asks for as many edges as its decimal count says, while it fits the name buffer. */
  lemma MinEdgesMeans(lib: Library, analysis: Analysis, status: int, name: string, n: U64)
    ensures Check(lib, analysis, status, "min_edges", name + ":" + Numeral(n, 10)) ==
      if |name| + 1 + |Numeral(n, 10)| >= EDGE_NAME_SIZE then None
      else Some(CountEdges(analysis.edges, name) >= n)
  {
    hide Check;
    hide CountEdges;
    hide EdgeRequest;
    hide Numeral;
    CheckEdges(lib, analysis, status, "min_edges", name + ":" + Numeral(n, 10));
    CountedRequest(name, n);
  }

  /** `min_edges` is antitone in its count. */
  lemma MinEdgesAntitone(lib: Library, analysis: Analysis, status: int, name: string, m: U64, n: U64)
    requires m <= n
    requires Check(lib, analysis, status, "min_edges", name + ":" + Numeral(n, 10)) == Some(true)
    ensures Check(lib, analysis, status, "min_edges", name + ":" + Numeral(m, 10)) == Some(true)
  {
    hide Check;
    hide CountEdges;
    MinEdgesMeans(lib, analysis, status, name, m);
    MinEdgesMeans(lib, analysis, status, name, n);
    NumeralLengthMonotone(m, n);
  }

  lemma {:induction false} NumeralLengthMonotone(m: nat, n: nat)
    requires m <= n
    ensures |Numeral(m, 10)| <= |Numeral(n, 10)|
  {
    if m >= 10 {
      NumeralLengthMonotone(m / 10, n / 10);
    }
  }

  /** `require_edge=E` and `min_edges=E:1` say the same exactly when the name leaves room for the `:1`, or is too
      long for both. */
  lemma RequireEdgeIsMinEdgesOne(lib: Library, analysis: Analysis, status: int, name: string)
    ensures Check(lib, analysis, status, "require_edge", name) == Check(lib, analysis, status, "min_edges", name + ":1")
      <==> |name| + 2 < EDGE_NAME_SIZE || |name| >= EDGE_NAME_SIZE
  {
    assert Numeral(1, 10) == "1" && name + ":1" == name + ":" + "1";
    assert EdgeRequest("require_edge", name) == if |name| >= EDGE_NAME_SIZE then None else Some((name, 1));
    hide Check;
    hide CountEdges;
    hide EdgeRequest;
    hide Numeral;
    CheckEdges(lib, analysis, status, "require_edge", name);
    MinEdgesMeans(lib, analysis, status, name, 1);
  }

  /** `forbid` and `forbid_call` deny exactly what `require` and `require_call` assert. */
  lemma ForbidNegatesRequire(lib: Library, analysis: Analysis, status: int, pattern: string)
    ensures Check(lib, analysis, status, "forbid", pattern).Some? && Check(lib, analysis, status, "require", pattern).Some?
    ensures Check(lib, analysis, status, "forbid", pattern) != Check(lib, analysis, status, "require", pattern)
    ensures Check(lib, analysis, status, "forbid_call", pattern).Some?
      && Check(lib, analysis, status, "require_call", pattern).Some?
    ensures Check(lib, analysis, status, "forbid_call", pattern) != Check(lib, analysis, status, "require_call", pattern)
  {
    hide HasFinding;
    hide HasCandidate;
  }

  /** A printed count is met by exactly that many findings, or at least that many nodes. */
  lemma CountsMean(lib: Library, analysis: Analysis, status: int, n: U64)
    ensures Check(lib, analysis, status, "finding_count", Numeral(n, 10)) == Some(|analysis.findings| == n)
    ensures Check(lib, analysis, status, "min_nodes", Numeral(n, 10)) == Some(|analysis.nodes| >= n)
  {
    hide ScanNumber;
    hide Numeral;
    hide EdgeRequest;
    ScanNumeral(n, "", 10);
    assert Numeral(n, 10) + "" == Numeral(n, 10);
  }

  /** `require_edge` asks for one edge of that name. */
  lemma RequireEdgeMeans(lib: Library, analysis: Analysis, status: int, name: string)
    ensures Check(lib, analysis, status, "require_edge", name) ==
      if |name| >= EDGE_NAME_SIZE then None
      else Some(exists i :: 0 <= i < |analysis.edges| && EdgeName(analysis.edges[i]) == name)
  {
    assert EdgeRequest("require_edge", name) == if |name| >= EDGE_NAME_SIZE then None else Some((name, 1));
    hide Check;
    hide EdgeRequest;
    hide EdgeName;
    CheckEdges(lib, analysis, status, "require_edge", name);
    CountEdgesPositive(analysis.edges, name);
  }

  /** A line that is blank, a comment, or an expectation the checker understands. */
  predicate WellFormed(lib: Library, analysis: Analysis, status: int, line: string) {
    var text := line[..IndexOf(line, '\n')];
    var separator := IndexOf(text, '=');
    text == "" || text[0] == '#'
    || (separator < |text| && Check(lib, analysis, status, text[..separator], text[separator + 1..]).Some?)
  }

  /** A broken line is not always a malformed one: it is malformed, or it fails and is too long to be reported. */
  lemma BrokenIff(lib: Library, analysis: Analysis, status: int, line: string)
    ensures Judge(lib, analysis, status, line) == Broken <==>
      !WellFormed(lib, analysis, status, line)
      || (var text := line[..IndexOf(line, '\n')];
          var separator := IndexOf(text, '=');
          text != "" && text[0] != '#' && separator < |text| && MESSAGE_OVERHEAD + |text| >= LINE_SIZE
          && Check(lib, analysis, status, text[..separator], text[separator + 1..]) == Some(false))
  {
    hide Check;
    hide IndexOf;
  }

  /** For instance a `require=` line of 8165 bytes that no finding meets: well-formed, yet trouble and not a failure. */
  lemma LongFailureIsTrouble(lib: Library, analysis: Analysis, status: int)
    requires analysis.findings == []
    ensures var value := seq(8157, _ => 'x');
      var line := "require" + "=" + value + "\n";
      && IsLine(line)
      && Check(lib, analysis, status, "require", value) == Some(false)
      && BodyExit(lib, analysis, status, [line]) == 2
  {
    var value := seq(8157, _ => 'x');
    var line := "require" + "=" + value + "\n";
    assert Check(lib, analysis, status, "require", value) == Some(false);
    hide Check;
    assert '\n' !in value;
    assert '\n' !in line[..|line| - 1] by {
      assert line[..|line| - 1] == "require" + "=" + value;
      assert '\n' !in "require" && '\n' !in "=";
    }
    JudgeOf(lib, analysis, status, "require", value);
    hide Judge;
    assert Judge(lib, analysis, status, [line][0]) == Broken;
  }
}
