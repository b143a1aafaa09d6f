/** What expectations and rule packs ask for, by name: which key or pack asks about which part of an analysis. */
module Meanings {
  import opened Wrappers
  import opened CText
  import opened Numbers
  import opened Library
  import opened Expectations
  import opened Files
  import opened AnalysisChain
  import RulePacks

  // ----- Parts of an analysis -----

  /** Some finding has a matching diagnostic identifier. */
  ghost predicate FindingMatches(lib: Library, analysis: Analysis, pattern: string) {
    exists f :: f in analysis.findings && lib.matches(pattern, f.diagnosticId)
  }

  /** Some call that was entered has a matching name. */
  ghost predicate CallMatches(lib: Library, analysis: Analysis, pattern: string) {
    exists name :: CallNode(true, Some(name)) in analysis.nodes && lib.matches(pattern, name)
  }

  /** Some resource has a matching class. */
  ghost predicate ResourceMatches(lib: Library, analysis: Analysis, pattern: string) {
    exists name :: ResourceNode(Some(name)) in analysis.nodes && lib.matches(pattern, name)
  }

  lemma FindingAsked(lib: Library, analysis: Analysis, pattern: string)
    ensures HasFinding(lib, analysis, pattern) <==> FindingMatches(lib, analysis, pattern)
  {
    if HasFinding(lib, analysis, pattern) {
      var i :| 0 <= i < |analysis.findings| && lib.matches(pattern, analysis.findings[i].diagnosticId);
      assert analysis.findings[i] in analysis.findings;
    }
  }

  lemma CallAsked(lib: Library, analysis: Analysis, pattern: string)
    ensures HasCandidate(lib, analysis, false, pattern) <==> CallMatches(lib, analysis, pattern)
  {
    if HasCandidate(lib, analysis, false, pattern) {
      var i :| 0 <= i < |analysis.nodes| && Candidate(analysis.nodes[i], false).Some?
        && lib.matches(pattern, Candidate(analysis.nodes[i], false).value);
      assert analysis.nodes[i] == CallNode(true, Some(Candidate(analysis.nodes[i], false).value));
    }
    if CallMatches(lib, analysis, pattern) {
      var name :| CallNode(true, Some(name)) in analysis.nodes && lib.matches(pattern, name);
      var i :| 0 <= i < |analysis.nodes| && analysis.nodes[i] == CallNode(true, Some(name));
      assert Candidate(analysis.nodes[i], false) == Some(name);
    }
  }

  lemma ResourceAsked(lib: Library, analysis: Analysis, pattern: string)
    ensures HasCandidate(lib, analysis, true, pattern) <==> ResourceMatches(lib, analysis, pattern)
  {
    if HasCandidate(lib, analysis, true, pattern) {
      var i :| 0 <= i < |analysis.nodes| && Candidate(analysis.nodes[i], true).Some?
        && lib.matches(pattern, Candidate(analysis.nodes[i], true).value);
      assert analysis.nodes[i] == ResourceNode(Some(Candidate(analysis.nodes[i], true).value));
    }
    if ResourceMatches(lib, analysis, pattern) {
      var name :| ResourceNode(Some(name)) in analysis.nodes && lib.matches(pattern, name);
      var i :| 0 <= i < |analysis.nodes| && analysis.nodes[i] == ResourceNode(Some(name));
      assert Candidate(analysis.nodes[i], true) == Some(name);
    }
  }

  /** The names tell the five kinds of edges apart. */
  lemma EdgeNamed(kind: EdgeKind)
    ensures EdgeName(kind) == "call-parent" <==> kind == CallParent
    ensures EdgeName(kind) == "call-return" <==> kind == CallReturn
    ensures EdgeName(kind) == "call-caused-event" <==> kind == CallCausedEvent
    ensures EdgeName(kind) == "resource-lifetime" <==> kind == ResourceLifetime
    ensures EdgeName(kind) == "process-child-event" <==> kind == ProcessChildEvent
    ensures EdgeName(kind) == "unknown" <==> kind == UnknownEdge
  {
    assert "call-parent"[5] == 'p' && "call-return"[5] == 'r' && "call-caused-event"[5] == 'c';
    assert "resource-lifetime"[0] == 'r' && "process-child-event"[0] == 'p' && "unknown"[0] == 'u' && "call-parent"[0] == 'c';
  }

  /** Counting adds one per edge of the kind named. */
  lemma EdgesCounted(edges: seq<EdgeKind>, kind: EdgeKind, name: string)
    ensures CountEdges([], name) == 0
    ensures CountEdges(edges + [kind], name) == CountEdges(edges, name) + (if EdgeName(kind) == name then 1 else 0)
  {
    assert (edges + [kind])[..|edges|] == edges;
  }

  // ----- Counts as written -----

  /** A count: a number text, or nothing at all, which counts as 0. */
  ghost predicate CountText(s: string, k: int) {
    NumberText(s, 10, k) || (s == "" && k == 0)
  }

  lemma CountRead(s: string, k: int)
    ensures CountText(s, k) <==>
      (var c := StrToUnsigned(s, 10); !c.rangeError && c.end == |s| && c.value == k)
  {
    hide NumberText;
    hide ScanNumber;
    var c := StrToUnsigned(s, 10);
    assert s[..|s|] == s && s + "" == s;
    if NumberText(s, 10, k) { NumberIsRead(s, "", 10, k); }
    if c.converted && !c.rangeError { ReadIsNumber(s, 10); }
    if s == "" { EmptyScan(); }
  }

  lemma EmptyScan()
    ensures ScanNumber("", 10) == NoNumber
  {
  }

  // ----- The keys -----

  /** `result`, `forbid`, `require` and the three keys about nodes. */
  lemma KeysMean(lib: Library, analysis: Analysis, status: int, value: string)
    ensures Check(lib, analysis, status, "result", value)
      == Some((value == "clean" && status == 0) || (value == "findings" && status != 0))
    ensures Check(lib, analysis, status, "forbid", value) == Some(!FindingMatches(lib, analysis, value))
    ensures Check(lib, analysis, status, "require", value) == Some(FindingMatches(lib, analysis, value))
    ensures Check(lib, analysis, status, "require_call", value) == Some(CallMatches(lib, analysis, value))
    ensures Check(lib, analysis, status, "forbid_call", value) == Some(!CallMatches(lib, analysis, value))
    ensures Check(lib, analysis, status, "require_resource", value) == Some(ResourceMatches(lib, analysis, value))
  {
    FindingAsked(lib, analysis, value);
    CallAsked(lib, analysis, value);
    ResourceAsked(lib, analysis, value);
    hide HasFinding;
    hide HasCandidate;
    hide FindingMatches;
    hide CallMatches;
    hide ResourceMatches;
    hide EdgeRequest;
    hide StrToUnsigned;
    assert "clean" != "findings" by { assert |"clean"| != |"findings"|; }
  }

  /** `finding_count` and `min_nodes`, whatever their value looks like: anything but a count fails. */
  lemma CountKeysMean(lib: Library, analysis: Analysis, status: int, value: string)
    ensures Check(lib, analysis, status, "finding_count", value) == Some(CountText(value, |analysis.findings|))
    ensures Check(lib, analysis, status, "min_nodes", value)
      == Some(exists k :: CountText(value, k) && |analysis.nodes| >= k)
  {
    hide CountText;
    hide HasFinding;
    hide HasCandidate;
    hide EdgeRequest;
    hide CountEdges;
    CountRead(value, |analysis.findings|);
    CountRead(value, StrToUnsigned(value, 10).value);
    hide StrToUnsigned;
    forall k | CountText(value, k) ensures k == StrToUnsigned(value, 10).value { CountRead(value, k); }
  }

  /** `min_edges`, whatever its value looks like: a name, the last colon and a count, in fewer than 64 bytes. */
  lemma MinEdgesAsks(value: string, name: string, k: int)
    ensures EdgeRequest("min_edges", value) == Some((name, k)) <==>
      |value| < 64 && exists count :: value == name + (":" + count) && ':' !in count && CountText(count, k)
  {
    hide CountText;
    hide StrToUnsigned;
    var colon := LastIndexOf(value, ':');
    hide LastIndexOf;
    if colon < |value| {
      var count := value[colon + 1..];
      assert value == value[..colon] + (":" + count) && ':' !in count;
      CountRead(count, k);
    }
    forall count | value == name + (":" + count) && ':' !in count && CountText(count, k)
      ensures colon == |name| && value[..colon] == name && value[colon + 1..] == count {
      assert value == name + ":" + count;
      LastColon(name, count);
    }
  }

  /** No other key is understood. */
  lemma OtherKeys(lib: Library, analysis: Analysis, status: int, key: string, value: string)
    requires key != "result" && key != "finding_count" && key != "min_nodes" && key != "forbid" && key != "require"
    requires key != "require_edge" && key != "min_edges" && key != "require_call" && key != "forbid_call"
    requires key != "require_resource"
    ensures Check(lib, analysis, status, key, value) == None
  {
  }

  // ----- A file with one expectation -----

  /** What checking a file with a single expectation exits with. */
  lemma OneExpectation(lib: Library, analysis: Analysis, status: int, key: string, value: string)
    requires key != "" && key[0] != '#' && '=' !in key && Inline(key) && Inline(value) && |key| + |value| < 8190
    ensures FileExit(lib, analysis, status, "p101-expectations-v1\n" + (key + "=" + value + "\n")) ==
      match Check(lib, analysis, status, key, value)
      case None => 2
      case Some(true) => 0
      case Some(false) => if |"expectation not satisfied: "| + |key| + 1 + |value| >= 8192 then 2 else 1
  {
    hide Check;
    var line := key + "=" + value + "\n";
    assert IsLine(line) && '\0' !in line by { PlainLine(key, value); }
    JudgeOf(lib, analysis, status, key, value);
    hide Judge;
    FileOfLines(lib, analysis, status, [line]);
    OneLineText(line);
    OneLineBody(lib, analysis, status, line);
    hide BodyExit;
    hide FileExit;
  }

  lemma OneLineText(line: string)
    ensures Flatten([EXPECTATIONS_HEADER] + [line]) == "p101-expectations-v1\n" + line
  {
    assert [EXPECTATIONS_HEADER] + [line] == [EXPECTATIONS_HEADER, line];
    var two := [EXPECTATIONS_HEADER, line];
    assert two[1..] == [line] && [line][1..] == [];
    assert Flatten([line]) == line + Flatten([line][1..]) == line;
    assert Flatten(two) == two[0] + Flatten(two[1..]);
  }

  lemma PlainLine(key: string, value: string)
    requires Inline(key) && Inline(value) && |key| + |value| < 8190
    ensures IsLine(key + "=" + value + "\n") && '\0' !in key + "=" + value + "\n"
  {
    var line := key + "=" + value + "\n";
    assert forall i :: 0 <= i < |line| - 1 ==>
      line[i] == if i < |key| then key[i] else if i == |key| then '=' else value[i - |key| - 1];
  }

  lemma OneLineBody(lib: Library, analysis: Analysis, status: int, line: string)
    ensures BodyExit(lib, analysis, status, [line]) ==
      match Judge(lib, analysis, status, line)
      case Broken => 2
      case Fails => 1
      case Holds => 0
      case Skipped => 0
  {
    hide Judge;
    assert [line][0] == line;
  }

  /** `model verify` is trouble for an unsound directory, for one whose receipt records trouble, when the inputs do not load
      and when the file of expectations does not open; without such a file it otherwise succeeds. */
  lemma VerifyMeans(lib: Library, dir: Snapshot)
    ensures !Sound(lib, dir) || Load(lib, dir).None? ==> VerifyExit(lib, dir, None) == 2
    ensures Sound(lib, dir) && lib.readReceipt(dir.Read("analysis-receipt.json").value).value.outcome == Trouble
      ==> VerifyExit(lib, dir, None) == 2 && forall text :: VerifyExit(lib, dir, Some(text)) == 2
    ensures Sound(lib, dir) && Load(lib, dir).Some?
      && lib.readReceipt(dir.Read("analysis-receipt.json").value).value.outcome != Trouble
      ==> VerifyExit(lib, dir, None) == 0
    ensures VerifyExit(lib, dir, Some(None)) == 2
  {
    hide FileExit;
    hide Load;
  }

  // ----- The packs -----

  lemma PackMeans(lib: Library, analysis: Analysis, pack: RulePacks.Pack)
    requires pack in RulePacks.Packs()
    ensures RulePacks.CheckExit(lib, Some(analysis), ["--rules", pack.name]) ==
      if exists i :: 0 <= i < |pack.rules| && FindingMatches(lib, analysis, pack.rules[i].pattern) then 1 else 0
  {
    hide RulePacks.Packs;
    hide HasFinding;
    RulePacks.CheckOne(lib, Some(analysis), pack);
    RulePacks.PassesIff(lib, analysis, pack);
    hide RulePacks.CheckExit;
    hide RulePacks.PackPasses;
    forall i | 0 <= i < |pack.rules|
      ensures HasFinding(lib, analysis, pack.rules[i].pattern) <==> FindingMatches(lib, analysis, pack.rules[i].pattern) {
      FindingAsked(lib, analysis, pack.rules[i].pattern);
    }
    hide FindingMatches;
  }

  /** What each built-in pack forbids, by the patterns of its diagnostics. */
  lemma PacksMean(lib: Library, analysis: Analysis)
    ensures var sync, fd := FindingMatches(lib, analysis, "P101-SYNC-*"), FindingMatches(lib, analysis, "P101-FD-*");
      var alloc, resource := FindingMatches(lib, analysis, "P101-ALLOC-*"), FindingMatches(lib, analysis, "P101-RESOURCE-*");
      && RulePacks.CheckExit(lib, Some(analysis), ["--rules", "concurrency"]) == (if sync then 1 else 0)
      && RulePacks.CheckExit(lib, Some(analysis), ["--rules", "resource-clean"]) == (if fd || alloc || resource then 1 else 0)
      && RulePacks.CheckExit(lib, Some(analysis), ["--rules", "secure-c"]) == (if sync || fd || alloc || resource then 1 else 0)
  {
    hide FindingMatches;
    var one, three, four := RulePacks.Concurrency(), RulePacks.ResourceClean(), RulePacks.SecureC();
    PackMeans(lib, analysis, one);
    PackMeans(lib, analysis, three);
    PackMeans(lib, analysis, four);
    hide RulePacks.CheckExit;
    Patterns();
    hide RulePacks.Concurrency;
    hide RulePacks.ResourceClean;
    hide RulePacks.SecureC;
  }

  lemma Patterns()
    ensures RulePacks.Concurrency().name == "concurrency" && |RulePacks.Concurrency().rules| == 1
    ensures RulePacks.Concurrency().rules[0].pattern == "P101-SYNC-*"
    ensures RulePacks.ResourceClean().name == "resource-clean" && |RulePacks.ResourceClean().rules| == 3
    ensures RulePacks.ResourceClean().rules[0].pattern == "P101-FD-*"
    ensures RulePacks.ResourceClean().rules[1].pattern == "P101-ALLOC-*"
    ensures RulePacks.ResourceClean().rules[2].pattern == "P101-RESOURCE-*"
    ensures RulePacks.SecureC().name == "secure-c" && |RulePacks.SecureC().rules| == 4
    ensures RulePacks.SecureC().rules[0].pattern == "P101-FD-*" && RulePacks.SecureC().rules[1].pattern == "P101-ALLOC-*"
    ensures RulePacks.SecureC().rules[2].pattern == "P101-RESOURCE-*" && RulePacks.SecureC().rules[3].pattern == "P101-SYNC-*"
  {
  }

  /** What a rule of any kind looks at, and when it is violated. */
  lemma RulesMean(lib: Library, analysis: Analysis, identifier: string, pattern: string, title: string)
    ensures RulePacks.Violated(lib, analysis, RulePacks.Rule(identifier, "forbid-finding", pattern, title))
      <==> FindingMatches(lib, analysis, pattern)
    ensures RulePacks.Violated(lib, analysis, RulePacks.Rule(identifier, "require-finding", pattern, title))
      <==> !FindingMatches(lib, analysis, pattern)
    ensures RulePacks.Violated(lib, analysis, RulePacks.Rule(identifier, "forbid-call", pattern, title))
      <==> CallMatches(lib, analysis, pattern)
    ensures RulePacks.Violated(lib, analysis, RulePacks.Rule(identifier, "require-call", pattern, title))
      <==> !CallMatches(lib, analysis, pattern)
    ensures RulePacks.Violated(lib, analysis, RulePacks.Rule(identifier, "require-edge", pattern, title))
      <==> forall i :: 0 <= i < |analysis.edges| ==> !lib.matches(pattern, EdgeName(analysis.edges[i]))
    ensures RulePacks.Violated(lib, analysis, RulePacks.Rule(identifier, "require-resource", pattern, title))
      <==> !ResourceMatches(lib, analysis, pattern)
  {
    FindingAsked(lib, analysis, pattern);
    CallAsked(lib, analysis, pattern);
    ResourceAsked(lib, analysis, pattern);
    hide HasFinding;
    hide HasCandidate;
    hide FindingMatches;
    hide CallMatches;
    hide ResourceMatches;
    assert "forbid-finding"[..7] == "forbid-" && "forbid-call"[..7] == "forbid-";
    assert "require-finding"[0] == 'r' && "require-call"[0] == 'r' && "require-edge"[0] == 'r' && "require-resource"[0] == 'r';
  }
}
