/** Checking a loaded analysis against the built-in rule packs. */
module RulePacks {
  import opened Wrappers
  import opened CText
  import opened Files
  import opened Library
  import opened Expectations

  datatype Rule = Rule(identifier: string, kind: string, pattern: string, title: string)

  datatype Pack = Pack(name: string, rules: seq<Rule>)

  // ----- The catalogue -----

  function Concurrency(): (r: Pack) {
    Pack("concurrency", [
      Rule("P101-POLICY-SYNC-001", "forbid-finding", "P101-SYNC-*", "Synchronization behavior is not clean")])
  }

  function ResourceClean(): (r: Pack) {
    Pack("resource-clean", [
      Rule("P101-POLICY-RESOURCE-001", "forbid-finding", "P101-FD-*", "Descriptor ownership is not clean"),
      Rule("P101-POLICY-RESOURCE-002", "forbid-finding", "P101-ALLOC-*", "Allocation ownership is not clean"),
      Rule("P101-POLICY-RESOURCE-003", "forbid-finding", "P101-RESOURCE-*", "Generic resource ownership is not clean")])
  }

  function SecureC(): (r: Pack) {
    Pack("secure-c", [
      Rule("P101-POLICY-SECURE-001", "forbid-finding", "P101-FD-*", "Descriptor misuse can cross a trust boundary"),
      Rule("P101-POLICY-SECURE-002", "forbid-finding", "P101-ALLOC-*", "Allocation misuse can corrupt memory"),
      Rule("P101-POLICY-SECURE-003", "forbid-finding", "P101-RESOURCE-*", "Resource ownership is ambiguous"),
      Rule("P101-POLICY-SECURE-004", "forbid-finding", "P101-SYNC-*", "Observed synchronization is unsafe")])
  }

  function Packs(): (r: seq<Pack>) {
    [Concurrency(), ResourceClean(), SecureC()]
  }

  /** `find_rule_pack` */
  function FindPack(name: string): (pack: Option<Pack>)
    ensures pack.Some? <==> name == "concurrency" || name == "resource-clean" || name == "secure-c"
    ensures pack.Some? ==> pack.value in Packs() && pack.value.name == name
  {
    if Concurrency().name == name then Some(Concurrency())
    else if ResourceClean().name == name then Some(ResourceClean())
    else if SecureC().name == name then Some(SecureC())
    else None
  }

  // ----- Evidence -----

  predicate HasEdge(lib: Library, analysis: Analysis, pattern: string) {
    exists i :: 0 <= i < |analysis.edges| && lib.matches(pattern, EdgeName(analysis.edges[i]))
  }

  /** Whether the analysis shows what a rule is about; a kind the checker does not know is never shown. */
  predicate Evidence(lib: Library, analysis: Analysis, rule: Rule) {
    if rule.kind == "forbid-finding" || rule.kind == "require-finding" then HasFinding(lib, analysis, rule.pattern)
    else if rule.kind == "forbid-call" || rule.kind == "require-call" then HasCandidate(lib, analysis, false, rule.pattern)
    else if rule.kind == "require-edge" then HasEdge(lib, analysis, rule.pattern)
    else if rule.kind == "require-resource" then HasCandidate(lib, analysis, true, rule.pattern)
    else false
  }

  /** `rule_has_evidence` */
  method RuleHasEvidence(lib: Library, analysis: Analysis, rule: Rule) returns (present: bool)
    ensures present == Evidence(lib, analysis, rule)
  {
    hide HasFinding;
    hide HasCandidate;
    present := false;
    if rule.kind == "forbid-finding" || rule.kind == "require-finding" {
      present := AnalysisHasFinding(lib, analysis, rule.pattern);
    } else if rule.kind == "forbid-call" || rule.kind == "require-call" {
      present := NodePresent(lib, analysis, false, rule.pattern);
    } else if rule.kind == "require-edge" {
      present := EdgePresent(lib, analysis, rule.pattern);
    } else if rule.kind == "require-resource" {
      present := NodePresent(lib, analysis, true, rule.pattern);
    }
  }

  method EdgePresent(lib: Library, analysis: Analysis, pattern: string) returns (present: bool)
    ensures present == HasEdge(lib, analysis, pattern)
  {
    present := false;
    var index := 0;
    while index < |analysis.edges|
      invariant index <= |analysis.edges|
      invariant forall i :: 0 <= i < index ==> !lib.matches(pattern, EdgeName(analysis.edges[i]))
    {
      if lib.matches(pattern, EdgeName(analysis.edges[index])) { return true; }
      index := index + 1;
    }
  }

  predicate Forbids(rule: Rule) {
    "forbid-" <= rule.kind
  }

  predicate Violated(lib: Library, analysis: Analysis, rule: Rule) {
    if Forbids(rule) then Evidence(lib, analysis, rule) else !Evidence(lib, analysis, rule)
  }

  ghost predicate PackPasses(lib: Library, analysis: Analysis, pack: Pack) {
    forall i :: 0 <= i < |pack.rules| ==> !Violated(lib, analysis, pack.rules[i])
  }

  /** The diagnostic for a violated rule must fit its buffer. */
  predicate Reportable(rule: Rule) {
    |rule.title| + |"; forbidden pattern: "| + |rule.pattern| < LINE_SIZE
  }

  lemma CatalogueReportable(pack: Pack, i: nat)
    requires pack in Packs() && i < |pack.rules|
    ensures Reportable(pack.rules[i]) && pack.rules[i].kind == "forbid-finding"
  {
  }

  // ----- The whole check -----

  /** The packs named by `--rules NAME` pairs; none if the arguments are anything else or name an unknown pack. */
  function Selected(arguments: seq<string>): (r: Option<seq<Pack>>)
    ensures r.Some? ==> forall pack :: pack in r.value ==> pack in Packs()
  {
    if arguments == [] then Some([])
    else if |arguments| == 1 || arguments[0] != "--rules" then None
    else
      match FindPack(arguments[1])
      case None => None
      case Some(pack) =>
        match Selected(arguments[2..])
        case None => None
        case Some(rest) => Some([pack] + rest)
  }

  ghost predicate AllPass(lib: Library, analysis: Analysis, packs: seq<Pack>) {
    forall i :: 0 <= i < |packs| ==> PackPasses(lib, analysis, packs[i])
  }

  ghost function CheckExit(lib: Library, loaded: Option<Analysis>, arguments: seq<string>): (r: int) {
    if loaded.None? || Selected(arguments).None? then 2
    else if AllPass(lib, loaded.value, Selected(arguments).value) then 0 else 1
  }

  /** The rules of one pack: how many more violations there are. */
  method CheckPack(lib: Library, analysis: Analysis, pack: Pack) returns (ok: bool, violations: nat)
    requires pack in Packs()
    ensures ok && (violations == 0 <==> PackPasses(lib, analysis, pack))
  {
    hide Violated;
    hide Packs;
    ok, violations := true, 0;
    var index := 0;
    while index < |pack.rules|
      invariant index <= |pack.rules| && ok
      invariant violations == 0 <==> forall i :: 0 <= i < index ==> !Violated(lib, analysis, pack.rules[i])
    {
      var rule := pack.rules[index];
      var evidence := RuleHasEvidence(lib, analysis, rule);
      var violated := if "forbid-" <= rule.kind then evidence else !evidence;
      assert violated == Violated(lib, analysis, rule) by { ViolatedMeans(lib, analysis, rule); }
      if violated {
        CatalogueReportable(pack, index);
        if |rule.title| + |"; forbidden pattern: "| + |rule.pattern| >= LINE_SIZE {
          assert false;
          return false, violations;
        }
        violations := violations + 1;
      }
      index := index + 1;
    }
  }

  lemma ViolatedMeans(lib: Library, analysis: Analysis, rule: Rule)
    ensures Violated(lib, analysis, rule) ==
      if "forbid-" <= rule.kind then Evidence(lib, analysis, rule) else !Evidence(lib, analysis, rule)
  {
    hide Evidence;
  }

  /** `model_check` on the arguments after the directory. */
  method ModelCheck(lib: Library, dir: Directory, arguments: seq<string>) returns (exit: int)
    ensures exit == CheckExit(lib, Load(lib, dir.Now()), arguments)
  {
    hide Load;
    hide PackPasses;
    hide Packs;
    hide FindPack;
    var loaded := Load(lib, dir.Now());
    if loaded.None? { return 2; }
    ghost var done: seq<Pack> := [];
    assert arguments[0..] == arguments;
    PrefixedNothing(Selected(arguments));
    var violations, index := 0, 0;
    while index < |arguments|
      invariant index <= |arguments|
      invariant Selected(arguments) == Prefixed(done, Selected(arguments[index..]))
      invariant violations == 0 <==> AllPass(lib, loaded.value, done)
    {
      ghost var rest := arguments[index..];
      assert rest[0] == arguments[index] && (index + 1 < |arguments| ==> rest[1] == arguments[index + 1]);
      if index + 1 >= |arguments| || arguments[index] != "--rules" { return 2; }
      var pack := FindPack(arguments[index + 1]);
      if pack.None? { return 2; }
      assert rest[2..] == arguments[index + 2..];
      PackKnown(arguments[index + 1]);
      var ok, more := CheckPack(lib, loaded.value, pack.value);
      PrefixedStep(done, pack.value, Selected(arguments[index + 2..]));
      AllPassSnoc(lib, loaded.value, done, pack.value);
      violations, done, index := violations + more, done + [pack.value], index + 2;
    }
    assert arguments[index..] == [];
    assert Selected(arguments) == Some(done) by { assert done + [] == done; }
    exit := if violations == 0 then 0 else 1;
  }

  ghost function Prefixed(done: seq<Pack>, rest: Option<seq<Pack>>): (r: Option<seq<Pack>>) {
    match rest
    case None => None
    case Some(packs) => Some(done + packs)
  }

  lemma PrefixedNothing(rest: Option<seq<Pack>>)
    ensures Prefixed([], rest) == rest
  {
    if rest.Some? { assert [] + rest.value == rest.value; }
  }

  lemma PrefixedStep(done: seq<Pack>, pack: Pack, rest: Option<seq<Pack>>)
    ensures Prefixed(done, Prefixed([pack], rest)) == Prefixed(done + [pack], rest)
  {
    if rest.Some? { assert done + ([pack] + rest.value) == done + [pack] + rest.value; }
  }

  lemma AllPassSnoc(lib: Library, analysis: Analysis, done: seq<Pack>, pack: Pack)
    ensures AllPass(lib, analysis, done + [pack]) <==> AllPass(lib, analysis, done) && PackPasses(lib, analysis, pack)
  {
    hide PackPasses;
    var all := done + [pack];
    assert all[|done|] == pack;
    assert forall i :: 0 <= i < |done| ==> all[i] == done[i];
  }

  lemma PackKnown(name: string)
    requires FindPack(name).Some?
    ensures FindPack(name).value in Packs()
  {
    hide Packs;
  }

  // ----- How packs compose -----

  /** The arguments that select packs by name. */
  function RuleArguments(names: seq<string>): (r: seq<string>) {
    if names == [] then [] else ["--rules", names[0]] + RuleArguments(names[1..])
  }

  /** Checking a list of known packs succeeds exactly when checking each of them alone does. */
  lemma {:induction false} CheckComposes(lib: Library, loaded: Option<Analysis>, names: seq<string>)
    requires forall name :: name in names ==> FindPack(name).Some?
    requires loaded.Some?
    ensures CheckExit(lib, loaded, RuleArguments(names)) == 0 <==>
      forall i :: 0 <= i < |names| ==> CheckExit(lib, loaded, RuleArguments([names[i]])) == 0
    ensures CheckExit(lib, loaded, RuleArguments(names)) != 2
  {
    hide FindPack;
    hide PackPasses;
    hide Packs;
    SelectedByName(names);
    forall i | 0 <= i < |names|
      ensures CheckExit(lib, loaded, RuleArguments([names[i]])) == 0 <==> PackPasses(lib, loaded.value, FindPack(names[i]).value)
    {
      SelectedByName([names[i]]);
      assert PacksNamed([names[i]])[0] == FindPack(names[i]).value;
    }
    assert forall i :: 0 <= i < |names| ==> PacksNamed(names)[i] == FindPack(names[i]).value;
  }

  ghost function PacksNamed(names: seq<string>): (r: seq<Pack>)
    requires forall name :: name in names ==> FindPack(name).Some?
    ensures |r| == |names| && forall i :: 0 <= i < |names| ==> r[i] == FindPack(names[i]).value
  {
    seq(|names|, i requires 0 <= i < |names| => FindPack(names[i]).value)
  }

  lemma {:induction false} SelectedByName(names: seq<string>)
    requires forall name :: name in names ==> FindPack(name).Some?
    ensures Selected(RuleArguments(names)) == Some(PacksNamed(names))
  {
    hide FindPack;
    hide Packs;
    if names != [] {
      var arguments := RuleArguments(names);
      assert arguments[2..] == RuleArguments(names[1..]);
      SelectedByName(names[1..]);
      assert PacksNamed(names) == [FindPack(names[0]).value] + PacksNamed(names[1..]);
    }
  }

  /** A built-in pack passes exactly when no finding matches any of its patterns. */
  lemma PassesIff(lib: Library, analysis: Analysis, pack: Pack)
    requires pack in Packs()
    ensures PackPasses(lib, analysis, pack) <==>
      forall i :: 0 <= i < |pack.rules| ==> !HasFinding(lib, analysis, pack.rules[i].pattern)
  {
    forall i | 0 <= i < |pack.rules|
      ensures Violated(lib, analysis, pack.rules[i]) == HasFinding(lib, analysis, pack.rules[i].pattern)
    {
      CatalogueReportable(pack, i);
      hide HasFinding;
    }
    hide Violated;
    hide HasFinding;
    hide Packs;
  }

  /** `secure-c` succeeds exactly when `resource-clean` and `concurrency` both do. */
  lemma SecureIsBoth(lib: Library, loaded: Option<Analysis>)
    requires loaded.Some?
    ensures CheckExit(lib, loaded, ["--rules", "secure-c"]) == 0 <==>
      CheckExit(lib, loaded, ["--rules", "resource-clean"]) == 0 && CheckExit(lib, loaded, ["--rules", "concurrency"]) == 0
  {
    SamePatterns();
    hide HasFinding;
    hide CheckExit;
    hide PackPasses;
    hide Concurrency;
    hide ResourceClean;
    hide SecureC;
    CheckOne(lib, loaded, SecureC());
    CheckOne(lib, loaded, ResourceClean());
    CheckOne(lib, loaded, Concurrency());
    PassesIff(lib, loaded.value, SecureC());
    PassesIff(lib, loaded.value, ResourceClean());
    PassesIff(lib, loaded.value, Concurrency());
  }

  lemma SamePatterns()
    ensures SecureC().name == "secure-c" && ResourceClean().name == "resource-clean" && Concurrency().name == "concurrency"
    ensures |SecureC().rules| == 4 && |ResourceClean().rules| == 3 && |Concurrency().rules| == 1
    ensures SecureC().rules[0].pattern == ResourceClean().rules[0].pattern
    ensures SecureC().rules[1].pattern == ResourceClean().rules[1].pattern
    ensures SecureC().rules[2].pattern == ResourceClean().rules[2].pattern
    ensures SecureC().rules[3].pattern == Concurrency().rules[0].pattern
  {
  }

  lemma CheckOne(lib: Library, loaded: Option<Analysis>, pack: Pack)
    requires loaded.Some? && pack in Packs()
    ensures CheckExit(lib, loaded, ["--rules", pack.name]) == if PackPasses(lib, loaded.value, pack) then 0 else 1
  {
    assert FindPack(pack.name) == Some(pack);
    hide PackPasses;
    hide Packs;
    hide FindPack;
    var arguments := ["--rules", pack.name];
    assert arguments[2..] == [];
    assert Selected(arguments) == Some([pack] + []);
    assert ([pack] + [])[0] == pack;
  }

  /** More findings never turn a failing built-in pack into a passing one. */
  lemma FindingsOnlyHurt(lib: Library, fewer: Analysis, more: Analysis, pack: Pack)
    requires pack in Packs()
    requires forall f :: f in fewer.findings ==> f in more.findings
    requires PackPasses(lib, more, pack)
    ensures PackPasses(lib, fewer, pack)
  {
    PassesIff(lib, fewer, pack);
    PassesIff(lib, more, pack);
    forall i | 0 <= i < |pack.rules| ensures !HasFinding(lib, fewer, pack.rules[i].pattern) {
      FewerFindings(lib, fewer, more, pack.rules[i].pattern);
    }
  }

  lemma FewerFindings(lib: Library, fewer: Analysis, more: Analysis, pattern: string)
    requires forall f :: f in fewer.findings ==> f in more.findings
    ensures HasFinding(lib, fewer, pattern) ==> HasFinding(lib, more, pattern)
  {
    if HasFinding(lib, fewer, pattern) {
      var i :| 0 <= i < |fewer.findings| && lib.matches(pattern, fewer.findings[i].diagnosticId);
      assert fewer.findings[i] in more.findings;
    }
  }

  // ----- Agreement with an expectations file -----

  /** One `forbid=` line per pattern of a pack. */
  function ForbidLines(pack: Pack): (lines: seq<string>)
    ensures |lines| == |pack.rules|
  {
    seq(|pack.rules|, i requires 0 <= i < |pack.rules| => "forbid" + "=" + pack.rules[i].pattern + "\n")
  }

  lemma PatternsPrintable(pack: Pack, i: nat)
    requires pack in Packs() && i < |pack.rules|
    ensures Printable(pack.rules[i].pattern) && |pack.rules[i].pattern| < 20
  {
  }

  lemma ForbidLineVerdict(lib: Library, analysis: Analysis, status: int, pattern: string)
    requires Printable(pattern) && |pattern| < 20
    ensures IsLine("forbid" + "=" + pattern + "\n") && '\0' !in "forbid" + "=" + pattern + "\n"
    ensures Judge(lib, analysis, status, "forbid" + "=" + pattern + "\n")
      == if HasFinding(lib, analysis, pattern) then Fails else Holds
  {
    PrintableIsPlain(pattern);
    ForbidLineIsLine(pattern);
    JudgeOf(lib, analysis, status, "forbid", pattern);
    assert Check(lib, analysis, status, "forbid", pattern) == Some(!HasFinding(lib, analysis, pattern)) by {
      hide HasFinding;
    }
    hide Check;
    hide Judge;
    hide HasFinding;
  }

  lemma ForbidLineIsLine(pattern: string)
    requires Inline(pattern) && |pattern| < 20
    ensures IsLine("forbid" + "=" + pattern + "\n") && '\0' !in "forbid" + "=" + pattern + "\n"
  {
    var line := "forbid" + "=" + pattern + "\n";
    assert forall i :: 0 <= i < |line| - 1 ==> line[i] == if i < 6 then "forbid"[i] else if i == 6 then '=' else pattern[i - 7];
  }

  lemma ForbidVerdicts(lib: Library, analysis: Analysis, status: int, pack: Pack)
    requires pack in Packs()
    ensures forall line :: line in ForbidLines(pack) ==> IsLine(line) && '\0' !in line
    ensures forall i :: 0 <= i < |ForbidLines(pack)| ==>
      Judge(lib, analysis, status, ForbidLines(pack)[i])
        == if HasFinding(lib, analysis, pack.rules[i].pattern) then Fails else Holds
  {
    hide Judge;
    hide HasFinding;
    hide IsLine;
    var lines := ForbidLines(pack);
    forall i | 0 <= i < |lines|
      ensures IsLine(lines[i]) && '\0' !in lines[i]
      ensures Judge(lib, analysis, status, lines[i]) == if HasFinding(lib, analysis, pack.rules[i].pattern) then Fails else Holds
    {
      PatternsPrintable(pack, i);
      hide Packs;
      ForbidLineVerdict(lib, analysis, status, pack.rules[i].pattern);
    }
  }

  /** Once the analysis loads, an expectations file with one `forbid=` line per pattern of a built-in pack exits as
      checking that pack does. */
  lemma PackIsForbidFile(lib: Library, analysis: Analysis, status: int, pack: Pack)
    requires pack in Packs()
    ensures FileExit(lib, analysis, status, Flatten([EXPECTATIONS_HEADER] + ForbidLines(pack)))
      == CheckExit(lib, Some(analysis), ["--rules", pack.name])
  {
    hide Judge;
    hide HasFinding;
    hide Packs;
    hide ForbidLines;
    hide CheckExit;
    hide FileExit;
    hide PackPasses;
    hide IsLine;
    ForbidVerdicts(lib, analysis, status, pack);
    FileOfLines(lib, analysis, status, ForbidLines(pack));
    CheckOne(lib, Some(analysis), pack);
    PassesIff(lib, analysis, pack);
  }
}
