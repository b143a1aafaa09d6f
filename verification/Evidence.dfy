/** Checking artifact lines against a table of required artifacts, and what acceptance amounts to. */
module Evidence {
  import opened Wrappers
  import opened CText
  import opened Files
  import opened Artifacts
  import opened Library
  import opened Sequences

  /** `struct artifact` */
  datatype Artifact = Artifact(role: string, name: string, observed: bool)

  function FilePrint(lib: Library, dir: Snapshot, name: string): (r: Option<Fingerprint>) {
    match dir.Read(name)
    case None => None
    case Some(bytes) => lib.fingerprint(bytes)
  }

  /** Changes to other files leave a file's fingerprint as it was. */
  lemma SamePrint(lib: Library, a: Snapshot, b: Snapshot, names: set<string>, name: string)
    requires a.path == b.path && a.files - names == b.files - names && name !in names
    ensures FilePrint(lib, a, name) == FilePrint(lib, b, name)
  {
    ReadOutside(a, b, names, name);
  }

  /** The first entry with the role, or the length of the table. */
  function FindRole(table: seq<Artifact>, role: string): (i: nat)
    ensures i <= |table| && (i < |table| ==> table[i].role == role)
    ensures forall k :: 0 <= k < i ==> table[k].role != role
  {
    if table == [] || table[0].role == role then 0 else
      var i := 1 + FindRole(table[1..], role);
      assert forall k :: 0 < k < i ==> table[k] == table[1..][k - 1];
      i
  }

  /** The table after one line, or none if the line is refused. */
  function Observe(lib: Library, dir: Snapshot, table: seq<Artifact>, line: string): (r: Option<seq<Artifact>>)
    ensures r.Some? ==> |r.value| == |table|
  {
    match ParseLine(line)
    case None => None
    case Some(entry) =>
      var i := FindRole(table, entry.role);
      if i == |table| || table[i].observed || FilePrint(lib, dir, table[i].name) != Some(entry.mark) then None
      else Some(table[i := table[i].(observed := true)])
  }

  /** `verify_artifact`: parse, look the role up, compare the file, set the flag in place. */
  method VerifyArtifact(lib: Library, dir: Directory, line: string, artifacts: array<Artifact>) returns (ok: bool)
    modifies artifacts
    ensures ok == Observe(lib, dir.Now(), old(artifacts[..]), line).Some?
    ensures ok ==> Observe(lib, dir.Now(), old(artifacts[..]), line) == Some(artifacts[..])
    ensures !ok ==> artifacts[..] == old(artifacts[..])
  {
    hide ParseLine;
    var parsed, entry := ParseArtifactLine(line);
    if !parsed { return false; }
    var index := 0;
    while index < artifacts.Length && artifacts[index].role != entry.role
      invariant index <= artifacts.Length
      invariant forall k :: 0 <= k < index ==> artifacts[..][k].role != entry.role
    {
      index := index + 1;
    }
    assert index == FindRole(artifacts[..], entry.role) by {
      assert index < artifacts.Length ==> artifacts[..][index].role == entry.role;
    }
    if index == artifacts.Length || artifacts[index].observed { return false; }
    if FilePrint(lib, dir.Now(), artifacts[index].name) != Some(entry.mark) { return false; }
    artifacts[index] := artifacts[index].(observed := true);
    ok := true;
  }

  /** The closing loop of both verifiers: every artifact must have been observed. */
  method CheckObserved(artifacts: array<Artifact>) returns (ok: bool)
    ensures ok == AllObserved(artifacts[..])
  {
    ok := true;
    var index := 0;
    while index < artifacts.Length
      invariant index <= artifacts.Length
      invariant ok == forall k :: 0 <= k < index ==> artifacts[..][k].observed
    {
      assert artifacts[..][index] == artifacts[index];
      if !artifacts[index].observed { ok := false; }
      index := index + 1;
    }
  }

  // ----- What acceptance of a whole body of lines means -----

  /** One file per role, and the fingerprint it has or should have; none if it cannot be fingerprinted. */
  datatype Claim = Claim(role: string, mark: Option<Fingerprint>)

  predicate DistinctRoles(table: seq<Artifact>) {
    forall i, j :: 0 <= i < j < |table| ==> table[i].role != table[j].role
  }

  predicate AllObserved(table: seq<Artifact>) {
    forall i :: 0 <= i < |table| ==> table[i].observed
  }

  predicate AllParse(lines: seq<string>) {
    forall i :: 0 <= i < |lines| ==> ParseLine(lines[i]).Some?
  }

  function ClaimOf(entry: Entry): (r: Claim) {
    Claim(entry.role, Some(entry.mark))
  }

  /** What the lines claim. */
  ghost function Claims(lines: seq<string>): (r: multiset<Claim>)
    requires AllParse(lines)
  {
    if lines == [] then multiset{}
    else multiset{ClaimOf(ParseLine(lines[0]).value)} + Claims(lines[1..])
  }

  function ClaimFor(lib: Library, dir: Snapshot, artifact: Artifact): (r: Claim) {
    Claim(artifact.role, FilePrint(lib, dir, artifact.name))
  }

  /** What the directory shows for the artifacts not observed yet. */
  ghost function Wanted(lib: Library, dir: Snapshot, table: seq<Artifact>): (r: multiset<Claim>) {
    if table == [] then multiset{}
    else
      (if table[0].observed then multiset{} else multiset{ClaimFor(lib, dir, table[0])})
      + Wanted(lib, dir, table[1..])
  }

  lemma WantedFirst(lib: Library, dir: Snapshot, role: string, name: string, rest: seq<Artifact>)
    ensures Wanted(lib, dir, [Artifact(role, name, false)] + rest)
      == multiset{Claim(role, FilePrint(lib, dir, name))} + Wanted(lib, dir, rest)
  {
    hide FilePrint;
    assert ([Artifact(role, name, false)] + rest)[1..] == rest;
  }

  function ObserveAll(lib: Library, dir: Snapshot, table: seq<Artifact>, lines: seq<string>): (r: Option<seq<Artifact>>)
    decreases |lines|
  {
    if lines == [] then Some(table)
    else
      match Observe(lib, dir, table, lines[0])
      case None => None
      case Some(next) => ObserveAll(lib, dir, next, lines[1..])
  }

  lemma {:induction false} WantedMember(lib: Library, dir: Snapshot, table: seq<Artifact>, c: Claim)
    ensures c in Wanted(lib, dir, table) <==>
      exists i :: 0 <= i < |table| && !table[i].observed && ClaimFor(lib, dir, table[i]) == c
  {
    if table != [] {
      WantedMember(lib, dir, table[1..], c);
      assert forall i :: 0 < i < |table| ==> table[i] == table[1..][i - 1];
    }
  }

  lemma {:induction false} WantedAfter(lib: Library, dir: Snapshot, table: seq<Artifact>, i: nat)
    requires i < |table| && !table[i].observed
    ensures Wanted(lib, dir, table) ==
      Wanted(lib, dir, table[i := table[i].(observed := true)]) + multiset{ClaimFor(lib, dir, table[i])}
  {
    hide FilePrint;
    var next := table[i := table[i].(observed := true)];
    if i == 0 {
      assert next[1..] == table[1..];
    } else {
      WantedAfter(lib, dir, table[1..], i - 1);
      assert next[1..] == table[1..][i - 1 := table[i].(observed := true)];
    }
  }

  lemma {:induction false} WantedEmpty(lib: Library, dir: Snapshot, table: seq<Artifact>)
    ensures Wanted(lib, dir, table) == multiset{} <==> AllObserved(table)
  {
    if table != [] {
      WantedEmpty(lib, dir, table[1..]);
      assert forall i :: 0 < i < |table| ==> table[i] == table[1..][i - 1];
    }
  }

  /** A line is accepted exactly when it claims something still wanted. */
  lemma ObserveIff(lib: Library, dir: Snapshot, table: seq<Artifact>, line: string)
    requires DistinctRoles(table)
    ensures Observe(lib, dir, table, line).Some? <==>
      ParseLine(line).Some? && ClaimOf(ParseLine(line).value) in Wanted(lib, dir, table)
    ensures Observe(lib, dir, table, line).Some? ==>
      DistinctRoles(Observe(lib, dir, table, line).value)
      && Wanted(lib, dir, table) == Wanted(lib, dir, Observe(lib, dir, table, line).value)
                                    + multiset{ClaimOf(ParseLine(line).value)}
  {
    hide ParseLine;
    hide FilePrint;
    if ParseLine(line).Some? {
      var entry := ParseLine(line).value;
      WantedMember(lib, dir, table, ClaimOf(entry));
      var i := FindRole(table, entry.role);
      if Observe(lib, dir, table, line).Some? {
        WantedAfter(lib, dir, table, i);
      }
    }
  }

  /** The table fills up exactly when the lines are a permutation of what the directory shows. */
  lemma {:induction false} AcceptedIffPermutation(lib: Library, dir: Snapshot, table: seq<Artifact>, lines: seq<string>)
    requires DistinctRoles(table)
    ensures (ObserveAll(lib, dir, table, lines).Some? && AllObserved(ObserveAll(lib, dir, table, lines).value))
      <==> AllParse(lines) && Claims(lines) == Wanted(lib, dir, table)
    decreases |lines|
  {
    hide Observe;
    hide ParseLine;
    if lines == [] {
      WantedEmpty(lib, dir, table);
    } else {
      ObserveIff(lib, dir, table, lines[0]);
      AllParseTail(lines);
      if Observe(lib, dir, table, lines[0]).Some? {
        var next := Observe(lib, dir, table, lines[0]).value;
        AcceptedIffPermutation(lib, dir, next, lines[1..]);
        if AllParse(lines) {
          Cancel(Claims(lines[1..]), Wanted(lib, dir, next), multiset{ClaimOf(ParseLine(lines[0]).value)});
        }
      }
    }
  }

  lemma AllParseTail(lines: seq<string>)
    requires lines != []
    ensures AllParse(lines) <==> ParseLine(lines[0]).Some? && AllParse(lines[1..])
  {
    hide ParseLine;
    assert forall i :: 0 < i < |lines| ==> lines[i] == lines[1..][i - 1];
    assert forall i :: 0 <= i < |lines[1..]| ==> lines[1..][i] == lines[i + 1];
  }

  // ----- Consequences for bodies of lines -----

  lemma {:induction false} ClaimsCount(lines: seq<string>)
    requires AllParse(lines)
    ensures |Claims(lines)| == |lines|
  {
    hide ParseLine;
    if lines != [] { ClaimsCount(lines[1..]); }
  }

  lemma {:induction false} WantedCount(lib: Library, dir: Snapshot, table: seq<Artifact>)
    requires forall i :: 0 <= i < |table| ==> !table[i].observed
    ensures |Wanted(lib, dir, table)| == |table|
  {
    if table != [] { WantedCount(lib, dir, table[1..]); }
  }

  lemma {:induction false} ClaimsAppend(a: seq<string>, b: seq<string>)
    requires AllParse(a) && AllParse(b)
    ensures AllParse(a + b) && Claims(a + b) == Claims(a) + Claims(b)
  {
    hide ParseLine;
    if a == [] {
      assert a + b == b;
    } else {
      assert (a + b)[0] == a[0] && (a + b)[1..] == a[1..] + b;
      ClaimsAppend(a[1..], b);
      AllParseTail(a + b);
      hide AllParse;
      assert Claims(a + b) == multiset{ClaimOf(ParseLine(a[0]).value)} + Claims(a[1..] + b);
    }
  }

  lemma ClaimsOne(line: string)
    requires ParseLine(line).Some?
    ensures AllParse([line]) && Claims([line]) == multiset{ClaimOf(ParseLine(line).value)}
  {
    hide ParseLine;
    assert [line][1..] == [];
  }

  /** What a body of lines claims does not depend on their order. */
  lemma {:induction false} ClaimsPermutation(a: seq<string>, b: seq<string>)
    requires AllParse(a) && multiset(a) == multiset(b)
    ensures AllParse(b) && Claims(a) == Claims(b)
    decreases |a|
  {
    hide ParseLine;
    hide Claims;
    AllParsePermutation(a, b);
    SameLength(a, b);
    if a != [] {
      var left, right := LocateFirst(a, b);
      assert a == [a[0]] + a[1..];
      AllParseAround(left, a[0], right);
      ClaimsPermutation(a[1..], left + right);
      ClaimsOne(a[0]);
      ClaimsAppend([a[0]], a[1..]);
      ClaimsAppend(left, right);
      ClaimsAppend(left, [a[0]]);
      ClaimsAppend(left + [a[0]], right);
    }
  }

  lemma AllParseAround(left: seq<string>, line: string, right: seq<string>)
    requires AllParse(left + [line] + right)
    ensures AllParse(left) && AllParse([line]) && AllParse(right)
  {
    hide ParseLine;
    var lines := left + [line] + right;
    assert forall k :: 0 <= k < |left| ==> left[k] == lines[k];
    assert line == lines[|left|];
    assert forall k :: 0 <= k < |right| ==> right[k] == lines[|left| + 1 + k];
  }

  lemma AllParsePermutation(a: seq<string>, b: seq<string>)
    requires AllParse(a) && multiset(a) == multiset(b)
    ensures AllParse(b)
  {
    hide ParseLine;
    forall i | 0 <= i < |b| ensures ParseLine(b[i]).Some? {
      assert b[i] in multiset(a);
    }
  }

  // ----- Writing the lines -----

  predicate AllPrinted(lib: Library, dir: Snapshot, table: seq<Artifact>) {
    forall i :: 0 <= i < |table| ==> FilePrint(lib, dir, table[i].name).Some?
  }

  predicate WritableRoles(table: seq<Artifact>) {
    forall i :: 0 <= i < |table| ==> ValidRole(table[i].role) && Inline(table[i].role) && !table[i].observed
  }

  function RecordLine(lib: Library, dir: Snapshot, artifact: Artifact): (text: string)
    requires FilePrint(lib, dir, artifact.name).Some?
  {
    Line(Entry(artifact.role, FilePrint(lib, dir, artifact.name).value))
  }

  /** One artifact line per file, in table order. */
  function RecordLines(lib: Library, dir: Snapshot, table: seq<Artifact>): (r: seq<string>)
    requires AllPrinted(lib, dir, table)
    ensures |r| == |table|
  {
    seq(|table|, i requires 0 <= i < |table| => RecordLine(lib, dir, table[i]))
  }

  /** The lines written for a table claim exactly what the directory shows. */
  lemma {:induction false} RecordsClaim(lib: Library, dir: Snapshot, table: seq<Artifact>)
    requires AllPrinted(lib, dir, table) && WritableRoles(table)
    ensures AllParse(RecordLines(lib, dir, table))
    ensures Claims(RecordLines(lib, dir, table)) == Wanted(lib, dir, table)
  {
    hide ParseLine;
    hide FilePrint;
    hide Line;
    if table != [] {
      var rest := table[1..];
      var lines := RecordLines(lib, dir, table);
      LineRoundTrip(Entry(table[0].role, FilePrint(lib, dir, table[0].name).value));
      RecordsClaim(lib, dir, rest);
      assert lines[1..] == RecordLines(lib, dir, rest);
      AllParseTail(lines);
    }
  }

  lemma RecordLinesAreLines(lib: Library, dir: Snapshot, table: seq<Artifact>)
    requires AllPrinted(lib, dir, table) && WritableRoles(table)
    ensures forall line :: line in RecordLines(lib, dir, table) ==> IsLine(line) && '\0' !in line
  {
    hide FilePrint;
    hide Line;
    forall line | line in RecordLines(lib, dir, table) ensures IsLine(line) && '\0' !in line {
      var i :| 0 <= i < |table| && line == RecordLine(lib, dir, table[i]);
      LineIsLine(Entry(table[i].role, FilePrint(lib, dir, table[i].name).value));
    }
  }

  lemma RecordLinesStep(lib: Library, dir: Snapshot, table: seq<Artifact>, i: nat)
    requires i < |table| && AllPrinted(lib, dir, table[..i + 1])
    ensures AllPrinted(lib, dir, table[..i])
    ensures RecordLines(lib, dir, table[..i + 1]) == RecordLines(lib, dir, table[..i]) + [RecordLine(lib, dir, table[i])]
  {
    hide FilePrint;
    assert forall k :: 0 <= k < i ==> table[..i][k] == table[..i + 1][k];
    assert table[..i + 1][i] == table[i];
  }

  /** Two directories show the same for a table exactly when every file has the same fingerprint. */
  lemma {:induction false} WantedSame(lib: Library, a: Snapshot, b: Snapshot, table: seq<Artifact>)
    requires DistinctRoles(table)
    requires forall i :: 0 <= i < |table| ==> !table[i].observed
    ensures Wanted(lib, a, table) == Wanted(lib, b, table) <==>
      forall i :: 0 <= i < |table| ==> FilePrint(lib, a, table[i].name) == FilePrint(lib, b, table[i].name)
  {
    hide FilePrint;
    if forall i :: 0 <= i < |table| ==> FilePrint(lib, a, table[i].name) == FilePrint(lib, b, table[i].name) {
      WantedFrame(lib, a, b, table);
    } else {
      var i :| 0 <= i < |table| && FilePrint(lib, a, table[i].name) != FilePrint(lib, b, table[i].name);
      var c := ClaimFor(lib, a, table[i]);
      WantedMember(lib, a, table, c);
      WantedMember(lib, b, table, c);
    }
  }

  lemma {:induction false} WantedFrame(lib: Library, a: Snapshot, b: Snapshot, table: seq<Artifact>)
    requires forall i :: 0 <= i < |table| ==> FilePrint(lib, a, table[i].name) == FilePrint(lib, b, table[i].name)
    ensures Wanted(lib, a, table) == Wanted(lib, b, table)
  {
    hide FilePrint;
    if table != [] {
      assert forall i :: 0 <= i < |table[1..]| ==> table[1..][i] == table[i + 1];
      WantedFrame(lib, a, b, table[1..]);
    }
  }
}
