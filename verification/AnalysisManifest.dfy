/** The manifest that binds the files of a finished analysis. */
module AnalysisManifest {
  import opened Wrappers
  import opened CText
  import opened Files
  import opened Artifacts
  import opened Library
  import opened Evidence

  const MANIFEST := "analysis-manifest.txt"
  const HEADER := "p101-analysis-manifest-v1\n"
  const NAMES: seq<string> := [
    "resource-report.txt",
    "resource-report.json",
    "concurrency-report.txt",
    "concurrency-report.json",
    "trace-tree.txt",
    "trace-summary.txt",
    "sanitizer-report.txt",
    "sanitizer-report.json",
    "correlated-report.txt",
    "correlated-report.json",
    "resource-lifetimes.md",
    "run-model.json",
    "summary.md",
    "finding-index.tsv",
    "input-resources.log",
    "input-calls.log",
    "input-stderr.txt"]

  /** The required artifacts, each playing the role of its own name, none observed yet. */
  function Table(): (t: seq<Artifact>)
    ensures |t| == |NAMES|
  {
    seq(|NAMES|, i requires 0 <= i < |NAMES| => Artifact(NAMES[i], NAMES[i], false))
  }

  lemma NamesDistinct()
    ensures forall i, j :: 0 <= i < j < |NAMES| ==> NAMES[i] != NAMES[j]
  {
    forall i, j | 0 <= i < j < |NAMES| ensures NAMES[i] != NAMES[j] {
      if i < 6 {
        FirstNamesDistinct();
      } else if i < 12 {
        MiddleNamesDistinct();
      } else {
        LastNamesDistinct();
      }
    }
  }

  lemma FirstNamesDistinct()
    ensures forall i, j :: 0 <= i < 6 && i < j < |NAMES| ==> NAMES[i] != NAMES[j]
  {
    forall i, j | 0 <= i < 6 && i < j < |NAMES| ensures NAMES[i] != NAMES[j] {
      if |NAMES[i]| == |NAMES[j]| {
        assert NAMES[i][1] != NAMES[j][1] || NAMES[i][3] != NAMES[j][3];
      }
    }
  }

  lemma MiddleNamesDistinct()
    ensures forall i, j :: 6 <= i < 12 && i < j < |NAMES| ==> NAMES[i] != NAMES[j]
  {
    forall i, j | 6 <= i < 12 && i < j < |NAMES| ensures NAMES[i] != NAMES[j] {
      if |NAMES[i]| == |NAMES[j]| {
        assert NAMES[i][1] != NAMES[j][1];
      }
    }
  }

  lemma LastNamesDistinct()
    ensures forall i, j :: 12 <= i < 17 && i < j < |NAMES| ==> NAMES[i] != NAMES[j]
  {
    assert forall i, j :: 12 <= i < 17 && i < j < |NAMES| ==> |NAMES[i]| != |NAMES[j]|;
  }

  lemma NamesPrintable()
    ensures forall i :: 0 <= i < |NAMES| ==> 0 < |NAMES[i]| < ROLE_SIZE && Printable(NAMES[i]) && NAMES[i] != MANIFEST
  {
    assert forall i :: 0 <= i < 6 ==> 0 < |NAMES[i]| < ROLE_SIZE && Printable(NAMES[i]) by { FirstNames(); }
    assert forall i :: 6 <= i < 12 ==> 0 < |NAMES[i]| < ROLE_SIZE && Printable(NAMES[i]) by { MiddleNames(); }
    assert forall i :: 12 <= i < 17 ==> 0 < |NAMES[i]| < ROLE_SIZE && Printable(NAMES[i]) by { LastNames(); }
    hide Printable;
    assert forall i :: 0 <= i < |NAMES| ==> NAMES[i][0] != MANIFEST[0];
  }

  lemma FirstNames()
    ensures forall i :: 0 <= i < 6 ==> 0 < |NAMES[i]| < ROLE_SIZE && Printable(NAMES[i])
  {
  }

  lemma MiddleNames()
    ensures forall i :: 6 <= i < 12 ==> 0 < |NAMES[i]| < ROLE_SIZE && Printable(NAMES[i])
  {
  }

  lemma LastNames()
    ensures forall i :: 12 <= i < 17 ==> 0 < |NAMES[i]| < ROLE_SIZE && Printable(NAMES[i])
  {
  }

  lemma TableReady()
    ensures DistinctRoles(Table()) && WritableRoles(Table())
  {
    NamesDistinct();
    NamesPrintable();
    forall i | 0 <= i < |NAMES| ensures ValidRole(NAMES[i]) && Inline(NAMES[i]) {
      PrintableIsPlain(NAMES[i]);
    }
    hide ValidRole;
    hide Inline;
  }

  // ----- Acceptance -----

  /** The header, then a permutation of the required names, each with its file's present fingerprint. */
  ghost predicate BodyAccepted(lib: Library, dir: Snapshot, lines: seq<string>) {
    && lines != []
    && lines[0] == HEADER
    && AllParse(lines[1..])
    && Claims(lines[1..]) == Wanted(lib, dir, Table())
  }

  ghost predicate ManifestAccepted(lib: Library, dir: Snapshot) {
    && dir.Read(MANIFEST).Some?
    && BodyAccepted(lib, dir, Lines(dir.Read(MANIFEST).value))
  }

  /** The reading loop of `verify_analysis_manifest`: stop at the first refused line. */
  method ObserveLines(lib: Library, dir: Directory, stream: Reader, artifacts: array<Artifact>) returns (ok: bool)
    modifies stream, artifacts
    ensures ok == ObserveAll(lib, dir.Now(), old(artifacts[..]), Lines(old(stream.rest))).Some?
    ensures ok ==> ObserveAll(lib, dir.Now(), old(artifacts[..]), Lines(old(stream.rest))) == Some(artifacts[..])
  {
    hide Lines;
    hide Observe;
    NoLines();
    ok := true;
    var line := stream.Fgets();
    ghost var lines, now := Lines(old(stream.rest)), dir.Now();
    ghost var pending := if line.Some? then [line.value] + Lines(stream.rest) else [];
    while ok && line.Some?
      invariant dir.Now() == now
      invariant ok ==> pending == if line.Some? then [line.value] + Lines(stream.rest) else []
      invariant ok ==> ObserveAll(lib, now, old(artifacts[..]), lines) == ObserveAll(lib, now, artifacts[..], pending)
      invariant !ok ==> ObserveAll(lib, now, old(artifacts[..]), lines) == None
      decreases |stream.rest| + (if line.Some? then 1 else 0)
    {
      ok := VerifyArtifact(lib, dir, line.value, artifacts);
      line := None;
      assert pending[1..] == Lines(stream.rest);
      if ok {
        line := stream.Fgets();
        pending := pending[1..];
      }
    }
  }

  /** `verify_analysis_manifest` */
  method VerifyAnalysisManifest(lib: Library, dir: Directory) returns (ok: bool)
    ensures ok <==> ManifestAccepted(lib, dir.Now())
  {
    hide Lines;
    hide ObserveAll;
    hide AllParse;
    hide Wanted;
    hide Claims;
    var artifacts := new Artifact[|NAMES|](i requires 0 <= i < |NAMES| => Artifact(NAMES[i], NAMES[i], false));
    assert artifacts[..] == Table();
    if dir.Now().Read(MANIFEST).None? { return false; }
    var stream := new Reader(dir.Now().Read(MANIFEST).value);
    ghost var lines := Lines(stream.rest);
    NoLines();
    var line := stream.Fgets();
    ok := line.Some? && line.value == HEADER;
    if ok {
      assert lines[0] == line.value && lines[1..] == Lines(stream.rest);
      TableReady();
      AcceptedIffPermutation(lib, dir.Now(), Table(), lines[1..]);
      ok := ObserveLines(lib, dir, stream, artifacts);
    }
    if ok {
      ok := CheckObserved(artifacts);
    }
  }

  // ----- Writing -----

  /** The manifest of a directory: the header and one line per required file. */
  function ManifestText(lib: Library, dir: Snapshot): (text: string)
    requires AllPrinted(lib, dir, Table())
  {
    Flatten([HEADER] + RecordLines(lib, dir, Table()))
  }

  /** `write_analysis_manifest` */
  method WriteAnalysisManifest(lib: Library, dir: Directory) returns (ok: bool)
    modifies dir
    ensures dir.files - {MANIFEST} == old(dir.files) - {MANIFEST}
    ensures old(dir.faulty) ==> dir.faulty
    ensures !ok ==> dir.faulty || !AllPrinted(lib, old(dir.Now()), Table())
    ensures ok ==> AllPrinted(lib, old(dir.Now()), Table())
    ensures ok ==> dir.files == old(dir.files)[MANIFEST := ManifestText(lib, old(dir.Now()))]
    ensures ok ==> dir.Now().Joins(MANIFEST)
  {
    hide FilePrint;
    hide Line;
    hide Printable;
    FlattenOne(HEADER);
    hide Flatten;
    hide RecordLines;
    hide AllPrinted;
    NothingRecorded(lib, dir.Now());
    ghost var before := dir.Now();
    var stream := dir.Create(MANIFEST);
    if stream == null { return false; }
    ok := stream.Put(HEADER);
    assert "" + HEADER == HEADER;
    var index := 0;
    while index < |NAMES| && ok
      invariant index <= |NAMES| && stream.dir == dir && stream.name == MANIFEST && fresh(stream)
      invariant OnlyChanged(before.files, dir.files, MANIFEST)
      invariant old(dir.faulty) ==> dir.faulty
      invariant !ok ==> dir.faulty || !AllPrinted(lib, before, Table())
      invariant ok ==> AllPrinted(lib, before, Table()[..index])
      invariant ok ==> stream.text == Flatten([HEADER] + RecordLines(lib, before, Table()[..index]))
    {
      ok := PutRecord(lib, stream, before, index);
      index := index + 1;
    }
    assert Table()[..|NAMES|] == Table();
    var closed := stream.Close();
    ok := ok && closed;
  }

  /** The line of the next file of the manifest. */
  method PutRecord(lib: Library, stream: Output, ghost before: Snapshot, index: nat) returns (ok: bool)
    requires index < |NAMES| && stream.name == MANIFEST && stream.dir.path == before.path
    requires OnlyChanged(before.files, stream.dir.files, MANIFEST) && AllPrinted(lib, before, Table()[..index])
    requires stream.text == Flatten([HEADER] + RecordLines(lib, before, Table()[..index]))
    modifies stream, stream.dir
    ensures OnlyChanged(before.files, stream.dir.files, MANIFEST)
    ensures old(stream.dir.faulty) ==> stream.dir.faulty
    ensures !ok ==> stream.dir.faulty || !AllPrinted(lib, before, Table())
    ensures ok ==> AllPrinted(lib, before, Table()[..index + 1])
    ensures ok ==> stream.text == Flatten([HEADER] + RecordLines(lib, before, Table()[..index + 1]))
  {
    hide FilePrint;
    hide Line;
    hide Printable;
    hide Flatten;
    NamesPrintable();
    SamePrint(lib, before, stream.dir.Now(), {MANIFEST}, NAMES[index]);
    var mark := FilePrint(lib, stream.dir.Now(), NAMES[index]);
    assert Table()[index].name == NAMES[index];
    ok := mark.Some?;
    if ok {
      ManifestStep(lib, before, index);
      ok := stream.Put(Line(Entry(NAMES[index], mark.value)));
    }
  }

  lemma NothingRecorded(lib: Library, dir: Snapshot)
    ensures AllPrinted(lib, dir, Table()[..0]) && [HEADER] + RecordLines(lib, dir, Table()[..0]) == [HEADER]
  {
  }

  lemma FlattenOne(s: string)
    ensures Flatten([s]) == s
  {
    assert [s][1..] == [];
    assert s + "" == s;
  }

  lemma ManifestStep(lib: Library, dir: Snapshot, i: nat)
    requires i < |NAMES| && AllPrinted(lib, dir, Table()[..i]) && FilePrint(lib, dir, NAMES[i]).Some?
    ensures AllPrinted(lib, dir, Table()[..i + 1])
    ensures Flatten([HEADER] + RecordLines(lib, dir, Table()[..i + 1]))
      == Flatten([HEADER] + RecordLines(lib, dir, Table()[..i])) + RecordLine(lib, dir, Table()[i])
  {
    hide FilePrint;
    hide Line;
    var table := Table();
    var upTo := table[..i + 1];
    forall k | 0 <= k < |upTo| ensures FilePrint(lib, dir, upTo[k].name).Some? {
      assert upTo[k] == if k < i then table[..i][k] else table[i];
    }
    RecordLinesStep(lib, dir, table, i);
    var line := RecordLine(lib, dir, table[i]);
    var lines := [HEADER] + RecordLines(lib, dir, table[..i]);
    assert [HEADER] + RecordLines(lib, dir, table[..i + 1]) == lines + [line];
    FlattenAppend(lines, [line]);
    FlattenOne(line);
  }

  // ----- Round trip and consequences -----

  /** The manifest written for a directory is accepted there. */
  lemma ManifestRoundTrip(lib: Library, before: Snapshot, after: Snapshot)
    requires AllPrinted(lib, before, Table())
    requires after.path == before.path && after.files - {MANIFEST} == before.files - {MANIFEST}
    requires after.Read(MANIFEST) == Some(ManifestText(lib, before))
    ensures ManifestAccepted(lib, after)
  {
    hide FilePrint;
    hide Line;
    hide Lines;
    TableReady();
    var records := RecordLines(lib, before, Table());
    RecordLinesAreLines(lib, before, Table());
    LinesOfFile([HEADER] + records);
    assert ([HEADER] + records)[1..] == records;
    RecordsClaim(lib, before, Table());
    TableUnchanged(lib, before, after);
  }

  /** Two directories show the same exactly when each of the required files has the same fingerprint in both. */
  lemma SameFilesIff(lib: Library, a: Snapshot, b: Snapshot)
    ensures Wanted(lib, a, Table()) == Wanted(lib, b, Table()) <==>
      forall i :: 0 <= i < |NAMES| ==> FilePrint(lib, a, NAMES[i]) == FilePrint(lib, b, NAMES[i])
  {
    hide FilePrint;
    TableReady();
    WantedSame(lib, a, b, Table());
    assert forall i :: 0 <= i < |NAMES| ==> Table()[i].name == NAMES[i];
  }

  lemma TableUnchanged(lib: Library, before: Snapshot, after: Snapshot)
    requires after.path == before.path && after.files - {MANIFEST} == before.files - {MANIFEST}
    ensures Wanted(lib, after, Table()) == Wanted(lib, before, Table())
  {
    hide FilePrint;
    NamesPrintable();
    forall i | 0 <= i < |NAMES| ensures FilePrint(lib, after, NAMES[i]) == FilePrint(lib, before, NAMES[i]) {
      SamePrint(lib, before, after, {MANIFEST}, NAMES[i]);
    }
    SameFilesIff(lib, after, before);
  }

  /** An accepted manifest has exactly one line per required file, and any reordering of them is accepted. */
  lemma AcceptedBodies(lib: Library, dir: Snapshot, lines: seq<string>, reordered: seq<string>)
    requires BodyAccepted(lib, dir, lines)
    requires reordered != [] && reordered[0] == HEADER && multiset(reordered[1..]) == multiset(lines[1..])
    ensures |lines| == 1 + |NAMES|
    ensures BodyAccepted(lib, dir, reordered)
  {
    hide FilePrint;
    TableReady();
    ClaimsCount(lines[1..]);
    WantedCount(lib, dir, Table());
    ClaimsPermutation(lines[1..], reordered[1..]);
  }

  /** A repeated line, a missing line or a line for any other role is never accepted. */
  lemma EveryLineCounts(lib: Library, dir: Snapshot, lines: seq<string>, i: nat)
    requires BodyAccepted(lib, dir, lines) && 1 <= i < |lines|
    ensures !BodyAccepted(lib, dir, lines[..i] + lines[i + 1..])
    ensures !BodyAccepted(lib, dir, lines + [lines[i]])
    ensures ParseLine(lines[i]).Some? && ParseLine(lines[i]).value.role in NAMES
  {
    hide FilePrint;
    hide ParseLine;
    CountBodies(lib, dir, lines);
    CountBodies(lib, dir, lines[..i] + lines[i + 1..]);
    CountBodies(lib, dir, lines + [lines[i]]);
    var body := lines[1..];
    assert body == body[..i - 1] + [body[i - 1]] + body[i..] && body[i - 1] == lines[i];
    AllParseAround(body[..i - 1], lines[i], body[i..]);
    var c := ClaimOf(ParseLine(lines[i]).value);
    assert c in Claims(body) by {
      ClaimsOne(lines[i]);
      ClaimsAppend(body[..i - 1], [lines[i]]);
      ClaimsAppend(body[..i - 1] + [lines[i]], body[i..]);
    }
    WantedMember(lib, dir, Table(), c);
  }

  lemma CountBodies(lib: Library, dir: Snapshot, lines: seq<string>)
    ensures BodyAccepted(lib, dir, lines) ==> |lines| == 1 + |NAMES|
  {
    hide FilePrint;
    hide ParseLine;
    if BodyAccepted(lib, dir, lines) {
      ClaimsCount(lines[1..]);
      WantedCount(lib, dir, Table());
    }
  }

  // ----- The same by name -----

  /** What the directory shows for some files, each under its own name. */
  ghost function NamedClaims(lib: Library, dir: Snapshot, names: seq<string>): (r: multiset<Claim>) {
    if names == [] then multiset{} else multiset{Claim(names[0], FilePrint(lib, dir, names[0]))} + NamedClaims(lib, dir, names[1..])
  }

  lemma {:induction false} WantedIsNamed(lib: Library, dir: Snapshot, names: seq<string>)
    ensures Wanted(lib, dir, TableOf(names)) == NamedClaims(lib, dir, names)
  {
    hide FilePrint;
    if names != [] {
      WantedIsNamed(lib, dir, names[1..]);
      WantedFirst(lib, dir, names[0], names[0], TableOf(names[1..]));
      assert TableOf(names) == [Artifact(names[0], names[0], false)] + TableOf(names[1..]);
    }
  }

  function TableOf(names: seq<string>): (r: seq<Artifact>)
    ensures |r| == |names|
  {
    seq(|names|, i requires 0 <= i < |names| => Artifact(names[i], names[i], false))
  }

  /** An accepted manifest: the file and its header by name, and the fingerprints of these 17 files. */
  lemma AcceptedByName(lib: Library, dir: Snapshot)
    ensures ManifestAccepted(lib, dir) <==>
      && dir.Read("analysis-manifest.txt").Some?
      && var lines := Lines(dir.Read("analysis-manifest.txt").value);
      && lines != [] && lines[0] == "p101-analysis-manifest-v1\n" && AllParse(lines[1..])
      && Claims(lines[1..]) == NamedClaims(lib, dir, [
        "resource-report.txt", "resource-report.json", "concurrency-report.txt", "concurrency-report.json",
        "trace-tree.txt", "trace-summary.txt", "sanitizer-report.txt", "sanitizer-report.json",
        "correlated-report.txt", "correlated-report.json", "resource-lifetimes.md", "run-model.json",
        "summary.md", "finding-index.tsv", "input-resources.log", "input-calls.log", "input-stderr.txt"])
  {
    hide Lines;
    hide Claims;
    hide AllParse;
    hide NamedClaims;
    assert Table() == TableOf(NAMES);
    hide Table;
    WantedIsNamed(lib, dir, NAMES);
    hide Wanted;
  }
}
