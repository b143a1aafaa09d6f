/** Writing the finding index, comparing files byte by byte, and comparing two finished analyses. */
module ModelCompare {
  import opened Wrappers
  import opened CText
  import opened Files
  import opened Artifacts
  import opened Library
  import opened Evidence
  import opened AnalysisManifest
  import opened AnalysisChain
  import opened FindingIndex

  /** A sort that keeps `qsort`'s promise; callers rely on nothing else. */
  method QSort(findings: array<Finding>)
    modifies findings
    ensures Sorted(findings[..]) && multiset(findings[..]) == multiset(old(findings[..]))
  {
    hide Sort;
    hide FindingCompare;
    var sorted := Sort(findings[..]);
    SortSorted(findings[..]);
    assert |multiset(sorted)| == |multiset(findings[..])|;
    var index := 0;
    while index < findings.Length
      invariant index <= findings.Length
      invariant findings[..index] == sorted[..index]
    {
      findings[index] := sorted[index];
      index := index + 1;
    }
    assert findings[..] == sorted;
  }

  /** `write_finding_index` */
  method WriteFindingIndex(analysis: Analysis, dir: Directory) returns (ok: bool)
    modifies dir
    ensures dir.files - {INDEX} == old(dir.files) - {INDEX}
    ensures dir.faulty <==> old(dir.faulty) || !ok
    ensures ok ==> dir.Now().Joins(INDEX) && dir.files == old(dir.files)[INDEX := CanonicalIndex(analysis.findings)]
  {
    hide CanonicalIndex;
    hide IndexText;
    hide Row;
    hide Keys;
    hide Sorted;
    var count := |analysis.findings|;
    var findings := new Finding[count](i requires 0 <= i < count => analysis.findings[i]);
    assert findings[..] == analysis.findings;
    QSort(findings);
    ghost var sorted := findings[..];
    IndexIsCanonical(analysis.findings, analysis.findings, sorted);
    assert |multiset(sorted)| == count;
    ok := WriteRows(findings, dir, sorted);
  }

  /** The header and one row per finding, in the order of the array. */
  method WriteRows(findings: array<Finding>, dir: Directory, ghost sorted: seq<Finding>) returns (ok: bool)
    requires findings[..] == sorted
    modifies dir
    ensures dir.files - {INDEX} == old(dir.files) - {INDEX}
    ensures dir.faulty <==> old(dir.faulty) || !ok
    ensures ok ==> dir.Now().Joins(INDEX) && dir.files == old(dir.files)[INDEX := IndexText(sorted)]
  {
    hide IndexText;
    hide Row;
    var stream := dir.Create(INDEX);
    if stream == null { return false; }
    ok := stream.Put(INDEX_HEADER);
    StartIndex(sorted);
    var index := 0;
    while index < findings.Length && ok
      invariant index <= findings.Length && stream.dir == dir && stream.name == INDEX && fresh(stream)
      invariant OnlyChanged(old(dir.files), dir.files, INDEX)
      invariant dir.faulty <==> old(dir.faulty) || !ok
      invariant ok ==> stream.text == IndexText(sorted[..index])
    {
      IndexStep(sorted, index);
      assert findings[index] == sorted[index];
      ok := stream.Put(Row(KeyOf(findings[index])));
      index := index + 1;
    }
    assert sorted[..|sorted|] == sorted;
    var closed := stream.Close();
    ok := ok && closed;
  }

  lemma StartIndex(sorted: seq<Finding>)
    ensures "" + INDEX_HEADER == IndexText(sorted[..0])
  {
    assert [INDEX_HEADER] + Rows(Keys(sorted[..0])) == [INDEX_HEADER];
    FlattenOne(INDEX_HEADER);
    assert "" + INDEX_HEADER == INDEX_HEADER;
  }

  lemma IndexStep(sorted: seq<Finding>, i: nat)
    requires i < |sorted|
    ensures IndexText(sorted[..i + 1]) == IndexText(sorted[..i]) + Row(KeyOf(sorted[i]))
  {
    hide Row;
    var row := Row(KeyOf(sorted[i]));
    var lines := [INDEX_HEADER] + Rows(Keys(sorted[..i]));
    assert [INDEX_HEADER] + Rows(Keys(sorted[..i + 1])) == lines + [row];
    FlattenAppend(lines, [row]);
    FlattenOne(row);
  }

  /** `compare_file_pair`: byte by byte until a difference or both ends. */
  method CompareFilePair(before: Directory, after: Directory, name: string) returns (ok: bool, different: bool)
    ensures ok <==> before.Now().Read(name).Some? && after.Now().Read(name).Some?
    ensures ok ==> (different <==> before.Now().Read(name) != after.Now().Read(name))
  {
    ok, different := before.Now().Read(name).Some? && after.Now().Read(name).Some?, false;
    if !ok { return; }
    ghost var a, b := before.Now().Read(name).value, after.Now().Read(name).value;
    var left := new Reader(before.Now().Read(name).value);
    var right := new Reader(after.Now().Read(name).value);
    ghost var k := 0;
    var c := 0;
    while c != -1
      invariant before.Now().Read(name) == Some(a) && after.Now().Read(name) == Some(b)
      invariant k <= |a| && k <= |b| && a[..k] == b[..k]
      invariant left != right && left.rest == a[k..] && right.rest == b[k..]
      invariant c == -1 ==> k == |a| == |b|
      decreases |left.rest| + (if c == -1 then 0 else 1)
    {
      c := left.Fgetc();
      var d := right.Fgetc();
      if c != d {
        assert a != b by {
          assert k < |a| && k < |b| ==> a[k] != b[k];
        }
        different := true;
        break;
      }
      if c != -1 {
        assert a[k] == b[k];
        k := k + 1;
      }
    }
    assert !different ==> a[..k] == a && b[..k] == b;
  }

  /** Two sound analyses agree: same model file and same finding index. */
  ghost predicate Agree(before: Snapshot, after: Snapshot) {
    before.Read(MODEL) == after.Read(MODEL) && before.Read(INDEX) == after.Read(INDEX)
  }

  /** The exit status of a comparison. */
  ghost function CompareExit(lib: Library, before: Snapshot, after: Snapshot): (r: int) {
    if !Sound(lib, before) || !Sound(lib, after) then 2 else if Agree(before, after) then 0 else 1
  }

  /** `model_compare` */
  method CompareModels(lib: Library, before: Directory, after: Directory) returns (exit: int)
    ensures exit == CompareExit(lib, before.Now(), after.Now())
  {
    hide Sound;
    hide RecordedStatus;
    var ok, status := AnalysisResult(lib, before);
    if !ok { return 2; }
    ok, status := AnalysisResult(lib, after);
    if !ok { return 2; }
    SoundIsReadable(lib, before.Now());
    SoundIsReadable(lib, after.Now());
    var different;
    ok, different := CompareFilePair(before, after, MODEL);
    if ok && !different {
      ok, different := CompareFilePair(before, after, INDEX);
    }
    exit := if !ok then 2 else if different then 1 else 0;
  }

  /** Every file a sound analysis binds can be read. */
  lemma SoundIsReadable(lib: Library, dir: Snapshot)
    requires Sound(lib, dir)
    ensures forall i :: 0 <= i < |NAMES| ==> dir.Read(NAMES[i]).Some?
    ensures dir.Read(MODEL).Some? && dir.Read(INDEX).Some?
  {
    hide Lines;
    hide BodyAccepted;
    hide SchemaPresent;
    AcceptedIsReadable(lib, dir, Lines(dir.Read(MANIFEST).value));
    assert NAMES[11] == MODEL && NAMES[13] == INDEX;
  }

  lemma AcceptedIsReadable(lib: Library, dir: Snapshot, lines: seq<string>)
    requires BodyAccepted(lib, dir, lines)
    ensures forall i :: 0 <= i < |NAMES| ==> dir.Read(NAMES[i]).Some?
  {
    forall i | 0 <= i < |NAMES| ensures dir.Read(NAMES[i]).Some? {
      assert Table()[i] == Artifact(NAMES[i], NAMES[i], false);
      hide Table;
      hide Claims;
      hide AllParse;
      hide Wanted;
      WantedMember(lib, dir, Table(), ClaimFor(lib, dir, Table()[i]));
      ClaimsHaveMarks(lines[1..], ClaimFor(lib, dir, Table()[i]));
    }
  }

  lemma {:induction false} ClaimsHaveMarks(lines: seq<string>, c: Claim)
    requires AllParse(lines) && c in Claims(lines)
    ensures c.mark.Some?
  {
    hide ParseLine;
    if lines != [] && c != ClaimOf(ParseLine(lines[0]).value) {
      ClaimsHaveMarks(lines[1..], c);
    }
  }
}
