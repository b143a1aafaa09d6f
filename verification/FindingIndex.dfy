/** The finding index: a canonical text for a multiset of findings. */
module FindingIndex {
  import opened CText
  import opened Library
  import opened Sequences

  const INDEX := "finding-index.tsv"
  const INDEX_HEADER := "p101-finding-index-v1\n"

  // ----- The comparator -----

  /** The sign of `strcmp`. */
  function StrCmp(a: string, b: string): (c: int)
    ensures -1 <= c <= 1
  {
    if a == [] then (if b == [] then 0 else -1)
    else if b == [] then 1
    else if a[0] != b[0] then (if a[0] < b[0] then -1 else 1)
    else StrCmp(a[1..], b[1..])
  }

  /** The six fields that order findings and are printed. */
  datatype Key = Key(
    diagnosticId: string, fileName: string, lineNumber: int, functionName: string,
    evidenceFrom: string, evidenceTo: string)

  function KeyOf(f: Finding): (r: Key) {
    Key(f.diagnosticId, f.fileName, f.lineNumber, f.functionName, f.evidenceFrom, f.evidenceTo)
  }

  function Compare(left: Key, right: Key): (c: int)
    ensures -1 <= c <= 1
  {
    var id := StrCmp(left.diagnosticId, right.diagnosticId);
    if id != 0 then id else
    var file := StrCmp(left.fileName, right.fileName);
    if file != 0 then file else
    if left.lineNumber != right.lineNumber then (if left.lineNumber < right.lineNumber then -1 else 1) else
    var fun := StrCmp(left.functionName, right.functionName);
    if fun != 0 then fun else
    var from := StrCmp(left.evidenceFrom, right.evidenceFrom);
    if from != 0 then from else
    StrCmp(left.evidenceTo, right.evidenceTo)
  }

  /** `finding_pointer_compare` */
  function FindingCompare(left: Finding, right: Finding): (r: int) {
    Compare(KeyOf(left), KeyOf(right))
  }

  lemma {:induction false} StrCmpZero(a: string, b: string)
    ensures StrCmp(a, b) == 0 <==> a == b
    ensures StrCmp(b, a) == -StrCmp(a, b)
  {
    if a != [] && b != [] {
      StrCmpZero(a[1..], b[1..]);
      assert a == [a[0]] + a[1..] && b == [b[0]] + b[1..];
    }
  }

  lemma {:induction false} StrCmpTransitive(a: string, b: string, c: string)
    requires StrCmp(a, b) <= 0 && StrCmp(b, c) <= 0
    ensures StrCmp(a, c) <= 0
    ensures StrCmp(a, c) == 0 ==> StrCmp(a, b) == 0 && StrCmp(b, c) == 0
  {
    if a != [] && b != [] && c != [] && a[0] == b[0] == c[0] {
      StrCmpTransitive(a[1..], b[1..], c[1..]);
    }
  }

  /** The comparator is antisymmetric in sign and zero exactly on equal keys. */
  lemma CompareZero(a: Key, b: Key)
    ensures Compare(a, b) == 0 <==> a == b
    ensures Compare(b, a) == -Compare(a, b)
  {
    hide StrCmp;
    StrCmpZero(a.diagnosticId, b.diagnosticId);
    StrCmpZero(a.fileName, b.fileName);
    StrCmpZero(a.functionName, b.functionName);
    StrCmpZero(a.evidenceFrom, b.evidenceFrom);
    StrCmpZero(a.evidenceTo, b.evidenceTo);
  }

  lemma StrCmpChain(a: string, b: string, c: string)
    ensures StrCmp(a, b) <= 0 && StrCmp(b, c) <= 0 ==>
      StrCmp(a, c) <= 0 && (StrCmp(a, c) == 0 ==> StrCmp(a, b) == 0 && StrCmp(b, c) == 0)
    ensures StrCmp(a, b) == 0 && StrCmp(b, c) == 0 ==> StrCmp(a, c) == 0
  {
    hide StrCmp;
    if StrCmp(a, b) <= 0 && StrCmp(b, c) <= 0 { StrCmpTransitive(a, b, c); }
    StrCmpZero(a, b);
    StrCmpZero(b, c);
    StrCmpZero(a, c);
  }

  /** The comparator is transitive, so it is a total order on keys. */
  lemma CompareTransitive(a: Key, b: Key, c: Key)
    requires Compare(a, b) <= 0 && Compare(b, c) <= 0
    ensures Compare(a, c) <= 0
  {
    hide StrCmp;
    StrCmpChain(a.diagnosticId, b.diagnosticId, c.diagnosticId);
    StrCmpChain(a.fileName, b.fileName, c.fileName);
    StrCmpChain(a.functionName, b.functionName, c.functionName);
    StrCmpChain(a.evidenceFrom, b.evidenceFrom, c.evidenceFrom);
    StrCmpChain(a.evidenceTo, b.evidenceTo, c.evidenceTo);
  }

  // ----- The order, field by field -----

  /** At the first difference the byte is smaller, or the text ends first. */
  ghost predicate Below(a: string, b: string) {
    exists k: nat :: DiffersAt(a, b, k) && (k == |a| || (k < |b| && a[k] < b[k]))
  }

  ghost predicate DiffersAt(a: string, b: string, k: nat) {
    k <= |a| && k <= |b| && a[..k] == b[..k] && (k < |a| || k < |b|) && (k < |a| && k < |b| ==> a[k] != b[k])
  }

  /** The first field in which two findings differ decides. */
  ghost predicate Precedes(a: Finding, b: Finding) {
    if a.diagnosticId != b.diagnosticId then Below(a.diagnosticId, b.diagnosticId)
    else if a.fileName != b.fileName then Below(a.fileName, b.fileName)
    else if a.lineNumber != b.lineNumber then a.lineNumber < b.lineNumber
    else if a.functionName != b.functionName then Below(a.functionName, b.functionName)
    else if a.evidenceFrom != b.evidenceFrom then Below(a.evidenceFrom, b.evidenceFrom)
    else if a.evidenceTo != b.evidenceTo then Below(a.evidenceTo, b.evidenceTo)
    else false
  }

  lemma {:induction false} StrCmpBelow(a: string, b: string)
    ensures StrCmp(a, b) < 0 <==> Below(a, b)
  {
    if a == [] || b == [] || a[0] != b[0] {
      if a != b { assert DiffersAt(a, b, 0); }
      forall k: nat | DiffersAt(a, b, k) ensures k == 0 {
        if k > 0 { SameFirst(a, b, k); }
      }
    } else {
      StrCmpBelow(a[1..], b[1..]);
      BelowTail(a, b);
    }
  }

  lemma SameFirst(a: string, b: string, k: nat)
    requires DiffersAt(a, b, k) && k > 0
    ensures a != [] && b != [] && a[0] == b[0]
  {
    assert a[..k][0] == b[..k][0];
  }

  lemma BelowTail(a: string, b: string)
    requires a != [] && b != [] && a[0] == b[0]
    ensures Below(a, b) <==> Below(a[1..], b[1..])
  {
    if Below(a, b) {
      var k: nat :| DiffersAt(a, b, k) && (k == |a| || (k < |b| && a[k] < b[k]));
      assert k > 0;
      assert a[1..][..k - 1] == a[..k][1..] && b[1..][..k - 1] == b[..k][1..];
      assert DiffersAt(a[1..], b[1..], k - 1);
    }
    if Below(a[1..], b[1..]) {
      var k: nat :| DiffersAt(a[1..], b[1..], k) && (k == |a| - 1 || (k < |b| - 1 && a[1..][k] < b[1..][k]));
      assert a[..k + 1] == [a[0]] + a[1..][..k] && b[..k + 1] == [b[0]] + b[1..][..k];
      assert DiffersAt(a, b, k + 1);
    }
  }

  /** The comparator puts one finding before another exactly when it precedes it. */
  lemma CompareIsOrder(a: Finding, b: Finding)
    ensures FindingCompare(a, b) < 0 <==> Precedes(a, b)
  {
    hide StrCmp;
    hide Below;
    StrCmpZero(a.diagnosticId, b.diagnosticId);
    StrCmpZero(a.fileName, b.fileName);
    StrCmpZero(a.functionName, b.functionName);
    StrCmpZero(a.evidenceFrom, b.evidenceFrom);
    StrCmpZero(a.evidenceTo, b.evidenceTo);
    StrCmpBelow(a.diagnosticId, b.diagnosticId);
    StrCmpBelow(a.fileName, b.fileName);
    StrCmpBelow(a.functionName, b.functionName);
    StrCmpBelow(a.evidenceFrom, b.evidenceFrom);
    StrCmpBelow(a.evidenceTo, b.evidenceTo);
  }

  // ----- Sorting -----

  /** What `qsort` promises with this comparator. */
  ghost predicate Sorted(s: seq<Finding>) {
    forall i, j :: 0 <= i < j < |s| ==> FindingCompare(s[i], s[j]) <= 0
  }

  function Insert(f: Finding, s: seq<Finding>): (r: seq<Finding>)
    ensures multiset(r) == multiset{f} + multiset(s)
  {
    if s == [] then [f]
    else if FindingCompare(f, s[0]) <= 0 then [f] + s
    else
      assert s == [s[0]] + s[1..];
      [s[0]] + Insert(f, s[1..])
  }

  function Sort(s: seq<Finding>): (r: seq<Finding>)
    ensures multiset(r) == multiset(s)
  {
    if s == [] then []
    else
      assert s == [s[0]] + s[1..];
      Insert(s[0], Sort(s[1..]))
  }

  lemma {:induction false} InsertSorted(f: Finding, s: seq<Finding>)
    requires Sorted(s)
    ensures Sorted(Insert(f, s))
  {
    hide FindingCompare;
    if s != [] {
      CompareEither(f, s[0]);
      if FindingCompare(f, s[0]) <= 0 {
        forall j | 0 <= j < |s| ensures FindingCompare(f, s[j]) <= 0 {
          if j > 0 { FindingTransitive(f, s[0], s[j]); }
        }
      } else {
        InsertSorted(f, s[1..]);
        var rest := Insert(f, s[1..]);
        forall j | 0 <= j < |rest| ensures FindingCompare(s[0], rest[j]) <= 0 {
          assert rest[j] in multiset(rest);
          assert rest[j] == f || rest[j] in s[1..];
        }
      }
    }
  }

  lemma CompareEither(a: Finding, b: Finding)
    ensures FindingCompare(a, b) <= 0 || FindingCompare(b, a) <= 0
  {
    hide Compare;
    CompareZero(KeyOf(a), KeyOf(b));
  }

  lemma FindingTransitive(a: Finding, b: Finding, c: Finding)
    requires FindingCompare(a, b) <= 0 && FindingCompare(b, c) <= 0
    ensures FindingCompare(a, c) <= 0
  {
    hide Compare;
    CompareTransitive(KeyOf(a), KeyOf(b), KeyOf(c));
  }

  lemma {:induction false} SortSorted(s: seq<Finding>)
    ensures Sorted(Sort(s))
  {
    hide FindingCompare;
    hide Insert;
    if s != [] {
      SortSorted(s[1..]);
      InsertSorted(s[0], Sort(s[1..]));
    }
  }

  function Keys(s: seq<Finding>): (r: seq<Key>)
    ensures |r| == |s| && forall i :: 0 <= i < |s| ==> r[i] == KeyOf(s[i])
  {
    seq(|s|, i requires 0 <= i < |s| => KeyOf(s[i]))
  }

  /** The first key of a sorted list is below every key of any list with the same keys. */
  lemma FirstIsLeast(s: seq<Finding>, t: seq<Finding>)
    requires Sorted(s) && s != [] && t != [] && multiset(Keys(s)) == multiset(Keys(t))
    ensures Compare(Keys(s)[0], Keys(t)[0]) <= 0
  {
    assert Keys(t)[0] in multiset(Keys(s));
    var i :| 0 <= i < |s| && Keys(s)[i] == Keys(t)[0];
    if i == 0 {
      CompareZero(Keys(s)[0], Keys(t)[0]);
    } else {
      assert FindingCompare(s[0], s[i]) <= 0;
    }
  }

  /** Two sorted lists with the same multiset of keys list the same keys in the same order. */
  lemma {:induction false} SortedKeysUnique(s: seq<Finding>, t: seq<Finding>)
    requires Sorted(s) && Sorted(t) && multiset(Keys(s)) == multiset(Keys(t))
    ensures Keys(s) == Keys(t)
  {
    hide Compare;
    hide KeyOf;
    SameLength(Keys(s), Keys(t));
    if s != [] {
      FirstIsLeast(s, t);
      FirstIsLeast(t, s);
      CompareZero(Keys(s)[0], Keys(t)[0]);
      SameRest(Keys(s), Keys(t));
      assert Keys(s)[1..] == Keys(s[1..]) && Keys(t)[1..] == Keys(t[1..]);
      SortedKeysUnique(s[1..], t[1..]);
      SameByParts(Keys(s), Keys(t));
    }
  }

  lemma SameByParts<T>(a: seq<T>, b: seq<T>)
    requires a != [] && b != [] && a[0] == b[0] && a[1..] == b[1..]
    ensures a == b
  {
    assert a == [a[0]] + a[1..] && b == [b[0]] + b[1..];
  }

  lemma KeysAround(left: seq<Finding>, f: Finding, right: seq<Finding>)
    ensures multiset(Keys(left + [f] + right)) == multiset{KeyOf(f)} + multiset(Keys(left + right))
  {
    hide KeyOf;
    assert Keys(left + [f] + right) == Keys(left) + [KeyOf(f)] + Keys(right);
    assert Keys(left + right) == Keys(left) + Keys(right);
  }

  lemma {:induction false} KeysPermute(s: seq<Finding>, t: seq<Finding>)
    requires multiset(s) == multiset(t)
    ensures multiset(Keys(s)) == multiset(Keys(t))
  {
    hide KeyOf;
    SameLength(s, t);
    if s != [] {
      var left, right := LocateFirst(s, t);
      KeysPermute(s[1..], left + right);
      KeysAround(left, s[0], right);
      KeysAround([], s[0], s[1..]);
      assert [] + [s[0]] + s[1..] == s && [] + s[1..] == s[1..];
    }
  }

  // ----- Printing -----

  function Row(k: Key): (text: string) {
    k.diagnosticId + ("\t" + (k.fileName + ("\t" + (DecimalInt(k.lineNumber) + ("\t" +
      (k.functionName + ("\t" + (k.evidenceFrom + ("\t" + (k.evidenceTo + "\n"))))))))))
  }

  function Rows(keys: seq<Key>): (r: seq<string>)
    ensures |r| == |keys| && forall i :: 0 <= i < |keys| ==> r[i] == Row(keys[i])
  {
    seq(|keys|, i requires 0 <= i < |keys| => Row(keys[i]))
  }

  /** The file written for findings in a given order. */
  function IndexText(findings: seq<Finding>): (text: string) {
    Flatten([INDEX_HEADER] + Rows(Keys(findings)))
  }

  /** The index of a collection of findings. */
  function CanonicalIndex(findings: seq<Finding>): (text: string) {
    IndexText(Sort(findings))
  }

  /** Whatever order the findings come in and whatever correct sort is used, findings with the same six fields
      give the same file. */
  lemma IndexIsCanonical(findings: seq<Finding>, others: seq<Finding>, sorted: seq<Finding>)
    requires multiset(Keys(findings)) == multiset(Keys(others))
    requires Sorted(sorted) && multiset(sorted) == multiset(findings)
    ensures IndexText(sorted) == CanonicalIndex(others)
  {
    hide Row;
    SortSorted(others);
    KeysPermute(sorted, findings);
    KeysPermute(Sort(others), others);
    SortedKeysUnique(sorted, Sort(others));
  }

  /** One row: six fields with tabs between them. */
  function RowText(f: Finding): (text: string) {
    f.diagnosticId + "\t" + f.fileName + "\t" + DecimalInt(f.lineNumber) + "\t" + f.functionName + "\t"
    + f.evidenceFrom + "\t" + f.evidenceTo + "\n"
  }

  lemma RowIsText(f: Finding)
    ensures Row(KeyOf(f)) == RowText(f)
  {
    hide DecimalInt;
  }

  /** The index of a collection: its header, then a row for each finding, in ascending order. */
  lemma IndexAscends(findings: seq<Finding>)
    ensures var rows := Sort(findings);
      && multiset(rows) == multiset(findings)
      && (forall i, j :: 0 <= i < j < |rows| ==> !Precedes(rows[j], rows[i]))
      && CanonicalIndex(findings)
         == "p101-finding-index-v1\n" + Flatten(seq(|rows|, i requires 0 <= i < |rows| => RowText(rows[i])))
  {
    var rows := Sort(findings);
    SortSorted(findings);
    hide Sort;
    forall i, j | 0 <= i < j < |rows| ensures !Precedes(rows[j], rows[i]) {
      CompareIsOrder(rows[j], rows[i]);
      hide Compare;
      CompareZero(KeyOf(rows[i]), KeyOf(rows[j]));
    }
    hide Compare;
    hide FindingCompare;
    hide Precedes;
    HeaderThenRows(rows);
    hide IndexText;
    var texts := seq(|rows|, i requires 0 <= i < |rows| => RowText(rows[i]));
    forall i | 0 <= i < |rows| ensures Rows(Keys(rows))[i] == texts[i] {
      RowIsText(rows[i]);
      hide Row;
      hide RowText;
    }
    assert Rows(Keys(rows)) == texts;
  }

  // ----- Reading the text back -----

  predicate TabFree(k: Key) {
    && '\t' !in k.diagnosticId
    && '\t' !in k.fileName
    && '\t' !in k.functionName
    && '\t' !in k.evidenceFrom
    && '\t' !in k.evidenceTo
  }

  /** Tabs separate the fields, and the newline before an identifier separates the rows. */
  predicate CleanKey(k: Key) {
    TabFree(k) && '\n' !in k.diagnosticId
  }

  predicate CleanKeys(keys: seq<Key>) {
    forall i :: 0 <= i < |keys| ==> CleanKey(keys[i])
  }

  predicate CleanFindings(findings: seq<Finding>) {
    CleanKeys(Keys(findings))
  }

  /** A text splits in only one way at the last separator. */
  lemma LastSplitUnique(a: string, rest: string, b: string, others: string, c: char)
    requires c !in rest && c !in others && a + ([c] + rest) == b + ([c] + others)
    ensures a == b && rest == others
  {
    var s, t := a + ([c] + rest), b + ([c] + others);
    forall i | |a| < i < |s| ensures s[i] != c { assert s[i] == rest[i - |a| - 1]; }
    forall i | |b| < i < |t| ensures t[i] != c { assert t[i] == others[i - |b| - 1]; }
    assert s[|a|] == c && t[|b|] == c;
    assert a == s[..|a|] && rest == s[|a| + 1..];
    assert b == t[..|b|] && others == t[|b| + 1..];
  }

  /** A row and what follows it, field by field. */
  lemma RowThen(k: Key, rest: string)
    ensures Row(k) + rest == k.diagnosticId + ("\t" + (k.fileName + ("\t" + (DecimalInt(k.lineNumber) + ("\t" +
      (k.functionName + ("\t" + (k.evidenceFrom + ("\t" + (k.evidenceTo + ("\n" + rest)))))))))))
  {
    hide DecimalInt;
  }

  /** Tab-free rows that begin the same text share their first five fields; only the end of the sixth is open. */
  lemma SameFront(a: Key, rest: string, b: Key, others: string)
    requires TabFree(a) && TabFree(b) && Row(a) + rest == Row(b) + others
    ensures a.(evidenceTo := "") == b.(evidenceTo := "")
    ensures a.evidenceTo + ("\n" + rest) == b.evidenceTo + ("\n" + others)
  {
    DecimalIntInline(a.lineNumber);
    DecimalIntInline(b.lineNumber);
    hide DecimalInt;
    RowThen(a, rest);
    RowThen(b, others);
    hide Row;
    var a5, b5 := a.evidenceTo + ("\n" + rest), b.evidenceTo + ("\n" + others);
    var a4, b4 := a.evidenceFrom + ("\t" + a5), b.evidenceFrom + ("\t" + b5);
    var a3, b3 := a.functionName + ("\t" + a4), b.functionName + ("\t" + b4);
    var a2, b2 := DecimalInt(a.lineNumber) + ("\t" + a3), DecimalInt(b.lineNumber) + ("\t" + b3);
    var a1, b1 := a.fileName + ("\t" + a2), b.fileName + ("\t" + b2);
    SplitUnique(a.diagnosticId, a1, b.diagnosticId, b1, '\t');
    SplitUnique(a.fileName, a2, b.fileName, b2, '\t');
    SplitUnique(DecimalInt(a.lineNumber), a3, DecimalInt(b.lineNumber), b3, '\t');
    SplitUnique(a.functionName, a4, b.functionName, b4, '\t');
    SplitUnique(a.evidenceFrom, a5, b.evidenceFrom, b5, '\t');
    NumeralInjective(a.lineNumber, b.lineNumber);
  }

  lemma RowInjective(a: Key, b: Key)
    requires TabFree(a) && TabFree(b) && Row(a) == Row(b)
    ensures a == b
  {
    assert Row(a) + "" == Row(a) && Row(b) + "" == Row(b);
    hide Row;
    hide TabFree;
    SameFront(a, "", b, "");
    var s, t := a.evidenceTo + ("\n" + ""), b.evidenceTo + ("\n" + "");
    assert a.evidenceTo == s[..|s| - 1] && b.evidenceTo == t[..|t| - 1];
    assert a == a.(evidenceTo := "").(evidenceTo := a.evidenceTo);
  }

  /** What follows a row: nothing, or an identifier and its tab. */
  ghost predicate Follows(rest: string, id: string, more: string) {
    '\t' !in id && '\n' !in id && (rest == "" || rest == id + ("\t" + more))
  }

  /** The border between two rows is the last newline before the next tab. */
  lemma BorderUnique(a: string, rest: string, id: string, more: string, b: string, others: string, id2: string, more2: string)
    requires '\t' !in a && '\t' !in b && Follows(rest, id, more) && Follows(others, id2, more2)
    requires a + ("\n" + rest) == b + ("\n" + others)
    ensures a == b && rest == others
  {
    if rest == "" || others == "" {
      BorderAtEnd(a, rest, b, others);
    } else {
      assert a + ("\n" + rest) == (a + ("\n" + id)) + ("\t" + more);
      assert b + ("\n" + others) == (b + ("\n" + id2)) + ("\t" + more2);
      SplitUnique(a + ("\n" + id), more, b + ("\n" + id2), more2, '\t');
      LastSplitUnique(a, id, b, id2, '\n');
    }
  }

  lemma BorderAtEnd(a: string, rest: string, b: string, others: string)
    requires '\t' !in a && '\t' !in b && (rest == "" || others == "")
    requires rest == "" || '\t' in rest
    requires others == "" || '\t' in others
    requires a + ("\n" + rest) == b + ("\n" + others)
    ensures a == b && rest == others
  {
    var s, t := a + ("\n" + rest), b + ("\n" + others);
    TabAfter(a, rest);
    TabAfter(b, others);
    assert s[..|s| - 1] == a && t[..|t| - 1] == b;
  }

  lemma TabAfter(a: string, rest: string)
    requires '\t' !in a
    ensures '\t' in a + ("\n" + rest) <==> '\t' in rest
  {
    var s := a + ("\n" + rest);
    assert forall i :: 0 <= i < |rest| ==> s[|a| + 1 + i] == rest[i];
    assert forall i :: 0 <= i < |a| ==> s[i] == a[i];
  }

  lemma FlattenRows(keys: seq<Key>)
    requires keys != []
    ensures Flatten(Rows(keys)) == Row(keys[0]) + Flatten(Rows(keys[1..]))
    ensures Flatten(Rows(keys)) != ""
  {
    assert Rows(keys)[1..] == Rows(keys[1..]);
    assert Row(keys[0])[|Row(keys[0])| - 1] == '\n';
    hide Row;
  }

  /** What follows a row is nothing or begins with the identifier of the next. */
  lemma RowsFollow(keys: seq<Key>) returns (id: string, more: string)
    requires CleanKeys(keys)
    ensures Follows(Flatten(Rows(keys)), id, more)
  {
    id, more := "", "";
    if keys != [] {
      FlattenRows(keys);
      var k, rest := keys[0], Flatten(Rows(keys[1..]));
      RowThen(k, rest);
      hide Row;
      hide Flatten;
      hide DecimalInt;
      id, more := k.diagnosticId, k.fileName + ("\t" + (DecimalInt(k.lineNumber) + ("\t" +
        (k.functionName + ("\t" + (k.evidenceFrom + ("\t" + (k.evidenceTo + ("\n" + rest)))))))));
    }
  }

  /** The rows of a file, read back one by one. */
  lemma {:induction false} RowsInjective(a: seq<Key>, b: seq<Key>)
    requires CleanKeys(a) && CleanKeys(b) && Flatten(Rows(a)) == Flatten(Rows(b))
    ensures a == b
  {
    if a != [] { FlattenRows(a); }
    if b != [] { FlattenRows(b); }
    hide Row;
    hide TabFree;
    if a != [] && b != [] {
      var rest, others := Flatten(Rows(a[1..])), Flatten(Rows(b[1..]));
      SameFront(a[0], rest, b[0], others);
      var id, more := RowsFollow(a[1..]);
      var id2, more2 := RowsFollow(b[1..]);
      assert '\t' !in a[0].evidenceTo && '\t' !in b[0].evidenceTo by { LastFieldTabFree(a[0]); LastFieldTabFree(b[0]); }
      BorderUnique(a[0].evidenceTo, rest, id, more, b[0].evidenceTo, others, id2, more2);
      assert a[0] == a[0].(evidenceTo := "").(evidenceTo := a[0].evidenceTo);
      RowsInjective(a[1..], b[1..]);
      SameByParts(a, b);
    }
  }

  lemma LastFieldTabFree(k: Key)
    requires TabFree(k)
    ensures '\t' !in k.evidenceTo
  {
  }

  lemma HeaderThenRows(s: seq<Finding>)
    ensures IndexText(s) == INDEX_HEADER + Flatten(Rows(Keys(s)))
  {
    hide Row;
    hide KeyOf;
    var rows := Rows(Keys(s));
    assert ([INDEX_HEADER] + rows)[1..] == rows;
  }

  /** Equal files have equal rows. */
  lemma SameRows(s: seq<Finding>, t: seq<Finding>)
    ensures IndexText(s) == IndexText(t) <==> Flatten(Rows(Keys(s))) == Flatten(Rows(Keys(t)))
  {
    HeaderThenRows(s);
    HeaderThenRows(t);
    hide IndexText;
    hide Flatten;
    assert (INDEX_HEADER + Flatten(Rows(Keys(s))))[|INDEX_HEADER|..] == Flatten(Rows(Keys(s)));
    assert (INDEX_HEADER + Flatten(Rows(Keys(t))))[|INDEX_HEADER|..] == Flatten(Rows(Keys(t)));
  }

  /** When no string field holds a tab and no identifier a newline, comparing two index files tells apart exactly
      the collections that differ in some finding's six fields. Newlines in the other fields do no harm. */
  lemma IndexDecides(findings: seq<Finding>, others: seq<Finding>)
    requires CleanFindings(findings) && CleanFindings(others)
    ensures CanonicalIndex(findings) == CanonicalIndex(others) <==> multiset(Keys(findings)) == multiset(Keys(others))
  {
    hide CleanFindings;
    SortSorted(findings);
    if multiset(Keys(findings)) == multiset(Keys(others)) {
      IndexIsCanonical(findings, others, Sort(findings));
    } else if CanonicalIndex(findings) == CanonicalIndex(others) {
      KeysPermute(Sort(findings), findings);
      KeysPermute(Sort(others), others);
      SortClean(findings);
      SortClean(others);
      SameRows(Sort(findings), Sort(others));
      RowsInjective(Keys(Sort(findings)), Keys(Sort(others)));
    }
  }

  lemma SortClean(findings: seq<Finding>)
    requires CleanFindings(findings)
    ensures CleanKeys(Keys(Sort(findings)))
  {
    hide CleanKey;
    KeysPermute(Sort(findings), findings);
    var keys := Keys(Sort(findings));
    forall i | 0 <= i < |keys| ensures CleanKey(keys[i]) {
      assert keys[i] in multiset(Keys(findings));
    }
  }

  /** A tab inside a field makes different findings print the same: separators do matter. */
  lemma TabsCollide()
    ensures var f := Finding("P", "f.c", 1, "x\ty", "z", "", "");
      var g := Finding("P", "f.c", 1, "x", "y\tz", "", "");
      CanonicalIndex([f]) == CanonicalIndex([g]) && multiset(Keys([f])) != multiset(Keys([g]))
  {
    var f := Finding("P", "f.c", 1, "x\ty", "z", "", "");
    var g := Finding("P", "f.c", 1, "x", "y\tz", "", "");
    hide Row;
    assert Sort([f]) == [f] && Sort([g]) == [g];
    assert Keys([f]) == [KeyOf(f)] && Keys([g]) == [KeyOf(g)];
    assert Row(KeyOf(f)) == Row(KeyOf(g)) by { CollidingRows(f, g); }
    assert Rows(Keys([f])) == Rows(Keys([g]));
    assert KeyOf(f) != KeyOf(g) by { assert |KeyOf(f).functionName| != |KeyOf(g).functionName|; }
    assert KeyOf(f) in multiset(Keys([f])) && KeyOf(f) !in multiset(Keys([g]));
  }

  lemma CollidingRows(f: Finding, g: Finding)
    requires f == Finding("P", "f.c", 1, "x\ty", "z", "", "") && g == Finding("P", "f.c", 1, "x", "y\tz", "", "")
    ensures Row(KeyOf(f)) == Row(KeyOf(g))
  {
    assert "x\ty" + ("\t" + ("z" + ("\t" + ("" + "\n")))) == "x" + ("\t" + ("y\tz" + ("\t" + ("" + "\n"))));
  }

  /** So does a newline, even without a tab: it moves the border between two rows. */
  lemma NewlinesCollide()
    ensures var f, f2 := Finding("P", "", 1, "", "", "x", ""), Finding("a\nb", "", 1, "", "", "", "");
      var g, g2 := Finding("P", "", 1, "", "", "x\na", ""), Finding("b", "", 1, "", "", "", "");
      CanonicalIndex([f, f2]) == CanonicalIndex([g, g2]) && multiset(Keys([f, f2])) != multiset(Keys([g, g2]))
  {
    var f, f2 := Finding("P", "", 1, "", "", "x", ""), Finding("a\nb", "", 1, "", "", "", "");
    var g, g2 := Finding("P", "", 1, "", "", "x\na", ""), Finding("b", "", 1, "", "", "", "");
    hide Row;
    hide Sort;
    hide IndexText;
    assert f.diagnosticId[0] < f2.diagnosticId[0] && g.diagnosticId[0] < g2.diagnosticId[0];
    SortPair(f, f2);
    SortPair(g, g2);
    hide FindingCompare;
    assert Row(KeyOf(f)) + Row(KeyOf(f2)) == Row(KeyOf(g)) + Row(KeyOf(g2)) by { MovedBorder(f, f2, g, g2); }
    IndexOfPair(f, f2);
    IndexOfPair(g, g2);
    assert |KeyOf(f).evidenceTo| != |KeyOf(g).evidenceTo| && |KeyOf(f).evidenceTo| != |KeyOf(g2).evidenceTo|;
    KeysDiffer(f, f2, g, g2);
  }

  lemma KeysDiffer(f: Finding, f2: Finding, g: Finding, g2: Finding)
    requires KeyOf(f) != KeyOf(g) && KeyOf(f) != KeyOf(g2)
    ensures multiset(Keys([f, f2])) != multiset(Keys([g, g2]))
  {
    hide KeyOf;
    assert Keys([f, f2]) == [KeyOf(f), KeyOf(f2)];
    assert Keys([g, g2]) == [KeyOf(g), KeyOf(g2)];
    assert KeyOf(f) in multiset([KeyOf(f), KeyOf(f2)]);
  }

  lemma SortPair(f: Finding, g: Finding)
    requires f.diagnosticId != "" && g.diagnosticId != "" && f.diagnosticId[0] < g.diagnosticId[0]
    ensures Sort([f, g]) == [f, g]
  {
    assert FindingCompare(f, g) <= 0;
    hide FindingCompare;
    assert [f, g][1..] == [g] && [g][1..] == [];
    assert Sort([g]) == [g];
  }

  lemma IndexOfPair(f: Finding, g: Finding)
    ensures IndexText([f, g]) == INDEX_HEADER + (Row(KeyOf(f)) + Row(KeyOf(g)))
  {
    hide Row;
    hide KeyOf;
    var a, b := Row(KeyOf(f)), Row(KeyOf(g));
    assert [INDEX_HEADER] + Rows(Keys([f, g])) == [INDEX_HEADER, a, b];
    assert [INDEX_HEADER, a, b][1..] == [a, b] && [a, b][1..] == [b] && [b][1..] == [];
    assert Flatten([b]) == b by { assert b + "" == b; }
    assert Flatten([a, b]) == a + b;
  }

  lemma MovedBorder(f: Finding, f2: Finding, g: Finding, g2: Finding)
    requires f == Finding("P", "", 1, "", "", "x", "") && f2 == Finding("a\nb", "", 1, "", "", "", "")
    requires g == Finding("P", "", 1, "", "", "x\na", "") && g2 == Finding("b", "", 1, "", "", "", "")
    ensures Row(KeyOf(f)) + Row(KeyOf(f2)) == Row(KeyOf(g)) + Row(KeyOf(g2))
  {
    hide DecimalInt;
    var before := "P" + ("\t" + ("" + ("\t" + (DecimalInt(1) + ("\t" + ("" + ("\t" + ("" + "\t"))))))));
    var after := "\t" + ("" + ("\t" + (DecimalInt(1) + ("\t" + ("" + ("\t" + ("" + ("\t" + ("" + "\n")))))))));
    assert Row(KeyOf(f)) == before + "x\n" && Row(KeyOf(f2)) == "a\nb" + after;
    assert Row(KeyOf(g)) == before + "x\na\n" && Row(KeyOf(g2)) == "b" + after;
    assert "x\n" + ("a\nb" + after) == "x\na\n" + ("b" + after);
  }

  // ----- When a single row is ambiguous -----

  function Tabs(s: string): (r: nat) {
    if s == [] then 0 else (if s[0] == '\t' then 1 else 0) + Tabs(s[1..])
  }

  lemma {:induction false} TabsAppend(a: string, b: string)
    ensures Tabs(a + b) == Tabs(a) + Tabs(b)
  {
    if a == [] {
      assert a + b == b;
    } else {
      TabsAppend(a[1..], b);
      assert (a + b)[1..] == a[1..] + b;
    }
  }

  lemma {:induction false} NoTabs(s: string)
    ensures Tabs(s) == 0 <==> '\t' !in s
  {
    if s != [] {
      NoTabs(s[1..]);
      assert s == [s[0]] + s[1..];
    }
  }

  lemma TabsAround(a: string, b: string)
    ensures Tabs(a + ("\t" + b)) == 1 + Tabs(a) + Tabs(b)
  {
    TabsAppend("\t", b);
    TabsAppend(a, "\t" + b);
    assert "\t"[1..] == [];
  }

  lemma RowTabs(k: Key)
    ensures Tabs(Row(k)) == 5 + Tabs(k.diagnosticId) + Tabs(k.fileName) + Tabs(k.functionName)
      + Tabs(k.evidenceFrom) + Tabs(k.evidenceTo)
  {
    hide DecimalInt;
    DecimalIntInline(k.lineNumber);
    NoTabs(DecimalInt(k.lineNumber));
    assert Tabs("\n") == 0 by { NoTabs("\n"); }
    hide Tabs;
    var r5 := k.evidenceTo + "\n";
    var r4 := k.evidenceFrom + ("\t" + r5);
    var r3 := k.functionName + ("\t" + r4);
    var r2 := DecimalInt(k.lineNumber) + ("\t" + r3);
    var r1 := k.fileName + ("\t" + r2);
    TabsAppend(k.evidenceTo, "\n");
    TabsAround(k.evidenceFrom, r5);
    TabsAround(k.functionName, r4);
    TabsAround(DecimalInt(k.lineNumber), r3);
    TabsAround(k.fileName, r2);
    TabsAround(k.diagnosticId, r1);
  }

  lemma SameRowTabFree(a: Key, b: Key)
    requires TabFree(a) && Row(a) == Row(b)
    ensures TabFree(b)
  {
    RowTabs(a);
    RowTabs(b);
    NoTabs(a.diagnosticId); NoTabs(a.fileName); NoTabs(a.functionName); NoTabs(a.evidenceFrom); NoTabs(a.evidenceTo);
    NoTabs(b.diagnosticId); NoTabs(b.fileName); NoTabs(b.functionName); NoTabs(b.evidenceFrom); NoTabs(b.evidenceTo);
    hide Row;
    hide Tabs;
  }

  /** Another key that prints the same row: the text around a tab moves to the neighbouring field. */
  function Twin(k: Key): (r: Key)
    requires !TabFree(k)
  {
    var i1, i2, i4, i5, i6 := IndexOf(k.diagnosticId, '\t'), IndexOf(k.fileName, '\t'), IndexOf(k.functionName, '\t'),
      IndexOf(k.evidenceFrom, '\t'), IndexOf(k.evidenceTo, '\t');
    if i1 < |k.diagnosticId| then
      k.(diagnosticId := k.diagnosticId[..i1], fileName := k.diagnosticId[i1 + 1..] + "\t" + k.fileName)
    else if i2 < |k.fileName| then
      k.(diagnosticId := k.diagnosticId + "\t" + k.fileName[..i2], fileName := k.fileName[i2 + 1..])
    else if i4 < |k.functionName| then
      k.(functionName := k.functionName[..i4], evidenceFrom := k.functionName[i4 + 1..] + "\t" + k.evidenceFrom)
    else if i5 < |k.evidenceFrom| then
      k.(evidenceFrom := k.evidenceFrom[..i5], evidenceTo := k.evidenceFrom[i5 + 1..] + "\t" + k.evidenceTo)
    else
      assert i6 < |k.evidenceTo|;
      k.(evidenceFrom := k.evidenceFrom + "\t" + k.evidenceTo[..i6], evidenceTo := k.evidenceTo[i6 + 1..])
  }

  lemma MoveRight(a: string, i: nat, b: string, rest: string)
    requires i < |a| && a[i] == '\t'
    ensures a + ("\t" + (b + rest)) == a[..i] + ("\t" + ((a[i + 1..] + "\t" + b) + rest))
  {
    assert a == a[..i] + "\t" + a[i + 1..];
  }

  lemma MoveLeft(a: string, b: string, i: nat, rest: string)
    requires i < |b| && b[i] == '\t'
    ensures a + ("\t" + (b + rest)) == (a + "\t" + b[..i]) + ("\t" + (b[i + 1..] + rest))
  {
    assert b == b[..i] + "\t" + b[i + 1..];
  }

  lemma TwinPrintsTheSame(k: Key)
    requires !TabFree(k)
    ensures Row(Twin(k)) == Row(k) && Twin(k) != k
  {
    hide DecimalInt;
    var i1, i2, i4, i5, i6 := IndexOf(k.diagnosticId, '\t'), IndexOf(k.fileName, '\t'), IndexOf(k.functionName, '\t'),
      IndexOf(k.evidenceFrom, '\t'), IndexOf(k.evidenceTo, '\t');
    hide IndexOf;
    var r4 := "\t" + (k.evidenceTo + "\n");
    var r2 := "\t" + (DecimalInt(k.lineNumber) + ("\t" + (k.functionName + ("\t" + (k.evidenceFrom + r4)))));
    if i1 < |k.diagnosticId| {
      MoveRight(k.diagnosticId, i1, k.fileName, r2);
    } else if i2 < |k.fileName| {
      MoveLeft(k.diagnosticId, k.fileName, i2, r2);
    } else if i4 < |k.functionName| {
      MoveRight(k.functionName, i4, k.evidenceFrom, r4);
    } else if i5 < |k.evidenceFrom| {
      MoveRight(k.evidenceFrom, i5, k.evidenceTo, "\n");
    } else {
      MoveLeft(k.evidenceFrom, k.evidenceTo, i6, "\n");
    }
  }

  /** A printed row tells which finding it is exactly when no field holds a tab. */
  lemma RowUniqueIff(k: Key)
    ensures (forall other :: Row(other) == Row(k) ==> other == k) <==> TabFree(k)
  {
    if TabFree(k) {
      forall other | Row(other) == Row(k) ensures other == k {
        SameRowTabFree(k, other);
        RowInjective(k, other);
      }
    } else {
      TwinPrintsTheSame(k);
    }
  }

  // ----- When a whole file is ambiguous -----

  /** A finding with a given key. */
  function FindingOf(k: Key): (f: Finding)
    ensures KeyOf(f) == k
  {
    Finding(k.diagnosticId, k.fileName, k.lineNumber, k.functionName, k.evidenceFrom, k.evidenceTo, "")
  }

  lemma {:induction false} RowsTabs(keys: seq<Key>)
    ensures Tabs(Flatten(Rows(keys))) >= 5 * |keys|
    ensures keys != [] ==> Tabs(Flatten(Rows(keys))) >= Tabs(Row(keys[0]))
  {
    hide Row;
    hide Tabs;
    if keys != [] {
      FlattenRows(keys);
      TabsAppend(Row(keys[0]), Flatten(Rows(keys[1..])));
      RowTabs(keys[0]);
      RowsTabs(keys[1..]);
    }
  }

  lemma OneRow(k: Key)
    ensures Flatten(Rows([k])) == Row(k)
  {
    hide Row;
    FlattenRows([k]);
    assert Flatten(Rows([k][1..])) == "" by { assert [k][1..] == []; }
    assert Row(k) + "" == Row(k);
  }

  /** A single tab-free row determines the keys of any file with the same rows: five tabs make one row. */
  lemma OneRowDetermines(k: Key, keys: seq<Key>)
    requires TabFree(k) && Flatten(Rows(keys)) == Flatten(Rows([k]))
    ensures keys == [k]
  {
    OneRow(k);
    RowTabs(k);
    NoTabs(k.diagnosticId); NoTabs(k.fileName); NoTabs(k.functionName); NoTabs(k.evidenceFrom); NoTabs(k.evidenceTo);
    RowsTabs(keys);
    assert Tabs(Flatten(Rows([]))) == 0;
    hide Tabs;
    hide Row;
    hide Flatten;
    if |keys| == 1 {
      assert keys == [keys[0]];
      OneRow(keys[0]);
      RowUniqueIff(k);
    }
  }

  /** A row whose last field swallows the rows after it. */
  function Swallow(k: Key, rest: string): (r: Key)
    requires rest != ""
  {
    k.(evidenceTo := k.evidenceTo + ("\n" + rest[..|rest| - 1]))
  }

  lemma SwallowedRow(k: Key, rest: string)
    requires rest != "" && rest[|rest| - 1] == '\n'
    ensures Row(Swallow(k, rest)) == Row(k) + rest
  {
    hide DecimalInt;
    var front := rest[..|rest| - 1];
    assert rest == front + "\n";
    assert (k.evidenceTo + ("\n" + front)) + "\n" == k.evidenceTo + ("\n" + rest);
    RowThen(k, rest);
  }

  lemma {:induction false} RowsEnd(keys: seq<Key>)
    requires keys != []
    ensures Flatten(Rows(keys)) != "" && Flatten(Rows(keys))[|Flatten(Rows(keys))| - 1] == '\n'
  {
    FlattenRows(keys);
    assert Row(keys[0])[|Row(keys[0])| - 1] == '\n';
    hide Row;
    if |keys| > 1 { RowsEnd(keys[1..]); } else { assert keys[1..] == []; }
  }

  /** A finding that prints the same file as the whole list: two rows or more can be swallowed, and a tab can move
      its neighbourhood. */
  lemma Impostor(s: seq<Finding>) returns (f: Finding)
    requires |s| > 1 || (|s| == 1 && !TabFree(KeyOf(s[0])))
    ensures IndexText([f]) == IndexText(s) && Keys([f]) != Keys(s)
  {
    var keys := Keys(s);
    FlattenRows(keys);
    var k: Key;
    if |s| == 1 {
      k := Twin(keys[0]);
      TwinPrintsTheSame(keys[0]);
      assert keys == [keys[0]];
      OneRow(keys[0]);
    } else {
      var rest := Flatten(Rows(keys[1..]));
      RowsEnd(keys[1..]);
      k := Swallow(keys[0], rest);
      SwallowedRow(keys[0], rest);
    }
    hide Row;
    hide Flatten;
    hide Twin;
    f := FindingOf(k);
    assert Keys([f]) == [k];
    OneRow(k);
    SameRows([f], s);
  }

  lemma ImpostorCollides(findings: seq<Finding>) returns (others: seq<Finding>)
    requires |findings| > 1 || (|findings| == 1 && !TabFree(KeyOf(findings[0])))
    ensures CanonicalIndex(others) == CanonicalIndex(findings)
    ensures multiset(Keys(others)) != multiset(Keys(findings))
  {
    var s := Sort(findings);
    SameLength(s, findings);
    if |findings| == 1 {
      assert s[0] in multiset(findings);
    }
    hide IndexText;
    hide TabFree;
    hide Keys;
    var f := Impostor(s);
    others := [f];
    assert Sort([f]) == [f] by { assert [f][1..] == []; }
    hide Sort;
    KeysPermute(s, findings);
    if multiset(Keys([f])) == multiset(Keys(findings)) {
      SameSingle(Keys([f]), Keys(s));
    }
  }

  lemma SameSingle<T>(a: seq<T>, b: seq<T>)
    requires multiset(a) == multiset(b) && |a| == 1
    ensures a == b
  {
    SameLength(a, b);
    assert b[0] in multiset(a);
  }

  /** An index file determines its collection exactly when there is no finding at all, or one finding whose fields
      hold no tab: two or more print the same file as one finding whose last field swallows the later rows. */
  lemma FileUniqueIff(findings: seq<Finding>)
    ensures (forall others :: CanonicalIndex(others) == CanonicalIndex(findings)
                              ==> multiset(Keys(others)) == multiset(Keys(findings)))
      <==> findings == [] || (|findings| == 1 && TabFree(KeyOf(findings[0])))
  {
    hide TabFree;
    hide CanonicalIndex;
    hide Keys;
    if findings == [] || (|findings| == 1 && TabFree(KeyOf(findings[0]))) {
      forall others | CanonicalIndex(others) == CanonicalIndex(findings)
        ensures multiset(Keys(others)) == multiset(Keys(findings)) {
        SmallFileUnique(findings, others);
      }
    } else {
      var others := ImpostorCollides(findings);
    }
  }

  lemma SmallFileUnique(findings: seq<Finding>, others: seq<Finding>)
    requires findings == [] || (|findings| == 1 && TabFree(KeyOf(findings[0])))
    requires CanonicalIndex(others) == CanonicalIndex(findings)
    ensures multiset(Keys(others)) == multiset(Keys(findings))
  {
    hide TabFree;
    hide Row;
    hide IndexText;
    var s, t := Sort(findings), Sort(others);
    assert s == findings by { assert findings != [] ==> findings[1..] == []; }
    hide Sort;
    SameRows(s, t);
    KeysPermute(t, others);
    if findings == [] {
      assert Keys(s) == [];
      if t != [] { FlattenRows(Keys(t)); }
      assert Keys(t) == Keys(s);
    } else {
      assert Keys(s) == [KeyOf(findings[0])];
      hide Flatten;
      OneRowDetermines(KeyOf(findings[0]), Keys(t));
    }
  }
}
