/** Artifact lines: one role, and the fingerprint recorded for the file that plays it. */
module Artifacts {
  import opened Wrappers
  import opened CText
  import opened Numbers

  const ROLE_SIZE: nat := 64

  type Flag = n: int | 0 <= n <= 1

  datatype Fingerprint = Fingerprint(bytes: U64, records: U64, finalNewline: Flag, hash: U64)

  datatype Entry = Entry(role: string, mark: Fingerprint)

  // ----- The printer -----

  function HashText(mark: Fingerprint): (text: string) {
    "\tfnv1a64=" + (Padded(mark.hash, 16, 16) + "\n")
  }

  function NewlineText(mark: Fingerprint): (text: string) {
    "\tfinal_newline=" + (DecimalInt(mark.finalNewline) + HashText(mark))
  }

  function RecordsText(mark: Fingerprint): (text: string) {
    "\trecords=" + (Numeral(mark.records, 10) + NewlineText(mark))
  }

  function BytesText(mark: Fingerprint): (text: string) {
    "\tbytes=" + (Numeral(mark.bytes, 10) + RecordsText(mark))
  }

  /** The line both writers print for an artifact. */
  function Line(e: Entry): (text: string) {
    "artifact=" + (e.role + BytesText(e.mark))
  }

  // ----- The parser -----

  /** A field is its exact prefix followed by whatever `strtoumax` accepts, up to `maximum`. */
  function ReadField(s: string, prefix: string, base: Base, maximum: nat): (r: Option<(nat, string)>)
    ensures r.Some? ==> r.value.0 <= maximum
  {
    if !(prefix <= s) then None
    else
      var c := StrToUnsigned(s[|prefix|..], base);
      if c.rangeError || !c.converted || c.value > maximum then None else Some((c.value, s[|prefix| + c.end..]))
  }

  function ReadHash(s: string, bytes: U64, records: U64, finalNewline: Flag): (r: Option<Fingerprint>)
    ensures r.Some? ==> r.value.bytes == bytes && r.value.records == records && r.value.finalNewline == finalNewline
  {
    match ReadField(s, "\tfnv1a64=", 16, UINT_LIMIT - 1)
    case None => None
    case Some((hash, rest)) =>
      if rest == [] || rest[0] == '\n' then Some(Fingerprint(bytes, records, finalNewline, hash)) else None
  }

  function ReadNewline(s: string, bytes: U64, records: U64): (r: Option<Fingerprint>)
    ensures r.Some? ==> r.value.bytes == bytes && r.value.records == records
  {
    match ReadField(s, "\tfinal_newline=", 10, 1)
    case None => None
    case Some((finalNewline, rest)) => ReadHash(rest, bytes, records, finalNewline)
  }

  function ReadRecords(s: string, bytes: U64): (r: Option<Fingerprint>)
    ensures r.Some? ==> r.value.bytes == bytes
  {
    match ReadField(s, "\trecords=", 10, UINT_LIMIT - 1)
    case None => None
    case Some((records, rest)) => ReadNewline(rest, bytes, records)
  }

  function ReadFingerprint(s: string): (r: Option<Fingerprint>) {
    match ReadField(s, "\tbytes=", 10, UINT_LIMIT - 1)
    case None => None
    case Some((bytes, rest)) => ReadRecords(rest, bytes)
  }

  /** What an artifact line says, if it is one. */
  function ParseLine(line: string): (r: Option<Entry>)
    ensures r.Some? ==> 0 < |r.value.role| < ROLE_SIZE && '\t' !in r.value.role
    ensures r.Some? ==> "artifact=" + r.value.role <= line
  {
    if !("artifact=" <= line) then None
    else
      var t := line[9..];
      var n := IndexOf(t, '\t');
      if n == |t| || n == 0 || n >= ROLE_SIZE then None
      else
        assert line == "artifact=" + t[..n] + t[n..];
        match ReadFingerprint(t[n..])
        case None => None
        case Some(mark) => Some(Entry(t[..n], mark))
  }

  // ----- The parser as written: a cursor moving over the line -----

  method ParseUnsignedField(line: string, cursor: nat, prefix: string, base: Base, maximum: nat)
    returns (ok: bool, end: nat, value: nat)
    requires cursor <= |line|
    ensures cursor <= end <= |line|
    ensures ok == ReadField(line[cursor..], prefix, base, maximum).Some?
    ensures ok ==> ReadField(line[cursor..], prefix, base, maximum) == Some((value, line[end..]))
    ensures !ok ==> end == cursor
  {
    hide StrToUnsigned;
    ok, end, value := false, cursor, 0;
    if prefix <= line[cursor..] {
      var number := cursor + |prefix|;
      var c := StrToUnsigned(line[number..], base);
      assert line[cursor..][|prefix|..] == line[number..];
      if !c.rangeError && c.converted && c.value <= maximum {
        ok, end, value := true, number + c.end, c.value;
        assert line[end..] == line[cursor..][|prefix| + c.end..];
      }
    }
  }

  /** `parse_artifact_line`: the role and the four numbers, by one cursor. */
  method ParseArtifactLine(line: string) returns (ok: bool, entry: Entry)
    ensures ok == ParseLine(line).Some?
    ensures ok ==> ParseLine(line) == Some(entry)
  {
    hide ReadField;
    ok, entry := false, Entry("", Fingerprint(0, 0, 0, 0));
    if !("artifact=" <= line) { return; }
    var cursor: nat := |"artifact="|;
    var roleLength := IndexOf(line[cursor..], '\t');
    if cursor + roleLength == |line| || roleLength == 0 || roleLength >= ROLE_SIZE { return; }
    var role := line[cursor..cursor + roleLength];
    assert line[cursor..][..roleLength] == role;
    assert line[cursor..][roleLength..] == line[cursor + roleLength..];
    cursor := cursor + roleLength;
    var read, bytes, records, finalNewline, hash;
    read, cursor, bytes := ParseUnsignedField(line, cursor, "\tbytes=", 10, UINT_LIMIT - 1);
    if !read { return; }
    read, cursor, records := ParseUnsignedField(line, cursor, "\trecords=", 10, UINT_LIMIT - 1);
    if !read { return; }
    read, cursor, finalNewline := ParseUnsignedField(line, cursor, "\tfinal_newline=", 10, 1);
    if !read { return; }
    read, cursor, hash := ParseUnsignedField(line, cursor, "\tfnv1a64=", 16, UINT_LIMIT - 1);
    if !read || (cursor < |line| && line[cursor] != '\n') { return; }
    ok, entry := true, Entry(role, Fingerprint(bytes, records, finalNewline, hash));
  }

  // ----- Round trip -----

  predicate ValidRole(role: string) {
    0 < |role| < ROLE_SIZE && '\t' !in role
  }

  /** A printed number, in either base, is read back by its field whatever stops it. */
  lemma ReadPrinted(prefix: string, digits: string, rest: string, base: Base, maximum: nat)
    requires digits != [] && AllDigits(digits, base) && Stops(rest)
    requires Value(digits, base) <= maximum < UINT_LIMIT
    ensures ReadField(prefix + (digits + rest), prefix, base, maximum) == Some((Value(digits, base), rest))
  {
    ReadDigits(prefix, digits, rest, base, maximum);
    hide ReadField;
  }

  lemma FingerprintRoundTrip(mark: Fingerprint)
    ensures ReadFingerprint(BytesText(mark)) == Some(mark)
  {
    NumeralValue(mark.bytes, 10);
    ReadPrinted("\tbytes=", Numeral(mark.bytes, 10), RecordsText(mark), 10, UINT_LIMIT - 1);
    RecordsRoundTrip(mark);
  }

  lemma RecordsRoundTrip(mark: Fingerprint)
    ensures ReadRecords(RecordsText(mark), mark.bytes) == Some(mark)
  {
    NumeralValue(mark.records, 10);
    ReadPrinted("\trecords=", Numeral(mark.records, 10), NewlineText(mark), 10, UINT_LIMIT - 1);
    NewlineRoundTrip(mark);
  }

  lemma NewlineRoundTrip(mark: Fingerprint)
    ensures ReadNewline(NewlineText(mark), mark.bytes, mark.records) == Some(mark)
  {
    NumeralValue(mark.finalNewline, 10);
    ReadPrinted("\tfinal_newline=", Numeral(mark.finalNewline, 10), HashText(mark), 10, 1);
    HashRoundTrip(mark);
  }

  lemma HashRoundTrip(mark: Fingerprint)
    ensures ReadHash(HashText(mark), mark.bytes, mark.records, mark.finalNewline) == Some(mark)
  {
    PaddedValue(mark.hash, 16, 16);
    ReadPrinted("\tfnv1a64=", Padded(mark.hash, 16, 16), "\n", 16, UINT_LIMIT - 1);
  }

  /** After a valid role, parsing a line is parsing its fields. */
  lemma ParseAfterRole(role: string, counts: string, mark: Fingerprint)
    requires ValidRole(role) && counts != [] && counts[0] == '\t'
    requires ReadFingerprint(counts) == Some(mark)
    ensures ParseLine("artifact=" + (role + counts)) == Some(Entry(role, mark))
  {
    hide ReadFingerprint;
    var t := role + counts;
    assert t == role + ['\t'] + counts[1..];
    IndexOfSplit(role, '\t', counts[1..]);
    assert ("artifact=" + t)[9..] == t && t[..|role|] == role && t[|role|..] == counts;
  }

  /** A printed artifact line parses back to exactly its entry, and only a valid role survives. */
  lemma LineRoundTrip(e: Entry)
    ensures ParseLine(Line(e)) == Some(e) <==> ValidRole(e.role)
  {
    assert BytesText(e.mark)[0] == '\t';
    hide ParseLine;
    hide ReadFingerprint;
    hide BytesText;
    if ValidRole(e.role) {
      FingerprintRoundTrip(e.mark);
      ParseAfterRole(e.role, BytesText(e.mark), e.mark);
    }
  }

  /** Hence the printer loses nothing about an entry with a valid role. */
  lemma LineInjective(a: Entry, b: Entry)
    requires ValidRole(a.role) && ValidRole(b.role) && Line(a) == Line(b)
    ensures a == b
  {
    LineRoundTrip(a);
    LineRoundTrip(b);
  }

  /** The same entry with a plus sign before its byte count. */
  function PlusLine(e: Entry): (text: string) {
    "artifact=" + (e.role + ("\tbytes=+" + (Numeral(e.mark.bytes, 10) + RecordsText(e.mark))))
  }

  /** Parsing does not undo to printing: a different line with a sign is accepted as the same entry. */
  lemma SignedCountAccepted(e: Entry)
    requires ValidRole(e.role)
    ensures PlusLine(e) != Line(e) && ParseLine(PlusLine(e)) == Some(e)
  {
    SignedFields(e.mark);
    hide ReadFingerprint;
    hide RecordsText;
    hide ParseLine;
    ParseAfterRole(e.role, "\tbytes=+" + (Numeral(e.mark.bytes, 10) + RecordsText(e.mark)), e.mark);
    var k := 9 + |e.role| + |"\tbytes="|;
    assert PlusLine(e)[k] == '+' && Line(e)[k] == Numeral(e.mark.bytes, 10)[0];
    assert DigitValue('+') >= 10;
  }

  lemma SignedFields(mark: Fingerprint)
    ensures ReadFingerprint("\tbytes=+" + (Numeral(mark.bytes, 10) + RecordsText(mark))) == Some(mark)
  {
    assert Stops(RecordsText(mark));
    hide ReadField;
    hide ReadRecords;
    hide RecordsText;
    hide Numeral;
    SignedNumber(mark.bytes, RecordsText(mark));
    RecordsRoundTrip(mark);
  }

  lemma SignedNumber(n: nat, rest: string)
    requires n < UINT_LIMIT && Stops(rest)
    ensures ReadField("\tbytes=+" + (Numeral(n, 10) + rest), "\tbytes=", 10, UINT_LIMIT - 1) == Some((n, rest))
  {
    hide ScanNumber;
    hide Numeral;
    hide RecordsText;
    var s := "\tbytes=+" + (Numeral(n, 10) + rest);
    assert s[7..] == ['+'] + Numeral(n, 10) + rest;
    NumeralValue(n, 10);
    ScanSigned('+', Numeral(n, 10), rest);
    assert s[7 + (1 + |Numeral(n, 10)|)..] == rest;
  }

  // ----- Which lines are accepted -----

  lemma FieldIsRead(prefix: string, text: string, rest: string, base: Base, maximum: nat, value: int)
    requires NumberText(text, base, value) && value <= maximum < UINT_LIMIT && Stops(rest)
    ensures ReadField(prefix + (text + rest), prefix, base, maximum) == Some((value, rest))
  {
    NumberIsRead(text, rest, base, value);
    hide NumberText;
    hide StrToUnsigned;
    var s := prefix + (text + rest);
    assert s[|prefix|..] == text + rest && s[|prefix| + |text|..] == rest;
  }

  lemma ReadIsField(s: string, prefix: string, base: Base, maximum: nat) returns (text: string)
    requires ReadField(s, prefix, base, maximum).Some?
    ensures var (value, rest) := ReadField(s, prefix, base, maximum).value;
      s == prefix + (text + rest) && NumberText(text, base, value)
  {
    hide NumberText;
    hide StrToUnsigned;
    var number := s[|prefix|..];
    ReadIsNumber(number, base);
    var end := StrToUnsigned(number, base).end;
    text := number[..end];
    assert number == text + number[end..] && s == prefix + number && number[end..] == s[|prefix| + end..];
  }

  function HashTail(hash: string, rest: string): (text: string) {
    "\tfnv1a64=" + (hash + rest)
  }

  function NewlineTail(newline: string, hash: string, rest: string): (text: string) {
    "\tfinal_newline=" + (newline + HashTail(hash, rest))
  }

  function RecordsTail(records: string, newline: string, hash: string, rest: string): (text: string) {
    "\trecords=" + (records + NewlineTail(newline, hash, rest))
  }

  function BytesTail(bytes: string, records: string, newline: string, hash: string, rest: string): (text: string) {
    "\tbytes=" + (bytes + RecordsTail(records, newline, hash, rest))
  }

  /** A line for an entry: a role, four named numbers with the entry's values, and the end of the text or of the line. */
  ghost predicate EntryLine(line: string, e: Entry, bytes: string, records: string, newline: string, hash: string, rest: string) {
    && line == "artifact=" + (e.role + BytesTail(bytes, records, newline, hash, rest))
    && 0 < |e.role| < 64 && '\t' !in e.role
    && NumberText(bytes, 10, e.mark.bytes)
    && NumberText(records, 10, e.mark.records)
    && NumberText(newline, 10, e.mark.finalNewline)
    && NumberText(hash, 16, e.mark.hash)
    && (rest == "" || rest[0] == '\n')
  }

  lemma HashTailIff(s: string, b: U64, r: U64, n: Flag, h: U64)
    ensures ReadHash(s, b, r, n) == Some(Fingerprint(b, r, n, h)) <==>
      exists hash, rest :: s == HashTail(hash, rest) && NumberText(hash, 16, h) && (rest == "" || rest[0] == '\n')
  {
    hide NumberText;
    if ReadHash(s, b, r, n) == Some(Fingerprint(b, r, n, h)) {
      var hash := ReadIsField(s, "\tfnv1a64=", 16, UINT_LIMIT - 1);
      hide ReadField;
      var rest := ReadField(s, "\tfnv1a64=", 16, UINT_LIMIT - 1).value.1;
      assert s == HashTail(hash, rest);
    }
    forall hash, rest | s == HashTail(hash, rest) && NumberText(hash, 16, h) && (rest == "" || rest[0] == '\n')
      ensures ReadHash(s, b, r, n) == Some(Fingerprint(b, r, n, h)) {
      FieldIsRead("\tfnv1a64=", hash, rest, 16, UINT_LIMIT - 1, h);
      hide ReadField;
    }
  }

  lemma NewlineTailIff(s: string, b: U64, r: U64, n: Flag, h: U64)
    ensures ReadNewline(s, b, r) == Some(Fingerprint(b, r, n, h)) <==>
      exists newline, hash, rest :: s == NewlineTail(newline, hash, rest)
        && NumberText(newline, 10, n) && NumberText(hash, 16, h) && (rest == "" || rest[0] == '\n')
  {
    hide NumberText;
    hide ReadHash;
    hide HashTail;
    if ReadNewline(s, b, r) == Some(Fingerprint(b, r, n, h)) {
      var newline := ReadIsField(s, "\tfinal_newline=", 10, 1);
      hide ReadField;
      var after := ReadField(s, "\tfinal_newline=", 10, 1).value.1;
      HashTailIff(after, b, r, n, h);
      var hash, rest :| after == HashTail(hash, rest) && NumberText(hash, 16, h) && (rest == "" || rest[0] == '\n');
      assert s == NewlineTail(newline, hash, rest);
    }
    forall newline, hash, rest | s == NewlineTail(newline, hash, rest)
        && NumberText(newline, 10, n) && NumberText(hash, 16, h) && (rest == "" || rest[0] == '\n')
      ensures ReadNewline(s, b, r) == Some(Fingerprint(b, r, n, h)) {
      var after := HashTail(hash, rest);
      TailStops(hash, rest);
      FieldIsRead("\tfinal_newline=", newline, after, 10, 1, n);
      HashTailIff(after, b, r, n, h);
      hide ReadField;
    }
  }

  lemma TailStops(hash: string, rest: string)
    ensures Stops(HashTail(hash, rest))
  {
    assert HashTail(hash, rest)[0] == '\t';
  }

  /** The counts of a line are accepted as a fingerprint exactly when they are four named numbers with its values. */
  lemma CountsIff(s: string, mark: Fingerprint)
    ensures ReadFingerprint(s) == Some(mark) <==>
      exists bytes, records, newline, hash, rest :: s == BytesTail(bytes, records, newline, hash, rest)
        && NumberText(bytes, 10, mark.bytes) && NumberText(records, 10, mark.records)
        && NumberText(newline, 10, mark.finalNewline) && NumberText(hash, 16, mark.hash)
        && (rest == "" || rest[0] == '\n')
  {
    hide NumberText;
    hide BytesTail;
    if ReadFingerprint(s) == Some(mark) {
      var bytes, records, newline, hash, rest := ReadCounts(s, mark);
    }
    forall bytes, records, newline, hash, rest | s == BytesTail(bytes, records, newline, hash, rest)
        && NumberText(bytes, 10, mark.bytes) && NumberText(records, 10, mark.records)
        && NumberText(newline, 10, mark.finalNewline) && NumberText(hash, 16, mark.hash)
        && (rest == "" || rest[0] == '\n')
      ensures ReadFingerprint(s) == Some(mark) {
      CountsRead(bytes, records, newline, hash, rest, mark);
    }
  }

  lemma ReadCounts(s: string, mark: Fingerprint)
    returns (bytes: string, records: string, newline: string, hash: string, rest: string)
    requires ReadFingerprint(s) == Some(mark)
    ensures s == BytesTail(bytes, records, newline, hash, rest)
    ensures NumberText(bytes, 10, mark.bytes) && NumberText(records, 10, mark.records)
    ensures NumberText(newline, 10, mark.finalNewline) && NumberText(hash, 16, mark.hash)
    ensures rest == "" || rest[0] == '\n'
  {
    hide NumberText;
    hide ReadNewline;
    hide NewlineTail;
    bytes := ReadIsField(s, "\tbytes=", 10, UINT_LIMIT - 1);
    var afterBytes := ReadField(s, "\tbytes=", 10, UINT_LIMIT - 1).value.1;
    records := ReadIsField(afterBytes, "\trecords=", 10, UINT_LIMIT - 1);
    var afterRecords := ReadField(afterBytes, "\trecords=", 10, UINT_LIMIT - 1).value.1;
    hide ReadField;
    NewlineTailIff(afterRecords, mark.bytes, mark.records, mark.finalNewline, mark.hash);
    newline, hash, rest :| afterRecords == NewlineTail(newline, hash, rest)
      && NumberText(newline, 10, mark.finalNewline) && NumberText(hash, 16, mark.hash) && (rest == "" || rest[0] == '\n');
  }

  lemma CountsRead(bytes: string, records: string, newline: string, hash: string, rest: string, mark: Fingerprint)
    requires NumberText(bytes, 10, mark.bytes) && NumberText(records, 10, mark.records)
    requires NumberText(newline, 10, mark.finalNewline) && NumberText(hash, 16, mark.hash)
    requires rest == "" || rest[0] == '\n'
    ensures ReadFingerprint(BytesTail(bytes, records, newline, hash, rest)) == Some(mark)
  {
    hide NumberText;
    hide ReadField;
    hide ReadNewline;
    assert Stops(RecordsTail(records, newline, hash, rest)) && Stops(NewlineTail(newline, hash, rest));
    hide NewlineTail;
    NewlineTailIff(NewlineTail(newline, hash, rest), mark.bytes, mark.records, mark.finalNewline, mark.hash);
    FieldIsRead("\trecords=", records, NewlineTail(newline, hash, rest), 10, UINT_LIMIT - 1, mark.records);
    FieldIsRead("\tbytes=", bytes, RecordsTail(records, newline, hash, rest), 10, UINT_LIMIT - 1, mark.bytes);
  }

  /** A line is accepted for an entry exactly when it is a line for that entry: anything missing, out of range or left
      over makes it refused. */
  lemma ParseLineIff(line: string, e: Entry)
    ensures ParseLine(line) == Some(e) <==>
      exists bytes, records, newline, hash, rest :: EntryLine(line, e, bytes, records, newline, hash, rest)
  {
    hide NumberText;
    hide ReadFingerprint;
    hide BytesTail;
    if ParseLine(line) == Some(e) {
      var counts := RoleThenCounts(line, e);
      hide ParseLine;
      CountsIff(counts, e.mark);
      var bytes, records, newline, hash, rest :| counts == BytesTail(bytes, records, newline, hash, rest)
        && NumberText(bytes, 10, e.mark.bytes) && NumberText(records, 10, e.mark.records)
        && NumberText(newline, 10, e.mark.finalNewline) && NumberText(hash, 16, e.mark.hash)
        && (rest == "" || rest[0] == '\n');
      assert EntryLine(line, e, bytes, records, newline, hash, rest);
    }
    hide ParseLine;
    forall bytes, records, newline, hash, rest | EntryLine(line, e, bytes, records, newline, hash, rest)
      ensures ParseLine(line) == Some(e) {
      var counts := BytesTail(bytes, records, newline, hash, rest);
      assert counts[0] == '\t' by { CountsBegin(bytes, records, newline, hash, rest); }
      CountsIff(counts, e.mark);
      ParseAfterRole(e.role, counts, e.mark);
    }
  }

  lemma CountsBegin(bytes: string, records: string, newline: string, hash: string, rest: string)
    ensures var counts := BytesTail(bytes, records, newline, hash, rest); counts != [] && counts[0] == '\t'
  {
  }

  lemma RoleThenCounts(line: string, e: Entry) returns (counts: string)
    requires ParseLine(line) == Some(e)
    ensures line == "artifact=" + (e.role + counts) && ReadFingerprint(counts) == Some(e.mark) && ValidRole(e.role)
  {
    hide ReadFingerprint;
    var t := line[9..];
    assert line == "artifact=" + t;
    counts := t[|e.role|..];
    assert t == e.role + counts;
  }

  // ----- When a parsed line is the printed one -----

  /** A count as printed: no sign, no space, no leading zero. */
  predicate PlainDecimal(s: string) {
    s != "" && LowerDigits(s, 10) && (|s| > 1 ==> s[0] != '0')
  }

  /** A hash as printed: exactly 16 digits, letters in lower case. */
  predicate PlainHash(s: string) {
    |s| == 16 && LowerDigits(s, 16)
  }

  function HashPart(hash: string): (text: string) {
    "\tfnv1a64=" + (hash + "\n")
  }

  function NewlinePart(newline: string, hash: string): (text: string) {
    "\tfinal_newline=" + (newline + HashPart(hash))
  }

  function RecordsPart(records: string, newline: string, hash: string): (text: string) {
    "\trecords=" + (records + NewlinePart(newline, hash))
  }

  function BytesPart(bytes: string, records: string, newline: string, hash: string): (text: string) {
    "\tbytes=" + (bytes + RecordsPart(records, newline, hash))
  }

  ghost predicate CanonicalAs(line: string, role: string, bytes: string, records: string, newline: string, hash: string) {
    && line == "artifact=" + (role + BytesPart(bytes, records, newline, hash))
    && '\t' !in role
    && PlainDecimal(bytes) && PlainDecimal(records) && PlainDecimal(newline) && PlainHash(hash)
  }

  /** The five fields in plain form, one newline at the end, and nothing else. */
  ghost predicate Canonical(line: string) {
    exists role, bytes, records, newline, hash :: CanonicalAs(line, role, bytes, records, newline, hash)
  }

  /** A digit string is read by its field exactly when its value is in range. */
  lemma ReadDigits(prefix: string, digits: string, rest: string, base: Base, maximum: nat)
    requires digits != [] && AllDigits(digits, base) && Stops(rest) && maximum < UINT_LIMIT
    ensures ReadField(prefix + (digits + rest), prefix, base, maximum)
      == if Value(digits, base) <= maximum then Some((Value(digits, base), rest)) else None
  {
    hide ScanNumber;
    hide Value;
    ScanDigits(digits, rest, base);
    var s := prefix + (digits + rest);
    assert s[|prefix|..] == digits + rest;
    assert s[|prefix| + |digits|..] == rest;
  }

  lemma PlainHashRead(hash: string, b: U64, r: U64, n: Flag, mark: Fingerprint)
    requires PlainHash(hash) && ReadHash(HashPart(hash), b, r, n) == Some(mark)
    ensures HashPart(hash) == HashText(mark)
  {
    ReadDigits("\tfnv1a64=", hash, "\n", 16, UINT_LIMIT - 1);
    PaddedOfValue(hash, 16);
    hide ReadField;
    hide Padded;
  }

  lemma PlainNewlineRead(newline: string, hash: string, b: U64, r: U64, mark: Fingerprint)
    requires PlainDecimal(newline) && PlainHash(hash) && ReadNewline(NewlinePart(newline, hash), b, r) == Some(mark)
    ensures NewlinePart(newline, hash) == NewlineText(mark)
  {
    ReadDigits("\tfinal_newline=", newline, HashPart(hash), 10, 1);
    NumeralOfValue(newline, 10);
    hide ReadField;
    hide Numeral;
    hide PlainHash;
    PlainHashRead(hash, b, r, Value(newline, 10), mark);
    hide ReadHash;
  }

  lemma PlainRecordsRead(records: string, newline: string, hash: string, b: U64, mark: Fingerprint)
    requires PlainDecimal(records) && PlainDecimal(newline) && PlainHash(hash)
    requires ReadRecords(RecordsPart(records, newline, hash), b) == Some(mark)
    ensures RecordsPart(records, newline, hash) == RecordsText(mark)
  {
    ReadDigits("\trecords=", records, NewlinePart(newline, hash), 10, UINT_LIMIT - 1);
    NumeralOfValue(records, 10);
    hide ReadField;
    hide Numeral;
    hide PlainHash;
    PlainNewlineRead(newline, hash, b, Value(records, 10), mark);
    hide ReadNewline;
  }

  lemma PlainBytesRead(bytes: string, records: string, newline: string, hash: string, mark: Fingerprint)
    requires PlainDecimal(bytes) && PlainDecimal(records) && PlainDecimal(newline) && PlainHash(hash)
    requires ReadFingerprint(BytesPart(bytes, records, newline, hash)) == Some(mark)
    ensures BytesPart(bytes, records, newline, hash) == BytesText(mark)
  {
    hide ReadRecords;
    hide Value;
    assert Stops(RecordsPart(records, newline, hash));
    hide RecordsPart;
    hide RecordsText;
    hide Numeral;
    NumeralOfValue(bytes, 10);
    hide LowerDigits;
    ReadDigits("\tbytes=", bytes, RecordsPart(records, newline, hash), 10, UINT_LIMIT - 1);
    hide ReadField;
    hide PlainHash;
    PlainRecordsRead(records, newline, hash, Value(bytes, 10), mark);
  }

  /** The role of a line ends at its first tab, and what is left decides. */
  lemma ParseByRole(role: string, counts: string, e: Entry)
    requires '\t' !in role && counts != [] && counts[0] == '\t'
    requires ParseLine("artifact=" + (role + counts)) == Some(e)
    ensures e.role == role && ReadFingerprint(counts) == Some(e.mark)
  {
    hide ReadFingerprint;
    var t := role + counts;
    assert t == role + ['\t'] + counts[1..];
    IndexOfSplit(role, '\t', counts[1..]);
    assert ("artifact=" + t)[9..] == t && t[..|role|] == role && t[|role|..] == counts;
  }

  lemma PrintedIsCanonical(e: Entry)
    requires '\t' !in e.role
    ensures Canonical(Line(e))
  {
    var newline, hash := DecimalInt(e.mark.finalNewline), Padded(e.mark.hash, 16, 16);
    PlainNumeral(e.mark.bytes);
    PlainNumeral(e.mark.records);
    PlainNumeral(e.mark.finalNewline);
    PrintedWidths(e.mark.hash);
    PaddedLower(e.mark.hash, 16, 16);
    hide Padded;
    hide Numeral;
    hide LowerDigits;
    assert CanonicalAs(Line(e), e.role, Numeral(e.mark.bytes, 10), Numeral(e.mark.records, 10), newline, hash);
  }

  lemma PlainNumeral(n: nat)
    ensures PlainDecimal(Numeral(n, 10))
  {
    NumeralLower(n, 10);
    NoLeadingZero(n);
  }

  /** An accepted line is the one its entry prints exactly when it is in canonical form: no sign, space, leading zero
      or `0x` anywhere, 16 lower-case hash digits, and a newline at the end. */
  lemma CanonicalIff(line: string, e: Entry)
    requires ParseLine(line) == Some(e)
    ensures line == Line(e) <==> Canonical(line)
  {
    hide ParseLine;
    hide ReadFingerprint;
    hide BytesText;
    hide PlainDecimal;
    hide PlainHash;
    if line == Line(e) {
      PrintedIsCanonical(e);
    }
    if Canonical(line) {
      var role, bytes, records, newline, hash :| CanonicalAs(line, role, bytes, records, newline, hash);
      var counts := BytesPart(bytes, records, newline, hash);
      ParseByRole(role, counts, e);
      PlainBytesRead(bytes, records, newline, hash, e.mark);
    }
  }

  // ----- A printed entry is one line of the file -----

  /** A newline-terminated text of at most `k` bytes with no other newline and no NUL. */
  predicate OneLine(s: string, k: nat) {
    && 0 < |s| <= k
    && s[|s| - 1] == '\n'
    && Inline(s[..|s| - 1])
  }

  lemma OneLineAfter(a: string, s: string, k: nat)
    requires Inline(a) && OneLine(s, k)
    ensures OneLine(a + s, |a| + k)
  {
    assert (a + s)[..|a + s| - 1] == a + s[..|s| - 1];
  }

  lemma OneLineWider(s: string, k: nat, wider: nat)
    requires OneLine(s, k) && k <= wider
    ensures OneLine(s, wider)
  {
  }

  lemma OneLineAfterDigits(prefix: string, digits: string, base: Base, s: string, k: nat)
    requires Inline(prefix) && AllDigits(digits, base) && OneLine(s, k)
    ensures OneLine(prefix + (digits + s), |prefix| + (|digits| + k))
  {
    DigitsInline(digits, base);
    OneLineAfter(digits, s, k);
    OneLineAfter(prefix, digits + s, |digits| + k);
  }

  lemma BytesTextOneLine(mark: Fingerprint)
    ensures OneLine(BytesText(mark), 200)
  {
    PrintedWidths(mark.bytes);
    PrintedWidths(mark.records);
    PrintedWidths(mark.hash);
    assert |DecimalInt(mark.finalNewline)| == 1;
    assert AllDigits(DecimalInt(mark.finalNewline), 10);
    hide Numeral;
    hide DecimalInt;
    hide Padded;
    hide AllDigits;
    assert OneLine("\n", 1);
    assert Inline("\tfnv1a64=") && Inline("\tfinal_newline=") && Inline("\trecords=") && Inline("\tbytes=");
    hide OneLine;
    hide Inline;
    OneLineAfterDigits("\tfnv1a64=", Padded(mark.hash, 16, 16), 16, "\n", 1);
    OneLineAfterDigits("\tfinal_newline=", DecimalInt(mark.finalNewline), 10, HashText(mark), 26);
    OneLineAfterDigits("\trecords=", Numeral(mark.records, 10), 10, NewlineText(mark), 42);
    var k := 9 + (|Numeral(mark.records, 10)| + 42);
    OneLineAfterDigits("\tbytes=", Numeral(mark.bytes, 10), 10, RecordsText(mark), k);
    OneLineWider(BytesText(mark), 7 + (|Numeral(mark.bytes, 10)| + k), 200);
  }

  /** A printed artifact line always fits the reader's line buffer and holds no stray newline or NUL. */
  lemma LineIsLine(e: Entry)
    requires |e.role| < ROLE_SIZE && Inline(e.role)
    ensures IsLine(Line(e)) && '\0' !in Line(e)
  {
    hide BytesText;
    BytesTextOneLine(e.mark);
    OneLineAfter(e.role, BytesText(e.mark), 200);
    OneLineAfter("artifact=", e.role + BytesText(e.mark), |e.role| + 200);
    var s := Line(e);
    assert forall i :: 0 <= i < |s| - 1 ==> s[i] == s[..|s| - 1][i];
  }
}
