/** Searching a file line by line. */
module FileSearch {
  import opened CText
  import opened Files

  /** `strstr` finds the needle. */
  predicate StrStr(s: string, needle: string): (found: bool)
    ensures found <==> Occurs(needle, s)
  {
    if needle <= s then
      assert OccursAt(needle, s, 0);
      true
    else if s == [] then false
    else
      var found := StrStr(s[1..], needle);
      OccursInTail(needle, s);
      found
  }

  lemma OccursInTail(needle: string, s: string)
    requires s != [] && !(needle <= s)
    ensures Occurs(needle, s[1..]) <==> Occurs(needle, s)
  {
    if Occurs(needle, s) {
      var i: nat :| OccursAt(needle, s, i);
      assert i != 0;
      assert OccursAt(needle, s[1..], i - 1);
    }
    if Occurs(needle, s[1..]) {
      var i: nat :| OccursAt(needle, s[1..], i);
      assert OccursAt(needle, s, i + 1);
    }
  }

  /** Some line, as `fgets` delivers it, holds the needle. */
  ghost predicate FoundInLines(needle: string, lines: seq<string>) {
    exists i :: 0 <= i < |lines| && Occurs(needle, lines[i])
  }

  /** `file_contains` */
  method FileContains(dir: Directory, name: string, needle: string) returns (ok: bool, contains: bool)
    ensures ok == dir.Now().Read(name).Some?
    ensures contains <==> ok && FoundInLines(needle, Lines(dir.Now().Read(name).value))
  {
    hide Lines;
    ok, contains := dir.Now().Read(name).Some?, false;
    if !ok { return; }
    var stream := new Reader(dir.Now().Read(name).value);
    ghost var lines, now := Lines(stream.rest), dir.Now();
    ghost var k := 0;
    assert Lines("") == [] by { NoLines(); }
    var line := stream.Fgets();
    ghost var pending := if line.Some? then [line.value] + Lines(stream.rest) else [];
    while line.Some?
      invariant dir.Now() == now && !contains
      invariant k <= |lines| && lines[k..] == pending
      invariant pending == if line.Some? then [line.value] + Lines(stream.rest) else []
      invariant forall i :: 0 <= i < k ==> !Occurs(needle, lines[i])
      decreases |stream.rest| + (if line.Some? then 1 else 0)
    {
      assert lines[k] == pending[0] == line.value;
      if StrStr(line.value, needle) {
        contains := true;
        break;
      }
      assert lines[k + 1..] == pending[1..] == Lines(stream.rest);
      line := stream.Fgets();
      k, pending := k + 1, pending[1..];
    }
  }

  // ----- Agreement with searching the whole file -----

  lemma OccursInPart(needle: string, a: string, s: string, b: string)
    requires Occurs(needle, s)
    ensures Occurs(needle, a + s + b)
  {
    var i: nat :| OccursAt(needle, s, i);
    var t := a + s + b;
    assert t[|a| + i..|a| + i + |needle|] == s[i..i + |needle|];
    assert OccursAt(needle, t, |a| + i);
  }

  lemma LinesUnfold(text: string)
    requires text != []
    ensures var n := FgetsLength(text); Lines(text) == [CStr(text[..n])] + Lines(text[n..])
  {
    hide CStr;
    hide FgetsLength;
  }

  lemma FoundFirstOrLater(needle: string, first: string, later: seq<string>)
    ensures FoundInLines(needle, [first] + later) <==> Occurs(needle, first) || FoundInLines(needle, later)
  {
    hide Occurs;
    var lines := [first] + later;
    if Occurs(needle, first) {
      assert lines[0] == first;
    } else if FoundInLines(needle, later) {
      var i :| 0 <= i < |later| && Occurs(needle, later[i]);
      assert lines[i + 1] == later[i];
    }
  }

  /** A line search never finds what the file does not hold. */
  lemma {:induction false} FoundIsPresent(needle: string, text: string)
    requires FoundInLines(needle, Lines(text))
    ensures Occurs(needle, text)
    decreases |text|
  {
    if text == [] {
      NoLines();
    } else {
      LinesUnfold(text);
      var n := FgetsLength(text);
      var line, rest := text[..n], text[n..];
      hide Lines;
      hide FgetsLength;
      hide FoundInLines;
      hide Occurs;
      assert text == line + rest;
      FoundFirstOrLater(needle, CStr(line), Lines(rest));
      if Occurs(needle, CStr(line)) {
        OccursInView(needle, line, rest);
      } else {
        FoundIsPresent(needle, rest);
        OccursInPart(needle, line, rest, "");
        assert line + rest + "" == text;
      }
    }
  }

  lemma OccursInView(needle: string, line: string, rest: string)
    requires Occurs(needle, CStr(line))
    ensures Occurs(needle, line + rest)
  {
    var shown := CStr(line);
    OccursInPart(needle, "", shown, line[|shown|..] + rest);
    assert "" + shown + (line[|shown|..] + rest) == line + rest;
  }

  /** An occurrence without a newline never crosses the end of a line. */
  lemma OccursSplits(needle: string, line: string, rest: string)
    requires needle != [] && '\n' !in needle && IsLine(line)
    requires Occurs(needle, line + rest)
    ensures Occurs(needle, line) || Occurs(needle, rest)
  {
    var s := line + rest;
    var i: nat :| OccursAt(needle, s, i);
    var last := |line| - 1;
    assert s[last] == '\n';
    assert forall j :: i <= j < i + |needle| ==> s[j] == needle[j - i] && s[j] in needle;
    if i + |needle| <= |line| {
      assert line[i..i + |needle|] == s[i..i + |needle|];
      assert OccursAt(needle, line, i);
    } else {
      assert rest[i - |line|..i - |line| + |needle|] == s[i..i + |needle|];
      assert OccursAt(needle, rest, i - |line|);
    }
  }

  /** The empty needle occurs everywhere, and is found in every file but the empty one, whatever the lines are. */
  lemma EmptyNeedle(text: string)
    ensures Occurs("", text)
    ensures FoundInLines("", Lines(text)) <==> text != ""
  {
    assert OccursAt("", text, 0);
    if text == "" {
      NoLines();
    } else {
      LinesUnfold(text);
      var n := FgetsLength(text);
      hide Lines;
      hide CStr;
      assert OccursAt("", CStr(text[..n]), 0);
      FoundFirstOrLater("", CStr(text[..n]), Lines(text[n..]));
    }
  }

  /** When every line fits the buffer and the file has no NUL, a needle without newlines is found exactly when
      the file holds it anywhere; only the empty needle, which even the empty file holds, is not found there. */
  lemma FoundIffPresent(needle: string, lines: seq<string>, tail: string)
    requires '\n' !in needle
    requires forall line :: line in lines ==> IsLine(line) && '\0' !in line
    requires |tail| < LINE_SIZE && Inline(tail)
    ensures var text := Flatten(lines) + tail;
      FoundInLines(needle, Lines(text)) <==> Occurs(needle, text) && (needle != "" || text != "")
  {
    hide Lines;
    hide Occurs;
    hide FoundInLines;
    if needle == "" {
      EmptyNeedle(Flatten(lines) + tail);
    } else {
      NonEmptyFoundIff(needle, lines, tail);
    }
  }

  lemma {:induction false} NonEmptyFoundIff(needle: string, lines: seq<string>, tail: string)
    requires needle != [] && '\n' !in needle
    requires forall line :: line in lines ==> IsLine(line) && '\0' !in line
    requires |tail| < LINE_SIZE && Inline(tail)
    ensures FoundInLines(needle, Lines(Flatten(lines) + tail)) <==> Occurs(needle, Flatten(lines) + tail)
  {
    hide Lines;
    hide Occurs;
    hide FoundInLines;
    var text := Flatten(lines) + tail;
    if FoundInLines(needle, Lines(text)) {
      FoundIsPresent(needle, text);
    }
    if Occurs(needle, text) {
      if lines == [] {
        assert text == tail;
        FoundInTail(needle, tail);
      } else {
        var rest := Flatten(lines[1..]) + tail;
        assert text == lines[0] + rest;
        LinesAfter(lines[0], rest);
        OccursSplits(needle, lines[0], rest);
        NonEmptyFoundIff(needle, lines[1..], tail);
        FoundFirstOrLater(needle, lines[0], Lines(rest));
      }
    }
  }

  lemma LinesAfter(line: string, rest: string)
    requires IsLine(line) && '\0' !in line
    ensures Lines(line + rest) == [line] + Lines(rest)
  {
    ChunksCons(line, rest);
  }

  lemma FoundInTail(needle: string, tail: string)
    requires needle != [] && Occurs(needle, tail)
    requires |tail| < LINE_SIZE && Inline(tail)
    ensures FoundInLines(needle, Lines(tail))
  {
    assert FgetsLength(tail) == |tail|;
    assert tail[..|tail|] == tail;
    assert Lines(tail)[0] == tail;
  }
}
