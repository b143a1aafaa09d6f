/** C strings, line reading and number conversion, as the inspection tool uses them.
    A byte is a `char`; a file is a `string` of any bytes, NUL included. */
module Wrappers {
  datatype Option<+T> = None | Some(value: T)
}

module CText {
  const LINE_SIZE: nat := 8192
  const UINT_LIMIT: int := 0x1_0000_0000_0000_0000  // one past UINTMAX_MAX, ULONG_MAX and SIZE_MAX
  const LONG_LIMIT: int := 0x8000_0000_0000_0000    // one past LONG_MAX

  function Min(a: int, b: int): (r: int) {
    if a < b then a else b
  }

  // ----- Searching -----

  /** `strchr` as an index; the length of the text when the character is absent. */
  function IndexOf(s: string, c: char): (i: nat)
    ensures i <= |s| && c !in s[..i] && (i < |s| ==> s[i] == c)
    ensures forall k :: 0 <= k < i ==> s[k] != c
  {
    if s == [] || s[0] == c then 0 else
      var i := IndexOf(s[1..], c) + 1;
      assert forall k :: 0 < k < i ==> s[k] == s[1..][k - 1];
      i
  }

  /** `strrchr` as an index; the length of the text when the character is absent. */
  function LastIndexOf(s: string, c: char): (i: nat)
    ensures i <= |s|
    ensures i == |s| ==> forall k :: 0 <= k < |s| ==> s[k] != c
    ensures i < |s| ==> s[i] == c
    ensures forall k :: i < k < |s| ==> s[k] != c
  {
    if s == [] then 0
    else if s[|s| - 1] == c then |s| - 1
    else
      var front := s[..|s| - 1];
      var i := LastIndexOf(front, c);
      assert forall k :: 0 <= k < |front| ==> s[k] == front[k];
      if i == |front| then |s| else i
  }

  /** Any way of splitting a text at a character it avoids on the left is the `strchr` split. */
  lemma {:induction false} IndexOfSplit(a: string, c: char, b: string)
    requires c !in a
    ensures IndexOf(a + [c] + b, c) == |a|
  {
    var s := a + [c] + b;
    assert s[|a|] == c;
    assert forall k :: 0 <= k < |a| ==> s[k] == a[k] && s[k] in a;
  }

  /** A text splits in only one way at the first separator. */
  lemma SplitUnique(a: string, rest: string, b: string, others: string, c: char)
    requires c !in a && c !in b && a + ([c] + rest) == b + ([c] + others)
    ensures a == b && rest == others
  {
    var s, t := a + ([c] + rest), b + ([c] + others);
    assert s == a + [c] + rest && t == b + [c] + others;
    IndexOfSplit(a, c, rest);
    IndexOfSplit(b, c, others);
    assert a == s[..|a|] && rest == s[|a| + 1..];
    assert b == t[..|b|] && others == t[|b| + 1..];
  }

  /** The C view of a buffer: everything before the first NUL. */
  function CStr(s: string): (r: string)
    ensures r <= s && '\0' !in r && (|r| == |s| || s[|r|] == '\0')
    ensures '\0' !in s ==> r == s
  {
    s[..IndexOf(s, '\0')]
  }

  /** `strstr` finds the needle. */
  ghost predicate Occurs(needle: string, s: string) {
    exists i: nat :: OccursAt(needle, s, i)
  }

  ghost predicate OccursAt(needle: string, s: string, i: nat) {
    i + |needle| <= |s| && s[i..i + |needle|] == needle
  }

  // ----- fgets -----

  /** How many bytes the next `fgets` takes: through the first newline, never more than the buffer holds. */
  function FgetsLength(s: string): (n: nat)
    requires s != []
    ensures 0 < n <= |s| && n < LINE_SIZE
    ensures '\n' !in s[..n - 1]
    ensures n == |s| || n == LINE_SIZE - 1 || s[n - 1] == '\n'
  {
    var newline := IndexOf(s, '\n');
    var line := if newline < |s| then newline + 1 else |s|;
    var n := Min(line, LINE_SIZE - 1);
    assert s[..n - 1] <= s[..newline];
    n
  }

  /** The results of calling `fgets` until the end of the file. */
  function Chunks(s: string): (r: seq<string>)
    decreases |s|
  {
    if s == [] then [] else
      var n := FgetsLength(s);
      [s[..n]] + Chunks(s[n..])
  }

  /** What the string functions see of each buffer `fgets` fills. */
  function Views(chunks: seq<string>): (r: seq<string>)
    ensures |r| == |chunks| && forall i :: 0 <= i < |chunks| ==> r[i] == CStr(chunks[i])
  {
    seq(|chunks|, i requires 0 <= i < |chunks| => CStr(chunks[i]))
  }

  /** The lines of a file as the reading loops see them. */
  function Lines(text: string): (r: seq<string>) {
    Views(Chunks(text))
  }

  function Flatten(lines: seq<string>): (text: string) {
    if lines == [] then "" else lines[0] + Flatten(lines[1..])
  }

  lemma {:induction false} FlattenAppend(a: seq<string>, b: seq<string>)
    ensures Flatten(a + b) == Flatten(a) + Flatten(b)
  {
    if a == [] {
      assert a + b == b;
    } else {
      calc {
        Flatten(a + b);
        { assert (a + b)[0] == a[0] && (a + b)[1..] == a[1..] + b; }
        a[0] + Flatten(a[1..] + b);
        { FlattenAppend(a[1..], b); }
        a[0] + (Flatten(a[1..]) + Flatten(b));
        Flatten(a) + Flatten(b);
      }
    }
  }

  /** A newline-terminated line that fits one `fgets` buffer. */
  predicate IsLine(line: string) {
    && 0 < |line| < LINE_SIZE
    && line[|line| - 1] == '\n'
    && '\n' !in line[..|line| - 1]
  }

  lemma {:induction false} ChunksJoin(s: string)
    ensures Flatten(Chunks(s)) == s
    decreases |s|
  {
    if s != [] {
      var n := FgetsLength(s);
      ChunksJoin(s[n..]);
      assert Chunks(s)[1..] == Chunks(s[n..]);
      assert s == s[..n] + s[n..];
    }
  }

  lemma FirstLineLength(line: string, rest: string)
    requires IsLine(line)
    ensures line + rest != [] && FgetsLength(line + rest) == |line|
  {
    var front := line[..|line| - 1];
    assert line + rest == front + ['\n'] + rest;
    IndexOfSplit(front, '\n', rest);
  }

  lemma ChunksCons(line: string, rest: string)
    requires IsLine(line)
    ensures Chunks(line + rest) == [line] + Chunks(rest)
  {
    FirstLineLength(line, rest);
    assert (line + rest)[..|line|] == line && (line + rest)[|line|..] == rest;
  }

  /** `fgets` reads back exactly the lines that were written, whatever follows them. */
  lemma {:induction false} ChunksOfLines(lines: seq<string>, rest: string)
    requires forall line :: line in lines ==> IsLine(line)
    ensures Chunks(Flatten(lines) + rest) == lines + Chunks(rest)
  {
    if lines == [] {
      assert Flatten(lines) + rest == rest;
    } else {
      var tail := Flatten(lines[1..]) + rest;
      calc {
        Chunks(Flatten(lines) + rest);
        { assert Flatten(lines) + rest == lines[0] + tail; }
        Chunks(lines[0] + tail);
        { ChunksCons(lines[0], tail); }
        [lines[0]] + Chunks(tail);
        { ChunksOfLines(lines[1..], rest); }
        [lines[0]] + (lines[1..] + Chunks(rest));
        lines + Chunks(rest);
      }
    }
  }

  lemma ChunksOfFile(lines: seq<string>)
    requires forall line :: line in lines ==> IsLine(line)
    ensures Chunks(Flatten(lines)) == lines
  {
    ChunksOfLines(lines, "");
    assert Flatten(lines) + "" == Flatten(lines);
  }

  lemma NoLines()
    ensures Lines("") == []
  {
  }

  lemma LinesOfFile(lines: seq<string>)
    requires forall line :: line in lines ==> IsLine(line) && '\0' !in line
    ensures Lines(Flatten(lines)) == lines
  {
    ChunksOfFile(lines);
  }

  // ----- Printing numbers -----

  type U64 = n: int | 0 <= n < UINT_LIMIT

  type I64 = n: int | -LONG_LIMIT <= n < LONG_LIMIT

  /** The two bases the tool prints and reads. */
  type Base = b: nat | b == 10 || b == 16 witness 10

  // Multiplication and division by the base, kept linear by naming both bases.
  function Times(n: nat, base: Base): (r: nat) {
    if base == 10 then 10 * n else 16 * n
  }

  function Quotient(n: nat, base: Base): (r: nat) {
    if base == 10 then n / 10 else n / 16
  }

  function Remainder(n: nat, base: Base): (d: nat)
    ensures d < base && Times(Quotient(n, base), base) + d == n
  {
    if base == 10 then n % 10 else n % 16
  }

  function DigitChar(d: nat): (c: char)
    requires d < 16
    ensures DigitValue(c) == d
  {
    if d < 10 then '0' + d as char else 'a' + (d - 10) as char
  }

  /** The value of a digit in any base up to 36, or 36. */
  function DigitValue(c: char): (r: nat) {
    if '0' <= c <= '9' then c as nat - '0' as nat
    else if 'a' <= c <= 'z' then c as nat - 'a' as nat + 10
    else if 'A' <= c <= 'Z' then c as nat - 'A' as nat + 10
    else 36
  }

  predicate AllDigits(s: string, base: Base) {
    forall i :: 0 <= i < |s| ==> DigitValue(s[i]) < base
  }

  /** What `%zu`, `%d` of a non-negative number and `%x` print. */
  function Numeral(n: nat, base: Base): (s: string)
    ensures |s| > 0 && AllDigits(s, base)
  {
    if n < base then [DigitChar(n)] else Numeral(Quotient(n, base), base) + [DigitChar(Remainder(n, base))]
  }

  /** What `%d` prints. */
  function DecimalInt(n: int): (s: string) {
    if n < 0 then "-" + Numeral(-n, 10) else Numeral(n, 10)
  }

  function Zeros(k: nat): (s: string)
    ensures |s| == k && forall i :: 0 <= i < k ==> s[i] == '0'
  {
    seq(k, _ => '0')
  }

  /** What `%0<width>` prints. */
  function Padded(n: nat, base: Base, width: nat): (s: string)
    ensures |s| > 0 && AllDigits(s, base)
  {
    var digits := Numeral(n, base);
    if |digits| < width then Zeros(width - |digits|) + digits else digits
  }

  /** The number a digit string denotes. */
  function Value(s: string, base: Base): (n: nat)
    requires AllDigits(s, base)
  {
    if s == [] then 0 else Times(Value(s[..|s| - 1], base), base) + DigitValue(s[|s| - 1])
  }

  lemma ValueSnoc(front: string, c: char, base: Base)
    requires AllDigits(front, base) && DigitValue(c) < base
    ensures AllDigits(front + [c], base)
    ensures Value(front + [c], base) == Times(Value(front, base), base) + DigitValue(c)
  {
    assert (front + [c])[..|front|] == front;
  }

  lemma {:induction false} NumeralValue(n: nat, base: Base)
    ensures Value(Numeral(n, base), base) == n
  {
    if n < base {
      ValueSnoc("", DigitChar(n), base);
      assert "" + [DigitChar(n)] == [DigitChar(n)];
    } else {
      NumeralValue(Quotient(n, base), base);
      ValueSnoc(Numeral(Quotient(n, base), base), DigitChar(Remainder(n, base)), base);
    }
  }

  lemma {:induction false} ValueLeadingZeros(k: nat, s: string, base: Base)
    requires AllDigits(s, base)
    ensures AllDigits(Zeros(k) + s, base) && Value(Zeros(k) + s, base) == Value(s, base)
  {
    var t := Zeros(k) + s;
    if s != [] {
      ValueLeadingZeros(k, s[..|s| - 1], base);
      assert t[..|t| - 1] == Zeros(k) + s[..|s| - 1];
    } else if k > 0 {
      ValueLeadingZeros(k - 1, s, base);
      assert t[..|t| - 1] == Zeros(k - 1) + s;
    }
  }

  lemma PaddedValue(n: nat, base: Base, width: nat)
    ensures Value(Padded(n, base, width), base) == n
  {
    NumeralValue(n, base);
    var digits := Numeral(n, base);
    if |digits| < width { ValueLeadingZeros(width - |digits|, digits, base); }
  }

  /** Canonical decimal: no leading zero except for zero itself. */
  lemma {:induction false} NoLeadingZero(n: nat)
    ensures n > 0 ==> Numeral(n, 10)[0] != '0'
  {
    if n >= 10 { NoLeadingZero(n / 10); }
  }

  /** Digits as the printers write them: no capital letters. */
  predicate LowerDigits(s: string, base: Base) {
    AllDigits(s, base) && forall i :: 0 <= i < |s| ==> !('A' <= s[i] <= 'Z')
  }

  lemma {:induction false} NumeralLower(n: nat, base: Base)
    ensures LowerDigits(Numeral(n, base), base)
  {
    if n >= base { NumeralLower(Quotient(n, base), base); }
  }

  lemma PaddedLower(n: nat, base: Base, width: nat)
    ensures LowerDigits(Padded(n, base, width), base)
  {
    NumeralLower(n, base);
    hide Numeral;
  }

  lemma NumeralSnoc(v: nat, c: char, base: Base)
    requires v > 0 && LowerDigits([c], base)
    ensures Numeral(Times(v, base) + DigitValue(c), base) == Numeral(v, base) + [c]
  {
    assert [c][0] == c;
    var d := DigitValue(c);
    assert Quotient(Times(v, base) + d, base) == v && Remainder(Times(v, base) + d, base) == d;
    assert DigitChar(d) == c;
  }

  lemma NumeralOfDigit(c: char, base: Base)
    requires LowerDigits([c], base)
    ensures Numeral(Value([c], base), base) == [c]
  {
    assert [c][0] == c && [c][..0] == "";
    assert Value("", base) == 0;
    assert Value([c], base) == DigitValue(c);
  }

  lemma LowerParts(front: string, c: char, base: Base)
    requires LowerDigits(front + [c], base)
    ensures LowerDigits(front, base) && LowerDigits([c], base)
    ensures Value(front + [c], base) == Times(Value(front, base), base) + DigitValue(c)
  {
    var s := front + [c];
    assert s[|front|] == c && s[..|front|] == front;
    assert forall i :: 0 <= i < |front| ==> s[i] == front[i];
  }

  lemma NumeralOfZero(base: Base)
    ensures Numeral(0, base) == ['0']
  {
  }

  lemma NumeralOfSnoc(front: string, c: char, base: Base)
    requires front != "" && front[0] != '0' && LowerDigits(front + [c], base)
    requires AllDigits(front, base) && Numeral(Value(front, base), base) == front
    ensures Numeral(Value(front + [c], base), base) == front + [c]
  {
    hide LowerDigits;
    hide AllDigits;
    hide Times;
    hide Value;
    hide Numeral;
    NumeralOfZero(base);
    LowerParts(front, c, base);
    NumeralSnoc(Value(front, base), c, base);
  }

  /** A digit string without a leading zero is what its value prints as. */
  lemma {:induction false} NumeralOfValue(s: string, base: Base)
    requires s != "" && LowerDigits(s, base) && (|s| > 1 ==> s[0] != '0')
    ensures Numeral(Value(s, base), base) == s
  {
    hide Numeral;
    hide Value;
    if |s| == 1 {
      assert s == [s[0]];
      NumeralOfDigit(s[0], base);
    } else {
      var front, c := s[..|s| - 1], s[|s| - 1];
      assert s == front + [c];
      NumeralOfValue(front, base);
      NumeralOfSnoc(front, c, base);
    }
  }

  lemma PaddedWider(v: nat, base: Base, s: string)
    requires s != "" && Padded(v, base, |s|) == s
    ensures Padded(v, base, |s| + 1) == Zeros(1) + s
  {
    hide AllDigits;
    var digits := Numeral(v, base);
    hide Numeral;
    if |digits| < |s| {
      assert Zeros(1) + Zeros(|s| - |digits|) == Zeros(|s| + 1 - |digits|);
      assert Zeros(1) + (Zeros(|s| - |digits|) + digits) == (Zeros(1) + Zeros(|s| - |digits|)) + digits;
    }
  }

  /** A digit string of some width is what its value prints as in that width. */
  lemma {:induction false} PaddedOfValue(s: string, base: Base)
    requires s != "" && LowerDigits(s, base)
    ensures Padded(Value(s, base), base, |s|) == s
  {
    if |s| == 1 || s[0] != '0' {
      NumeralOfValue(s, base);
    } else {
      var rest := s[1..];
      PaddedOfValue(rest, base);
      ValueLeadingZeros(1, rest, base);
      assert s == Zeros(1) + rest;
      hide Value;
      hide Padded;
      PaddedWider(Value(rest, base), base, rest);
    }
  }

  function Power(base: Base, k: nat): (p: nat)
    ensures p > 0
  {
    if k == 0 then 1 else Times(Power(base, k - 1), base)
  }

  lemma {:induction false} NumeralLength(n: nat, base: Base, k: nat)
    requires k > 0 && n < Power(base, k)
    ensures |Numeral(n, base)| <= k
  {
    if n >= base {
      assert k > 1 by { assert Power(base, 0) == 1; }
      assert Remainder(n, base) >= 0;
      NumeralLength(Quotient(n, base), base, k - 1);
    }
  }

  /** A 64-bit number needs at most 20 decimal digits, and its `%016x` form is exactly 16 characters. */
  lemma PrintedWidths(n: U64)
    ensures |Numeral(n, 10)| <= 20
    ensures |Padded(n, 16, 16)| == 16
  {
    PowersOfTen();
    NumeralLength(n, 10, 20);
    PowersOfSixteen();
    NumeralLength(n, 16, 16);
  }

  lemma PowersOfTen()
    ensures Power(10, 20) == 100000000000000000000
  {
    assert Power(10, 5) == 100000;
    assert Power(10, 10) == 10000000000;
    assert Power(10, 15) == 1000000000000000;
  }

  lemma PowersOfSixteen()
    ensures Power(16, 16) == UINT_LIMIT
  {
    assert Power(16, 4) == 0x1_0000;
    assert Power(16, 8) == 0x1_0000_0000;
    assert Power(16, 12) == 0x1_0000_0000_0000;
  }

  // ----- Reading numbers (sections 7.8.2.3 and 7.22.1.4 of ISO C17) -----

  predicate IsSpace(c: char) {
    c == ' ' || '\t' <= c <= '\r'
  }

  function SpaceRun(s: string): (n: nat)
    ensures n <= |s| && (forall i :: 0 <= i < n ==> IsSpace(s[i])) && (n < |s| ==> !IsSpace(s[n]))
  {
    if s != [] && IsSpace(s[0]) then 1 + SpaceRun(s[1..]) else 0
  }

  function DigitRun(s: string, base: Base): (n: nat)
    ensures n <= |s| && AllDigits(s[..n], base) && (n < |s| ==> DigitValue(s[n]) >= base)
    ensures forall k :: 0 <= k < n ==> DigitValue(s[k]) < base
  {
    if s != [] && DigitValue(s[0]) < base then
      var n := 1 + DigitRun(s[1..], base);
      assert forall k :: 0 < k < n ==> s[k] == s[1..][k - 1];
      n
    else 0
  }

  /** What the `strto*` family recognises, before any range check; `end` is the index it stops at. */
  datatype Scan = NoNumber | Scanned(negative: bool, magnitude: nat, end: nat)

  predicate HasSign(s: string, k: nat) {
    k < |s| && (s[k] == '-' || s[k] == '+')
  }

  predicate HasHexPrefix(s: string, k: nat, base: Base) {
    base == 16 && k + 2 < |s| && s[k] == '0' && (s[k + 1] == 'x' || s[k + 1] == 'X') && DigitValue(s[k + 2]) < 16
  }

  /** The length of the optional white space, sign and, in base 16, `0x`. */
  function PrefixLength(s: string, base: Base): (k: nat)
    ensures k <= |s|
  {
    var space := SpaceRun(s);
    var k := if HasSign(s, space) then space + 1 else space;
    if HasHexPrefix(s, k, base) then k + 2 else k
  }

  function ScanNumber(s: string, base: Base): (r: Scan)
    ensures r.Scanned? ==> 0 < r.end <= |s|
  {
    var space := SpaceRun(s);
    var k := PrefixLength(s, base);
    var d := DigitRun(s[k..], base);
    if d == 0 then NoNumber else Scanned(space < |s| && s[space] == '-', Value(s[k..][..d], base), k + d)
  }

  /** The value, the index `end` points at, whether anything was converted and whether `errno` is `ERANGE`. */
  datatype Conversion = Conversion(value: int, end: nat, converted: bool, rangeError: bool)

  /** `strtoumax`, and `strtoul` where `unsigned long` has 64 bits: a minus sign negates modulo 2^64. */
  function StrToUnsigned(s: string, base: Base): (c: Conversion)
    ensures 0 <= c.value < UINT_LIMIT && c.end <= |s|
  {
    match ScanNumber(s, base)
    case NoNumber => Conversion(0, 0, false, false)
    case Scanned(negative, m, end) =>
      if m >= UINT_LIMIT then Conversion(UINT_LIMIT - 1, end, true, true)
      else Conversion(if negative && m > 0 then UINT_LIMIT - m else m, end, true, false)
  }

  /** `strtol` where `long` has 64 bits. */
  function StrToLong(s: string, base: Base): (c: Conversion)
    ensures -LONG_LIMIT <= c.value < LONG_LIMIT && c.end <= |s|
  {
    match ScanNumber(s, base)
    case NoNumber => Conversion(0, 0, false, false)
    case Scanned(negative, m, end) =>
      if negative then
        if m > LONG_LIMIT then Conversion(-LONG_LIMIT, end, true, true)
        else Conversion(0 - m as int, end, true, false)
      else
        if m >= LONG_LIMIT then Conversion(LONG_LIMIT - 1, end, true, true)
        else Conversion(m, end, true, false)
  }

  /** Text after which no number in any base can continue. */
  predicate Stops(rest: string) {
    rest == [] || DigitValue(rest[0]) == 36
  }

  lemma {:induction false} DigitRunPrefix(digits: string, rest: string, base: Base)
    requires AllDigits(digits, base) && (rest == [] || DigitValue(rest[0]) >= base)
    ensures DigitRun(digits + rest, base) == |digits|
  {
    var s := digits + rest;
    assert forall k :: 0 <= k < |digits| ==> s[k] == digits[k];
    assert rest != [] ==> s[|digits|] == rest[0];
  }

  lemma {:induction false} SpaceRunPrefix(spaces: string, rest: string)
    requires forall i :: 0 <= i < |spaces| ==> IsSpace(spaces[i])
    requires rest != [] && !IsSpace(rest[0])
    ensures SpaceRun(spaces + rest) == |spaces|
  {
    var s := spaces + rest;
    assert s[|spaces|] == rest[0];
    assert forall i :: 0 <= i < |spaces| ==> s[i] == spaces[i];
  }

  /** A decimal number as text: white space, a sign, at least one digit, and what follows the last digit. */
  ghost predicate SpelledAs(s: string, spaces: string, sign: string, digits: string, rest: string) {
    && s == spaces + (sign + (digits + rest))
    && (forall i :: 0 <= i < |spaces| ==> IsSpace(spaces[i]))
    && (sign == "" || sign == "+" || sign == "-")
    && digits != "" && AllDigits(digits, 10)
    && (rest == "" || DigitValue(rest[0]) >= 10)
  }

  lemma SignOrDigit(sign: string, digits: string, rest: string)
    requires sign == "" || sign == "+" || sign == "-"
    requires digits != "" && AllDigits(digits, 10)
    ensures var tail := sign + (digits + rest);
      tail != "" && !IsSpace(tail[0]) && (tail[0] == '-' <==> sign == "-") && (HasSign(tail, 0) <==> sign != "")
  {
    assert DigitValue(digits[0]) < 10;
    assert (sign + (digits + rest))[0] == if sign == "" then digits[0] else sign[0];
  }

  lemma AfterTwo(a: string, b: string, c: string)
    ensures (a + (b + c))[|a| + |b|..] == c
  {
  }

  lemma SpelledFront(s: string, spaces: string, tail: string, sign: string)
    requires s == spaces + tail && tail != "" && !IsSpace(tail[0])
    requires forall i :: 0 <= i < |spaces| ==> IsSpace(spaces[i])
    requires |sign| == if HasSign(tail, 0) then 1 else 0
    ensures SpaceRun(s) == |spaces| < |s| && s[|spaces|] == tail[0] && PrefixLength(s, 10) == |spaces| + |sign|
  {
    SpaceRunPrefix(spaces, tail);
    hide SpaceRun;
    assert s[|spaces|] == tail[0];
  }

  /** A text spelled as a number is read as that number. */
  lemma ScanSpelled(s: string, spaces: string, sign: string, digits: string, rest: string)
    requires SpelledAs(s, spaces, sign, digits, rest)
    ensures ScanNumber(s, 10) == Scanned(sign == "-", Value(digits, 10), |spaces| + |sign| + |digits|)
  {
    hide AllDigits;
    hide SpaceRun;
    hide PrefixLength;
    hide ScanNumber;
    hide Value;
    hide IsSpace;
    hide HasSign;
    SignOrDigit(sign, digits, rest);
    var tail := sign + (digits + rest);
    SpelledFront(s, spaces, tail, sign);
    AfterTwo(spaces, sign, digits + rest);
    ScanAfterPrefix(s, |spaces| + |sign|, digits, rest, 10);
  }

  lemma SignPart(s: string)
    ensures var n, k := SpaceRun(s), PrefixLength(s, 10);
      n <= k <= |s| && (s[n..k] == "" || s[n..k] == "+" || s[n..k] == "-")
  {
    hide SpaceRun;
  }

  lemma DigitPart(s: string)
    requires ScanNumber(s, 10).Scanned?
    ensures var k := PrefixLength(s, 10); DigitRun(s[k..], 10) > 0
  {
    hide PrefixLength;
    hide DigitRun;
    hide Value;
  }

  lemma CutTwice(s: string, n: nat, k: nat, d: nat)
    requires n <= k && k + d <= |s|
    ensures s == s[..n] + (s[n..k] + (s[k..][..d] + s[k..][d..]))
  {
  }

  /** And only such a text is read as a number at all. */
  lemma ScannedIsSpelled(s: string) returns (spaces: string, sign: string, digits: string, rest: string)
    requires ScanNumber(s, 10).Scanned?
    ensures SpelledAs(s, spaces, sign, digits, rest)
  {
    hide SpaceRun;
    hide PrefixLength;
    hide DigitRun;
    hide ScanNumber;
    hide AllDigits;
    SignPart(s);
    DigitPart(s);
    var n, k := SpaceRun(s), PrefixLength(s, 10);
    var d := DigitRun(s[k..], 10);
    spaces, sign, digits, rest := s[..n], s[n..k], s[k..][..d], s[k..][d..];
    CutTwice(s, n, k, d);
  }

  /** Once the sign and prefix are gone, a digit string is read whole and nothing after it. */
  lemma ScanAfterPrefix(s: string, k: nat, digits: string, rest: string, base: Base)
    requires k <= |s| && digits != [] && AllDigits(digits, base) && (rest == [] || DigitValue(rest[0]) >= base)
    requires s[k..] == digits + rest && PrefixLength(s, base) == k
    ensures var space := SpaceRun(s);
      ScanNumber(s, base) == Scanned(space < |s| && s[space] == '-', Value(digits, base), k + |digits|)
  {
    hide SpaceRun;
    hide PrefixLength;
    hide Value;
    hide DigitRun;
    hide AllDigits;
    hide DigitValue;
    DigitRunPrefix(digits, rest, base);
    TakeFront(digits, rest);
  }

  lemma TakeFront(a: string, b: string)
    ensures (a + b)[..|a|] == a
  {
  }

  lemma PrintedHasNoPrefix(digits: string, rest: string, base: Base)
    requires digits != [] && AllDigits(digits, base) && Stops(rest)
    ensures SpaceRun(digits + rest) == PrefixLength(digits + rest, base) == 0
  {
    var s := digits + rest;
    assert s[0] == digits[0];
    assert !HasHexPrefix(s, 0, base) by {
      assert |s| > 1 ==> s[1] == if |digits| > 1 then digits[1] else rest[0];
    }
  }

  /** Any printed digit string reads back as its value, ending exactly where it ends. */
  lemma ScanDigits(digits: string, rest: string, base: Base)
    requires digits != [] && AllDigits(digits, base) && Stops(rest)
    ensures ScanNumber(digits + rest, base) == Scanned(false, Value(digits, base), |digits|)
  {
    PrintedHasNoPrefix(digits, rest, base);
    var s := digits + rest;
    assert s[0..] == s && s[0] == digits[0];
    ScanAfterPrefix(s, 0, digits, rest, base);
  }

  /** The same after a sign, in base 10. */
  lemma ScanSigned(sign: char, digits: string, rest: string)
    requires sign == '-' || sign == '+'
    requires digits != [] && AllDigits(digits, 10) && Stops(rest)
    ensures ScanNumber([sign] + digits + rest, 10) == Scanned(sign == '-', Value(digits, 10), 1 + |digits|)
  {
    hide ScanNumber;
    hide Value;
    hide AllDigits;
    var s := [sign] + digits + rest;
    assert s == "" + ([sign] + (digits + rest));
    ScanSpelled(s, "", [sign], digits, rest);
  }

  lemma ScanNumeral(n: nat, rest: string, base: Base)
    requires Stops(rest)
    ensures ScanNumber(Numeral(n, base) + rest, base) == Scanned(false, n, |Numeral(n, base)|)
  {
    NumeralValue(n, base);
    ScanDigits(Numeral(n, base), rest, base);
  }

  lemma ScanDecimalInt(n: int, rest: string)
    requires Stops(rest)
    ensures ScanNumber(DecimalInt(n) + rest, 10) == Scanned(n < 0, if n < 0 then -n else n, |DecimalInt(n)|)
  {
    if n >= 0 {
      ScanNumeral(n, rest, 10);
    } else {
      NumeralValue(-n, 10);
      ScanSigned('-', Numeral(-n, 10), rest);
    }
  }

  lemma NumeralInjective(m: int, n: int)
    requires DecimalInt(m) == DecimalInt(n)
    ensures m == n
  {
    ScanDecimalInt(m, "");
    ScanDecimalInt(n, "");
  }

  /** Text that can stand inside a line: no newline and no NUL. */
  predicate Inline(s: string) {
    '\n' !in s && '\0' !in s
  }

  /** Printable text: no control characters at all. */
  predicate Printable(s: string) {
    forall i :: 0 <= i < |s| ==> ' ' <= s[i]
  }

  lemma PrintableIsPlain(s: string)
    requires Printable(s)
    ensures Inline(s) && '\t' !in s
  {
  }

  lemma DigitsInline(s: string, base: Base)
    requires AllDigits(s, base)
    ensures Inline(s) && '\t' !in s
  {
    forall i | 0 <= i < |s| ensures s[i] != '\n' && s[i] != '\0' && s[i] != '\t' {
      assert DigitValue(s[i]) < base;
    }
  }

  lemma DecimalIntInline(n: int)
    ensures Inline(DecimalInt(n)) && '\t' !in DecimalInt(n)
  {
    DigitsInline(Numeral(if n < 0 then -n else n, 10), 10);
  }
}
