/** Which texts `strtoumax` and `strtoul` take for which numbers (section 7.8.2.3 of ISO C17), said without scanning. */
module Numbers {
  import opened CText

  /** White space, a sign, in base 16 perhaps `0x`, and digits. */
  ghost predicate NumberParts(t: string, base: Base, spaces: string, sign: string, hex: string, digits: string) {
    && t == spaces + (sign + (hex + digits))
    && (forall i :: 0 <= i < |spaces| ==> IsSpace(spaces[i]))
    && (sign == "" || sign == "+" || sign == "-")
    && (hex == "" || (base == 16 && (hex == "0x" || hex == "0X")))
    && digits != "" && AllDigits(digits, base)
  }

  /** A minus sign negates modulo 2^64. */
  function Signed(sign: string, magnitude: nat): (r: int) {
    if sign == "-" && magnitude > 0 then UINT_LIMIT - magnitude else magnitude
  }

  /** The text is a number that fits 64 bits, and this is its value. */
  ghost predicate NumberText(t: string, base: Base, value: int) {
    exists spaces, sign, hex, digits :: NumberParts(t, base, spaces, sign, hex, digits)
      && Value(digits, base) < UINT_LIMIT && value == Signed(sign, Value(digits, base))
  }

  // ----- Reading such a text -----

  lemma NoSpaceFirst(sign: string, hex: string, digits: string, rest: string, base: Base)
    requires sign == "" || sign == "+" || sign == "-"
    requires hex == "" || hex == "0x" || hex == "0X"
    requires digits != "" && AllDigits(digits, base)
    ensures var tail := sign + (hex + (digits + rest));
      tail != "" && !IsSpace(tail[0]) && (tail[0] == '-' <==> sign == "-") && (HasSign(tail, 0) <==> sign != "")
  {
    assert DigitValue(digits[0]) < base;
    var tail := sign + (hex + (digits + rest));
    assert tail[0] == if sign != "" then sign[0] else if hex != "" then hex[0] else digits[0];
  }

  lemma HexFirst(s: string, k: nat, hex: string, digits: string, rest: string, base: Base)
    requires k <= |s| && s[k..] == hex + (digits + rest)
    requires hex == "" || (base == 16 && (hex == "0x" || hex == "0X"))
    requires digits != "" && AllDigits(digits, base) && Stops(rest)
    ensures HasHexPrefix(s, k, base) <==> hex != ""
  {
    var tail := digits + rest;
    assert tail[0] == digits[0] && DigitValue(digits[0]) < base;
    assert |tail| > 1 ==> tail[1] == if |digits| > 1 then digits[1] else rest[0];
    assert |digits| > 1 ==> DigitValue(digits[1]) < base;
    assert forall i :: 0 <= i < |s[k..]| ==> s[k + i] == s[k..][i];
    if hex != "" {
      assert s[k..][2] == tail[0] && s[k..][0] == hex[0] && s[k..][1] == hex[1];
    } else {
      assert s[k..] == tail;
    }
  }

  lemma PrefixIs(s: string, spaces: string, sign: string, tail: string, base: Base)
    requires s == spaces + (sign + tail) && sign + tail != "" && !IsSpace((sign + tail)[0])
    requires forall i :: 0 <= i < |spaces| ==> IsSpace(spaces[i])
    requires |sign| == if HasSign(sign + tail, 0) then 1 else 0
    ensures SpaceRun(s) == |spaces| < |s| && s[|spaces|] == (sign + tail)[0]
    ensures var k := |spaces| + |sign|; PrefixLength(s, base) == if HasHexPrefix(s, k, base) then k + 2 else k
  {
    SpaceRunPrefix(spaces, sign + tail);
    hide SpaceRun;
    hide HasHexPrefix;
    assert s[|spaces|] == (sign + tail)[0];
  }

  lemma PartsPrefix(s: string, base: Base, spaces: string, sign: string, hex: string, digits: string, rest: string)
    requires NumberParts(spaces + (sign + (hex + digits)), base, spaces, sign, hex, digits) && Stops(rest)
    requires s == spaces + (sign + (hex + (digits + rest)))
    ensures PrefixLength(s, base) == |spaces| + |sign| + |hex|
    ensures SpaceRun(s) < |s| && (s[SpaceRun(s)] == '-' <==> sign == "-")
  {
    hide AllDigits;
    hide SpaceRun;
    hide PrefixLength;
    hide HasHexPrefix;
    NoSpaceFirst(sign, hex, digits, rest, base);
    hide HasSign;
    hide IsSpace;
    var tail := hex + (digits + rest);
    PrefixIs(s, spaces, sign, tail, base);
    AfterTwo(spaces, sign, tail);
    HexFirst(s, |spaces| + |sign|, hex, digits, rest, base);
  }

  /** A number text is scanned as its parts say, whatever stops it. */
  lemma ScanParts(t: string, rest: string, base: Base, spaces: string, sign: string, hex: string, digits: string)
    requires NumberParts(t, base, spaces, sign, hex, digits) && Stops(rest)
    ensures ScanNumber(t + rest, base) == Scanned(sign == "-", Value(digits, base), |t|)
  {
    hide AllDigits;
    hide SpaceRun;
    hide PrefixLength;
    hide ScanNumber;
    hide Value;
    hide IsSpace;
    Regroup(spaces, sign, hex, digits, rest);
    PartsPrefix(t + rest, base, spaces, sign, hex, digits, rest);
    AfterThree(spaces, sign, hex, digits + rest);
    StopsEnds(rest, base);
    hide Stops;
    ScanAfterPrefix(t + rest, |spaces| + |sign| + |hex|, digits, rest, base);
  }

  lemma StopsEnds(rest: string, base: Base)
    requires Stops(rest)
    ensures rest == [] || DigitValue(rest[0]) >= base
  {
  }

  lemma Regroup(a: string, b: string, c: string, d: string, e: string)
    ensures (a + (b + (c + d))) + e == a + (b + (c + (d + e)))
  {
  }

  lemma AfterThree(a: string, b: string, c: string, d: string)
    ensures (a + (b + (c + d)))[|a| + |b| + |c|..] == d
  {
  }

  /** What is scanned is such a text. */
  lemma ScannedParts(s: string, base: Base) returns (spaces: string, sign: string, hex: string, digits: string)
    requires ScanNumber(s, base).Scanned?
    ensures NumberParts(s[..ScanNumber(s, base).end], base, spaces, sign, hex, digits)
    ensures ScanNumber(s, base).negative <==> sign == "-"
    ensures ScanNumber(s, base).magnitude == Value(digits, base)
  {
    ScanFacts(s, base);
    hide ScanNumber;
    hide SpaceRun;
    hide DigitRun;
    hide AllDigits;
    hide Value;
    var n, k := SpaceRun(s), PrefixLength(s, base);
    var d := DigitRun(s[k..], base);
    SignAndHex(s, base);
    hide PrefixLength;
    hide HasSign;
    hide HasHexPrefix;
    var j := if HasSign(s, n) then n + 1 else n;
    spaces, sign, hex, digits := s[..n], s[n..j], s[j..k], s[k..][..d];
    CutFour(s, n, j, k, d);
  }

  lemma ScanFacts(s: string, base: Base)
    requires ScanNumber(s, base).Scanned?
    ensures var n, k := SpaceRun(s), PrefixLength(s, base);
      var d := DigitRun(s[k..], base);
      && d > 0
      && ScanNumber(s, base) == Scanned(n < |s| && s[n] == '-', Value(s[k..][..d], base), k + d)
  {
    hide SpaceRun;
    hide PrefixLength;
    hide DigitRun;
    hide Value;
  }

  lemma SignSlice(s: string, n: nat)
    requires n <= |s|
    ensures var j := if HasSign(s, n) then n + 1 else n;
      j <= |s| && (s[n..j] == "" || s[n..j] == "+" || s[n..j] == "-") && (s[n..j] == "-" <==> n < |s| && s[n] == '-')
  {
    if n < |s| { assert s[n..n + 1] == [s[n]]; }
  }

  lemma HexSlice(s: string, j: nat, base: Base)
    requires j <= |s|
    ensures var k := if HasHexPrefix(s, j, base) then j + 2 else j;
      k <= |s| && (s[j..k] == "" || (base == 16 && (s[j..k] == "0x" || s[j..k] == "0X")))
  {
    if HasHexPrefix(s, j, base) { assert s[j..j + 2] == [s[j], s[j + 1]]; }
  }

  lemma PrefixIsSum(s: string, base: Base)
    ensures var n := SpaceRun(s);
      var j := if HasSign(s, n) then n + 1 else n;
      PrefixLength(s, base) == if HasHexPrefix(s, j, base) then j + 2 else j
  {
    hide SpaceRun;
    hide HasSign;
    hide HasHexPrefix;
  }

  lemma SignAndHex(s: string, base: Base)
    ensures var n := SpaceRun(s);
      var j, k := if HasSign(s, n) then n + 1 else n, PrefixLength(s, base);
      && n <= j <= k <= |s|
      && (s[n..j] == "" || s[n..j] == "+" || s[n..j] == "-") && (s[n..j] == "-" <==> n < |s| && s[n] == '-')
      && (s[j..k] == "" || (base == 16 && (s[j..k] == "0x" || s[j..k] == "0X")))
  {
    hide SpaceRun;
    hide HasSign;
    hide HasHexPrefix;
    hide PrefixLength;
    var n := SpaceRun(s);
    var j := if HasSign(s, n) then n + 1 else n;
    SignSlice(s, n);
    HexSlice(s, j, base);
    PrefixIsSum(s, base);
  }

  lemma CutFour(s: string, n: nat, j: nat, k: nat, d: nat)
    requires n <= j <= k && k + d <= |s|
    ensures s[..k + d] == s[..n] + (s[n..j] + (s[j..k] + s[k..][..d]))
  {
  }

  /** A number text in range is converted to its value, whatever stops it. */
  lemma NumberIsRead(t: string, rest: string, base: Base, value: int)
    requires NumberText(t, base, value) && Stops(rest)
    ensures 0 <= value < UINT_LIMIT
    ensures StrToUnsigned(t + rest, base) == Conversion(value, |t|, true, false)
  {
    var spaces, sign, hex, digits :| NumberParts(t, base, spaces, sign, hex, digits)
      && Value(digits, base) < UINT_LIMIT && value == Signed(sign, Value(digits, base));
    ScanParts(t, rest, base, spaces, sign, hex, digits);
    hide ScanNumber;
    hide NumberParts;
    hide Value;
  }

  /** And whatever is converted without a range error is a number text with that value. */
  lemma ReadIsNumber(s: string, base: Base)
    requires StrToUnsigned(s, base).converted && !StrToUnsigned(s, base).rangeError
    ensures NumberText(s[..StrToUnsigned(s, base).end], base, StrToUnsigned(s, base).value)
  {
    var spaces, sign, hex, digits := ScannedParts(s, base);
    hide ScanNumber;
    hide NumberParts;
    hide Value;
  }

  /** What the digits are worth, and which characters are white space. */
  lemma DigitsAnchored()
    ensures forall c: char :: IsSpace(c) <==> c == ' ' || c == '\t' || c == '\n' || c == 11 as char || c == 12 as char || c == '\r'
    ensures forall c: char :: '0' <= c <= '9' ==> DigitValue(c) == c as int - '0' as int
    ensures DigitValue('a') == DigitValue('A') == 10 && DigitValue('f') == DigitValue('F') == 15
    ensures Numeral(1203, 10) == "1203" && Numeral(0xbeef, 16) == "beef" && Padded(42, 16, 4) == "002a"
  {
    assert Numeral(1, 10) == "1" && Numeral(12, 10) == "12" && Numeral(120, 10) == "120";
    assert Numeral(0xb, 16) == "b" && Numeral(0xbe, 16) == "be" && Numeral(0xbee, 16) == "bee";
    assert Numeral(2, 16) == "2" && Numeral(42, 16) == "2a";
    assert Zeros(2) + "2a" == "002a";
  }
}
