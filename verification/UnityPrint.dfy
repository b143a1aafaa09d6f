/** Number printing in the bundled Unity test runner: 64-bit integers, and the decimal mantissa of a float. */
module UnityPrint {
  import opened CText

  type I32 = n: int | -0x8000_0000 <= n < 0x8000_0000

  // ----- Dividing by powers of ten -----

  /** The number without its last `k` decimal digits. */
  function Shifted(n: nat, k: nat): (r: nat) {
    if k == 0 then n else Shifted(n, k - 1) / 10
  }

  lemma DivUnique(n: nat, d: nat, q: nat, r: nat)
    requires d > 0 && n == d * q + r && r < d
    ensures n / d == q
  {
    var s, t := n / d, n % d;
    assert n == d * s + t && 0 <= t < d;
    assert d * (s - q) == r - t;
    if s > q {
      MulAtLeast(d, s - q);
    } else if s < q {
      MulAtLeast(d, q - s);
    }
  }

  lemma MulAtLeast(d: nat, m: nat)
    requires m > 0
    ensures d * m >= d
  {
  }

  lemma DivTen(n: nat, p: nat)
    requires p > 0
    ensures n / (10 * p) == n / p / 10
  {
    var a, s := n / p, n % p;
    assert n == p * a + s;
    var q, r := a / 10, a % 10;
    assert a == 10 * q + r;
    Distribute(p, q, r);
    assert n == 10 * p * q + (p * r + s);
    assert p * r <= p * 9 by { MulMonotone(p, r, 9); }
    DivUnique(n, 10 * p, q, p * r + s);
  }

  lemma MulMonotone(p: nat, a: nat, b: nat)
    requires a <= b
    ensures p * a <= p * b
  {
  }

  lemma Distribute(p: nat, q: nat, r: nat)
    ensures p * (10 * q + r) == 10 * p * q + p * r
  {
  }

  lemma {:induction false} DivPower(n: nat, k: nat)
    ensures n / Power(10, k) == Shifted(n, k)
  {
    if k > 0 {
      DivPower(n, k - 1);
      DivTen(n, Power(10, k - 1));
    }
  }

  lemma QuotientAtLeast(n: nat, d: nat, m: nat)
    requires d > 0 && n / d >= m
    ensures n >= d * m
  {
    MulMonotone(d, m, n / d);
    assert n == d * (n / d) + n % d;
  }

  /** What has been printed before the digit at position `k`: nothing while only zeros would lead. */
  function Before(n: nat, k: nat): (text: string) {
    if Shifted(n, k + 1) == 0 then "" else Numeral(Shifted(n, k + 1), 10)
  }

  lemma DigitStep(n: nat, k: nat)
    ensures Before(n, k) + [DigitChar(Shifted(n, k) % 10)] == Numeral(Shifted(n, k), 10)
  {
    var m := Shifted(n, k);
    assert Shifted(n, k + 1) == m / 10;
    if m < 10 { assert Before(n, k) + [DigitChar(m)] == [DigitChar(m)]; }
  }

  // ----- The printers -----

  /** The output stream of the runner. */
  class Printer {
    var output: string

    constructor ()
      ensures output == ""
    {
      output := "";
    }

    /** `UNITY_OUTPUT_CHAR` */
    method OutputChar(c: char)
      modifies this
      ensures output == old(output) + [c]
    {
      output := output + [c];
    }

    /** `UnityPrintNumberUnsigned`: find the leading power of ten, then one digit per power. Everything is a 64-bit
        word, and the divisor never wraps around. */
    method PrintNumberUnsigned(number: U64)
      modifies this
      ensures output == old(output) + Numeral(number, 10)
    {
      hide Numeral;
      hide Before;
      hide DigitChar;
      var divisor: U64 := 1;
      ghost var k: nat := 0;
      DivPower(number, 0);
      while number / divisor > 9
        invariant divisor == Power(10, k) && number / divisor == Shifted(number, k)
        invariant k > 0 ==> Shifted(number, k) > 0
        invariant output == old(output)
        decreases number - divisor
      {
        QuotientAtLeast(number, divisor, 10);
        divisor, k := 10 * divisor, k + 1;
        DivPower(number, k);
      }
      ghost var start := output;
      NothingBefore(number, k);
      assert output == start + Before(number, k);
      var again := true;
      while again
        invariant again ==> divisor == Power(10, k) && number / divisor == Shifted(number, k)
        invariant again ==> output == start + Before(number, k) && (k > 0 ==> Shifted(number, k) > 0)
        invariant !again ==> output == start + Numeral(number, 10)
        decreases divisor, again
      {
        DigitStep(number, k);
        OutputChar(DigitChar(number / divisor % 10));
        assert output == start + Numeral(Shifted(number, k), 10);
        NextPower(k);
        divisor := divisor / 10;
        again := divisor > 0;
        if again {
          SomethingBefore(number, k);
          k := k - 1;
          DivPower(number, k);
        } else {
          assert k == 0 && Shifted(number, k) == number;
        }
      }
    }

    /** `UnityPrintNumber`: a minus sign, and the magnitude by complement plus one on the 64-bit word. */
    method PrintNumber(number: I64)
      modifies this
      ensures output == old(output) + DecimalInt(number)
    {
      var word: U64 := if number < 0 then UINT_LIMIT + number else number;
      if number < 0 {
        OutputChar('-');
        word := Increment(Complement(word));
      }
      PrintNumberUnsigned(word);
    }
  }

  /** `~word` on 64 bits. */
  function Complement(word: U64): (r: U64) {
    UINT_LIMIT - 1 - word
  }

  /** `word + 1` on 64 bits. */
  function Increment(word: U64): (r: U64) {
    if word == UINT_LIMIT - 1 then 0 else word + 1
  }

  lemma NothingBefore(n: nat, k: nat)
    requires Shifted(n, k) <= 9
    ensures Before(n, k) == ""
  {
    assert Shifted(n, k + 1) == Shifted(n, k) / 10;
  }

  lemma SomethingBefore(n: nat, k: nat)
    requires k > 0 && Shifted(n, k) > 0
    ensures Before(n, k - 1) == Numeral(Shifted(n, k), 10)
    ensures Shifted(n, k - 1) > 0
  {
  }

  lemma NextPower(k: nat)
    ensures Power(10, k) / 10 == if k == 0 then 0 else Power(10, k - 1)
  {
  }

  /** Every 64-bit number, the most negative included, is printed as the decimal text that reads back as it. */
  lemma PrintedNumberReadsBack(number: I64)
    ensures StrToLong(DecimalInt(number), 10) == Conversion(number, |DecimalInt(number)|, true, false)
  {
    ScanDecimalInt(number, "");
    assert DecimalInt(number) + "" == DecimalInt(number);
    hide ScanNumber;
  }

  // ----- The decimal mantissa of a float -----

  /** `sig_digits`: 7 as the runner is built by default, 9 where floats have double precision. */
  type SigDigits = n: int | n == 7 || n == 9 witness 7

  const BUFFER_SIZE: nat := 16

  /** Exponents for which no later arithmetic leaves an `int`; every double has one far inside. */
  type Exponent = e: int | -0x7FFF_FFF0 <= e <= 0x7FFF_FFF0

  /** How many digits go after the point before trailing zeros are dropped. */
  function Decimals(sigDigits: SigDigits, exponent: Exponent): (d: nat)
    ensures d <= 12
  {
    if exponent <= 0 && exponent >= -(sigDigits + 3) then -exponent else sigDigits - 1
  }

  /** Dropping zeros at the end of the fraction. */
  function Trim(n: nat, decimals: nat): (r: (nat, nat))
    ensures r.1 <= decimals && r.0 <= n
  {
    if decimals > 0 && n % 10 == 0 then Trim(n / 10, decimals - 1) else (n, decimals)
  }

  /** At least `least` decimal digits of a number. */
  function Digits(n: nat, least: nat): (s: string)
    ensures |s| >= least && AllDigits(s, 10)
    decreases n, least
  {
    if n == 0 && least == 0 then ""
    else Digits(n / 10, if least > 0 then least - 1 else 0) + [DigitChar(n % 10)]
  }

  /** Digits with a point before the last `decimals` of them. */
  function Pointed(digits: string, decimals: nat): (text: string)
    requires decimals < |digits|
  {
    if decimals == 0 then digits else digits[..|digits| - decimals] + "." + digits[|digits| - decimals..]
  }

  function ExponentText(exponent: int): (text: string) {
    if exponent == 0 then ""
    else if exponent < 0 then "e-" + Digits(-exponent, 2)
    else "e+" + Digits(exponent, 2)
  }

  /** The text for `n` times ten to the `exponent`. */
  function FloatText(sigDigits: SigDigits, n: nat, exponent: Exponent): (text: string) {
    var decimals := Decimals(sigDigits, exponent);
    var (m, d) := Trim(n, decimals);
    Pointed(Digits(m, d + 1), d) + ExponentText(exponent + decimals)
  }

  /** Enough room for a 10-digit number, or for `least` digits. */
  lemma {:induction false} DigitsLength(n: nat, least: nat, k: nat)
    requires n < Power(10, k) && least <= k
    ensures |Digits(n, least)| <= k
    decreases n, least
  {
    assert Power(10, 0) == 1;
    if n != 0 || least != 0 {
      assert n / 10 < Power(10, k - 1);
      DigitsLength(n / 10, if least > 0 then least - 1 else 0, k - 1);
    }
  }

  lemma Fits(n: nat, least: nat)
    requires n < 0x8000_0000 && least <= 13
    ensures |Digits(n, least)| <= 13
  {
    assert Power(10, 5) == 100000;
    assert Power(10, 10) == 10000000000;
    assert Power(10, 13) == 10000000000000;
    DigitsLength(n, least, 13);
  }

  function Reversed(s: string): (r: string)
    ensures |r| == |s| && forall i :: 0 <= i < |s| ==> r[i] == s[|s| - 1 - i]
  {
    seq(|s|, i requires 0 <= i < |s| => s[|s| - 1 - i])
  }

  /** The digits of a number, last first, into the buffer. */
  method FillBuffer(buf: array<char>, value: nat, least: nat) returns (digits: nat)
    requires buf.Length == BUFFER_SIZE && |Digits(value, least)| <= BUFFER_SIZE
    modifies buf
    ensures digits == |Digits(value, least)| <= buf.Length
    ensures Reversed(buf[..digits]) == Digits(value, least)
  {
    var n := value;
    digits := 0;
    ghost var left := least;
    assert Digits(value, least) == Digits(n, left) + Reversed(buf[..0]);
    while n != 0 || digits < least
      invariant digits <= buf.Length && left == (if digits < least then least - digits else 0)
      invariant Digits(value, least) == Digits(n, left) + Reversed(buf[..digits])
      decreases n, left
    {
      ghost var before := buf[..digits];
      assert |Digits(n, left)| > 0;
      buf[digits] := DigitChar(n % 10);
      assert buf[..digits + 1] == before + [DigitChar(n % 10)];
      ReversedSnoc(before, DigitChar(n % 10));
      digits, left := digits + 1, if left > 0 then left - 1 else 0;
      n := n / 10;
    }
  }

  lemma ReversedSnoc(s: string, c: char)
    ensures Reversed(s + [c]) == [c] + Reversed(s)
  {
  }

  /** Printing a filled buffer backwards, with the point where it belongs. */
  method PrintBuffer(printer: Printer, buf: array<char>, count: nat, decimals: nat)
    requires count <= buf.Length && decimals < count
    modifies printer
    ensures printer.output == old(printer.output) + Pointed(Reversed(buf[..count]), decimals)
  {
    var digits: nat := count;
    assert Reversed(buf[..count])[..0] == "";
    ghost var text, start := Reversed(buf[..count]), printer.output;
    while digits > 0
      invariant digits <= count && text == Reversed(buf[..count])
      invariant printer.output == start + Printed(text, digits, decimals)
    {
      PrintedStep(text, digits, decimals);
      if digits == decimals { printer.OutputChar('.'); }
      digits := digits - 1;
      assert text[count - digits - 1] == buf[..count][digits];
      printer.OutputChar(buf[digits]);
    }
    assert text[..|text|] == text && text[|text| - decimals..|text|] == text[|text| - decimals..];
  }

  /** What has been printed when `digits` characters remain. */
  function Printed(text: string, digits: nat, decimals: nat): (r: string)
    requires digits <= |text| && decimals < |text|
  {
    if digits >= decimals then text[..|text| - digits]
    else text[..|text| - decimals] + "." + text[|text| - decimals..|text| - digits]
  }

  lemma PrintedStep(text: string, digits: nat, decimals: nat)
    requires 0 < digits <= |text| && decimals < |text|
    ensures Printed(text, digits - 1, decimals)
      == Printed(text, digits, decimals) + (if digits == decimals then "." else "") + [text[|text| - digits]]
  {
    assert text[..|text| - digits + 1] == text[..|text| - digits] + [text[|text| - digits]];
  }

  /** The loop that truncates trailing zeros after the point. */
  method DropZeros(mantissa: I32, places: I32) returns (n: I32, decimals: I32)
    requires mantissa >= 0 && places >= 0
    ensures 0 <= n <= mantissa && 0 <= decimals <= places && (n as int, decimals as int) == Trim(mantissa, places)
  {
    n, decimals := mantissa, places;
    while decimals > 0 && n % 10 == 0
      invariant 0 <= n <= mantissa && 0 <= decimals <= places
      invariant Trim(n, decimals) == Trim(mantissa, places)
    {
      n, decimals := n / 10, decimals - 1;
    }
  }

  /** `UnityPrintFloat` from the rounded mantissa and its power of ten on. */
  method PrintMantissa(printer: Printer, sigDigits: SigDigits, mantissa: I32, power: Exponent)
    requires mantissa >= 0
    modifies printer
    ensures printer.output == old(printer.output) + FloatText(sigDigits, mantissa, power)
  {
    hide Digits;
    hide Trim;
    hide Pointed;
    hide ExponentText;
    var buf := new char[BUFFER_SIZE](_ => '\0');
    var n: I32, exponent: I32 := mantissa, power;
    var decimals: I32 := if exponent <= 0 && exponent >= -(sigDigits + 3) then -exponent else sigDigits - 1;
    assert decimals == Decimals(sigDigits, power);
    exponent := exponent + decimals;
    hide Decimals;
    n, decimals := DropZeros(n, decimals);
    ghost var first, second := Pointed(Digits(n, decimals + 1), decimals), ExponentText(exponent);
    assert first + second == FloatText(sigDigits, mantissa, power);
    hide FloatText;
    Fits(n, decimals + 1);
    PrintDigits(printer, buf, n, decimals);
    PrintExponent(printer, buf, exponent);
    assert printer.output == old(printer.output) + first + second;
    assert old(printer.output) + first + second == old(printer.output) + (first + second);
  }

  /** The mantissa with its point. */
  method PrintDigits(printer: Printer, buf: array<char>, n: nat, decimals: nat)
    requires buf.Length == BUFFER_SIZE && |Digits(n, decimals + 1)| <= BUFFER_SIZE
    modifies printer, buf
    ensures printer.output == old(printer.output) + Pointed(Digits(n, decimals + 1), decimals)
  {
    hide Digits;
    hide Pointed;
    var digits := FillBuffer(buf, n, decimals + 1);
    PrintBuffer(printer, buf, digits, decimals);
  }

  /** The exponent, if there is one: sign and at least two digits. */
  method PrintExponent(printer: Printer, buf: array<char>, power: I32)
    requires buf.Length == BUFFER_SIZE && power > -0x8000_0000
    modifies printer, buf
    ensures printer.output == old(printer.output) + ExponentText(power)
  {
    hide Digits;
    var exponent := power;
    if exponent != 0 {
      ghost var sign := if exponent < 0 then "e-" else "e+";
      printer.OutputChar('e');
      if exponent < 0 {
        printer.OutputChar('-');
        exponent := -exponent;
      } else {
        printer.OutputChar('+');
      }
      assert printer.output == old(printer.output) + sign;
      Fits(exponent, 2);
      hide Power;
      var digits := FillBuffer(buf, exponent, 2);
      PrintBuffer(printer, buf, digits, 0);
      assert printer.output == old(printer.output) + sign + Digits(exponent, 2);
      assert old(printer.output) + sign + Digits(exponent, 2) == old(printer.output) + (sign + Digits(exponent, 2));
    }
  }

  // ----- What the text denotes -----

  /** A decimal text as read: all its digits, how many of them follow the point, and its exponent. */
  datatype Reading = NotANumber | Reading(mantissa: nat, decimals: nat, exponent: int)

  function ReadExponent(tail: string): (e: (bool, int)) {
    if tail == "" then (true, 0)
    else if tail[0] != 'e' then (false, 0)
    else
      match ScanNumber(tail[1..], 10)
      case NoNumber => (false, 0)
      case Scanned(negative, m, end) => if end == |tail| - 1 then (true, if negative then 0 - m as int else m) else (false, 0)
  }

  /** Digits, perhaps a point and more digits, perhaps `e` with a signed exponent, and nothing else. */
  function ReadDecimal(text: string): (r: Reading) {
    var i := DigitRun(text, 10);
    var rest := text[i..];
    if i == 0 then NotANumber
    else if rest != "" && rest[0] == '.' then
      var j := DigitRun(rest[1..], 10);
      ReadParts(text[..i], rest[1..][..j], rest[1..][j..])
    else ReadParts(text[..i], "", rest)
  }

  function ReadParts(whole: string, fraction: string, tail: string): (r: Reading)
    requires AllDigits(whole, 10) && AllDigits(fraction, 10)
  {
    var (ok, exponent) := ReadExponent(tail);
    assert AllDigits(whole + fraction, 10);
    if ok then Reading(Value(whole + fraction, 10), |fraction|, exponent) else NotANumber
  }

  lemma {:induction false} DigitsValue(n: nat, least: nat)
    ensures Value(Digits(n, least), 10) == n
    decreases n, least
  {
    if n != 0 || least != 0 {
      var less := if least > 0 then least - 1 else 0;
      DigitsValue(n / 10, less);
      ValueSnoc(Digits(n / 10, less), DigitChar(n % 10), 10);
    }
  }

  lemma SignedReadsBack(sign: char, digits: string)
    requires (sign == '-' || sign == '+') && digits != [] && AllDigits(digits, 10)
    ensures ReadExponent("e" + [sign] + digits)
      == (true, if sign == '-' then 0 - Value(digits, 10) as int else Value(digits, 10))
  {
    hide ScanNumber;
    hide Value;
    hide AllDigits;
    ScanSigned(sign, digits, "");
    var text := "e" + [sign] + digits;
    assert text[1..] == [sign] + digits + "";
  }

  lemma ExponentReadsBack(exponent: int)
    ensures ReadExponent(ExponentText(exponent)) == (true, exponent)
    ensures ExponentText(exponent) == "" || ExponentText(exponent)[0] == 'e'
  {
    hide Digits;
    hide ReadExponent;
    hide Value;
    hide AllDigits;
    assert ReadExponent("") == (true, 0) by { NoExponent(); }
    if exponent < 0 {
      DigitsValue(-exponent, 2);
      SignedReadsBack('-', Digits(-exponent, 2));
      assert ExponentText(exponent) == "e" + ['-'] + Digits(-exponent, 2);
    } else if exponent > 0 {
      DigitsValue(exponent, 2);
      SignedReadsBack('+', Digits(exponent, 2));
      assert ExponentText(exponent) == "e" + ['+'] + Digits(exponent, 2);
    }
  }

  lemma NoExponent()
    ensures ReadExponent("") == (true, 0)
  {
  }

  lemma ReadWhole(whole: string, tail: string)
    requires whole != "" && AllDigits(whole, 10) && (tail == "" || tail[0] == 'e')
    ensures ReadDecimal(whole + tail) == ReadParts(whole, "", tail)
  {
    DigitRunPrefix(whole, tail, 10);
    hide DigitRun;
    hide ReadParts;
    assert (whole + tail)[..|whole|] == whole && (whole + tail)[|whole|..] == tail;
  }

  lemma ReadFraction(whole: string, fraction: string, tail: string)
    requires whole != "" && AllDigits(whole, 10) && AllDigits(fraction, 10) && (tail == "" || tail[0] == 'e')
    ensures ReadDecimal(whole + ("." + (fraction + tail))) == ReadParts(whole, fraction, tail)
  {
    var rest := "." + (fraction + tail);
    DigitRunPrefix(whole, rest, 10);
    DigitRunPrefix(fraction, tail, 10);
    hide DigitRun;
    hide ReadParts;
    assert (whole + rest)[..|whole|] == whole && (whole + rest)[|whole|..] == rest;
    assert rest[1..] == fraction + tail;
    assert (fraction + tail)[..|fraction|] == fraction && (fraction + tail)[|fraction|..] == tail;
  }

  lemma PointedReadsBack(digits: string, decimals: nat, tail: string)
    requires AllDigits(digits, 10) && decimals < |digits|
    requires tail == "" || tail[0] == 'e'
    ensures ReadDecimal(Pointed(digits, decimals) + tail)
      == ReadParts(digits[..|digits| - decimals], digits[|digits| - decimals..], tail)
  {
    hide ReadParts;
    hide ReadDecimal;
    var whole, fraction := digits[..|digits| - decimals], digits[|digits| - decimals..];
    if decimals == 0 {
      assert whole == digits && fraction == "";
      ReadWhole(digits, tail);
    } else {
      assert Pointed(digits, decimals) + tail == whole + ("." + (fraction + tail));
      ReadFraction(whole, fraction, tail);
    }
  }

  /** Dropping zeros keeps the value: each dropped zero is a factor of ten. */
  lemma {:induction false} TrimKeepsValue(n: nat, decimals: nat)
    ensures n == Trim(n, decimals).0 * Power(10, decimals - Trim(n, decimals).1)
  {
    if decimals > 0 && n % 10 == 0 {
      TrimKeepsValue(n / 10, decimals - 1);
      var (m, d) := Trim(n / 10, decimals - 1);
      TimesTen(m, Power(10, decimals - 1 - d));
    }
  }

  lemma TimesTen(m: nat, p: nat)
    ensures m * (10 * p) == 10 * (m * p)
  {
  }

  /** Nothing is lost: the printed text denotes exactly `n` times ten to the `exponent`. Its own power of ten is
      never below the given one, and its digits make up the difference. */
  lemma FloatTextDenotes(sigDigits: SigDigits, n: nat, exponent: Exponent)
    ensures var text := ReadDecimal(FloatText(sigDigits, n, exponent));
      && text.Reading?
      && text.exponent - text.decimals >= exponent
      && n == text.mantissa * Power(10, text.exponent - text.decimals - exponent)
  {
    hide Power;
    hide ReadDecimal;
    hide FloatText;
    hide Trim;
    var decimals := Decimals(sigDigits, exponent);
    TrimKeepsValue(n, decimals);
    FloatReading(sigDigits, n, exponent);
  }

  /** The text as read: the digits left after dropping zeros, how many of them follow the point, and the exponent. */
  lemma FloatReading(sigDigits: SigDigits, n: nat, exponent: Exponent)
    ensures var decimals := Decimals(sigDigits, exponent);
      var (m, d) := Trim(n, decimals);
      ReadDecimal(FloatText(sigDigits, n, exponent)) == Reading(m, d, exponent + decimals)
  {
    hide Value;
    hide AllDigits;
    hide Pointed;
    hide ExponentText;
    hide ReadDecimal;
    hide ReadExponent;
    hide Digits;
    hide Trim;
    var decimals := Decimals(sigDigits, exponent);
    var (m, d) := Trim(n, decimals);
    var digits := Digits(m, d + 1);
    DigitsValue(m, d + 1);
    ExponentReadsBack(exponent + decimals);
    PointedReadsBack(digits, d, ExponentText(exponent + decimals));
    assert digits[..|digits| - d] + digits[|digits| - d..] == digits;
  }

  // ----- The form of the text -----

  lemma {:induction false} TrimDrops(n: nat, decimals: nat)
    ensures var (m, d) := Trim(n, decimals);
      (d > 0 ==> m % 10 != 0) && (n < Power(10, decimals + 1) ==> m < Power(10, d + 1))
  {
    if decimals > 0 && n % 10 == 0 {
      TrimDrops(n / 10, decimals - 1);
    }
  }

  /** The text has no exponent exactly for small negative powers of ten; no zero ends its fraction; and with an exponent a
      number of at most `sigDigits` digits has a single digit before the point. */
  lemma FloatForm(sigDigits: SigDigits, n: nat, exponent: Exponent)
    ensures var text, plain := FloatText(sigDigits, n, exponent), -(sigDigits + 3) <= exponent <= 0;
      var r := ReadDecimal(text);
      && r.Reading?
      && r.exponent == (if plain then 0 else exponent + sigDigits - 1)
      && r.decimals <= (if plain then -exponent else sigDigits - 1)
      && (r.decimals > 0 ==> r.mantissa % 10 != 0)
      && (!plain && n < Power(10, sigDigits) ==> DigitRun(text, 10) == 1)
  {
    var decimals := Decimals(sigDigits, exponent);
    TrimDrops(n, decimals);
    FloatReading(sigDigits, n, exponent);
    hide ReadDecimal;
    hide FloatText;
    hide Trim;
    if n < Power(10, sigDigits) && decimals == sigDigits - 1 {
      OneDigitFirst(sigDigits, n, exponent);
    }
  }

  lemma OneDigitFirst(sigDigits: SigDigits, n: nat, exponent: Exponent)
    requires Decimals(sigDigits, exponent) == sigDigits - 1 && n < Power(10, sigDigits)
    ensures DigitRun(FloatText(sigDigits, n, exponent), 10) == 1
  {
    var decimals := Decimals(sigDigits, exponent);
    TrimDrops(n, decimals);
    var (m, d) := Trim(n, decimals);
    hide Trim;
    DigitsLength(m, d + 1, d + 1);
    hide Power;
    ExponentReadsBack(exponent + decimals);
    hide ReadExponent;
    hide ExponentText;
    hide Digits;
    WholePart(Digits(m, d + 1), d, ExponentText(exponent + decimals));
    hide Pointed;
    hide DigitRun;
  }

  /** The digits before the point are those the text begins with. */
  lemma WholePart(digits: string, decimals: nat, tail: string)
    requires AllDigits(digits, 10) && decimals < |digits| && (tail == "" || tail[0] == 'e')
    ensures DigitRun(Pointed(digits, decimals) + tail, 10) == |digits| - decimals
  {
    var whole, fraction := digits[..|digits| - decimals], digits[|digits| - decimals..];
    if decimals == 0 {
      assert whole == digits;
      DigitRunPrefix(digits, tail, 10);
    } else {
      var rest := "." + (fraction + tail);
      assert Pointed(digits, decimals) + tail == whole + rest;
      DigitRunPrefix(whole, rest, 10);
    }
  }
}
