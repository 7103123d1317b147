/** `String(x)` and `Number(text)`: the four layouts of a printed number and
    the parser that reads them back. A decimal text denotes an exact real; the
    rounding of that real to a double is the host language's. */
module NumberText {
  import opened Common
  import opened Radix

  // --- Digits --------------------------------------------------------------------------

  predicate IsDigit(c: char) {
    '0' <= c <= '9'
  }

  predicate AllDecimal(s: string) {
    forall i :: 0 <= i < |s| ==> IsDigit(s[i])
  }

  /** The integer of decimal digits. */
  function DecimalInteger(s: string): nat
    requires AllDecimal(s)
  {
    if s == [] then 0 else 10 * DecimalInteger(s[..|s| - 1]) + (s[|s| - 1] as nat - '0' as nat)
  }

  function DigitChar(d: nat): (c: char)
    requires d < 10
    ensures IsDigit(c) && c as nat - '0' as nat == d
  {
    ('0' as nat + d) as char
  }

  /** The decimal text of an integer. */
  function NatToString(n: nat): (s: string)
    ensures s != "" && AllDecimal(s)
    ensures DecimalInteger(s) == n
  {
    if n < 10 then
      assert DecimalInteger([]) == 0;
      [DigitChar(n)]
    else
      var front := NatToString(n / 10);
      DecimalPush(front, DigitChar(n % 10));
      front + [DigitChar(n % 10)]
  }

  function Zeros(n: nat): (s: string)
    ensures |s| == n && AllDecimal(s)
  {
    seq(n, i => '0')
  }

  /** 10^e. */
  function Pow10(e: int): (p: real)
    decreases if e < 0 then -e else e
  {
    if e == 0 then 1.0 else if e > 0 then 10.0 * Pow10(e - 1) else Pow10(e + 1) / 10.0
  }

  /** coefficient·10^e. */
  function Scaled10(coefficient: nat, e: int): real {
    coefficient as real * Pow10(e)
  }

  lemma Scaled10Step(c: nat, n: nat)
    requires n > 0
    ensures Scaled10(c, n) == 10.0 * Scaled10(c, n - 1)
  {
    var x, p := c as real, Pow10(n - 1);
    assert x * (10.0 * p) == 10.0 * (x * p);
  }

  lemma Scaled10Zero(c: nat)
    ensures Scaled10(c, 0) == c as real
  {
  }

  lemma DecimalPush(s: string, c: char)
    requires AllDecimal(s) && IsDigit(c)
    ensures AllDecimal(s + [c])
    ensures DecimalInteger(s + [c]) == 10 * DecimalInteger(s) + (c as nat - '0' as nat)
  {
    assert (s + [c])[..|s|] == s;
  }

  lemma {:induction false} TrailingZeros(s: string, n: nat)
    requires AllDecimal(s)
    ensures DecimalInteger(s + Zeros(n)) as real == Scaled10(DecimalInteger(s), n)
  {
    hide DecimalInteger;
    hide Scaled10;
    if n == 0 {
      assert s + Zeros(0) == s;
      Scaled10Zero(DecimalInteger(s));
    } else {
      TrailingZeros(s, n - 1);
      assert s + Zeros(n) == (s + Zeros(n - 1)) + ['0'];
      DecimalPush(s + Zeros(n - 1), '0');
      Scaled10Step(DecimalInteger(s), n);
    }
  }

  lemma {:induction false} LeadingZeros(s: string, n: nat)
    requires AllDecimal(s)
    ensures DecimalInteger(Zeros(n) + s) == DecimalInteger(s)
  {
    if s == [] {
      assert Zeros(n) + s == Zeros(n);
      if n > 0 {
        LeadingZeros([], n - 1);
        assert Zeros(n)[..n - 1] == Zeros(n - 1) && Zeros(n - 1) + [] == Zeros(n - 1);
      }
    } else {
      LeadingZeros(s[..|s| - 1], n);
      assert (Zeros(n) + s)[..n + |s| - 1] == Zeros(n) + s[..|s| - 1];
    }
  }

  // --- The printer ------------------------------------------------------------------------

  /** A number as the shortest-digits step gives it: digits d1 d2 ... dk and an
      exponent, for the value d1.d2...dk·10^exponent. */
  datatype Printed =
    | NotANumber
    | Zero
    | Infinite(negative: bool)
    | Scientific(negative: bool, digits: string, exponent: int)
  {
    /** What `{:e}` gives for a finite number that is not 0. */
    predicate Valid() {
      Scientific? ==> digits != "" && AllDecimal(digits) && digits[0] != '0'
    }
  }

  /** The layout of section 6.1.6.1.20 of ECMA-262 for a positive number. */
  function Layout(digits: string, exponent: int): string
    requires digits != ""
  {
    var k, n := |digits|, exponent + 1;
    if k <= n <= 21 then digits + Zeros(n - k)
    else if 0 < n <= 21 then digits[..n] + ("." + digits[n..])
    else if -6 < n <= 0 then "0" + ("." + (Zeros(-n) + digits))
    else if k == 1 then digits + ExponentTail(n - 1)
    else digits[..1] + ("." + digits[1..] + ExponentTail(n - 1))
  }

  /** The exponent with its sign. */
  function ExponentTail(e: int): string {
    "e" + (if e < 0 then "-" else "+") + NatToString(if e < 0 then -e else e)
  }

  function NumberToString(x: Printed): string
    requires x.Valid()
  {
    match x
    case NotANumber => "NaN"
    case Zero => "0"
    case Infinite(negative) => if negative then "-Infinity" else "Infinity"
    case Scientific(negative, digits, exponent) =>
      (if negative then "-" else "") + Layout(digits, exponent)
  }

  // --- The parser -------------------------------------------------------------------------

  /** `WhiteSpace` or `LineTerminator` of ECMAScript. */
  predicate IsJsWhitespace(c: char) {
    var u := c as int;
    || 9 <= u <= 13 || u == 0x20 || u == 0xA0 || u == 0x1680
    || 0x2000 <= u <= 0x200A || u == 0x2028 || u == 0x2029
    || u == 0x202F || u == 0x205F || u == 0x3000 || u == 0xFEFF
  }

  function TrimStart(s: string): string {
    if s != "" && IsJsWhitespace(s[0]) then TrimStart(s[1..]) else s
  }

  function TrimEnd(s: string): string {
    if s != "" && IsJsWhitespace(s[|s| - 1]) then TrimEnd(s[..|s| - 1]) else s
  }

  function JsTrim(s: string): string {
    TrimEnd(TrimStart(s))
  }

  function WithoutSign(s: string): string {
    if s != "" && (s[0] == '+' || s[0] == '-') then s[1..] else s
  }

  /** The number of leading digits. */
  function LeadingDigits(s: string): (n: nat)
    ensures n <= |s| && AllDecimal(s[..n]) && (n < |s| ==> !IsDigit(s[n]))
  {
    if s == "" || !IsDigit(s[0]) then 0
    else
      var n := LeadingDigits(s[1..]);
      assert s[..n + 1] == [s[0]] + s[1..][..n];
      n + 1
  }

  /** The text after the integer digits and after the fraction. */
  function AfterInteger(s: string): string {
    s[LeadingDigits(s)..]
  }

  function FractionOf(rest: string): (f: string)
    ensures AllDecimal(f)
  {
    if rest != "" && rest[0] == '.' then rest[1..][..LeadingDigits(rest[1..])] else ""
  }

  function AfterFraction(rest: string): string {
    if rest != "" && rest[0] == '.' then rest[1..][LeadingDigits(rest[1..])..] else rest
  }

  /** `[+-]? (d+ (. d*)? | . d+) ([eE] [+-]? d+)?`. */
  predicate IsDecimalLiteral(text: string) {
    var s := WithoutSign(text);
    var rest := AfterInteger(s);
    var tail := AfterFraction(rest);
    && (LeadingDigits(s) > 0 || FractionOf(rest) != "")
    && (tail == "" || ((tail[0] == 'e' || tail[0] == 'E')
         && WithoutSign(tail[1..]) != "" && AllDecimal(WithoutSign(tail[1..]))))
  }

  /** The exponent of a literal tail: 0 without one. */
  function TailExponent(tail: string): int
    requires tail == "" || AllDecimal(WithoutSign(tail[1..]))
  {
    if tail == "" then 0
    else
      var magnitude: int := DecimalInteger(WithoutSign(tail[1..]));
      if tail[1..] != "" && tail[1] == '-' then -magnitude else magnitude
  }

  lemma AllDecimalConcat(s: string, t: string)
    requires AllDecimal(s) && AllDecimal(t)
    ensures AllDecimal(s + t)
  {
  }

  /** The exact value of a decimal literal. */
  function DecimalValue(text: string): real
    requires IsDecimalLiteral(text)
  {
    var s := WithoutSign(text);
    var rest := AfterInteger(s);
    var fraction := FractionOf(rest);
    AllDecimalConcat(s[..LeadingDigits(s)], fraction);
    var coefficient := DecimalInteger(s[..LeadingDigits(s)] + fraction);
    var magnitude := Scaled10(coefficient, TailExponent(AfterFraction(rest)) - |fraction|);
    if text[0] == '-' then -magnitude else magnitude
  }

  /** The result of `Number(text)`: a decimal text keeps its exact value. */
  datatype JsNumber = NaN | Infinity(negative: bool) | Decimal(value: real) | Binary(number: Number)

  /** The bits per digit of a radix prefix. */
  function RadixPrefix(text: string): Option<nat> {
    if |text| < 2 || text[0] != '0' then None
    else if text[1] == 'x' || text[1] == 'X' then Some(4)
    else if text[1] == 'o' || text[1] == 'O' then Some(3)
    else if text[1] == 'b' || text[1] == 'B' then Some(1)
    else None
  }

  /** The value of the trimmed text. */
  ghost predicate IsNumberOf(text: string, r: JsNumber) {
    var t := JsTrim(text);
    if t == "" then r == Decimal(0.0)
    else if t == "Infinity" || t == "+Infinity" then r == Infinity(false)
    else if t == "-Infinity" then r == Infinity(true)
    else if RadixPrefix(t).Some? then
      var digits, radix := t[2..], RadixOf(RadixPrefix(t).value);
      if digits == [] || !AllDigits(digits, radix) then r == JsNumber.NaN
      else r.Binary? && IsDoubleOf(IntegerOf(digits, radix), r.number)
    else if IsDecimalLiteral(t) then r == Decimal(DecimalValue(t))
    else r == JsNumber.NaN
  }

  /** `Number(text)`. */
  method StringToNumber(text: string) returns (r: JsNumber)
    ensures IsNumberOf(text, r)
  {
    hide IsDecimalLiteral;
    hide DecimalValue;
    hide JsTrim;
    var t := JsTrim(text);
    if t == "" {
      return Decimal(0.0);
    }
    if t == "Infinity" || t == "+Infinity" {
      return Infinity(false);
    }
    if t == "-Infinity" {
      return Infinity(true);
    }
    var prefix := RadixPrefix(t);
    if prefix.Some? {
      var number := RadixToNumber(t[2..], prefix.value);
      return if number == Number.NaN then JsNumber.NaN else Binary(number);
    }
    if IsDecimalLiteral(t) {
      return Decimal(DecimalValue(t));
    }
    r := JsNumber.NaN;
  }

  // --- Radix texts ------------------------------------------------------------------------

  /** The digits of all radixes, by value. */
  const LOWER_DIGITS := "0123456789abcdef"
  const UPPER_DIGITS := "0123456789ABCDEF"

  /** A digit stands for its place in the list, in either case; no other character is
      a digit. */
  lemma DigitsByPlace(c: char, radix: nat, v: nat)
    requires radix <= 16
    ensures DigitValue(c, radix) == Some(v) <==> v < radix && (c == LOWER_DIGITS[v] || c == UPPER_DIGITS[v])
  {
  }

  ghost predicate RadixMark(mark: char, radix: nat) {
    || (radix == 2 && (mark == 'b' || mark == 'B'))
    || (radix == 8 && (mark == 'o' || mark == 'O'))
    || (radix == 16 && (mark == 'x' || mark == 'X'))
  }

  lemma RadixTextIsTrimmed(mark: char, digits: string, radix: nat)
    requires RadixMark(mark, radix) && (digits == [] || AllDigits(digits, radix))
    ensures JsTrim(['0', mark] + digits) == ['0', mark] + digits
  {
    var t := ['0', mark] + digits;
    assert TrimStart(t) == t;
    if digits != [] {
      assert t[|t| - 1] == digits[|digits| - 1];
      assert DigitValue(digits[|digits| - 1], radix).Some?;
    }
  }

  lemma PrefixOfMark(mark: char, digits: string, radix: nat)
    requires RadixMark(mark, radix)
    ensures var t := ['0', mark] + digits;
      t[2..] == digits && |t| >= 2 && t[0] == '0' && RadixPrefix(t).Some? && RadixOf(RadixPrefix(t).value) == radix
  {
  }

  /** A text of "0b", "0o" or "0x" and digits, in either case, denotes the integer of
      the digits in base 2, 8 or 16; without digits, or with another character in
      place of one, it is NaN. */
  lemma RadixTextDenotes(mark: char, digits: string, radix: nat, r: JsNumber)
    requires RadixMark(mark, radix) && JsTrim(['0', mark] + digits) == ['0', mark] + digits
    requires IsNumberOf(['0', mark] + digits, r)
    ensures digits == [] || !AllDigits(digits, radix) ==> r == JsNumber.NaN
    ensures digits != [] && AllDigits(digits, radix) ==> r.Binary? && IsDoubleOf(IntegerOf(digits, radix), r.number)
  {
    hide JsTrim, IsDecimalLiteral, DecimalValue, IsDoubleOf, IntegerOf, RadixMark, RadixPrefix, RadixOf, AllDigits;
    PrefixOfMark(mark, digits, radix);
  }

  // --- Round trip ---------------------------------------------------------------------------

  /** The exact value that a printed number stands for. */
  ghost function ScientificValue(negative: bool, digits: string, exponent: int): real
    requires AllDecimal(digits)
  {
    var magnitude := Scaled10(DecimalInteger(digits), exponent + 1 - |digits|);
    if negative then -magnitude else magnitude
  }

  /** Digits before a character that is not one. */
  lemma {:induction false} LeadingDigitsOf(s: string, t: string)
    requires AllDecimal(s) && (t == "" || !IsDigit(t[0]))
    ensures LeadingDigits(s + t) == |s|
    ensures (s + t)[..|s|] == s && (s + t)[|s|..] == t
  {
    if s == "" {
      assert s + t == t;
    } else {
      assert (s + t)[1..] == s[1..] + t;
      LeadingDigitsOf(s[1..], t);
    }
  }

  /** A literal put together: sign, integer digits, an optional point with a
      fraction, and an exponent tail. */
  function Assemble(negative: bool, integer: string, point: bool, fraction: string, tail: string): string {
    (if negative then "-" else "") + (integer + ((if point then "." + fraction else "") + tail))
  }

  predicate IsTail(tail: string) {
    tail == "" || (|tail| > 2 && tail[0] == 'e' && (tail[1] == '+' || tail[1] == '-') && AllDecimal(tail[2..]))
  }

  lemma TailParts(tail: string)
    requires IsTail(tail)
    ensures tail == "" || !IsDigit(tail[0])
    ensures tail != "" ==>
      (tail[0] == 'e' && WithoutSign(tail[1..]) == tail[2..] && tail[2..] != "" && AllDecimal(WithoutSign(tail[1..])))
  {
  }

  lemma AssembledSign(negative: bool, integer: string, rest: string)
    requires integer != "" && AllDecimal(integer)
    ensures var text := (if negative then "-" else "") + (integer + rest);
      text != "" && WithoutSign(text) == integer + rest && (text[0] == '-' <==> negative)
  {
    var text := (if negative then "-" else "") + (integer + rest);
    assert (integer + rest)[0] == integer[0] && IsDigit(integer[0]);
    if negative {
      assert text[1..] == integer + rest;
    } else {
      assert text == integer + rest;
    }
  }

  lemma AssembledFraction(point: bool, fraction: string, tail: string)
    requires AllDecimal(fraction) && (!point ==> fraction == "") && IsTail(tail)
    ensures var rest := (if point then "." + fraction else "") + tail;
      && (rest == "" || !IsDigit(rest[0]))
      && FractionOf(rest) == fraction && AfterFraction(rest) == tail
  {
    var rest := (if point then "." + fraction else "") + tail;
    TailParts(tail);
    if point {
      assert rest[1..] == fraction + tail;
      LeadingDigitsOf(fraction, tail);
    } else {
      assert rest == tail;
    }
  }

  lemma AssembledIsLiteral(negative: bool, integer: string, point: bool, fraction: string, tail: string)
    requires integer != "" && AllDecimal(integer) && AllDecimal(fraction) && (!point ==> fraction == "")
    requires IsTail(tail)
    ensures AllDecimal(integer + fraction)
    ensures var text := Assemble(negative, integer, point, fraction, tail);
      && IsDecimalLiteral(text)
      && DecimalValue(text) ==
           var magnitude := Scaled10(DecimalInteger(integer + fraction), TailExponent(tail) - |fraction|);
           if negative then -magnitude else magnitude
  {
    hide DecimalInteger;
    hide Scaled10;
    hide FractionOf;
    hide AfterFraction;
    hide WithoutSign;
    hide LeadingDigits;
    hide IsTail;
    hide TailExponent;
    var text := Assemble(negative, integer, point, fraction, tail);
    var rest := (if point then "." + fraction else "") + tail;
    AssembledSign(negative, integer, rest);
    AssembledFraction(point, fraction, tail);
    LeadingDigitsOf(integer, rest);
    TailParts(tail);
    AllDecimalConcat(integer, fraction);
  }

  /** Neither end is white space, it is not a word, and it has no radix prefix. */
  lemma AssembledIsPlain(negative: bool, integer: string, point: bool, fraction: string, tail: string)
    requires integer != "" && AllDecimal(integer) && AllDecimal(fraction) && (!point ==> fraction == "")
    requires point ==> fraction != ""
    requires integer[0] != '0' || (integer == "0" && point)
    requires IsTail(tail)
    ensures var text := Assemble(negative, integer, point, fraction, tail);
      && text != "" && JsTrim(text) == text && RadixPrefix(text).None?
      && text != "Infinity" && text != "+Infinity" && text != "-Infinity"
  {
    var text := Assemble(negative, integer, point, fraction, tail);
    var rest := (if point then "." + fraction else "") + tail;
    assert text[if negative then 1 else 0] == integer[0] && IsDigit(integer[0]);
    assert IsDigit(text[|text| - 1]) by {
      if tail != "" {
        assert text[|text| - 1] == tail[|tail| - 1] == tail[2..][|tail| - 3];
      } else if point {
        assert text[|text| - 1] == fraction[|fraction| - 1];
      } else {
        assert text[|text| - 1] == integer[|integer| - 1];
      }
    }
    if !negative && integer == "0" {
      assert text[1] == '.';
    }
  }

  /** The parts of the layout of a positive number. */
  datatype LayoutParts = LayoutParts(integer: string, point: bool, fraction: string, tail: string) {
    /** A literal of the decimal value `coefficient`·10^`power`. */
    ghost predicate Denotes(coefficient: nat, power: int) {
      && integer != "" && AllDecimal(integer) && AllDecimal(fraction) && IsTail(tail)
      && (point <==> fraction != "")
      && (integer[0] != '0' || (integer == "0" && point))
      && AllDecimal(integer + fraction)
      && Scaled10(DecimalInteger(integer + fraction), TailExponent(tail) - |fraction|) == Scaled10(coefficient, power)
    }

    function Text(negative: bool): string {
      Assemble(negative, integer, point, fraction, tail)
    }
  }

  lemma UnscaledDigits(s: string, zeros: nat)
    requires AllDecimal(s)
    ensures Scaled10(DecimalInteger(s + Zeros(zeros)), 0) == Scaled10(DecimalInteger(s), zeros)
  {
    TrailingZeros(s, zeros);
  }

  lemma WholeLayout(digits: string, zeros: nat)
    requires digits != "" && AllDecimal(digits) && digits[0] != '0'
    ensures LayoutParts(digits + Zeros(zeros), false, "", "").Denotes(DecimalInteger(digits), zeros)
  {
    hide DecimalInteger;
    hide Scaled10;
    var integer := digits + Zeros(zeros);
    assert integer + "" == integer;
    AllDecimalConcat(digits, Zeros(zeros));
    UnscaledDigits(digits, zeros);
  }

  lemma DigitsApart(digits: string, n: nat)
    requires 0 < n <= |digits| && AllDecimal(digits)
    ensures AllDecimal(digits[..n]) && AllDecimal(digits[n..]) && digits[..n] + digits[n..] == digits
    ensures n < |digits| <==> digits[n..] != ""
  {
  }

  lemma SplitLayout(digits: string, n: nat)
    requires 0 < n < |digits| && AllDecimal(digits) && digits[0] != '0'
    ensures LayoutParts(digits[..n], true, digits[n..], "").Denotes(DecimalInteger(digits), n - |digits|)
  {
    hide DecimalInteger;
    hide Scaled10;
    hide AllDecimal;
    DigitsApart(digits, n);
  }

  lemma ZeroPrefix(zeros: nat, digits: string)
    requires AllDecimal(digits)
    ensures AllDecimal(Zeros(zeros) + digits) && AllDecimal("0" + (Zeros(zeros) + digits))
    ensures DecimalInteger("0" + (Zeros(zeros) + digits)) == DecimalInteger(digits)
  {
    hide DecimalInteger;
    LeadingZeros(digits, zeros + 1);
    assert "0" + (Zeros(zeros) + digits) == Zeros(zeros + 1) + digits;
  }

  lemma SmallLayout(digits: string, zeros: nat, power: int)
    requires digits != "" && AllDecimal(digits) && power == -(zeros + |digits|)
    ensures LayoutParts("0", true, Zeros(zeros) + digits, "").Denotes(DecimalInteger(digits), power)
  {
    hide DecimalInteger;
    hide Scaled10;
    hide Zeros;
    ZeroPrefix(zeros, digits);
    assert IsDigit("0"[0]);
  }

  lemma ExponentTailValue(e: int)
    ensures IsTail(ExponentTail(e)) && TailExponent(ExponentTail(e)) == e
  {
    hide DecimalInteger;
    hide NatToString;
    var magnitude := NatToString(if e < 0 then -e else e);
    var tail := ExponentTail(e);
    assert tail[1] == (if e < 0 then '-' else '+');
    assert tail[1..] == (if e < 0 then "-" else "+") + magnitude;
    assert tail[2..] == magnitude && WithoutSign(tail[1..]) == magnitude;
  }

  lemma ExponentLayout(digits: string, e: int)
    requires digits != "" && AllDecimal(digits) && digits[0] != '0'
    ensures LayoutParts(digits[..1], |digits| > 1, digits[1..], ExponentTail(e))
      .Denotes(DecimalInteger(digits), e + 1 - |digits|)
  {
    hide DecimalInteger;
    hide Scaled10;
    hide ExponentTail;
    hide TailExponent;
    hide IsTail;
    hide AllDecimal;
    ExponentTailValue(e);
    DigitsApart(digits, 1);
  }

  /** The parts of the layout, by its four cases. */
  function PartsOf(digits: string, exponent: int): LayoutParts
    requires digits != ""
  {
    var k, n := |digits|, exponent + 1;
    if k <= n <= 21 then LayoutParts(digits + Zeros(n - k), false, "", "")
    else if 0 < n <= 21 then LayoutParts(digits[..n], true, digits[n..], "")
    else if -6 < n <= 0 then LayoutParts("0", true, Zeros(-n) + digits, "")
    else LayoutParts(digits[..1], k > 1, digits[1..], ExponentTail(n - 1))
  }

  lemma PartsDenote(digits: string, exponent: int)
    requires digits != "" && AllDecimal(digits) && digits[0] != '0'
    ensures PartsOf(digits, exponent).Denotes(DecimalInteger(digits), exponent + 1 - |digits|)
  {
    hide DecimalInteger;
    hide Scaled10;
    hide LayoutParts.Denotes;
    var k, n := |digits|, exponent + 1;
    if k <= n <= 21 {
      WholeLayout(digits, n - k);
    } else if 0 < n <= 21 {
      SplitLayout(digits, n);
    } else if -6 < n <= 0 {
      SmallLayout(digits, -n, n - k);
    } else {
      ExponentLayout(digits, n - 1);
    }
  }

  lemma NoTail(s: string)
    ensures s + "" == s
  {
  }

  lemma PartsText(digits: string, exponent: int)
    requires digits != ""
    ensures var p := PartsOf(digits, exponent);
      Layout(digits, exponent) == p.integer + ((if p.point then "." + p.fraction else "") + p.tail)
  {
    hide ExponentTail;
    hide Zeros;
    var p := PartsOf(digits, exponent);
    NoTail("." + p.fraction);
    NoTail(p.integer);
    if |digits| == 1 {
      assert digits[..1] == digits && "" + p.tail == p.tail;
    }
  }

  lemma PrintedText(negative: bool, digits: string, exponent: int)
    requires digits != "" && AllDecimal(digits) && digits[0] != '0'
    ensures NumberToString(Scientific(negative, digits, exponent)) == PartsOf(digits, exponent).Text(negative)
  {
    hide Layout;
    hide PartsOf;
    PartsText(digits, exponent);
  }

  /** Every printed finite number reads back as exactly the value it stands
      for, through the decimal branch of the parser. */
  lemma PrintedReadsBack(negative: bool, digits: string, exponent: int, r: JsNumber)
    requires digits != "" && AllDecimal(digits) && digits[0] != '0'
    requires IsNumberOf(NumberToString(Scientific(negative, digits, exponent)), r)
    ensures r == Decimal(ScientificValue(negative, digits, exponent))
    ensures IsDecimalLiteral(NumberToString(Scientific(negative, digits, exponent)))
  {
    hide DecimalInteger;
    hide Scaled10;
    hide NumberToString;
    hide IsDecimalLiteral;
    hide DecimalValue;
    hide Assemble;
    hide JsTrim;
    hide RadixPrefix;
    hide IsTail;
    hide TailExponent;
    var p := PartsOf(digits, exponent);
    PartsDenote(digits, exponent);
    PrintedText(negative, digits, exponent);
    AssembledIsLiteral(negative, p.integer, p.point, p.fraction, p.tail);
    AssembledIsPlain(negative, p.integer, p.point, p.fraction, p.tail);
  }

  lemma ZeroScaled(e: int)
    ensures Scaled10(0, e) == 0.0
  {
    assert 0 as real * Pow10(e) == 0.0;
  }

  lemma ZeroText()
    ensures IsDecimalLiteral("0") && DecimalValue("0") == 0.0
  {
    hide Scaled10;
    hide IsDecimalLiteral;
    hide DecimalValue;
    AssembledIsLiteral(false, "0", false, "", "");
    NoTail("0");
    assert Assemble(false, "0", false, "", "") == "0";
    assert "0"[..0] == "" && DecimalInteger("0") == 0;
    ZeroScaled(0);
  }

  lemma NaNText()
    ensures !IsDecimalLiteral("NaN")
  {
  }

  /** The other printed values read back too: "NaN" is not a number, "0" is 0,
      and the two infinities keep their sign. */
  lemma SpecialsReadBack(r: JsNumber)
    ensures IsNumberOf(NumberToString(NotANumber), r) ==> r == JsNumber.NaN
    ensures IsNumberOf(NumberToString(Printed.Infinite(false)), r) ==> r == Infinity(false)
    ensures IsNumberOf(NumberToString(Printed.Infinite(true)), r) ==> r == Infinity(true)
    ensures IsNumberOf(NumberToString(Zero), r) ==> r == Decimal(0.0)
  {
    hide IsDecimalLiteral;
    hide DecimalValue;
    ZeroText();
    NaNText();
  }
}
