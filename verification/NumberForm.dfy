/** The form of a printed number: which numbers have an exponent, where the point is,
    and that no digit is superfluous. */
module NumberForm {
  import opened LinearAlgebra
  import opened NumberText

  // --- Powers of ten --------------------------------------------------------------------------

  lemma Pow10Step(e: int)
    ensures Pow10(e + 1) == 10.0 * Pow10(e)
  {
  }

  lemma {:induction false} Pow10Positive(e: int)
    ensures Pow10(e) > 0.0
    decreases if e < 0 then -e else e
  {
    if e > 0 {
      Pow10Positive(e - 1);
    } else if e < 0 {
      Pow10Positive(e + 1);
    }
  }

  lemma {:induction false} Pow10Ascends(a: int, b: int)
    requires a < b
    ensures Pow10(a) < Pow10(b)
    decreases b - a
  {
    hide Pow10;
    Pow10Step(b - 1);
    Pow10Positive(b - 1);
    if a < b - 1 {
      Pow10Ascends(a, b - 1);
    }
  }

  lemma {:induction false} Pow10Add(a: nat, b: int)
    ensures Times(Pow10(a), Pow10(b)) == Pow10(a + b)
  {
    if a == 0 {
      assert Pow10(0) == 1.0;
    } else {
      hide Pow10;
      Pow10Add(a - 1, b);
      Pow10Step(a - 1);
      Pow10Step(a - 1 + b);
      var p, q := Pow10(a - 1), Pow10(b);
      assert (10.0 * p) * q == 10.0 * (p * q);
    }
  }

  /** k digits without a leading zero are a number of k digits. */
  lemma {:induction false} DigitsMagnitude(digits: string)
    requires digits != "" && AllDecimal(digits) && digits[0] != '0'
    ensures Pow10(|digits| - 1) <= DecimalInteger(digits) as real < Pow10(|digits|)
  {
    var front, last := digits[..|digits| - 1], digits[|digits| - 1];
    if front == "" {
      assert DecimalInteger([]) == 0;
      assert Pow10(0) == 1.0 && Pow10(1) == 10.0;
    } else {
      DigitsMagnitude(front);
      hide Pow10;
      Pow10Step(|front|);
      Pow10Step(|front| - 1);
      assert DecimalInteger(digits) == 10 * DecimalInteger(front) + (last as nat - '0' as nat);
      WholeBelow(DecimalInteger(front), Pow10(|front|), |front|);
    }
  }

  lemma {:induction false} Pow10IsWhole(n: nat)
    ensures Pow10(n) == Pow10(n).Floor as real
  {
    if n > 0 {
      Pow10IsWhole(n - 1);
      assert Pow10(n) == (10 * Pow10(n - 1).Floor) as real;
    }
  }

  lemma WholeBelow(x: nat, p: real, n: nat)
    requires x as real < p && p == Pow10(n)
    ensures x as real + 1.0 <= p
  {
    Pow10IsWhole(n);
    hide Pow10;
    var whole := p.Floor;
    assert x < whole;
  }

  /** The size of the number that the digits and the exponent stand for. */
  lemma MagnitudeOf(digits: string, exponent: int)
    requires digits != "" && AllDecimal(digits) && digits[0] != '0'
    ensures var magnitude := ScientificValue(false, digits, exponent);
      Pow10(exponent) <= magnitude < Pow10(exponent + 1)
  {
    hide Pow10, DecimalInteger, Times, Scaled10;
    var k := |digits|;
    DigitsMagnitude(digits);
    var d, scale := DecimalInteger(digits) as real, Pow10(exponent + 1 - k);
    Pow10Positive(exponent + 1 - k);
    Pow10Add(k - 1, exponent + 1 - k);
    Pow10Add(k, exponent + 1 - k);
    TimesOrder(Pow10(k - 1), d, scale);
    TimesBelow(d, Pow10(k), scale);
    ScaledIsTimes(DecimalInteger(digits), exponent + 1 - k);
  }

  lemma ScaledIsTimes(c: nat, e: int)
    ensures Scaled10(c, e) == Times(c as real, Pow10(e))
  {
  }

  lemma TimesOrder(x: real, y: real, s: real)
    requires x <= y && s > 0.0
    ensures Times(x, s) <= Times(y, s)
  {
    if x < y {
      var p := Times(y - x, s);
    }
  }

  lemma TimesBelow(x: real, y: real, s: real)
    requires x < y && s > 0.0
    ensures Times(x, s) < Times(y, s)
  {
    var p := Times(y - x, s);
  }

  // --- The form ---------------------------------------------------------------------------------

  predicate HasExponent(text: string) {
    'e' in text
  }

  lemma DigitsHaveNoLetter(s: string)
    requires AllDecimal(s)
    ensures 'e' !in s && '.' !in s
  {
  }

  lemma LayoutExponent(digits: string, exponent: int)
    requires digits != "" && AllDecimal(digits)
    ensures HasExponent(Layout(digits, exponent)) <==> exponent < -6 || exponent > 20
  {
    var k, n := |digits|, exponent + 1;
    DigitsHaveNoLetter(digits);
    if k <= n <= 21 {
      DigitsHaveNoLetter(Zeros(n - k));
    } else if -6 < n <= 0 {
      DigitsHaveNoLetter(Zeros(-n));
    } else if n <= -6 || n > 21 {
      assert 'e' in ExponentTail(n - 1) by {
        assert ExponentTail(n - 1)[0] == 'e';
      }
    }
  }

  /** A number is printed with an exponent exactly when it is below 10^-6 or at least
      10^21 in size. */
  lemma ExponentIsForExtremes(negative: bool, digits: string, exponent: int)
    requires digits != "" && AllDecimal(digits) && digits[0] != '0'
    ensures var size := ScientificValue(false, digits, exponent);
      HasExponent(NumberToString(Scientific(negative, digits, exponent))) <==> size < Pow10(-6) || size >= Pow10(21)
  {
    LayoutExponent(digits, exponent);
    MagnitudeOf(digits, exponent);
    hide Layout, Pow10, ScientificValue;
    if exponent < -7 {
      Pow10Ascends(exponent + 1, -6);
    } else if exponent > -6 {
      Pow10Ascends(-6, exponent);
    }
    if exponent > 21 {
      Pow10Ascends(21, exponent);
    } else if exponent < 20 {
      Pow10Ascends(exponent + 1, 21);
    }
    assert (if negative then "-" else "") + Layout(digits, exponent) == NumberToString(Scientific(negative, digits, exponent));
  }

  /** Digits with a point after the first n of them. */
  ghost predicate PointAfter(text: string, n: nat) {
    n < |text| && text[n] == '.' && AllDecimal(text[..n]) && AllDecimal(text[n + 1..])
  }

  /** The text of a positive number has one form by its digits and exponent: an integer
      of exponent + 1 digits; digits with the point after exponent + 1 of them; "0." with
      the zeros before the digits; or, with an exponent, one digit before the point. */
  lemma LayoutForm(digits: string, exponent: int)
    requires digits != "" && AllDecimal(digits) && digits[0] != '0'
    ensures var text, k := Layout(digits, exponent), |digits|;
      && (k - 1 <= exponent <= 20 ==> AllDecimal(text) && |text| == exponent + 1 && text[0] != '0')
      && (0 <= exponent < k - 1 && exponent <= 20 ==> PointAfter(text, exponent + 1) && |text| == k + 1 && text[0] != '0')
      && (-6 <= exponent < 0 ==> PointAfter(text, 1) && |text| == k + 1 - exponent && text[0] == '0')
      && (exponent < -6 || exponent > 20 ==>
            exists mantissa :: text == mantissa + ExponentTail(exponent)
              && (if k == 1 then mantissa == digits else PointAfter(mantissa, 1) && |mantissa| == k + 1))
  {
    var text, k, n := Layout(digits, exponent), |digits|, exponent + 1;
    if 0 < n <= 21 && n < k {
      assert text[..n] == digits[..n] && text[n + 1..] == digits[n..];
    } else if -6 < n <= 0 {
      assert text[..1] == "0" && text[2..] == Zeros(-n) + digits;
    } else if n <= -6 || n > 21 {
      if k > 1 {
        var mantissa := digits[..1] + ("." + digits[1..]);
        assert text == mantissa + ExponentTail(exponent);
        assert mantissa[..1] == digits[..1] && mantissa[2..] == digits[1..];
      }
    }
  }

  /** The decimal text of an integer has no leading zero. */
  lemma {:induction false} NoLeadingZero(n: nat)
    ensures NatToString(n)[0] == '0' ==> n == 0
    ensures n == 0 ==> NatToString(n) == "0"
  {
    if n >= 10 {
      NoLeadingZero(n / 10);
    }
  }

  /** The exponent part is the letter, a sign in every case, and the size. */
  lemma ExponentTailForm(e: int)
    ensures var tail := ExponentTail(e);
      && |tail| >= 3 && tail[0] == 'e' && (tail[1] == '-' <==> e < 0) && (tail[1] == '+' <==> e >= 0)
      && AllDecimal(tail[2..]) && DecimalInteger(tail[2..]) == (if e < 0 then -e else e)
      && (tail[2] == '0' ==> e == 0)
  {
    var size := NatToString(if e < 0 then -e else e);
    NoLeadingZero(if e < 0 then -e else e);
    assert ExponentTail(e)[2..] == size;
  }
}
