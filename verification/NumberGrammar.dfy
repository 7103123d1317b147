/** The decimal literals of the parser as a grammar: the texts it accepts are exactly
    those put together from a sign, digits, a point and an exponent. */
module NumberGrammar {
  import opened NumberText

  predicate IsSign(s: string) {
    s == "" || s == "+" || s == "-"
  }

  /** `[+-]? (d+ (. d*)? | . d+) ([eE] [+-]? d+)?`, part by part. */
  datatype Literal = Literal(sign: string, integer: string, point: bool, fraction: string,
                             mark: string, exponentSign: string, exponent: string)
  {
    ghost predicate WellFormed() {
      && IsSign(sign) && AllDecimal(integer) && AllDecimal(fraction)
      && (!point ==> fraction == "") && (integer != "" || fraction != "")
      && (mark == "" || mark == "e" || mark == "E")
      && (mark == "" ==> exponentSign == "" && exponent == "")
      && (mark != "" ==> IsSign(exponentSign) && exponent != "" && AllDecimal(exponent))
    }

    function Tail(): string {
      mark + (exponentSign + exponent)
    }

    function Rest(): string {
      (if point then "." + fraction else "") + Tail()
    }

    function Text(): string {
      sign + (integer + Rest())
    }

    /** The value: the digits as one integer, times ten to the exponent less the
        digits after the point. */
    ghost function Value(): real
      requires WellFormed()
    {
      AllDecimalConcat(integer, fraction);
      var power: int := if mark == "" then 0 else DecimalInteger(exponent);
      var magnitude := Scaled10(DecimalInteger(integer + fraction), (if exponentSign == "-" then -power else power) - |fraction|);
      if sign == "-" then -magnitude else magnitude
    }
  }

  lemma SignSplits(sign: string, rest: string)
    requires IsSign(sign) && (rest != "" ==> rest[0] != '+' && rest[0] != '-') && (sign != "" || rest != "")
    ensures WithoutSign(sign + rest) == rest
    ensures sign + rest != "" && ((sign + rest)[0] == '-' <==> sign == "-")
  {
    if sign == "" {
      assert sign + rest == rest;
    } else {
      assert (sign + rest)[1..] == rest;
    }
  }

  lemma DigitsStart(integer: string, rest: string)
    requires AllDecimal(integer) && (rest == "" || rest[0] == '.' || rest[0] == 'e' || rest[0] == 'E')
    ensures integer + rest != "" ==> (integer + rest)[0] != '+' && (integer + rest)[0] != '-'
  {
  }

  /** A tail is split into the mark, the sign and the digits of the exponent. */
  lemma TailSplits(p: Literal)
    requires p.WellFormed()
    ensures var tail := p.Tail();
      && (tail == "" || tail[0] == 'e' || tail[0] == 'E')
      && (p.mark == "" <==> tail == "")
      && (tail != "" ==> WithoutSign(tail[1..]) == p.exponent && (tail[1..][0] == '-' <==> p.exponentSign == "-"))
  {
    if p.mark != "" {
      assert p.Tail()[1..] == p.exponentSign + p.exponent;
      SignSplits(p.exponentSign, p.exponent);
    }
  }

  lemma RestSplits(p: Literal)
    requires p.WellFormed()
    ensures FractionOf(p.Rest()) == p.fraction && AfterFraction(p.Rest()) == p.Tail()
    ensures p.Rest() == "" || p.Rest()[0] == '.' || p.Rest()[0] == 'e' || p.Rest()[0] == 'E'
  {
    TailSplits(p);
    if p.point {
      assert p.Rest()[1..] == p.fraction + p.Tail();
      LeadingDigitsOf(p.fraction, p.Tail());
    } else {
      assert p.Rest() == p.Tail();
    }
  }

  /** Every text of the grammar is accepted, with its value. */
  lemma GrammarIsAccepted(p: Literal)
    requires p.WellFormed()
    ensures IsDecimalLiteral(p.Text()) && DecimalValue(p.Text()) == p.Value()
  {
    hide DecimalInteger, Scaled10, LeadingDigits, FractionOf, AfterFraction, WithoutSign;
    RestSplits(p);
    TailSplits(p);
    DigitsStart(p.integer, p.Rest());
    SignSplits(p.sign, p.integer + p.Rest());
    LeadingDigitsOf(p.integer, p.Rest());
  }

  lemma SignOf(s: string) returns (sign: string)
    ensures IsSign(sign) && s == sign + WithoutSign(s)
  {
    sign := if s != "" && (s[0] == '+' || s[0] == '-') then s[..1] else "";
  }

  lemma TailOf(tail: string) returns (mark: string, exponentSign: string, exponent: string)
    requires tail == "" || ((tail[0] == 'e' || tail[0] == 'E')
               && WithoutSign(tail[1..]) != "" && AllDecimal(WithoutSign(tail[1..])))
    ensures tail == mark + (exponentSign + exponent)
    ensures (mark == "" || mark == "e" || mark == "E") && (mark == "" ==> exponentSign == "" && exponent == "")
    ensures mark != "" ==> IsSign(exponentSign) && exponent != "" && AllDecimal(exponent)
  {
    if tail == "" {
      mark, exponentSign, exponent := "", "", "";
    } else {
      exponentSign := SignOf(tail[1..]);
      mark, exponent := tail[..1], WithoutSign(tail[1..]);
      hide WithoutSign;
      assert tail == tail[..1] + tail[1..];
    }
  }

  lemma RestOf(rest: string) returns (point: bool)
    ensures rest == (if point then "." + FractionOf(rest) else "") + AfterFraction(rest)
    ensures !point ==> FractionOf(rest) == ""
  {
    point := rest != "" && rest[0] == '.';
    if point {
      hide LeadingDigits;
      assert rest == "." + rest[1..];
      assert rest[1..] == FractionOf(rest) + AfterFraction(rest);
    }
  }

  /** And every accepted text is one of the grammar. */
  lemma AcceptedIsGrammar(text: string) returns (p: Literal)
    requires IsDecimalLiteral(text)
    ensures p.WellFormed() && p.Text() == text && DecimalValue(text) == p.Value()
  {
    hide WithoutSign, LeadingDigits, FractionOf, AfterFraction, DecimalValue, DecimalInteger, Scaled10;
    var s := WithoutSign(text);
    var n, rest := LeadingDigits(s), AfterInteger(s);
    var sign := SignOf(text);
    var point := RestOf(rest);
    var mark, exponentSign, exponent := TailOf(AfterFraction(rest));
    p := Literal(sign, s[..n], point, FractionOf(rest), mark, exponentSign, exponent);
    hide IsDecimalLiteral;
    assert s == s[..n] + s[n..];
    assert p.Rest() == rest;
    assert p.Text() == text;
    GrammarIsAccepted(p);
  }

  /** The parser accepts exactly the grammar. */
  lemma LiteralsAreGrammar(text: string)
    ensures IsDecimalLiteral(text) <==> exists p: Literal :: p.WellFormed() && p.Text() == text
  {
    hide IsDecimalLiteral, Literal.WellFormed, Literal.Text;
    if IsDecimalLiteral(text) {
      var p := AcceptedIsGrammar(text);
    }
    forall p: Literal | p.WellFormed() && p.Text() == text
      ensures IsDecimalLiteral(text)
    {
      GrammarIsAccepted(p);
    }
  }

  // --- Trimming ------------------------------------------------------------------------------

  /** `WhiteSpace` and `LineTerminator` of section 12.2 and 12.3 of ECMA-262. */
  const BLANKS := "\t\n\U{00000B}\U{00000C}\r \U{0000A0}\U{001680}\U{002000}\U{002001}\U{002002}\U{002003}\U{002004}\U{002005}\U{002006}\U{002007}\U{002008}\U{002009}\U{00200A}\U{002028}\U{002029}\U{00202F}\U{00205F}\U{003000}\U{00FEFF}"

  lemma BlanksAreListed(c: char)
    ensures IsJsWhitespace(c) <==> c in BLANKS
  {
  }

  lemma {:induction false} StartTrimmed(s: string) returns (n: nat)
    ensures n <= |s| && TrimStart(s) == s[n..] && forall i :: 0 <= i < n ==> IsJsWhitespace(s[i])
    ensures n < |s| ==> !IsJsWhitespace(s[n])
  {
    if s != "" && IsJsWhitespace(s[0]) {
      var rest := StartTrimmed(s[1..]);
      n := rest + 1;
    } else {
      n := 0;
    }
  }

  lemma {:induction false} EndTrimmed(s: string) returns (n: nat)
    ensures n <= |s| && TrimEnd(s) == s[..n] && forall i :: n <= i < |s| ==> IsJsWhitespace(s[i])
    ensures n > 0 ==> !IsJsWhitespace(s[n - 1])
  {
    if s != "" && IsJsWhitespace(s[|s| - 1]) {
      n := EndTrimmed(s[..|s| - 1]);
      assert s[..|s| - 1][..n] == s[..n];
    } else {
      n := |s|;
      assert s[..|s|] == s;
    }
  }

  /** Trimming takes the blanks off both ends and nothing else. */
  lemma TrimTakesBlanks(s: string) returns (front: string, back: string)
    ensures s == front + JsTrim(s) + back
    ensures forall i :: 0 <= i < |front| ==> IsJsWhitespace(front[i])
    ensures forall i :: 0 <= i < |back| ==> IsJsWhitespace(back[i])
    ensures var t := JsTrim(s); t != "" ==> !IsJsWhitespace(t[0]) && !IsJsWhitespace(t[|t| - 1])
  {
    hide IsJsWhitespace;
    var n := StartTrimmed(s);
    var m := EndTrimmed(s[n..]);
    front, back := s[..n], s[n..][m..];
    assert s == s[..n] + s[n..];
    assert s[n..] == s[n..][..m] + s[n..][m..];
  }
}
