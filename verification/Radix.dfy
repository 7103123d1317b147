/** The value of hexadecimal, octal, or binary digits, rounded half to even to
    53 significant bits: section 4.3.1 of IEEE 754-2019. */
module Radix {
  import opened Common

  const SIGNIFICAND_BITS: nat := 53
  const MAX_EXPONENT: nat := 1023
  const MAX_I32: nat := 2147483647

  /** A double that is not negative: a finite value is mantissa·2^exponent. */
  datatype Number = NaN | Infinite | Finite(mantissa: nat, exponent: nat)

  /** m·2^e. */
  function Shl(m: nat, e: nat): (r: nat)
    ensures r >= m
  {
    if e == 0 then m else 2 * Shl(m, e - 1)
  }

  function Pow2(n: nat): (p: nat)
    ensures p >= 1
  {
    Shl(1, n)
  }

  /** `char::to_digit`. */
  function DigitValue(c: char, radix: nat): Option<nat>
    requires radix <= 16
  {
    var v := if '0' <= c <= '9' then c as nat - '0' as nat
             else if 'a' <= c <= 'f' then c as nat - 'a' as nat + 10
             else if 'A' <= c <= 'F' then c as nat - 'A' as nat + 10
             else 16;
    if v < radix then Some(v) else None
  }

  ghost predicate AllDigits(digits: seq<char>, radix: nat)
    requires radix <= 16
  {
    forall i :: 0 <= i < |digits| ==> DigitValue(digits[i], radix).Some?
  }

  /** The exact integer that the digits denote. */
  ghost function IntegerOf(digits: seq<char>, radix: nat): nat
    requires radix <= 16 && AllDigits(digits, radix)
  {
    if digits == [] then 0
    else
      var n := |digits| - 1;
      IntegerOf(digits[..n], radix) * radix + DigitValue(digits[n], radix).value
  }

  /** The integer of a bit string, most significant bit first. */
  function BitsValue(bits: seq<bool>): nat {
    if bits == [] then 0
    else 2 * BitsValue(bits[..|bits| - 1]) + if bits[|bits| - 1] then 1 else 0
  }

  // --- Powers and bit strings -------------------------------------------------------------

  lemma {:induction false} ShlAdd(a: nat, b: nat, e: nat)
    ensures Shl(a + b, e) == Shl(a, e) + Shl(b, e)
  {
    if e > 0 {
      ShlAdd(a, b, e - 1);
    }
  }

  lemma {:induction false} ShlShl(m: nat, a: nat, b: nat)
    ensures Shl(Shl(m, a), b) == Shl(m, a + b)
  {
    if b > 0 {
      ShlShl(m, a, b - 1);
    }
  }

  lemma ShlLess(a: nat, b: nat, e: nat)
    requires a < b
    ensures Shl(a, e) + Pow2(e) <= Shl(b, e)
  {
    ShlAdd(a, 1, e);
    ShlAdd(a + 1, b - (a + 1), e);
  }

  lemma {:induction false} ShlMoreBits(m: nat, a: nat, b: nat)
    requires a <= b
    ensures Shl(m, a) <= Shl(m, b)
  {
    if a < b {
      ShlMoreBits(m, a, b - 1);
    }
  }

  /** Splitting a bit string splits its value. */
  lemma {:induction false} BitsSplit(bits: seq<bool>, k: nat)
    requires k <= |bits|
    ensures BitsValue(bits) == Shl(BitsValue(bits[..k]), |bits| - k) + BitsValue(bits[k..])
  {
    if k == |bits| {
      assert bits[..k] == bits && bits[k..] == [];
    } else {
      var n := |bits| - 1;
      BitsSplit(bits[..n], k);
      assert bits[..n][..k] == bits[..k] && bits[k..][..n - k] == bits[..n][k..];
    }
  }

  lemma {:induction false} BitsBound(bits: seq<bool>)
    ensures BitsValue(bits) < Pow2(|bits|)
  {
    if bits != [] {
      BitsBound(bits[..|bits| - 1]);
    }
  }

  lemma {:induction false} BitsZero(bits: seq<bool>)
    ensures BitsValue(bits) == 0 <==> true !in bits
  {
    if bits != [] {
      var n := |bits| - 1;
      BitsZero(bits[..n]);
      assert bits == bits[..n] + [bits[n]];
    }
  }

  lemma LeadingOne(bits: seq<bool>)
    requires bits != [] && bits[0]
    ensures BitsValue(bits) >= Pow2(|bits| - 1)
  {
    BitsSplit(bits, 1);
    assert bits[..1] == [true] && [true][..0] == [];
    assert BitsValue([true]) == 1;
  }

  // --- Rounding ---------------------------------------------------------------------------

  /** A value with at most 53 significant bits. */
  ghost predicate Representable(v: nat) {
    exists m: nat, e: nat :: m < Pow2(SIGNIFICAND_BITS) && v == Shl(m, e)
  }

  function Distance(a: nat, b: nat): nat {
    if a <= b then b - a else a - b
  }

  /** v is n rounded to the nearest value with 53 significant bits. */
  ghost predicate IsNearest(n: nat, v: nat) {
    && Representable(v)
    && forall u :: Representable(u) ==> Distance(n, v) <= Distance(n, u)
  }

  /** Another value with 53 significant bits is as near to n as v. */
  ghost predicate HasTie(n: nat, v: nat) {
    exists u :: Representable(u) && u != v && Distance(n, u) == Distance(n, v)
  }

  /** mantissa·2^exponent is n rounded half to even: it is nearest, exact for n
      below 2^53, and its mantissa is normal above and even on a tie. */
  ghost predicate IsRoundedHalfEven(n: nat, mantissa: nat, exponent: nat) {
    && mantissa < Pow2(SIGNIFICAND_BITS)
    && (exponent > 0 ==> mantissa >= Pow2(SIGNIFICAND_BITS - 1))
    && IsNearest(n, Shl(mantissa, exponent))
    && (n < Pow2(SIGNIFICAND_BITS) ==> mantissa == n && exponent == 0)
    && (HasTie(n, Shl(mantissa, exponent)) ==> mantissa % 2 == 0)
  }

  /** A representable value of at least 2^(e + 52) is a multiple of 2^e. */
  lemma LargeIsMultiple(u: nat, e: nat) returns (k: nat)
    requires Representable(u) && u >= Pow2(e + SIGNIFICAND_BITS - 1)
    ensures u == Shl(k, e)
  {
    hide Shl;
    var m: nat, f: nat :| m < Pow2(SIGNIFICAND_BITS) && u == Shl(m, f);
    if f >= e {
      k := Shl(m, f - e);
      ShlShl(m, f - e, e);
    } else {
      ShlLess(m, Pow2(SIGNIFICAND_BITS), f);
      ShlShl(1, SIGNIFICAND_BITS, f);
      ShlMoreBits(1, SIGNIFICAND_BITS + f, e + SIGNIFICAND_BITS - 1);
      assert false;
    }
  }

  /** No representable value lies strictly between q·2^e and (q + 1)·2^e. */
  lemma NothingBetween(q: nat, e: nat, u: nat)
    requires q >= Pow2(SIGNIFICAND_BITS - 1)
    requires Representable(u)
    ensures u <= Shl(q, e) || u >= Shl(q + 1, e)
  {
    hide Shl;
    hide Representable;
    if u > Shl(q, e) {
      ShlShl(1, SIGNIFICAND_BITS - 1, e);
      if q > Pow2(SIGNIFICAND_BITS - 1) {
        ShlLess(Pow2(SIGNIFICAND_BITS - 1), q, e);
      }
      var k := LargeIsMultiple(u, e);
      if k < q {
        ShlLess(k, q, e);
      } else if k > q + 1 {
        ShlLess(q + 1, k, e);
      }
    }
  }

  lemma CandidateRepresentable(m: nat, e: nat)
    requires m <= Pow2(SIGNIFICAND_BITS)
    ensures Representable(Shl(m, e))
  {
    if m == Pow2(SIGNIFICAND_BITS) {
      var h := Pow2(SIGNIFICAND_BITS - 1);
      ShlShl(1, SIGNIFICAND_BITS - 1, 1);
      ShlShl(h, 1, e);
      assert Shl(m, e) == Shl(h, e + 1) && h < Pow2(SIGNIFICAND_BITS);
    }
  }

  lemma Halves(e: nat)
    requires e > 0
    ensures Pow2(e) == 2 * Pow2(e - 1)
  {
  }

  /** Of a <= n < b, the nearer one is at least as near as anything outside. */
  lemma NearerOfTwo(n: nat, a: nat, half: nat, up: bool, u: nat)
    requires a <= n < a + 2 * half
    requires n - a > half ==> up
    requires n - a < half ==> !up
    requires u <= a || u >= a + 2 * half
    ensures var v := if up then a + 2 * half else a;
      && Distance(n, v) <= Distance(n, u)
      && (u != v && Distance(n, u) == Distance(n, v) ==> n - a == half)
  {
  }

  /** Rounding of n = q·2^e + r by its remainder r, half to even. */
  lemma RoundingIsHalfEven(n: nat, q: nat, e: nat, r: nat, up: bool)
    requires e > 0 && n == Shl(q, e) + r && r < Pow2(e)
    requires Pow2(SIGNIFICAND_BITS - 1) <= q < Pow2(SIGNIFICAND_BITS)
    requires up <==> r > Pow2(e - 1) || (r == Pow2(e - 1) && q % 2 == 1)
    ensures var v := if up then Shl(q + 1, e) else Shl(q, e);
      IsNearest(n, v) && (HasTie(n, v) ==> (if up then q + 1 else q) % 2 == 0)
    ensures n >= Pow2(SIGNIFICAND_BITS)
  {
    hide Shl;
    hide Pow2;
    hide Representable;
    var v := if up then Shl(q + 1, e) else Shl(q, e);
    Halves(e);
    OneMore(q, e);
    CandidateRepresentable(q, e);
    CandidateRepresentable(q + 1, e);
    forall u | Representable(u)
      ensures Distance(n, v) <= Distance(n, u)
      ensures u != v && Distance(n, u) == Distance(n, v) ==> r == Pow2(e - 1)
    {
      NothingBetween(q, e, u);
      NearerOfTwo(n, Shl(q, e), Pow2(e - 1), up, u);
    }
    LargeShift(q, e);
  }

  lemma OneMore(q: nat, e: nat)
    ensures Shl(q + 1, e) == Shl(q, e) + Pow2(e)
  {
    ShlAdd(q, 1, e);
  }

  lemma LargeShift(q: nat, e: nat)
    requires e > 0 && q >= Pow2(SIGNIFICAND_BITS - 1)
    ensures Shl(q, e) >= Pow2(SIGNIFICAND_BITS)
  {
    hide Shl;
    ShlShl(1, SIGNIFICAND_BITS - 1, e);
    if q > Pow2(SIGNIFICAND_BITS - 1) {
      ShlLess(Pow2(SIGNIFICAND_BITS - 1), q, e);
    }
    ShlMoreBits(1, SIGNIFICAND_BITS, SIGNIFICAND_BITS - 1 + e);
  }

  // --- The result is determined by the integer -----------------------------------------------

  lemma {:induction false} ShlEqual(a: nat, b: nat, e: nat)
    requires Shl(a, e) == Shl(b, e)
    ensures a == b
  {
    if a < b {
      ShlLess(a, b, e);
    } else if b < a {
      ShlLess(b, a, e);
    }
  }

  /** A value has one normal mantissa. */
  lemma NormalIsUnique(a: nat, e: nat, b: nat, f: nat)
    requires Pow2(SIGNIFICAND_BITS - 1) <= a < Pow2(SIGNIFICAND_BITS)
    requires Pow2(SIGNIFICAND_BITS - 1) <= b < Pow2(SIGNIFICAND_BITS)
    requires Shl(a, e) == Shl(b, f)
    ensures a == b && e == f
  {
    hide Shl;
    hide Pow2;
    if e < f {
      ShlShl(b, f - e, e);
      ShlEqual(a, Shl(b, f - e), e);
      LargeShift(b, f - e);
    } else if f < e {
      ShlShl(a, e - f, f);
      ShlEqual(b, Shl(a, e - f), f);
      LargeShift(a, e - f);
    } else {
      ShlEqual(a, b, e);
    }
  }

  /** Two different nearest values are neighbours, and the lower one has a normal mantissa. */
  lemma NearestNeighbours(n: nat, m: nat, e: nat, v: nat)
    requires IsRoundedHalfEven(n, m, e) && IsNearest(n, v) && Shl(m, e) < v
    ensures e > 0 && v == Shl(m + 1, e)
  {
    hide Shl;
    hide Pow2;
    hide Representable;
    var low := Shl(m, e);
    assert Distance(n, low) == Distance(n, v) && low < n < v;
    Exact(n);
    if e == 0 {
      MantissaItself(m);
      CandidateRepresentable(Pow2(SIGNIFICAND_BITS), 0);
      MantissaItself(Pow2(SIGNIFICAND_BITS));
    }
    NothingBetween(m, e, v);
    CandidateRepresentable(m + 1, e);
    ShlLess(m, m + 1, e);
  }

  lemma MantissaItself(m: nat)
    ensures Shl(m, 0) == m
  {
  }

  lemma Exact(n: nat)
    ensures n < Pow2(SIGNIFICAND_BITS) ==> Representable(n)
  {
    hide Pow2;
    if n < Pow2(SIGNIFICAND_BITS) {
      assert Shl(n, 0) == n;
    }
  }

  lemma EvenPower(e: nat)
    requires e > 0
    ensures Pow2(e) % 2 == 0
  {
  }

  lemma NoDoubleTie(n: nat, m: nat, e: nat, k: nat, f: nat)
    requires IsRoundedHalfEven(n, m, e) && IsRoundedHalfEven(n, k, f)
    ensures Shl(m, e) >= Shl(k, f)
  {
    hide Shl;
    hide Pow2;
    hide Representable;
    var low, high := Shl(m, e), Shl(k, f);
    if low < high {
      NearestNeighbours(n, m, e, high);
      assert HasTie(n, low) && HasTie(n, high);
      EvenPower(SIGNIFICAND_BITS);
      EvenPower(SIGNIFICAND_BITS - 1);
      if f == 0 {
        MantissaItself(k);
        LargeShift(m, e);
      } else {
        NormalIsUnique(m + 1, e, k, f);
      }
    }
  }

  /** Round half to even gives one value, and a larger integer never a smaller one. */
  lemma RoundingIsMonotone(a: nat, m: nat, e: nat, b: nat, k: nat, f: nat)
    requires a <= b && IsRoundedHalfEven(a, m, e) && IsRoundedHalfEven(b, k, f)
    ensures Shl(m, e) <= Shl(k, f)
    ensures a == b ==> Shl(m, e) == Shl(k, f)
  {
    hide Shl;
    hide Pow2;
    hide Representable;
    if a == b {
      NoDoubleTie(a, m, e, k, f);
      NoDoubleTie(a, k, f, m, e);
    } else {
      var v, w := Shl(m, e), Shl(k, f);
      assert Distance(a, v) <= Distance(a, w) && Distance(b, w) <= Distance(b, v);
    }
  }

  // --- The conversion ---------------------------------------------------------------------------

  /** r is the double of the exact integer n: rounded half to even, and
      infinite from 2^1024. */
  ghost predicate IsDoubleOf(n: nat, r: Number) {
    exists m: nat, e: nat :: IsRoundedHalfEven(n, m, e) && r == ScaleToDouble(m, e)
  }

  /** The exact product mantissa·2^exponent as a double. */
  function ScaleToDouble(mantissa: nat, exponent: nat): Number {
    if Shl(mantissa, exponent) >= Pow2(MAX_EXPONENT + 1) then Infinite else Finite(mantissa, exponent)
  }

  /** The order of the results, infinity above every finite value. */
  ghost predicate AtMost(a: Number, b: Number) {
    || (b.Infinite? && !a.NaN?)
    || (a.Finite? && b.Finite? && Shl(a.mantissa, a.exponent) <= Shl(b.mantissa, b.exponent))
  }

  /** A larger integer never has a smaller double, also where one of the two is
      infinite, and the double of an integer has one value. */
  lemma DoublesAreMonotone(a: nat, r: Number, b: nat, t: Number)
    requires a <= b && IsDoubleOf(a, r) && IsDoubleOf(b, t)
    ensures AtMost(r, t)
    ensures a == b ==> AtMost(t, r)
  {
    hide Shl, Pow2, IsRoundedHalfEven;
    var m: nat, e: nat :| IsRoundedHalfEven(a, m, e) && r == ScaleToDouble(m, e);
    var k: nat, f: nat :| IsRoundedHalfEven(b, k, f) && t == ScaleToDouble(k, f);
    RoundingIsMonotone(a, m, e, b, k, f);
  }

  /** An integer is too large for a double exactly from 2^1024 - 2^970 on: halfway from
      the largest double, and the tie goes up. */
  lemma OverflowExactly(n: nat, r: Number)
    requires IsDoubleOf(n, r)
    ensures r.Infinite? <==> n >= Pow2(1024) - Pow2(970)
  {
    hide Shl, Pow2, IsRoundedHalfEven;
    var m: nat, e: nat :| IsRoundedHalfEven(n, m, e) && r == ScaleToDouble(m, e);
    var limit := BoundaryRounds();
    if n >= limit {
      RoundingIsMonotone(limit, Pow2(52), 972, n, m, e);
    } else {
      RoundingIsMonotone(n, m, e, limit - 1, Pow2(53) - 1, 971);
    }
  }

  lemma BoundaryRounds() returns (limit: nat)
    ensures limit > 0 && limit == Pow2(1024) - Pow2(970)
    ensures IsRoundedHalfEven(limit, Pow2(52), 972) && Shl(Pow2(52), 972) == Pow2(1024)
    ensures IsRoundedHalfEven(limit - 1, Pow2(53) - 1, 971) && Shl(Pow2(53) - 1, 971) < Pow2(1024)
  {
    hide Shl, Representable, IsNearest, HasTie;
    Halves(971);
    Halves(53);
    EvenPower(52);
    ShlShl(1, 53, 971);
    ShlShl(1, 52, 972);
    var q := Pow2(53) - 1;
    OneMore(q, 971);
    limit := Shl(q, 971) + Pow2(970);
    RoundingIsHalfEven(limit, q, 971, Pow2(970), true);
    RoundingIsHalfEven(limit - 1, q, 971, Pow2(970) - 1, false);
  }

  lemma ScaleInfinite(m: nat, e: nat)
    requires m >= Pow2(SIGNIFICAND_BITS - 1) && e > MAX_EXPONENT
    ensures ScaleToDouble(m, e) == Infinite
  {
    hide Shl;
    ShlMoreBits(1, MAX_EXPONENT + 1, e);
    PositiveShift(m, e);
  }

  lemma {:induction false} PositiveShift(m: nat, e: nat)
    requires m > 0
    ensures Shl(m, e) >= Pow2(e)
  {
    if m > 1 {
      ShlLess(1, m, e);
    }
  }

  /** `x >> s`. */
  function Shr(x: nat, s: nat): nat {
    if s == 0 then x else Shr(x, s - 1) / 2
  }

  /** The bits of one digit, the highest first. */
  method PushDigit(bits: seq<bool>, value: nat, count: nat) returns (r: seq<bool>)
    requires count <= 4 && Shr(value, count) == 0
    ensures BitsValue(r) == Shl(BitsValue(bits), count) + value
    ensures |r| == |bits| + count
  {
    r := bits;
    for shift := count downto 0
      invariant |r| == |bits| + (count - shift)
      invariant BitsValue(r) == Shl(BitsValue(bits), count - shift) + Shr(value, shift)
    {
      var bit := Shr(value, shift) % 2 == 1;
      assert (r + [bit])[..|r|] == r;
      r := r + [bit];
    }
  }

  function RadixOf(bitsPerDigit: nat): (radix: nat)
    requires bitsPerDigit in {1, 3, 4}
    ensures radix <= 16
  {
    if bitsPerDigit == 1 then 2 else if bitsPerDigit == 3 then 8 else 16
  }

  lemma DigitShift(value: nat, bitsPerDigit: nat, prefix: nat)
    requires bitsPerDigit in {1, 3, 4} && value < RadixOf(bitsPerDigit)
    ensures Shr(value, bitsPerDigit) == 0
    ensures Shl(prefix, bitsPerDigit) == prefix * RadixOf(bitsPerDigit)
  {
    assert Shr(value, 1) == value / 2;
    assert Shr(value, 2) == Shr(value, 1) / 2;
    assert Shr(value, 3) == Shr(value, 2) / 2;
    assert Shr(value, 4) == Shr(value, 3) / 2;
    assert Shl(prefix, 1) == 2 * prefix;
    assert Shl(prefix, 2) == 2 * Shl(prefix, 1);
    assert Shl(prefix, 3) == 2 * Shl(prefix, 2);
    assert Shl(prefix, 4) == 2 * Shl(prefix, 3);
  }

  /** The bits of all digits, or `None` at a character that is not a digit. */
  method BitsOf(digits: seq<char>, bitsPerDigit: nat) returns (r: Option<seq<bool>>)
    requires bitsPerDigit in {1, 3, 4}
    ensures r.Some? <==> AllDigits(digits, RadixOf(bitsPerDigit))
    ensures r.Some? ==> BitsValue(r.value) == IntegerOf(digits, RadixOf(bitsPerDigit))
  {
    var radix := RadixOf(bitsPerDigit);
    var bits: seq<bool> := [];
    for n := 0 to |digits|
      invariant AllDigits(digits[..n], radix)
      invariant BitsValue(bits) == IntegerOf(digits[..n], radix)
    {
      var value := DigitValue(digits[n], radix);
      if value.None? {
        return None;
      }
      assert digits[..n + 1][..n] == digits[..n];
      DigitShift(value.value, bitsPerDigit, BitsValue(bits));
      bits := PushDigit(bits, value.value, bitsPerDigit);
    }
    assert digits[..|digits|] == digits;
    r := Some(bits);
  }

  /** The bits from the first one on; empty without a one. */
  method Significant(bits: seq<bool>) returns (r: seq<bool>)
    ensures BitsValue(r) == BitsValue(bits)
    ensures r != [] ==> r[0]
  {
    var k := 0;
    while k < |bits| && !bits[k]
      invariant k <= |bits|
      invariant forall i :: 0 <= i < k ==> !bits[i]
    {
      k := k + 1;
    }
    BitsSplit(bits, k);
    BitsZero(bits[..k]);
    ShiftZero(|bits| - k);
    r := bits[k..];
  }

  lemma {:induction false} ShiftZero(e: nat)
    ensures Shl(0, e) == 0
  {
    if e > 0 {
      ShiftZero(e - 1);
    }
  }

  method Fold(bits: seq<bool>) returns (value: nat)
    ensures value == BitsValue(bits)
  {
    value := 0;
    for n := 0 to |bits|
      invariant value == BitsValue(bits[..n])
    {
      assert bits[..n + 1][..n] == bits[..n];
      value := 2 * value + if bits[n] then 1 else 0;
    }
    assert bits[..|bits|] == bits;
  }

  /** The round bit and the sticky bits are the remainder against one half. */
  lemma RemainderBits(tail: seq<bool>)
    requires tail != []
    ensures var r, half := BitsValue(tail), Pow2(|tail| - 1);
      && r < Pow2(|tail|)
      && (r > half <==> tail[0] && true in tail[1..])
      && (r == half <==> tail[0] && true !in tail[1..])
  {
    hide Shl;
    BitsBound(tail);
    BitsSplit(tail, 1);
    BitsBound(tail[1..]);
    BitsZero(tail[1..]);
    assert tail[..1] == [tail[0]] && [tail[0]][..0] == [];
    assert BitsValue([tail[0]]) == if tail[0] then 1 else 0;
    ShiftZero(|tail| - 1);
  }

  /** Rounds the significant bits half to even. */
  method RoundBits(sig: seq<bool>) returns (mantissa: nat, exponent: nat)
    requires sig != [] && sig[0]
    ensures IsRoundedHalfEven(BitsValue(sig), mantissa, exponent)
    ensures mantissa < Pow2(SIGNIFICAND_BITS)
    ensures exponent > 0 ==> mantissa >= Pow2(SIGNIFICAND_BITS - 1)
    ensures |sig| > SIGNIFICAND_BITS ==> |sig| - SIGNIFICAND_BITS <= exponent
  {
    hide Shl;
    hide Representable;
    if |sig| <= SIGNIFICAND_BITS {
      mantissa := Fold(sig);
      exponent := 0;
      BitsBound(sig);
      ShlMoreBits(1, |sig|, SIGNIFICAND_BITS);
      MantissaItself(mantissa);
      Exact(mantissa);
    } else {
      var head, tail := sig[..SIGNIFICAND_BITS], sig[SIGNIFICAND_BITS..];
      mantissa := Fold(head);
      exponent := |sig| - SIGNIFICAND_BITS;
      BitsSplit(sig, SIGNIFICAND_BITS);
      BitsBound(head);
      LeadingOne(head);
      RemainderBits(tail);
      var sticky := true in tail[1..];
      var up := tail[0] && (sticky || mantissa % 2 == 1);
      RoundingIsHalfEven(BitsValue(sig), mantissa, exponent, BitsValue(tail), up);
      if up {
        mantissa := mantissa + 1;
        if mantissa == Pow2(SIGNIFICAND_BITS) {
          Carry(exponent);
          mantissa := Pow2(SIGNIFICAND_BITS - 1);
          exponent := exponent + 1;
          EvenPower(SIGNIFICAND_BITS - 1);
        }
      }
    }
  }

  /** Halving the mantissa 2^53 and raising the exponent keeps the value. */
  lemma Carry(e: nat)
    ensures Shl(Pow2(SIGNIFICAND_BITS), e) == Shl(Pow2(SIGNIFICAND_BITS - 1), e + 1)
  {
    hide Shl;
    ShlShl(1, SIGNIFICAND_BITS - 1, 1);
    ShlShl(Pow2(SIGNIFICAND_BITS - 1), 1, e);
  }

  /** The double nearest to an integer written in radix 16, 8 or 2; NaN without
      digits or with another character. */
  method RadixToNumber(digits: seq<char>, bitsPerDigit: nat) returns (r: Number)
    requires bitsPerDigit in {1, 3, 4}
    ensures r == NaN <==> digits == [] || !AllDigits(digits, RadixOf(bitsPerDigit))
    ensures r != NaN ==> IsDoubleOf(IntegerOf(digits, RadixOf(bitsPerDigit)), r)
  {
    hide Shl;
    hide IsRoundedHalfEven;
    var bits := BitsOf(digits, bitsPerDigit);
    if bits.None? || digits == [] {
      return NaN;
    }
    ghost var n := IntegerOf(digits, RadixOf(bitsPerDigit));
    var sig := Significant(bits.value);
    if sig == [] {
      ZeroIsExact();
      assert IsRoundedHalfEven(n, 0, 0);
      return Finite(0, 0);
    }
    var mantissa, exponent := RoundBits(sig);
    assert IsRoundedHalfEven(n, mantissa, exponent);
    if |sig| > MAX_I32 || exponent > MAX_EXPONENT {
      ScaleInfinite(mantissa, exponent);
      return Infinite;
    }
    r := ScaleToDouble(mantissa, exponent);
  }

  lemma ZeroIsExact()
    ensures IsRoundedHalfEven(0, 0, 0) && ScaleToDouble(0, 0) == Finite(0, 0)
  {
    hide Pow2;
    Exact(0);
    assert Shl(0, 0) == 0;
    assert Representable(0);
    assert forall u :: Representable(u) && u != 0 ==> Distance(0, u) > 0;
  }
}
