/** Easter against the ecclesiastical moon: the full moon by its own recurrence over
    the years, and Easter as the first Sunday after it. */
module Computus {
  import opened Calendar
  import opened Quarters

  // --- The ecclesiastical full moon ---------------------------------------------------------

  /** A century year that the Gregorian calendar does not make a leap year delays
      the moon by a day. */
  predicate HasSolarCorrection(year: nat) {
    year % 100 == 0 && year % 400 != 0
  }

  /** Eight times in 2500 years, at 300 years and once at 400, the moon comes a day
      earlier; one series of the eight begins in 1800. */
  predicate HasLunarCorrection(year: nat) {
    year % 100 == 0 && (year / 100 - 18) % 25 % 3 == 0 && (year / 100 - 18) % 25 < 24
  }

  /** The moon moves back 11 days a year, and one more where the cycle of 19 years
      restarts. */
  function YearlyShift(year: nat): int {
    -11 - (if year % 19 == 0 then 1 else 0)
    + (if HasSolarCorrection(year) then 1 else 0) - (if HasLunarCorrection(year) then 1 else 0)
  }

  /** The full moon in days after 21 March, modulo the month of 30 days. */
  function MoonAt(year: nat): (days: int)
    ensures 0 <= days < 30
  {
    if year == 0 then 15 else (MoonAt(year - 1) + YearlyShift(year)) % 30
  }

  /** The lunar term of a century. */
  function LunarTerm(b: int): int {
    (b - (b + 8) / 25 + 1) / 3
  }

  lemma LunarTermParts(b: int)
    ensures LunarTerm(b) == 8 * ((b + 8) / 25) + ((b + 8) % 25 - 7) / 3
  {
    var f, r := (b + 8) / 25, (b + 8) % 25;
    assert b + 8 == 25 * f + r;
    assert b - f + 1 == 3 * (8 * f) + (r - 7);
  }

  lemma LunarTermStep(b: int)
    ensures LunarTerm(b + 1) - LunarTerm(b) == if (b - 17) % 25 % 3 == 0 && (b - 17) % 25 < 24 then 1 else 0
  {
    LunarTermParts(b);
    LunarTermParts(b + 1);
    assert (b - 17) % 25 == (b + 8) % 25;
    hide LunarTerm;
    var f, r := (b + 8) / 25, (b + 8) % 25;
    assert b + 8 == 25 * f + r;
    if r < 24 {
      assert (b + 9) / 25 == f && (b + 9) % 25 == r + 1;
    } else {
      assert (b + 9) / 25 == f + 1 && (b + 9) % 25 == 0;
    }
  }

  /** The sum whose remainder modulo 30 is the moon. */
  function MoonSum(year: nat): int {
    19 * (year % 19) + year / 100 - year / 100 / 4 - LunarTerm(year / 100) + 15
  }

  lemma NextCentury(year: nat)
    ensures (year + 1) / 100 == if (year + 1) % 100 == 0 then year / 100 + 1 else year / 100
    ensures (year + 1) % 100 == 0 ==> ((year + 1) % 400 == 0 <==> (year / 100 + 1) % 4 == 0)
  {
    if (year + 1) % 100 == 0 {
      var c := year / 100 + 1;
      assert year + 1 == 100 * c;
      assert c == 4 * (c / 4) + c % 4;
      assert year + 1 == 400 * (c / 4) + 100 * (c % 4);
    }
  }

  lemma CycleStep(year: nat)
    ensures 19 * ((year + 1) % 19) == 19 * (year % 19) + if (year + 1) % 19 == 0 then -342 else 19
  {
  }

  lemma CenturyStep(year: nat)
    ensures (year + 1) / 100 - (year + 1) / 100 / 4 - LunarTerm((year + 1) / 100)
         == year / 100 - year / 100 / 4 - LunarTerm(year / 100)
          + (if HasSolarCorrection(year + 1) then 1 else 0) - (if HasLunarCorrection(year + 1) then 1 else 0)
  {
    hide LunarTerm;
    NextCentury(year);
    LunarTermStep(year / 100);
    var b := year / 100;
    assert (b + 1) / 4 == if (b + 1) % 4 == 0 then b / 4 + 1 else b / 4;
  }

  lemma MoonSumStep(year: nat)
    ensures MoonSum(year + 1) == MoonSum(year) + YearlyShift(year + 1) + 30 * if (year + 1) % 19 == 0 then -11 else 1
  {
    hide LunarTerm, HasSolarCorrection, HasLunarCorrection;
    CycleStep(year);
    CenturyStep(year);
  }

  lemma SameRemainder(x: int, y: int, k: int)
    requires x == y + 30 * k
    ensures x % 30 == y % 30
  {
  }

  lemma ShiftedRemainder(x: int, d: int)
    ensures (x % 30 + d) % 30 == (x + d) % 30
  {
    SameRemainder(x + d, x % 30 + d, x / 30);
  }

  /** The moon that Easter is computed from is the ecclesiastical one, in every year. */
  lemma {:induction false} MoonIsEcclesiastical(year: nat)
    ensures EasterTermsOf(year).h == MoonAt(year)
  {
    hide MoonSum, EasterTermsOf, YearlyShift;
    MoonIsRemainder(year);
    if year == 0 {
      FirstMoon();
    } else {
      MoonIsEcclesiastical(year - 1);
      MoonIsRemainder(year - 1);
      MoonSumStep(year - 1);
      SameRemainder(MoonSum(year), MoonSum(year - 1) + YearlyShift(year), if year % 19 == 0 then -11 else 1);
      ShiftedRemainder(MoonSum(year - 1), YearlyShift(year));
    }
  }

  lemma FirstMoon()
    ensures MoonSum(0) == 15
  {
  }

  lemma MoonIsRemainder(year: nat)
    ensures EasterTermsOf(year).h == MoonSum(year) % 30
  {
  }

  // --- Easter ----------------------------------------------------------------------------------

  /** The day number of the paschal full moon: 21 March and the days of the moon, a
      day less on the last day of the month, and on the one before it in the second
      half of the cycle of 19 years. */
  function PaschalMoonDay(year: nat): int {
    var m := MoonAt(year);
    Date(year, 3, 21).Number() + if m == 29 || (m == 28 && year % 19 >= 11) then m - 1 else m
  }

  /** Easter is the first Sunday strictly after the paschal full moon, in every year. */
  lemma EasterIsFirstSunday(year: nat)
    ensures EasterSunday(year).Valid()
    ensures var moon, easter := PaschalMoonDay(year), EasterSunday(year).Number();
      && moon < easter && UtcWeekday(easter * DAY_MS) == 0
      && forall day :: moon < day < easter ==> UtcWeekday(day * DAY_MS) != 0
  {
    MoonIsEcclesiastical(year);
    EasterFromOffset(year);
    EasterIsASunday(year);
    EasterFollowsFullMoon(year);
    CycleYear(year);
    DaysBefore(year);
    hide EasterTermsOf, EasterOffset, UtcWeekday, DaysFromCivil, EasterSunday, MoonAt;
    var moon, easter := PaschalMoonDay(year), EasterSunday(year).Number();
    forall day | moon < day < easter
      ensures UtcWeekday(day * DAY_MS) != 0
    {
      WeekdayOfDay(day);
      WeekdayOfDay(easter);
      NoOtherSunday(day, easter);
    }
  }

  lemma NoOtherSunday(day: int, sunday: int)
    requires sunday - 7 < day < sunday && (sunday + 4) % 7 == 0
    ensures (day + 4) % 7 != 0
  {
  }

  lemma CycleYear(year: nat)
    ensures EasterTermsOf(year).a == year % 19
  {
  }

  lemma DaysBefore(year: int)
    ensures Date(year, 3, 22).Number() == Date(year, 3, 21).Number() + 1
  {
  }

  /** One known year: the full moon of 25 March 2024, and Easter on the 31st. */
  lemma EasterOf2024()
    ensures MoonAt(2024) == 4
    ensures EasterSunday(2024) == Date(2024, 3, 31)
  {
    TermsOf2024();
    MoonIsEcclesiastical(2024);
    hide EasterTermsOf, MoonAt;
  }

  lemma TermsOf2024()
    ensures EasterTermsOf(2024) == EasterTerms(10, 20, 24, 5, 0, 4, 6, 0, 5, 0)
  {
    assert 2024 % 19 == 10 && 2024 / 100 == 20 && 2024 % 100 == 24;
    assert (20 + 8) / 25 == 1 && (20 - 1 + 1) / 3 == 6;
  }
}
