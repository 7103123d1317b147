/** The Gregorian calendar: day numbers from 1970-01-01, `Date.UTC`, and the
    Easter computus. */
module Calendar {
  import opened Common
  import opened Quarters

  // --- The calendar as months of true length ----------------------------------------------

  predicate IsLeapYear(year: int) {
    year % 4 == 0 && (year % 100 != 0 || year % 400 == 0)
  }

  function MonthLength(year: int, month: int): (days: int)
    requires 1 <= month <= 12
    ensures 28 <= days <= 31
  {
    if month == 2 then (if IsLeapYear(year) then 29 else 28)
    else if month == 4 || month == 6 || month == 9 || month == 11 then 30
    else 31
  }

  /** Months from January 1970. */
  function MonthIndex(year: int, month: int): int {
    12 * (year - 1970) + (month - 1)
  }

  function LengthOfMonth(index: int): (days: int)
    ensures 28 <= days <= 31
  {
    MonthLength(1970 + index / 12, index % 12 + 1)
  }

  /** The day number of the first day of a month, by adding up month lengths. */
  function FirstDay(index: int): int
    decreases if index < 0 then -index else index
  {
    if index == 0 then 0
    else if index > 0 then FirstDay(index - 1) + LengthOfMonth(index - 1)
    else FirstDay(index + 1) - LengthOfMonth(index)
  }

  lemma FirstDayStep(index: int)
    ensures FirstDay(index + 1) == FirstDay(index) + LengthOfMonth(index)
  {
  }

  lemma {:induction false} FirstDayGrows(i: int, j: int)
    requires i < j
    ensures FirstDay(i) + LengthOfMonth(i) <= FirstDay(j)
    decreases j - i
  {
    FirstDayStep(j - 1);
    if i < j - 1 {
      FirstDayGrows(i, j - 1);
    }
  }

  // --- The closed form -----------------------------------------------------------------------

  /** The day number of the first day of a month, in closed form. */
  function DaysFromCivil(year: int, month: int): int
    requires 1 <= month <= 12
  {
    var y := if month <= 2 then year - 1 else year;
    var era := y / 400;
    var yearOfEra := y - era * 400;
    var monthIndex := (month + 9) % 12;
    var dayOfYear := (153 * monthIndex + 2) / 5;
    var dayOfEra := yearOfEra * 365 + yearOfEra / 4 - yearOfEra / 100 + dayOfYear;
    era * 146_097 + dayOfEra - 719_468
  }

  function DaysOfEra(yearOfEra: int): int {
    yearOfEra * 365 + yearOfEra / 4 - yearOfEra / 100
  }

  /** The days of the years before March of year y. */
  function YearDays(y: int): int {
    y / 400 * 146_097 + DaysOfEra(y % 400)
  }

  function DayOfYear(month: int): int
    requires 1 <= month <= 12
  {
    (153 * ((month + 9) % 12) + 2) / 5
  }

  lemma CivilParts(year: int, month: int)
    requires 1 <= month <= 12
    ensures DaysFromCivil(year, month)
         == YearDays(if month <= 2 then year - 1 else year) + DayOfYear(month) - 719_468
  {
    var y := if month <= 2 then year - 1 else year;
    assert y - y / 400 * 400 == y % 400;
  }

  lemma DaysOfEraStep(r: int)
    requires 0 <= r < 399
    ensures DaysOfEra(r + 1) - DaysOfEra(r)
         == 365 + (if (r + 1) % 4 == 0 then 1 else 0) - (if (r + 1) % 100 == 0 then 1 else 0)
  {
  }

  lemma Residues(x: int, q: int, r: int)
    ensures x == 4 * q + r && 0 <= r < 4 ==> x % 4 == r
    ensures x == 100 * q + r && 0 <= r < 100 ==> x % 100 == r
  {
  }

  lemma LeapByEra(y: int)
    ensures IsLeapYear(y) <==> y % 400 % 4 == 0 && (y % 400 % 100 != 0 || y % 400 == 0)
  {
    var e, r := y / 400, y % 400;
    assert y == 400 * e + r;
    Residues(y, 100 * e + r / 4, r % 4);
    Residues(y, 4 * e + r / 100, r % 100);
  }

  lemma NextInEra(y: int)
    ensures y % 400 == 399 ==> (y + 1) / 400 == y / 400 + 1 && (y + 1) % 400 == 0
    ensures y % 400 < 399 ==> (y + 1) / 400 == y / 400 && (y + 1) % 400 == y % 400 + 1
  {
  }

  lemma YearStep(y: int)
    ensures YearDays(y + 1) - YearDays(y) == if IsLeapYear(y + 1) then 366 else 365
  {
    hide IsLeapYear;
    LeapByEra(y + 1);
    NextInEra(y);
    if y % 400 < 399 {
      hide DaysOfEra;
      DaysOfEraStep(y % 400);
    }
  }

  /** Consecutive months differ by the true length of the first, in every year. */
  lemma MonthStep(year: int, month: int)
    requires 1 <= month <= 12
    ensures DaysFromCivil(if month == 12 then year + 1 else year, if month == 12 then 1 else month + 1)
         == DaysFromCivil(year, month) + MonthLength(year, month)
  {
    hide DaysFromCivil;
    hide YearDays;
    hide IsLeapYear;
    CivilParts(year, month);
    CivilParts(if month == 12 then year + 1 else year, if month == 12 then 1 else month + 1);
    YearStep(year - 1);
  }

  lemma LengthAt(year: int, month: int)
    requires 1 <= month <= 12
    ensures LengthOfMonth(MonthIndex(year, month)) == MonthLength(year, month)
    ensures MonthIndex(if month == 12 then year + 1 else year, if month == 12 then 1 else month + 1)
         == MonthIndex(year, month) + 1
  {
    hide MonthLength;
    IndexParts(year, month);
  }

  /** The closed form is the calendar of true month lengths, for every year. */
  lemma {:induction false} ClosedFormIsCalendar(year: int, month: int)
    requires 1 <= month <= 12
    ensures DaysFromCivil(year, month) == FirstDay(MonthIndex(year, month))
    decreases Abs(MonthIndex(year, month))
  {
    hide DaysFromCivil;
    hide MonthLength;
    hide LengthOfMonth;
    hide FirstDay;
    var i := MonthIndex(year, month);
    if i == 0 {
      Epoch();
    } else if i > 0 {
      var y, m := if month == 1 then year - 1 else year, if month == 1 then 12 else month - 1;
      LengthAt(y, m);
      ClosedFormIsCalendar(y, m);
      MonthStep(y, m);
      FirstDayStep(i - 1);
    } else {
      var y, m := if month == 12 then year + 1 else year, if month == 12 then 1 else month + 1;
      LengthAt(year, month);
      ClosedFormIsCalendar(y, m);
      MonthStep(year, month);
      FirstDayStep(i);
    }
  }

  lemma Epoch()
    ensures DaysFromCivil(1970, 1) == 0 == FirstDay(0)
  {
  }

  lemma IndexParts(year: int, month: int)
    requires 1 <= month <= 12
    ensures var i := MonthIndex(year, month); 1970 + i / 12 == year && i % 12 + 1 == month
  {
  }

  // --- Dates ------------------------------------------------------------------------------------

  datatype Date = Date(year: int, month: int, day: int) {
    predicate Valid() {
      1 <= month <= 12 && 1 <= day <= MonthLength(year, month)
    }

    /** Days from 1970-01-01. */
    function Number(): int
      requires Valid()
    {
      DaysFromCivil(year, month) + day - 1
    }

    predicate Before(other: Date) {
      || year < other.year
      || (year == other.year && (month < other.month || (month == other.month && day < other.day)))
    }
  }

  /** Day numbers order the valid dates like year, month, and day. */
  lemma NumberOrdersDates(a: Date, b: Date)
    requires a.Valid() && b.Valid()
    ensures a.Number() < b.Number() <==> a.Before(b)
    ensures a.Number() == b.Number() <==> a == b
  {
    hide DaysFromCivil;
    var i, j := MonthIndex(a.year, a.month), MonthIndex(b.year, b.month);
    ClosedFormIsCalendar(a.year, a.month);
    ClosedFormIsCalendar(b.year, b.month);
    IndexParts(a.year, a.month);
    IndexParts(b.year, b.month);
    if i < j {
      FirstDayGrows(i, j);
    } else if j < i {
      FirstDayGrows(j, i);
    }
  }

  // --- Date.UTC -----------------------------------------------------------------------------------

  const MAX_TIME_MS: int := 8_640_000_000_000_000
  const MAX_YEAR: int := 1_000_000
  const MAX_DAY: int := 1_000_000_000

  function Abs(x: int): int {
    if x < 0 then -x else x
  }

  /** The years 0 to 99 stand for 1900 to 1999. */
  function FullYear(year: int): int {
    if 0 <= year <= 99 then 1900 + year else year
  }

  /** The instant of a day given by whole numbers, January being month 0. The
      month may be any number; months past December continue in later years.
      `None` is an instant outside the range of a time. */
  function DateUtc(year: int, month: int, day: int): Option<int> {
    var y := FullYear(year) + month / 12;
    var m := month % 12;
    if Abs(y) > MAX_YEAR || Abs(day) > MAX_DAY then None
    else
      var time := (DaysFromCivil(y, m + 1) + day - 1) * DAY_MS;
      if Abs(time) > MAX_TIME_MS then None else Some(time)
  }

  /** The day number that `Date.UTC` counts: the day within the rolled month. */
  function RolledDay(year: int, month: int, day: int): int {
    DaysFromCivil(FullYear(year) + month / 12, month % 12 + 1) + day - 1
  }

  /** Every time of `Date.UTC` is the midnight of its rolled day. */
  lemma DateUtcIsRolledDay(year: int, month: int, day: int)
    ensures DateUtc(year, month, day).Some? ==>
      DateUtc(year, month, day).value == RolledDay(year, month, day) * 24 * 60 * 60 * 1000
  {
    hide DaysFromCivil;
  }

  /** Months roll: the day after the last day of a month is the first day of
      the next, whatever year the month number lies in. */
  lemma DaysRollIntoMonths(year: int, month: int, day: int)
    ensures var full := FullYear(year) + month / 12;
      RolledDay(year, month, day + MonthLength(full, month % 12 + 1)) == RolledDay(year, month + 1, day)
  {
    hide DaysFromCivil;
    MonthStep(FullYear(year) + month / 12, month % 12 + 1);
  }

  /** A later year has a later day number on the same month and day. */
  lemma LaterYear(y: int, z: int, month: int)
    requires 1 <= month <= 12 && y < z
    ensures DaysFromCivil(y, month) < DaysFromCivil(z, month)
  {
    hide DaysFromCivil;
    ClosedFormIsCalendar(y, month);
    ClosedFormIsCalendar(z, month);
    FirstDayGrows(MonthIndex(y, month), MonthIndex(z, month));
  }

  /** Twelve months are one year exactly when the year is not at an edge of
      the years that map to the 1900s. */
  lemma MonthsRollIntoYears(year: int, month: int, day: int)
    ensures RolledDay(year, month + 12, day) == RolledDay(year + 1, month, day) <==> year != -1 && year != 99
  {
    hide DaysFromCivil;
    assert (month + 12) / 12 == month / 12 + 1 && (month + 12) % 12 == month % 12;
    if year == -1 {
      LaterYear(month / 12, 1900 + month / 12, month % 12 + 1);
    } else if year == 99 {
      LaterYear(100 + month / 12, 2000 + month / 12, month % 12 + 1);
    }
  }

  lemma CivilRange(year: int, month: int)
    requires 1 <= month <= 12 && 0 <= year <= 9999
    ensures -1_000_000 <= DaysFromCivil(year, month) <= 5_000_000
  {
    CivilParts(year, month);
  }

  /** A year past the bound lies outside the range of a time anyway. */
  lemma FarYear(year: int, month: int)
    requires 1 <= month <= 12
    ensures year > MAX_YEAR ==> DaysFromCivil(year, month) > 300_000_000
    ensures year < -MAX_YEAR ==> DaysFromCivil(year, month) < -300_000_000
  {
    CivilParts(year, month);
    var y := if month <= 2 then year - 1 else year;
    assert year > MAX_YEAR ==> y / 400 >= 2500;
    assert year < -MAX_YEAR ==> y / 400 <= -2501;
    assert 0 <= DaysOfEra(y % 400) <= 146_097;
  }

  lemma DaysInRange(day: int)
    ensures Abs(day * DAY_MS) <= MAX_TIME_MS <==> -100_000_000 <= day <= 100_000_000
  {
  }

  /** The instant of a valid date is that of its own day number, whenever a
      time can hold it; only the years 0 to 99 are those of the 1900s. */
  lemma DateUtcOfDate(d: Date)
    requires d.Valid()
    ensures !(0 <= d.year <= 99) ==>
      DateUtc(d.year, d.month - 1, d.day)
      == (if -100_000_000 <= d.Number() <= 100_000_000 then Some(d.Number() * DAY_MS) else None)
    ensures 0 <= d.year <= 99 ==>
      DateUtc(d.year, d.month - 1, d.day) == Some((DaysFromCivil(1900 + d.year, d.month) + d.day - 1) * DAY_MS)
  {
    hide DaysFromCivil;
    assert (d.month - 1) / 12 == 0 && (d.month - 1) % 12 == d.month - 1;
    var full := FullYear(d.year);
    FarYear(full, d.month);
    DaysInRange(DaysFromCivil(full, d.month) + d.day - 1);
    if 0 <= d.year <= 99 {
      CivilRange(full, d.month);
    }
  }

  /** The instant of any whole numbers: the day counts on from the first day of the
      month that lies so many months after January of the year, if both the year and
      the day are small enough and a time can hold the result. */
  lemma DateUtcCountsOn(year: int, month: int, day: int)
    ensures var full := if 0 <= year <= 99 then year + 1900 else year;
      var number := FirstDay(12 * (full - 1970) + month) + day - 1;
      DateUtc(year, month, day) ==
        if -1_000_000 <= full + month / 12 <= 1_000_000 && -1_000_000_000 <= day <= 1_000_000_000
           && -100_000_000 <= number <= 100_000_000
        then Some(number * 24 * 60 * 60 * 1000) else None
  {
    hide DaysFromCivil, FirstDay;
    var y, m := FullYear(year) + month / 12, month % 12 + 1;
    ClosedFormIsCalendar(y, m);
    assert MonthIndex(y, m) == 12 * (FullYear(year) - 1970) + month;
    DaysInRange(DaysFromCivil(y, m) + day - 1);
  }

  // --- Easter ---------------------------------------------------------------------------------------

  datatype EasterTerms = EasterTerms(a: int, b: int, c: int, d: int, e: int, h: int, i: int, k: int, l: int, m: int)

  /** The named terms of the anonymous Gregorian algorithm. */
  function EasterTermsOf(year: int): EasterTerms {
    var a := year % 19;
    var b := year / 100;
    var c := year % 100;
    var d := b / 4;
    var e := b % 4;
    var f := (b + 8) / 25;
    var g := (b - f + 1) / 3;
    var h := (19 * a + b - d - g + 15) % 30;
    var i := c / 4;
    var k := c % 4;
    var l := (32 + 2 * e + 2 * i - h - k) % 7;
    var m := (a + 11 * h + 22 * l) / 451;
    EasterTerms(a, b, c, d, e, h, i, k, l, m)
  }

  /** Easter Sunday of a year that is not negative. */
  function EasterSunday(year: nat): Date {
    var t := EasterTermsOf(year);
    var s := t.h + t.l - 7 * t.m + 114;
    Date(year, s / 31, s % 31 + 1)
  }

  /** Days from 22 March to Easter Sunday. */
  function EasterOffset(year: nat): int {
    var t := EasterTermsOf(year);
    t.h + t.l - 7 * t.m
  }

  lemma EasterOffsetRange(year: nat)
    ensures 0 <= EasterOffset(year) <= 34
  {
    var t := EasterTermsOf(year);
    assert 0 <= t.a <= 18 && 0 <= t.h <= 29 && 0 <= t.l <= 6;
    assert 0 <= t.m <= 1;
    if t.m == 1 {
      assert t.a + 11 * t.h + 22 * t.l >= 451;
    } else {
      assert t.a + 11 * t.h + 22 * t.l < 451;
    }
  }

  /** Easter Sunday is the day that many days after 22 March. */
  lemma EasterFromOffset(year: nat)
    ensures EasterSunday(year).Valid()
    ensures EasterSunday(year).Number() == Date(year, 3, 22).Number() + EasterOffset(year)
    ensures EasterSunday(year).month == 3 ==> EasterSunday(year).day >= 22
    ensures EasterSunday(year).month == 4 ==> EasterSunday(year).day <= 25
    ensures 3 <= EasterSunday(year).month <= 4
  {
    hide DaysFromCivil;
    hide EasterTermsOf;
    EasterOffsetRange(year);
    MonthStep(year, 3);
  }

  lemma CenturyParts(year: nat)
    ensures var b, c, r := year / 100, year % 100, year % 400;
      && b / 4 == year / 400
      && r == 100 * (b % 4) + c
      && r / 100 == b % 4
      && r / 4 == 25 * (b % 4) + c / 4
      && c == 4 * (c / 4) + c % 4
  {
    var b, c := year / 100, year % 100;
    assert year == 400 * (b / 4) + (100 * (b % 4) + c);
  }

  /** The weekday of 22 March by century and year of century. */
  lemma MarchWeekday(year: nat)
    ensures var t := EasterTermsOf(year);
      (Date(year, 3, 22).Number() + 4 + 32 + 2 * t.e + 2 * t.i - t.k) % 7 == 0
  {
    hide DaysFromCivil;
    CenturyParts(year);
    CivilParts(year, 3);
    var b, c := year / 100, year % 100;
    MarchResidue(year / 400, b % 4, c / 4, c % 4);
  }

  lemma MarchResidue(era: int, e: int, i: int, k: int)
    ensures var r := 100 * e + (4 * i + k);
      (era * 146_097 + (r * 365 + (25 * e + i) - e) - 719_468 + 21 + 4 + 32 + 2 * e + 2 * i - k) % 7 == 0
  {
    var sevenths := era * 20_871 + e * 5218 + i * 209 + k * 52 - 102_773;
    assert era * 146_097 + ((100 * e + (4 * i + k)) * 365 + (25 * e + i) - e) - 719_468 + 21 + 4 + 32 + 2 * e + 2 * i - k
        == 7 * sevenths;
    Sevens(7 * sevenths, sevenths);
  }

  lemma Sevens(x: int, k: int)
    requires x == 7 * k
    ensures x % 7 == 0
  {
  }

  /** For every year from 0, Easter Sunday is a valid date from 22 March to 25
      April, and its weekday is Sunday. */
  lemma EasterIsASunday(year: nat)
    ensures var easter := EasterSunday(year);
      && easter.Valid()
      && !easter.Before(Date(year, 3, 22)) && !Date(year, 4, 25).Before(easter)
      && UtcWeekday(easter.Number() * DAY_MS) == 0
  {
    hide DaysFromCivil, EasterTermsOf, UtcWeekday;
    EasterFromOffset(year);
    MarchWeekday(year);
    var t := EasterTermsOf(year);
    var n := Date(year, 3, 22).Number();
    LastTerm(year);
    LTerm(32 + 2 * t.e + 2 * t.i - t.k, t.h, t.l);
    WeekdayOfDay(n + EasterOffset(year));
    WeekdayOfEaster(n, 32 + 2 * t.e + 2 * t.i - t.k, t.h, t.l, t.m);
  }

  lemma LastTerm(year: nat)
    ensures var t := EasterTermsOf(year);
      t.l == (32 + 2 * t.e + 2 * t.i - t.k - t.h) % 7
  {
  }

  lemma WeekdayOfDay(day: int)
    ensures UtcWeekday(day * DAY_MS) == (day + 4) % 7
  {
    assert (day * DAY_MS) / DAY_MS == day;
  }

  lemma LTerm(x: int, h: int, l: int)
    requires l == (x - h) % 7
    ensures (h + l - x) % 7 == 0
  {
  }

  lemma WeekdayOfEaster(n: int, x: int, h: int, l: int, m: int)
    requires (n + 4 + x) % 7 == 0 && (h + l - x) % 7 == 0
    ensures (n + (h + l - 7 * m) + 4) % 7 == 0
  {
  }

  /** The paschal full moon of the year, in days after 21 March: the epact
      term, moved back a day in the two exceptional cases. */
  function PaschalFullMoon(year: nat): int {
    var t := EasterTermsOf(year);
    if t.h == 29 || (t.h == 28 && t.a > 10) then t.h - 1 else t.h
  }

  /** Easter is the first Sunday strictly after the paschal full moon. */
  lemma EasterFollowsFullMoon(year: nat)
    ensures var days := EasterOffset(year) + 1 - PaschalFullMoon(year); 1 <= days <= 7
  {
    var t := EasterTermsOf(year);
    assert 0 <= t.a <= 18 && 0 <= t.h <= 29 && 0 <= t.l <= 6 && 0 <= t.m <= 1;
    if t.m == 1 {
      assert t.a + 11 * t.h + 22 * t.l >= 451;
    } else {
      assert t.a + 11 * t.h + 22 * t.l < 451;
    }
  }
}
