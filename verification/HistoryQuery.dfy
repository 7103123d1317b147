/** Validation of the price-history query. */
module HistoryQuery {
  import opened Common
  import opened Radix
  import opened NumberText
  import opened Calendar
  import opened Quarters

  /** The longest range, in inclusive calendar days. */
  const MAX_HISTORY_SPAN_DAYS: int := 31

  datatype Field = From | To

  datatype IssueKind = Missing | InvalidDate | FromAfterTo | SpanTooLong

  datatype Issue = Issue(field: Field, kind: IssueKind)

  datatype HistoryQuery = HistoryQuery(from: Date, to: Date)

  function TwoDigits(tens: char, ones: char): Option<nat> {
    if IsDigit(tens) && IsDigit(ones)
    then Some((tens as nat - '0' as nat) * 10 + (ones as nat - '0' as nat)) else None
  }

  /** The date that a text of four, two and two digits names, if the calendar has it. */
  function ParseIsoDate(text: string): (r: Option<Date>)
    ensures r.Some? ==> r.value.Valid() && 0 <= r.value.year <= 9999 && |text| == 10
  {
    if |text| != 10 || text[4] != '-' || text[7] != '-' then None
    else
      var century, years := TwoDigits(text[0], text[1]), TwoDigits(text[2], text[3]);
      var month, day := TwoDigits(text[5], text[6]), TwoDigits(text[8], text[9]);
      if century.None? || years.None? || month.None? || day.None? then None
      else
        var date := Date(century.value * 100 + years.value, month.value, day.value);
        if date.Valid() then Some(date) else None
  }

  /** The order of the texts by code unit: negative, 0, or positive. */
  function CompareText(a: string, b: string): int {
    if a == "" || b == "" then |a| - |b|
    else if a[0] == b[0] then CompareText(a[1..], b[1..])
    else a[0] as int - b[0] as int
  }

  /** The characters [start, end) that the text has. */
  function Slice(text: string, start: nat, end: nat): string {
    var e := if end <= |text| then end else |text|;
    var s := if start <= e then start else e;
    text[s..e]
  }

  /** A finite value, or `None` for NaN and the infinities. */
  function Finite(n: JsNumber): Option<real> {
    match n
    case NaN => None
    case Infinity(_) => None
    case Decimal(value) => Some(value)
    case Binary(number) => if number.Finite? then Some(Shl(number.mantissa, number.exponent) as real) else None
  }

  /** `Math.trunc`. */
  function Trunc(x: real): int {
    if x >= 0.0 then x.Floor else -((-x).Floor)
  }

  /** Truncation drops the fraction, toward 0 on both sides of it. */
  lemma TruncDropsFraction(x: real)
    ensures x >= 0.0 ==> 0 <= Trunc(x) && Trunc(x) as real <= x < Trunc(x) as real + 1.0
    ensures x <= 0.0 ==> Trunc(x) <= 0 && Trunc(x) as real - 1.0 < x <= Trunc(x) as real
  {
    var size := if x >= 0.0 then x else -x;
    var whole := size.Floor;
    assert whole as real <= size < whole as real + 1.0;
    if x >= 0.0 {
      assert Trunc(x) == whole;
    } else {
      assert Trunc(x) == -whole && (-whole) as real == -(whole as real);
    }
  }

  /** A slice starts at its first place and ends before its last one or with the text. */
  lemma SliceTakes(text: string, start: nat, end: nat)
    ensures forall i :: start <= i < end && i < |text| ==> i - start < |Slice(text, start, end)| && Slice(text, start, end)[i - start] == text[i]
    ensures Slice(text, start, end) != "" ==> start + |Slice(text, start, end)| <= end && start + |Slice(text, start, end)| <= |text|
  {
    var e := if end <= |text| then end else |text|;
    if start < e {
      var slice := text[start..e];
      assert Slice(text, start, end) == slice && |slice| == e - start;
      assert forall i :: start <= i < e ==> slice[i - start] == text[i];
    } else {
      assert Slice(text, start, end) == "";
    }
  }

  /** A binary, octal or hexadecimal integer below 2^53 is a number as it stands. */
  lemma RadixIntegerIsItself(n: nat, r: Number)
    requires IsDoubleOf(n, r) && n < Pow2(53)
    ensures Finite(Binary(r)) == Some(n as real)
  {
    hide Pow2;
    var m: nat, e: nat :| IsRoundedHalfEven(n, m, e) && r == ScaleToDouble(m, e);
    assert m == n && e == 0 && Shl(n, 0) == n;
    PowersAscend();
  }

  lemma PowersAscend()
    ensures Pow2(53) <= Pow2(MAX_EXPONENT + 1)
  {
    hide Shl;
    ShlMoreBits(1, 53, MAX_EXPONENT + 1);
  }

  function DayOf(year: JsNumber, month: JsNumber, day: JsNumber): Option<int> {
    var y, m, d := Finite(year), Finite(month), Finite(day);
    if y.None? || m.None? || d.None? then None
    else DateUtc(Trunc(y.value), Trunc(m.value - 1.0), Trunc(d.value))
  }

  /** The time that a text gives when its first four characters are read as a
      year, the two after the next as a month, and the last two as a day; the text
      need not be a date, and `None` is NaN. */
  ghost predicate IsTimeOf(text: string, time: Option<int>) {
    exists year: JsNumber, month: JsNumber, day: JsNumber ::
      && IsNumberOf(Slice(text, 0, 4), year) && IsNumberOf(Slice(text, 5, 7), month) && IsNumberOf(Slice(text, 8, 10), day)
      && time == DayOf(year, month, day)
  }

  method DayOfText(text: string) returns (time: Option<int>)
    ensures IsTimeOf(text, time)
    ensures var date := ParseIsoDate(text);
      date.Some? ==> time == DateUtc(date.value.year, date.value.month - 1, date.value.day)
  {
    hide IsNumberOf;
    hide ParseIsoDate;
    hide DateUtc;
    var year := StringToNumber(Slice(text, 0, 4));
    var month := StringToNumber(Slice(text, 5, 7));
    var day := StringToNumber(Slice(text, 8, 10));
    time := DayOf(year, month, day);
    if ParseIsoDate(text).Some? {
      IsoSlices(text, year, month, day);
    }
  }

  /** A text of digits is the integer of the digits. */
  lemma DigitsAreNumbers(s: string, r: JsNumber)
    requires s != "" && AllDecimal(s) && IsNumberOf(s, r)
    ensures r == Decimal(DecimalInteger(s) as real)
  {
    hide DecimalInteger;
    hide Scaled10;
    hide DecimalValue;
    hide IsDecimalLiteral;
    hide IsDoubleOf;
    AssembledIsLiteral(false, s, false, "", "");
    NoTail(s);
    NoTail("");
    assert Assemble(false, s, false, "", "") == s;
    Scaled10Zero(DecimalInteger(s));
    assert JsTrim(s) == s;
    assert IsDigit(s[0]);
  }

  lemma TwoDigitInteger(s: string)
    requires |s| == 2 && AllDecimal(s)
    ensures DecimalInteger(s) == TwoDigits(s[0], s[1]).value
  {
    assert s == ([] + [s[0]]) + [s[1]];
    DecimalPush([], s[0]);
    DecimalPush([s[0]], s[1]);
    assert [] + [s[0]] == [s[0]];
  }

  lemma FourDigitInteger(s: string)
    requires |s| == 4 && AllDecimal(s)
    ensures DecimalInteger(s) == TwoDigits(s[0], s[1]).value * 100 + TwoDigits(s[2], s[3]).value
  {
    hide DecimalInteger;
    TwoDigitInteger(s[..2]);
    DecimalPush(s[..2], s[2]);
    DecimalPush(s[..2] + [s[2]], s[3]);
    assert s == (s[..2] + [s[2]]) + [s[3]];
  }

  lemma IsoSlices(text: string, year: JsNumber, month: JsNumber, day: JsNumber)
    requires ParseIsoDate(text).Some?
    requires IsNumberOf(Slice(text, 0, 4), year) && IsNumberOf(Slice(text, 5, 7), month) && IsNumberOf(Slice(text, 8, 10), day)
    ensures var date := ParseIsoDate(text).value;
      DayOf(year, month, day) == DateUtc(date.year, date.month - 1, date.day)
  {
    hide IsNumberOf;
    hide DateUtc;
    hide DecimalInteger;
    var y, m, d := Slice(text, 0, 4), Slice(text, 5, 7), Slice(text, 8, 10);
    assert AllDecimal(y) && AllDecimal(m) && AllDecimal(d);
    DigitsAreNumbers(y, year);
    DigitsAreNumbers(m, month);
    DigitsAreNumbers(d, day);
    FourDigitInteger(y);
    TwoDigitInteger(m);
    TwoDigitInteger(d);
  }

  // --- The validation --------------------------------------------------------------------------

  /** The day number that the span check gives a date, its years 0 to 99 taken
      for 1900 to 1999. */
  function MappedDay(d: Date): int
    requires d.Valid()
  {
    DaysFromCivil(FullYear(d.year), d.month) + d.day - 1
  }

  /** The two checks of a query whose texts are dates. */
  ghost predicate PassesChecks(from: string, to: string)
    requires ParseIsoDate(from).Some? && ParseIsoDate(to).Some?
  {
    && CompareText(from, to) <= 0
    && MappedDay(ParseIsoDate(to).value) - MappedDay(ParseIsoDate(from).value) + 1 <= MAX_HISTORY_SPAN_DAYS
  }

  function DateIssues(field: Field, text: Option<string>): seq<Issue> {
    if text.None? then [Issue(field, Missing)]
    else if ParseIsoDate(text.value).None? then [Issue(field, InvalidDate)]
    else []
  }

  function OrderIssues(from: string, to: string): seq<Issue> {
    if CompareText(from, to) > 0 then [Issue(From, FromAfterTo)] else []
  }

  /** A span that is not a number is too long as well. */
  function SpanIssues(fromTime: Option<int>, toTime: Option<int>): seq<Issue> {
    if fromTime.None? || toTime.None? || toTime.value - fromTime.value > (MAX_HISTORY_SPAN_DAYS - 1) * DAY_MS
    then [Issue(To, SpanTooLong)] else []
  }

  /** The issues of two dates: out of order, and too far apart. */
  function RangeIssues(from: string, to: string): seq<Issue>
    requires ParseIsoDate(from).Some? && ParseIsoDate(to).Some?
  {
    OrderIssues(from, to)
    + (if MappedDay(ParseIsoDate(to).value) - MappedDay(ParseIsoDate(from).value) + 1 > MAX_HISTORY_SPAN_DAYS
       then [Issue(To, SpanTooLong)] else [])
  }

  function IssuesOf(r: Result<HistoryQuery, seq<Issue>>): seq<Issue> {
    if r.Ok? then [] else r.error
  }

  /** The query, or every issue in field order. Two texts are checked for their
      order and their span even when they are not dates. */
  method ParseHistoryQuery(from: Option<string>, to: Option<string>) returns (r: Result<HistoryQuery, seq<Issue>>)
    ensures r.Ok? <==>
      && from.Some? && to.Some?
      && ParseIsoDate(from.value).Some? && ParseIsoDate(to.value).Some?
      && PassesChecks(from.value, to.value)
    ensures r.Ok? ==> r.value == HistoryQuery(ParseIsoDate(from.value).value, ParseIsoDate(to.value).value)
    ensures r.Err? ==> r.error != [] && DateIssues(From, from) + DateIssues(To, to) <= r.error
    ensures from.Some? && to.Some? ==>
      exists fromTime: Option<int>, toTime: Option<int> ::
        && IsTimeOf(from.value, fromTime) && IsTimeOf(to.value, toTime)
        && IssuesOf(r) == DateIssues(From, from) + DateIssues(To, to)
                          + OrderIssues(from.value, to.value) + SpanIssues(fromTime, toTime)
    ensures r.Err? && from.Some? && to.Some? && ParseIsoDate(from.value).Some? && ParseIsoDate(to.value).Some? ==>
      r.error == RangeIssues(from.value, to.value)
    ensures r.Err? && (from.None? || to.None?) ==> r.error == DateIssues(From, from) + DateIssues(To, to)
  {
    hide ParseIsoDate, DateUtc, CompareText, MappedDay, IsTimeOf;
    var issues := DateIssues(From, from) + DateIssues(To, to);
    if from.Some? && to.Some? {
      if CompareText(from.value, to.value) > 0 {
        issues := issues + [Issue(From, FromAfterTo)];
      }
      var fromTime := DayOfText(from.value);
      var toTime := DayOfText(to.value);
      if fromTime.None? || toTime.None? || toTime.value - fromTime.value > (MAX_HISTORY_SPAN_DAYS - 1) * DAY_MS {
        issues := issues + [Issue(To, SpanTooLong)];
      }
      ghost var f, t := ParseIsoDate(from.value), ParseIsoDate(to.value);
      if f.Some? && t.Some? {
        SpanOfTimes(f.value, t.value, fromTime, toTime);
      }
      assert issues == DateIssues(From, from) + DateIssues(To, to)
                       + OrderIssues(from.value, to.value) + SpanIssues(fromTime, toTime);
    }
    if issues == [] {
      r := Ok(HistoryQuery(ParseIsoDate(from.value).value, ParseIsoDate(to.value).value));
    } else {
      r := Err(issues);
    }
  }

  lemma SpanOfTimes(f: Date, t: Date, fromTime: Option<int>, toTime: Option<int>)
    requires f.Valid() && t.Valid() && 0 <= f.year <= 9999 && 0 <= t.year <= 9999
    requires fromTime == DateUtc(f.year, f.month - 1, f.day) && toTime == DateUtc(t.year, t.month - 1, t.day)
    ensures fromTime.Some? && toTime.Some?
    ensures toTime.value - fromTime.value > (MAX_HISTORY_SPAN_DAYS - 1) * DAY_MS <==>
      MappedDay(t) - MappedDay(f) + 1 > MAX_HISTORY_SPAN_DAYS
  {
    hide DateUtc, MappedDay;
    MappedTime(f);
    MappedTime(t);
    WholeDays(MappedDay(t) - MappedDay(f));
  }

  lemma WholeDays(days: int)
    ensures days * DAY_MS > (MAX_HISTORY_SPAN_DAYS - 1) * DAY_MS <==> days > MAX_HISTORY_SPAN_DAYS - 1
  {
  }

  lemma MappedTime(d: Date)
    requires d.Valid() && 0 <= d.year <= 9999
    ensures DateUtc(d.year, d.month - 1, d.day) == Some(MappedDay(d) * DAY_MS)
  {
    hide DaysFromCivil;
    hide DateUtc;
    DateUtcOfDate(d);
    CivilRange(FullYear(d.year), d.month);
  }

  // --- What an accepted query means ---------------------------------------------------------------

  /** The first place where two texts of one length differ. */
  lemma {:induction false} FirstDifference(a: string, b: string) returns (k: nat)
    requires |a| == |b| && a != b
    ensures k < |a| && a[..k] == b[..k] && a[k] != b[k]
    ensures CompareText(a, b) == a[k] as int - b[k] as int
  {
    if a[0] != b[0] {
      k := 0;
    } else {
      assert a == [a[0]] + a[1..] && b == [b[0]] + b[1..];
      var rest := FirstDifference(a[1..], b[1..]);
      k := rest + 1;
      assert a[..k] == [a[0]] + a[1..][..rest] && b[..k] == [b[0]] + b[1..][..rest];
    }
  }

  lemma {:induction false} SameText(a: string)
    ensures CompareText(a, a) == 0
  {
    if a != "" {
      SameText(a[1..]);
    }
  }

  /** The order of two ISO dates as texts is their order as dates. */
  lemma TextOrderIsDateOrder(a: string, b: string)
    requires ParseIsoDate(a).Some? && ParseIsoDate(b).Some?
    ensures CompareText(a, b) > 0 <==> ParseIsoDate(b).value.Before(ParseIsoDate(a).value)
  {
    hide CompareText;
    if a == b {
      SameText(a);
    } else {
      var k := FirstDifference(a, b);
      SamePrefix(a, b, k);
      OrderAtDifference(a, b, k);
    }
  }

  lemma SamePrefix(a: string, b: string, k: nat)
    requires k <= |a| && k <= |b| && a[..k] == b[..k]
    ensures forall i :: 0 <= i < k ==> a[i] == b[i]
  {
    forall i | 0 <= i < k
      ensures a[i] == b[i]
    {
      assert a[..k][i] == b[..k][i];
    }
  }

  lemma OrderAtDifference(a: string, b: string, k: nat)
    requires ParseIsoDate(a).Some? && ParseIsoDate(b).Some?
    requires k < 10 && a[k] != b[k] && forall i :: 0 <= i < k ==> a[i] == b[i]
    ensures a[k] > b[k] <==> ParseIsoDate(b).value.Before(ParseIsoDate(a).value)
  {
    assert k != 4 && k != 7;
  }

  /** The inclusive number of calendar days. */
  function InclusiveDays(from: Date, to: Date): int
    requires from.Valid() && to.Valid()
  {
    to.Number() - from.Number() + 1
  }

  /** How many days the two-digit year rule moves a date: the years 0 to 99 count
      as the 1900s, and the year 0 has a 29 February that 1900 has not. */
  function Shift(d: Date): int {
    if d.year > 99 then 0 else if d.year == 0 && d.month <= 2 then 693_961 else 693_960
  }

  lemma CenturyShift(year: int, month: int)
    requires 1 <= month <= 12 && 0 <= year <= 99 && (year > 0 || month > 2)
    ensures DaysFromCivil(1900 + year, month) == DaysFromCivil(year, month) + 693_960
  {
    hide DaysFromCivil;
    hide YearDays;
    hide DayOfYear;
    CivilParts(year, month);
    CivilParts(1900 + year, month);
    YearShift(if month <= 2 then year - 1 else year);
  }

  lemma YearShift(y: int)
    requires 0 <= y <= 99
    ensures YearDays(1900 + y) == YearDays(y) + 693_960
  {
    assert (1900 + y) / 400 == 4 && (1900 + y) % 400 == 300 + y;
  }

  lemma MappedIsShifted(d: Date)
    requires d.Valid() && 0 <= d.year
    ensures MappedDay(d) == d.Number() + Shift(d)
  {
    hide DaysFromCivil;
    if d.year == 0 && d.month <= 2 {
      YearZero();
    } else if d.year <= 99 {
      CenturyShift(d.year, d.month);
    }
  }

  lemma YearZero()
    ensures DaysFromCivil(0, 1) == -719_528 && DaysFromCivil(0, 2) == -719_497 && DaysFromCivil(0, 3) == -719_468
    ensures DaysFromCivil(1900, 1) == -25_567 && DaysFromCivil(1900, 2) == -25_536
  {
  }

  /** The pairs of dates on which the limit fails. A start in the years 0 to 99
      counts as one of the 1900s and an end from the year 100 does not, so all
      ends pass up to 30 days after the start of the 1900s. And a start from 30
      January to 29 February of the year 0 loses a day. */
  predicate Overlong(from: Date, to: Date)
    requires from.Valid() && to.Valid()
  {
    var later := to.Number() - from.Number();
    || (from.year <= 99 && to.year >= 100 && MAX_HISTORY_SPAN_DAYS <= later < MAX_HISTORY_SPAN_DAYS + Shift(from))
    || (from.year == 0 && (from.month == 2 || (from.month == 1 && from.day >= 30)) && later == MAX_HISTORY_SPAN_DAYS)
  }

  /** The shortest distance that fails in the year 0 ends after its 29 February. */
  lemma YearZeroFails(f: Date, t: Date)
    requires f.Valid() && t.Valid() && 0 <= f.year <= 99 && 0 <= t.year <= 99
    ensures
      && t.Number() - f.Number() >= MAX_HISTORY_SPAN_DAYS
      && t.Number() + Shift(t) - f.Number() - Shift(f) < MAX_HISTORY_SPAN_DAYS
      <==> Overlong(f, t)
  {
    hide DaysFromCivil;
    YearZero();
    var march := Date(0, 3, 1);
    NumberOrdersDates(t, march);
    NumberOrdersDates(f, march);
  }

  /** For every pair of dates: a range of 1 to 31 inclusive days is accepted, a
      range that runs backwards is not, and a longer one is accepted exactly on
      the overlong pairs. */
  lemma LimitFailsExactly(from: string, to: string)
    requires ParseIsoDate(from).Some? && ParseIsoDate(to).Some?
    ensures var f, t := ParseIsoDate(from).value, ParseIsoDate(to).value;
      && (PassesChecks(from, to) <==> 1 <= InclusiveDays(f, t) <= MAX_HISTORY_SPAN_DAYS || Overlong(f, t))
      && (Overlong(f, t) ==> InclusiveDays(f, t) > MAX_HISTORY_SPAN_DAYS)
  {
    hide ParseIsoDate;
    hide DaysFromCivil;
    hide MappedDay;
    var f, t := ParseIsoDate(from).value, ParseIsoDate(to).value;
    TextOrderIsDateOrder(from, to);
    NumberOrdersDates(t, f);
    MappedIsShifted(f);
    MappedIsShifted(t);
    if f.year <= 99 && t.year <= 99 {
      YearZeroFails(f, t);
    }
  }

  function TwoDigitText(n: int): string
    requires 0 <= n <= 99
  {
    [DigitChar(n / 10), DigitChar(n % 10)]
  }

  lemma TwoDigitsOfText(n: int)
    requires 0 <= n <= 99
    ensures TwoDigits(TwoDigitText(n)[0], TwoDigitText(n)[1]) == Some(n)
  {
  }

  /** The ISO text of a date. */
  function IsoText(d: Date): string
    requires d.Valid() && 0 <= d.year <= 9999
  {
    TwoDigitText(d.year / 100) + TwoDigitText(d.year % 100) + "-" + TwoDigitText(d.month) + "-" + TwoDigitText(d.day)
  }

  /** Every date of the years 0 to 9999 has a text. */
  lemma IsoTextParses(d: Date)
    requires d.Valid() && 0 <= d.year <= 9999
    ensures ParseIsoDate(IsoText(d)) == Some(d)
  {
    TwoDigitsOfText(d.year / 100);
    TwoDigitsOfText(d.year % 100);
    TwoDigitsOfText(d.month);
    TwoDigitsOfText(d.day);
    hide TwoDigits;
    hide TwoDigitText;
    var c, y, m, e := TwoDigitText(d.year / 100), TwoDigitText(d.year % 100), TwoDigitText(d.month), TwoDigitText(d.day);
    TextParts(c, y, m, e);
  }

  lemma TextParts(c: string, y: string, m: string, d: string)
    requires |c| == |y| == |m| == |d| == 2
    ensures var text := c + y + "-" + m + "-" + d;
      && |text| == 10 && text[4] == text[7] == '-'
      && text[0] == c[0] && text[1] == c[1] && text[2] == y[0] && text[3] == y[1]
      && text[5] == m[0] && text[6] == m[1] && text[8] == d[0] && text[9] == d[1]
  {
  }

  predicate OfYear(text: string, year: int) {
    ParseIsoDate(text).Some? && ParseIsoDate(text).value.year == year
  }

  /** Every accepted range from one year to another is within the limit. */
  ghost predicate YearsKeepLimit(from: int, to: int) {
    forall f: string, t: string :: OfYear(f, from) && OfYear(t, to) && PassesChecks(f, t) ==>
      InclusiveDays(ParseIsoDate(f).value, ParseIsoDate(t).value) <= MAX_HISTORY_SPAN_DAYS
  }

  lemma YearOne()
    ensures DaysFromCivil(1, 1) == -719_162
  {
  }

  lemma LastMappedDay()
    ensures DaysFromCivil(99, 12) == -683_034
  {
  }

  lemma FirstKeptYear()
    ensures DaysFromCivil(100, 12) == -682_669
  {
  }

  lemma SecondKeptYear()
    ensures DaysFromCivil(101, 1) == -682_638
  {
  }

  /** A mapped start lies before the end of January of the year after it. */
  lemma MappedBefore(f: Date)
    requires f.Valid() && 0 <= f.year <= 99
    ensures MappedDay(f) < DaysFromCivil(f.year + 1901, 1) + 30
  {
    hide DaysFromCivil;
    NumberOrdersDates(Date(f.year + 1900, f.month, 1), Date(f.year + 1901, 1, 1));
  }

  lemma SafeDates(f: Date, t: Date)
    requires f.Valid() && t.Valid() && 0 <= f.year <= t.year <= 9999
    requires f.year >= 100 || 0 < t.year <= 99 || t.year > f.year + 1901
    ensures !Overlong(f, t)
  {
    hide DaysFromCivil;
    hide MappedDay;
    if f.year <= 99 && t.year >= 100 {
      MappedIsShifted(f);
      MappedBefore(f);
      MonthStep(f.year + 1901, 1);
      MonthStep(f.year + 1901, 2);
      NumberOrdersDates(Date(f.year + 1901, 3, 1), t);
    } else if f.year == 0 {
      YearZero();
      YearOne();
      NumberOrdersDates(t, Date(1, 1, 1));
      NumberOrdersDates(f, Date(0, 3, 1));
    }
  }

  lemma UnsafeDates(from: int, to: int) returns (f: Date, t: Date)
    requires 0 <= from <= to <= 9999
    requires from <= 99 && (to == 0 || 100 <= to <= from + 1901)
    ensures f.Valid() && t.Valid() && f.year == from && t.year == to && Overlong(f, t)
  {
    hide DaysFromCivil;
    hide MappedDay;
    YearZero();
    if to == 0 {
      f, t := Date(0, 2, 1), Date(0, 3, 3);
    } else {
      f, t := Date(from, 12, 31), if to == 100 then Date(100, 12, 31) else Date(to, 1, 1);
      LastMappedDay();
      FirstKeptYear();
      SecondKeptYear();
      MappedIsShifted(f);
      MappedDecember(from);
      NumberOrdersDates(Date(99, 12, 31), f);
      NumberOrdersDates(t, Date(100, 12, 31));
      NumberOrdersDates(t, Date(101, 1, 1));
      NumberOrdersDates(Date(from + 1901, 1, 1), t);
    }
  }

  lemma MappedDecember(year: int)
    requires 0 <= year <= 99
    ensures MappedDay(Date(year, 12, 31)) + 1 == DaysFromCivil(year + 1901, 1)
  {
    hide DaysFromCivil;
    MonthStep(year + 1900, 12);
  }

  /** The years alone decide whether the limit can fail: it cannot exactly when
      the start is not mapped, both years are mapped without the year 0, or the
      end lies past the mapped start. */
  lemma SafeYears(from: int, to: int)
    requires 0 <= from <= to <= 9999
    ensures YearsKeepLimit(from, to) <==> from >= 100 || 0 < to <= 99 || to > from + 1901
  {
    hide ParseIsoDate;
    hide DaysFromCivil;
    hide PassesChecks;
    if from >= 100 || 0 < to <= 99 || to > from + 1901 {
      forall f: string, t: string | OfYear(f, from) && OfYear(t, to) && PassesChecks(f, t)
        ensures InclusiveDays(ParseIsoDate(f).value, ParseIsoDate(t).value) <= MAX_HISTORY_SPAN_DAYS
      {
        LimitFailsExactly(f, t);
        SafeDates(ParseIsoDate(f).value, ParseIsoDate(t).value);
      }
    } else {
      var f, t := UnsafeDates(from, to);
      IsoTextParses(f);
      IsoTextParses(t);
      hide IsoText;
      LimitFailsExactly(IsoText(f), IsoText(t));
      assert OfYear(IsoText(f), from) && OfYear(IsoText(t), to);
    }
  }

  /** With years from 100, a query of two dates is accepted exactly when it
      runs forward over at most 31 inclusive calendar days. */
  lemma AcceptedIsShortRange(from: string, to: string)
    requires ParseIsoDate(from).Some? && ParseIsoDate(to).Some?
    requires ParseIsoDate(from).value.year >= 100 && ParseIsoDate(to).value.year >= 100
    ensures var f, t := ParseIsoDate(from).value, ParseIsoDate(to).value;
      PassesChecks(from, to) <==> 1 <= InclusiveDays(f, t) <= MAX_HISTORY_SPAN_DAYS
  {
    hide ParseIsoDate, DaysFromCivil, PassesChecks;
    LimitFailsExactly(from, to);
  }

  /** The mapped years 1 to 99 keep every distance, so the limit holds there too. */
  lemma AcceptedInFirstCentury(from: string, to: string)
    requires ParseIsoDate(from).Some? && ParseIsoDate(to).Some?
    requires 1 <= ParseIsoDate(from).value.year <= 99 && 1 <= ParseIsoDate(to).value.year <= 99
    ensures var f, t := ParseIsoDate(from).value, ParseIsoDate(to).value;
      PassesChecks(from, to) <==> 1 <= InclusiveDays(f, t) <= MAX_HISTORY_SPAN_DAYS
  {
    hide ParseIsoDate, DaysFromCivil, PassesChecks;
    LimitFailsExactly(from, to);
  }

  /** A range from a two-digit year to a year from 100 to 1899 is accepted
      whatever its length: the start counts as a year of the 1900s. */
  lemma CrossingIsAccepted(from: string, to: string)
    requires ParseIsoDate(from).Some? && ParseIsoDate(to).Some?
    requires ParseIsoDate(from).value.year <= 99 && 100 <= ParseIsoDate(to).value.year < 1900
    ensures PassesChecks(from, to)
  {
    hide ParseIsoDate;
    hide DaysFromCivil;
    var f, t := ParseIsoDate(from).value, ParseIsoDate(to).value;
    TextOrderIsDateOrder(from, to);
    NumberOrdersDates(t, Date(FullYear(f.year), f.month, 1));
  }

  /** One such range: 31 years in one query. */
  lemma LongRangeIsAccepted()
    ensures ParseIsoDate("0099-01-01") == Some(Date(99, 1, 1)) && ParseIsoDate("0130-01-01") == Some(Date(130, 1, 1))
    ensures PassesChecks("0099-01-01", "0130-01-01")
    ensures InclusiveDays(Date(99, 1, 1), Date(130, 1, 1)) == 11_323
  {
    LongRangeDates();
    LongRangeDays();
    hide ParseIsoDate, PassesChecks, InclusiveDays;
    CrossingIsAccepted("0099-01-01", "0130-01-01");
  }

  lemma LongRangeDays()
    ensures InclusiveDays(Date(99, 1, 1), Date(130, 1, 1)) == 11_323
  {
  }

  lemma LongRangeDates()
    ensures ParseIsoDate("0099-01-01") == Some(Date(99, 1, 1)) && ParseIsoDate("0130-01-01") == Some(Date(130, 1, 1))
  {
  }

  /** Another: 32 days around the 29 February of the year 0. */
  lemma YearZeroRangeIsAccepted()
    ensures ParseIsoDate("0000-02-01") == Some(Date(0, 2, 1)) && ParseIsoDate("0000-03-03") == Some(Date(0, 3, 3))
    ensures PassesChecks("0000-02-01", "0000-03-03")
    ensures InclusiveDays(Date(0, 2, 1), Date(0, 3, 3)) == 32
  {
    YearZeroDates();
    hide ParseIsoDate, PassesChecks, DaysFromCivil;
    YearZero();
    LimitFailsExactly("0000-02-01", "0000-03-03");
  }

  lemma YearZeroDates()
    ensures ParseIsoDate("0000-02-01") == Some(Date(0, 2, 1)) && ParseIsoDate("0000-03-03") == Some(Date(0, 3, 3))
  {
  }
}
