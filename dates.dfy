/** Calendar dates as the clinic form uses them: Python's datetime.date
    (proleptic Gregorian, years 1 to 9999), strptime/strftime with the format
    "%Y-%m-%d", adding a timedelta of whole days, and the calc_end_date
    utility (clinic_app_v1.py:29-37). */
module Dates {
  import opened Wrappers
  import opened Text

  /** datetime.MINYEAR and datetime.MAXYEAR. */
  const MinYear := 1
  const MaxYear := 9999

  /** timedelta(days=n) raises OverflowError when |n| exceeds this. */
  const MaxDeltaDays := 999999999

  datatype Date = Date(year: int, month: int, day: int)

  predicate IsLeap(y: int) {
    y % 4 == 0 && (y % 100 != 0 || y % 400 == 0)
  }

  function DaysInMonth(y: int, m: int): int {
    if m == 2 then (if IsLeap(y) then 29 else 28)
    else if m == 4 || m == 6 || m == 9 || m == 11 then 30
    else 31
  }

  function DaysInYear(y: int): int {
    if IsLeap(y) then 366 else 365
  }

  /** A date Python's datetime can represent. */
  predicate ValidDate(d: Date) {
    && MinYear <= d.year <= MaxYear
    && 1 <= d.month <= 12
    && 1 <= d.day <= DaysInMonth(d.year, d.month)
  }

  const FirstDate := Date(MinYear, 1, 1)
  const LastDate := Date(MaxYear, 12, 31)

  // ---------------------------------------------------------------------------
  // strptime / strftime with "%Y-%m-%d"
  // ---------------------------------------------------------------------------

  /** parse_date (clinic_app_v1.py:22-24), restricted to zero-padded text:
      four year digits, two month digits, two day digits, and a date that
      exists (strptime raises ValueError otherwise). */
  function ParseDate(s: string): (r: Option<Date>)
    ensures r.Some? ==> ValidDate(r.value)
  {
    if && |s| == 10 && s[4] == '-' && s[7] == '-'
       && AllDigits(s[..4]) && AllDigits(s[5..7]) && AllDigits(s[8..])
    then
      var d := Date(DecimalValue(s[..4]), DecimalValue(s[5..7]), DecimalValue(s[8..]));
      if ValidDate(d) then Some(d) else None
    else None
  }

  /** strftime("%Y-%m-%d"). */
  function FormatDate(d: Date): (s: string)
    requires ValidDate(d)
    ensures |s| == 10
  {
    Dashed(Dashed(PadDecimal(d.year, 4), PadDecimal(d.month, 2)), PadDecimal(d.day, 2))
  }

  /** Two fields joined by a '-'. */
  function Dashed(a: string, b: string): (s: string)
    ensures |s| == |a| + 1 + |b|
  {
    a + ("-" + b)
  }

  lemma Pow10Values()
    ensures Pow10(2) == 100 && Pow10(4) == 10000
  {
    assert Pow10(1) == 10;
    assert Pow10(3) == 1000;
  }

  lemma FormatDateParts(d: Date)
    requires ValidDate(d)
    ensures var s := FormatDate(d);
      && s[..4] == PadDecimal(d.year, 4) && s[4] == '-' && s[5..7] == PadDecimal(d.month, 2)
      && s[7] == '-' && s[8..] == PadDecimal(d.day, 2)
  {
  }

  /** Formatting a valid date and parsing the text back gives the date. */
  lemma FormatThenParse(d: Date)
    requires ValidDate(d)
    ensures ParseDate(FormatDate(d)) == Some(d)
  {
    Pow10Values();
    FormatDateParts(d);
    PadDecimalValue(d.year, 4);
    PadDecimalValue(d.month, 2);
    PadDecimalValue(d.day, 2);
  }

  /** Text that parses is the formatting of the date it parses to: the model
      accepts the canonical spelling only. */
  lemma ParseThenFormat(s: string)
    requires ParseDate(s).Some?
    ensures FormatDate(ParseDate(s).value) == s
  {
    PadDecimalOfValue(s[..4]);
    PadDecimalOfValue(s[5..7]);
    PadDecimalOfValue(s[8..]);
    var d := ParseDate(s).value;
    FormatDateParts(d);
    assert s == s[..4] + ("-" + s[5..7]) + ("-" + s[8..]);
  }

  // ---------------------------------------------------------------------------
  // Day ordinals (proleptic Gregorian, 0001-01-01 is day 1), the reference
  // against which adding days is checked
  // ---------------------------------------------------------------------------

  /** Days in the years before y (Python's _days_before_year). */
  function DaysBeforeYear(y: int): nat
    requires y >= MinYear
  {
    var p := y - 1;
    p * 365 + p / 4 - p / 100 + p / 400
  }

  lemma YearStep(y: int)
    requires y >= MinYear
    ensures DaysBeforeYear(y + 1) == DaysBeforeYear(y) + DaysInYear(y)
  {
    DivStep(y, 4);
    DivStep(y, 100);
    DivStep(y, 400);
    if y % 100 == 0 {
      DivModUnique(y, 4, 25 * (y / 100), 0);
    }
    if y % 400 == 0 {
      DivModUnique(y, 100, 4 * (y / 400), 0);
    }
  }

  /** Going from y - 1 to y, the quotient by k grows by one exactly when k divides y. */
  lemma DivStep(y: int, k: int)
    requires k > 0 && y >= 1
    ensures y / k - (y - 1) / k == (if y % k == 0 then 1 else 0)
  {
    var q, r := (y - 1) / k, (y - 1) % k;
    if r + 1 < k {
      DivModUnique(y, k, q, r + 1);
    } else {
      DivModUnique(y, k, q + 1, 0);
    }
  }

  function DaysBeforeMonth(y: int, m: int): nat
    requires 1 <= m <= 12
  {
    var common :=
      if m == 1 then 0 else if m == 2 then 31 else if m == 3 then 59
      else if m == 4 then 90 else if m == 5 then 120 else if m == 6 then 151
      else if m == 7 then 181 else if m == 8 then 212 else if m == 9 then 243
      else if m == 10 then 273 else if m == 11 then 304 else 334;
    common + (if m > 2 && IsLeap(y) then 1 else 0)
  }

  /** date.toordinal(). */
  function ToOrdinal(d: Date): int
    requires ValidDate(d)
  {
    DaysBeforeYear(d.year) + DaysBeforeMonth(d.year, d.month) + d.day
  }

  lemma MonthStep(y: int, m: int)
    requires 1 <= m < 12
    ensures DaysBeforeMonth(y, m + 1) == DaysBeforeMonth(y, m) + DaysInMonth(y, m)
  {
  }

  lemma MonthsFillYear(y: int, m: int)
    requires 1 <= m <= 12
    ensures DaysBeforeMonth(y, m) + DaysInMonth(y, m) <= DaysInYear(y)
    ensures DaysBeforeMonth(y, 12) + 31 == DaysInYear(y)
  {
  }

  lemma MonthsIncrease(y: int, m1: int, m2: int)
    requires 1 <= m1 < m2 <= 12
    ensures DaysBeforeMonth(y, m1) + DaysInMonth(y, m1) <= DaysBeforeMonth(y, m2)
  {
  }

  lemma YearsIncrease(a: int, b: int)
    requires MinYear <= a <= b
    ensures DaysBeforeYear(a) <= DaysBeforeYear(b)
  {
  }

  /** Every representable date has an ordinal from 1 to that of 9999-12-31. */
  lemma OrdinalRange(d: Date)
    requires ValidDate(d)
    ensures 1 <= ToOrdinal(d) <= ToOrdinal(LastDate)
  {
    MonthsFillYear(d.year, d.month);
    YearStep(d.year);
    YearsIncrease(d.year + 1, MaxYear + 1);
    YearStep(MaxYear);
  }

  /** Calendar order: year, then month, then day. */
  predicate DateLt(a: Date, b: Date) {
    || a.year < b.year
    || (a.year == b.year && a.month < b.month)
    || (a.year == b.year && a.month == b.month && a.day < b.day)
  }

  lemma OrdinalMonotone(a: Date, b: Date)
    requires ValidDate(a) && ValidDate(b) && DateLt(a, b)
    ensures ToOrdinal(a) < ToOrdinal(b)
  {
    if a.year < b.year {
      MonthsFillYear(a.year, a.month);
      YearStep(a.year);
      YearsIncrease(a.year + 1, b.year);
    } else if a.month < b.month {
      MonthsIncrease(a.year, a.month, b.month);
    }
  }

  /** The ordinal determines the date. */
  lemma OrdinalInjective(a: Date, b: Date)
    requires ValidDate(a) && ValidDate(b) && ToOrdinal(a) == ToOrdinal(b)
    ensures a == b
  {
    if DateLt(a, b) { OrdinalMonotone(a, b); }
    else if DateLt(b, a) { OrdinalMonotone(b, a); }
  }

  // ---------------------------------------------------------------------------
  // Adding days: date + timedelta(days=n)
  // ---------------------------------------------------------------------------

  function NextDay(d: Date): (e: Date)
    requires ValidDate(d) && d != LastDate
    ensures ValidDate(e) && ToOrdinal(e) == ToOrdinal(d) + 1
  {
    if d.day < DaysInMonth(d.year, d.month) then Date(d.year, d.month, d.day + 1)
    else if d.month < 12 then
      MonthStep(d.year, d.month);
      Date(d.year, d.month + 1, 1)
    else
      MonthsFillYear(d.year, 12);
      YearStep(d.year);
      Date(d.year + 1, 1, 1)
  }

  function PrevDay(d: Date): (e: Date)
    requires ValidDate(d) && d != FirstDate
    ensures ValidDate(e) && ToOrdinal(e) == ToOrdinal(d) - 1
  {
    if d.day > 1 then Date(d.year, d.month, d.day - 1)
    else if d.month > 1 then
      MonthStep(d.year, d.month - 1);
      Date(d.year, d.month - 1, DaysInMonth(d.year, d.month - 1))
    else
      MonthsFillYear(d.year - 1, 12);
      YearStep(d.year - 1);
      Date(d.year - 1, 12, 31)
  }

  /** d + timedelta(days=n); None where datetime raises OverflowError because
      the result falls outside years 1 to 9999. */
  function AddDays(d: Date, n: int): (r: Option<Date>)
    requires ValidDate(d)
    ensures r.Some? ==> ValidDate(r.value)
    decreases if n < 0 then -n else n
  {
    if n == 0 then Some(d)
    else if n > 0 then (if d == LastDate then None else AddDays(NextDay(d), n - 1))
    else (if d == FirstDate then None else AddDays(PrevDay(d), n + 1))
  }

  /** Adding n days moves the ordinal by exactly n, and fails exactly when
      that ordinal is not the ordinal of a representable date. */
  lemma {:induction false} AddDaysOrdinal(d: Date, n: int)
    requires ValidDate(d)
    ensures AddDays(d, n).Some? <==> 1 <= ToOrdinal(d) + n <= ToOrdinal(LastDate)
    ensures AddDays(d, n).Some? ==>
              ValidDate(AddDays(d, n).value) && ToOrdinal(AddDays(d, n).value) == ToOrdinal(d) + n
    decreases if n < 0 then -n else n
  {
    OrdinalRange(d);
    if n > 0 {
      if d == LastDate {
      } else {
        AddDaysOrdinal(NextDay(d), n - 1);
      }
    } else if n < 0 {
      if d == FirstDate {
      } else {
        AddDaysOrdinal(PrevDay(d), n + 1);
      }
    }
  }

  /** AddDays(d, n) is the one representable date n days after d. */
  lemma AddDaysCharacterised(d: Date, n: int, e: Date)
    requires ValidDate(d)
    ensures AddDays(d, n) == Some(e) <==> ValidDate(e) && ToOrdinal(e) == ToOrdinal(d) + n
  {
    AddDaysOrdinal(d, n);
    if ValidDate(e) && ToOrdinal(e) == ToOrdinal(d) + n {
      OrdinalRange(e);
      OrdinalInjective(e, AddDays(d, n).value);
    }
  }

  /** Two results that both denote "the date with ordinal o, if any". */
  lemma SameOrdinalResult(r1: Option<Date>, r2: Option<Date>, o: int)
    requires r1.Some? <==> 1 <= o <= ToOrdinal(LastDate)
    requires r2.Some? <==> 1 <= o <= ToOrdinal(LastDate)
    requires r1.Some? ==> ValidDate(r1.value) && ToOrdinal(r1.value) == o
    requires r2.Some? ==> ValidDate(r2.value) && ToOrdinal(r2.value) == o
    ensures r1 == r2
  {
    if r1.Some? {
      OrdinalInjective(r1.value, r2.value);
    }
  }

  /** Adding a days and then b days is adding a + b days. */
  lemma AddDaysCompose(d: Date, a: int, b: int)
    requires ValidDate(d) && AddDays(d, a).Some?
    ensures AddDays(AddDays(d, a).value, b) == AddDays(d, a + b)
  {
    var e := AddDays(d, a).value;
    AddDaysOrdinal(d, a);
    AddDaysOrdinal(e, b);
    AddDaysOrdinal(d, a + b);
    SameOrdinalResult(AddDays(e, b), AddDays(d, a + b), ToOrdinal(d) + a + b);
  }

  // ---------------------------------------------------------------------------
  // Text order of formatted dates
  // ---------------------------------------------------------------------------

  /** Zero-padded ISO dates compare as text the way the days compare on the
      calendar, which is what makes `case_date >= ?` a date comparison. */
  lemma FormatOrder(a: Date, b: Date)
    requires ValidDate(a) && ValidDate(b)
    ensures StrLt(FormatDate(a), FormatDate(b)) <==> ToOrdinal(a) < ToOrdinal(b)
  {
    FormatOrderByParts(a, b);
    PartsOrder(a, b);
    if DateLt(a, b) { OrdinalMonotone(a, b); }
    else if DateLt(b, a) { OrdinalMonotone(b, a); }
  }

  lemma FormatOrderByParts(a: Date, b: Date)
    requires ValidDate(a) && ValidDate(b)
    ensures var ya, yb := PadDecimal(a.year, 4), PadDecimal(b.year, 4);
            var ma, mb := PadDecimal(a.month, 2), PadDecimal(b.month, 2);
            var da, db := PadDecimal(a.day, 2), PadDecimal(b.day, 2);
            StrLt(FormatDate(a), FormatDate(b)) <==>
              StrLt(ya, yb) || (ya == yb && (StrLt(ma, mb) || (ma == mb && StrLt(da, db))))
  {
    FieldsOrder(PadDecimal(a.year, 4), PadDecimal(a.month, 2), PadDecimal(a.day, 2),
                PadDecimal(b.year, 4), PadDecimal(b.month, 2), PadDecimal(b.day, 2));
  }

  /** Three fields joined by '-' compare field by field when the fields
      have matching widths. */
  lemma FieldsOrder(x1: string, x2: string, x3: string, y1: string, y2: string, y3: string)
    requires |x1| == |y1| && |x2| == |y2|
    ensures StrLt(Dashed(Dashed(x1, x2), x3), Dashed(Dashed(y1, y2), y3)) <==>
              StrLt(x1, y1) || (x1 == y1 && (StrLt(x2, y2) || (x2 == y2 && StrLt(x3, y3))))
  {
    DashedOrder(Dashed(x1, x2), x3, Dashed(y1, y2), y3);
    DashedOrder(x1, x2, y1, y2);
    DashedEqual(x1, x2, y1, y2);
  }

  lemma DashedOrder(x1: string, x2: string, y1: string, y2: string)
    requires |x1| == |y1|
    ensures StrLt(Dashed(x1, x2), Dashed(y1, y2)) <==> StrLt(x1, y1) || (x1 == y1 && StrLt(x2, y2))
  {
    StrLtConcat(x1, "-" + x2, y1, "-" + y2);
    StrLtConcat("-", x2, "-", y2);
    StrLtIrreflexive("-");
  }

  lemma DashedEqual(x1: string, x2: string, y1: string, y2: string)
    requires |x1| == |y1|
    ensures Dashed(x1, x2) == Dashed(y1, y2) <==> x1 == y1 && x2 == y2
  {
    if Dashed(x1, x2) == Dashed(y1, y2) {
      assert x1 == Dashed(x1, x2)[..|x1|];
      assert y1 == Dashed(y1, y2)[..|y1|];
      assert x2 == Dashed(x1, x2)[|x1| + 1..];
      assert y2 == Dashed(y1, y2)[|y1| + 1..];
    }
  }

  lemma PartsOrder(a: Date, b: Date)
    requires ValidDate(a) && ValidDate(b)
    ensures var ya, yb := PadDecimal(a.year, 4), PadDecimal(b.year, 4);
            var ma, mb := PadDecimal(a.month, 2), PadDecimal(b.month, 2);
            var da, db := PadDecimal(a.day, 2), PadDecimal(b.day, 2);
            (StrLt(ya, yb) || (ya == yb && (StrLt(ma, mb) || (ma == mb && StrLt(da, db)))))
              <==> DateLt(a, b)
  {
    Pow10Values();
    PadDecimalOrder(a.year, b.year, 4);
    PadDecimalOrder(a.month, b.month, 2);
    PadDecimalOrder(a.day, b.day, 2);
    PadDecimalInjective(a.year, b.year, 4);
    PadDecimalInjective(a.month, b.month, 2);
  }

  // ---------------------------------------------------------------------------
  // calc_end_date
  // ---------------------------------------------------------------------------

  /** calc_end_date(start, duration) with the duration already an int (both
      callers pass int(duration)): empty when the start is empty, when the
      duration is 0 (falsy), when the start does not parse, or when the end
      date cannot be represented; otherwise the start plus that many days. */
  function CalcEndDate(start: string, duration: int): (r: string)
    ensures r == "" <==>
              || start == "" || duration == 0 || ParseDate(start).None?
              || !(1 <= ToOrdinal(ParseDate(start).value) + duration <= ToOrdinal(LastDate))
    ensures r != "" ==>
              && ParseDate(r).Some?
              && ToOrdinal(ParseDate(r).value) == ToOrdinal(ParseDate(start).value) + duration
  {
    if start == "" || duration == 0 then ""
    else match ParseDate(start)
      case None => ""
      case Some(d) =>
        OrdinalRange(d);
        AddDaysOrdinal(d, duration);
        if duration < -MaxDeltaDays || MaxDeltaDays < duration then ""
        else match AddDays(d, duration)
          case None => ""
          case Some(e) =>
            FormatThenParse(e);
            FormatDate(e)
  }

  /** The worked example: 2024-01-10 plus 5 days is 2024-01-15. */
  lemma EndDateExample()
    ensures CalcEndDate("2024-01-10", 5) == "2024-01-15"
  {
    ExampleDays();
    ExampleText();
    FormatThenParse(Date(2024, 1, 10));
  }

  lemma ExampleDays()
    ensures AddDays(Date(2024, 1, 10), 5) == Some(Date(2024, 1, 15))
  {
    var e := Date(2024, 1, 15);
    assert AddDays(Date(2024, 1, 14), 1) == Some(e);
    assert AddDays(Date(2024, 1, 13), 2) == Some(e);
    assert AddDays(Date(2024, 1, 12), 3) == Some(e);
    assert AddDays(Date(2024, 1, 11), 4) == Some(e);
  }

  lemma ExampleText()
    ensures FormatDate(Date(2024, 1, 10)) == "2024-01-10"
    ensures FormatDate(Date(2024, 1, 15)) == "2024-01-15"
  {
    ExampleYear();
    ExampleTwoDigits();
  }

  lemma ExampleYear()
    ensures PadDecimal(2024, 4) == "2024"
  {
    assert PadDecimal(2, 1) == "2";
    assert PadDecimal(20, 2) == "20";
    assert PadDecimal(202, 3) == "202";
  }

  lemma ExampleTwoDigits()
    ensures PadDecimal(1, 2) == "01" && PadDecimal(10, 2) == "10" && PadDecimal(15, 2) == "15"
  {
    assert PadDecimal(1, 2) == "01";
    assert PadDecimal(10, 2) == "10";
  }
}
