/**
 * Proleptic Gregorian dates as Python's datetime module numbers them:
 * day 1 is 0001-01-01 and day MaxOrdinal is 9999-12-31. A date is kept
 * as its ordinal; adding timedelta(days=1) is adding one. The conversion
 * to a date uses Python's closed form for the days before a year, and the
 * way back is defined independently, by counting days from 0001-01-01.
 */
module Calendar {
  import opened Base
  import opened Text

  const MaxOrdinal: int := 3652059

  datatype Date = Date(year: int, month: int, day: int)

  predicate IsLeap(y: int)
  {
    y % 4 == 0 && (y % 100 != 0 || y % 400 == 0)
  }

  function DaysInMonth(y: int, m: int): (n: int)
    requires 1 <= m <= 12
    ensures 28 <= n <= 31
  {
    if m == 2 then (if IsLeap(y) then 29 else 28)
    else if m == 4 || m == 6 || m == 9 || m == 11 then 30
    else 31
  }

  function DaysInYear(y: int): int
  {
    if IsLeap(y) then 366 else 365
  }

  /** Days in the months of year y before month m. */
  function DaysBeforeMonth(y: int, m: int): nat
    requires 1 <= m <= 12
  {
    var common :=
      if m <= 6 then
        if m == 1 then 0 else if m == 2 then 31 else if m == 3 then 59
        else if m == 4 then 90 else if m == 5 then 120 else 151
      else
        if m == 7 then 181 else if m == 8 then 212 else if m == 9 then 243
        else if m == 10 then 273 else if m == 11 then 304 else 334;
    common + (if m > 2 && IsLeap(y) then 1 else 0)
  }

  /** Days in the years 1 .. y-1, counted year by year. */
  function DaysBeforeYear(y: int): int
    requires y >= 1
  {
    if y == 1 then 0 else DaysBeforeYear(y - 1) + DaysInYear(y - 1)
  }

  /** Python's closed form for the days before a year agrees with the count. */
  lemma {:induction false} DaysBeforeYearClosedForm(y: int)
    requires y >= 1
    ensures var p := y - 1; DaysBeforeYear(y) == p * 365 + p / 4 - p / 100 + p / 400
  {
    if y > 1 {
      DaysBeforeYearClosedForm(y - 1);
      var p := y - 1;
      DivStep(p, 4);
      DivStep(p, 100);
      DivStep(p, 400);
      DivisorsNest(p);
    }
  }

  /** A multiple of 400 is a multiple of 100, and a multiple of 100 one of 4. */
  lemma DivisorsNest(p: int)
    ensures p % 400 == 0 ==> p % 100 == 0
    ensures p % 100 == 0 ==> p % 4 == 0
  {
    if p % 400 == 0 {
      ModUnique(p, 100, 4 * (p / 400), 0);
    }
    if p % 100 == 0 {
      ModUnique(p, 4, 25 * (p / 100), 0);
    }
  }

  /** Stepping p up by one raises p / k by one exactly when k divides the new p. */
  lemma DivStep(p: int, k: int)
    requires k > 0
    ensures p / k == (p - 1) / k + (if p % k == 0 then 1 else 0)
  {
    var a, r := (p - 1) / k, (p - 1) % k;
    if r + 1 < k {
      ModUnique(p, k, a, r + 1);
      assert (p / k - a) * k == 0;
    } else {
      ModUnique(p, k, a + 1, 0);
      assert (p / k - (a + 1)) * k == 0;
    }
  }

  predicate Valid(d: Date)
  {
    1 <= d.year <= 9999 && 1 <= d.month <= 12 && 1 <= d.day <= DaysInMonth(d.year, d.month)
  }

  predicate IsOrdinal(n: int) { 1 <= n <= MaxOrdinal }

  /** date.toordinal() */
  function ToOrdinal(d: Date): int
    requires Valid(d)
  {
    DaysBeforeYear(d.year) + DaysBeforeMonth(d.year, d.month) + d.day
  }

  lemma {:induction false} YearsMonotone(a: int, b: int)
    requires 1 <= a <= b
    ensures DaysBeforeYear(a) + 365 * (b - a) <= DaysBeforeYear(b)
    decreases b - a
  {
    if a < b {
      YearsMonotone(a, b - 1);
    }
  }

  /** Every valid date has an ordinal in 1 .. MaxOrdinal. */
  lemma OrdinalInRange(d: Date)
    requires Valid(d)
    ensures IsOrdinal(ToOrdinal(d))
  {
    YearsMonotone(1, d.year);
    YearsMonotone(d.year + 1, 10000);
    DaysBeforeYearClosedForm(10000);
    assert DaysBeforeMonth(d.year, d.month) + DaysInMonth(d.year, d.month) <= DaysInYear(d.year);
  }

  /** date + timedelta(days=1), as a calendar computation. */
  function NextDay(d: Date): (e: Date)
    requires Valid(d) && d != Date(9999, 12, 31)
    ensures Valid(e) && ToOrdinal(e) == ToOrdinal(d) + 1
  {
    if d.day < DaysInMonth(d.year, d.month) then Date(d.year, d.month, d.day + 1)
    else if d.month < 12 then
      MonthEnds(d.year, d.month);
      Date(d.year, d.month + 1, 1)
    else
      MonthEnds(d.year, 12);
      Date(d.year + 1, 1, 1)
  }

  /** The months before m, then month m, fill the months before m + 1 (or the whole year). */
  lemma MonthEnds(y: int, m: int)
    requires 1 <= m <= 12
    ensures m < 12 ==> DaysBeforeMonth(y, m + 1) == DaysBeforeMonth(y, m) + DaysInMonth(y, m)
    ensures m == 12 ==> DaysBeforeMonth(y, m) + DaysInMonth(y, m) == DaysInYear(y)
  {
  }

  /** date - timedelta(days=1): the partner of NextDay. */
  function PrevDay(d: Date): (e: Date)
    requires Valid(d) && d != Date(1, 1, 1)
    ensures Valid(e) && e != Date(9999, 12, 31) && NextDay(e) == d
    ensures ToOrdinal(e) + 1 == ToOrdinal(d)
  {
    if d.day > 1 then Date(d.year, d.month, d.day - 1)
    else if d.month > 1 then Date(d.year, d.month - 1, DaysInMonth(d.year, d.month - 1))
    else Date(d.year - 1, 12, 31)
  }

  lemma LastDay()
    ensures Valid(Date(9999, 12, 31)) && ToOrdinal(Date(9999, 12, 31)) == MaxOrdinal
  {
    DaysBeforeYearClosedForm(9999);
  }

  /** date.fromordinal(n), by counting days forward from 0001-01-01. */
  function FromOrdinal(n: int): (d: Date)
    requires IsOrdinal(n)
    ensures Valid(d) && ToOrdinal(d) == n
    decreases n
  {
    if n == 1 then Date(1, 1, 1)
    else
      var d := FromOrdinal(n - 1);
      LastDay();
      NextDay(d)
  }

  /** Converting a valid date to its ordinal and back gives the same date. */
  lemma {:induction false} FromToOrdinal(d: Date)
    requires Valid(d)
    ensures IsOrdinal(ToOrdinal(d)) && FromOrdinal(ToOrdinal(d)) == d
    decreases ToOrdinal(d)
  {
    OrdinalInRange(d);
    var n := ToOrdinal(d);
    if d == Date(1, 1, 1) {
      assert n == 1;
    } else {
      var p := PrevDay(d);
      FromToOrdinal(p);
      FromOrdinalStep(ToOrdinal(p), p);
    }
  }

  lemma FromOrdinalStep(m: int, p: Date)
    requires IsOrdinal(m) && m < MaxOrdinal && FromOrdinal(m) == p
    ensures p != Date(9999, 12, 31) && FromOrdinal(m + 1) == NextDay(p)
  {
    LastDay();
  }

  /** Distinct valid dates have distinct ordinals. */
  lemma OrdinalInjective(d1: Date, d2: Date)
    requires Valid(d1) && Valid(d2) && ToOrdinal(d1) == ToOrdinal(d2)
    ensures d1 == d2
  {
    FromToOrdinal(d1);
    FromToOrdinal(d2);
  }

  /** str(date): 'YYYY-MM-DD', the RFC 3339 full-date. */
  function FormatDate(n: int): (s: string)
    requires IsOrdinal(n)
    ensures |s| == 10
  {
    var d := FromOrdinal(n);
    Pad(d.year, 4) + "-" + Pad(d.month, 2) + "-" + Pad(d.day, 2)
  }

  /**
   * datetime.strptime(s, '%Y-%m-%d') restricted to the canonical form:
   * four, two and two digits separated by '-', naming a real date.
   */
  function ParseDate(s: string): Result<int>
  {
    if |s| == 10 && s[4] == '-' && s[7] == '-'
       && AllDigits(s[..4]) && AllDigits(s[5..7]) && AllDigits(s[8..])
    then
      var d := Date(DigitsValue(s[..4]), DigitsValue(s[5..7]), DigitsValue(s[8..]));
      if Valid(d) then Ok(ToOrdinal(d)) else Err(ValueError)
    else Err(ValueError)
  }

  /** A parsed date is always a representable ordinal. */
  lemma ParsedInRange(s: string)
    requires ParseDate(s).Ok?
    ensures IsOrdinal(ParseDate(s).value)
  {
    var d := Date(DigitsValue(s[..4]), DigitsValue(s[5..7]), DigitsValue(s[8..]));
    OrdinalInRange(d);
  }

  /** Rendering a date and parsing it back gives the same date. */
  lemma ParseFormat(n: int)
    requires IsOrdinal(n)
    ensures ParseDate(FormatDate(n)) == Ok(n)
  {
    var d := FromOrdinal(n);
    var s := FormatDate(n);
    var y, m, dd := Pad(d.year, 4), Pad(d.month, 2), Pad(d.day, 2);
    Pow10Values();
    assert s == y + "-" + m + "-" + dd;
    assert s[..4] == y;
    assert s[5..7] == m;
    assert s[8..] == dd;
    assert Date(DigitsValue(s[..4]), DigitsValue(s[5..7]), DigitsValue(s[8..])) == d;
  }

  /** Different dates render differently. */
  lemma FormatInjective(a: int, b: int)
    requires IsOrdinal(a) && IsOrdinal(b) && FormatDate(a) == FormatDate(b)
    ensures a == b
  {
    ParseFormat(a);
    ParseFormat(b);
  }

  /** str(date).split('-') gives the year, month and day fields. */
  lemma SplitFormat(n: int)
    requires IsOrdinal(n)
    ensures var d := FromOrdinal(n);
      Split(FormatDate(n), '-') == [Pad(d.year, 4), Pad(d.month, 2), Pad(d.day, 2)]
  {
    var d := FromOrdinal(n);
    var y, m, dd := Pad(d.year, 4), Pad(d.month, 2), Pad(d.day, 2);
    DigitsHaveNo(y, '-');
    DigitsHaveNo(m, '-');
    DigitsHaveNo(dd, '-');
    SplitFields(y, m, dd, '-');
  }
}
