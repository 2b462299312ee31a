/** Calendar dates of the proleptic Gregorian calendar as Python's
    `datetime.date` and `calendar.monthrange` handle them. */
module Calendar {
  import opened Wrappers
  import opened Text
  import opened Sorting

  const MinYear := 1
  const MaxYear := 9999

  /** A `datetime.date` value; `NewDate` says which triples are valid. */
  datatype Date = Date(year: nat, month: nat, day: nat)

  /** `calendar.isleap` */
  predicate IsLeapYear(y: int) {
    y % 4 == 0 && (y % 100 != 0 || y % 400 == 0)
  }

  /** The second component of `calendar.monthrange(y, m)`. */
  function DaysInMonth(y: int, m: int): (n: nat)
    requires 1 <= m <= 12
    ensures 28 <= n <= 31
    ensures n < 30 <==> m == 2
    ensures n == 29 <==> m == 2 && IsLeapYear(y)
    ensures n == 30 <==> m == 4 || m == 6 || m == 9 || m == 11
  {
    if m == 2 then (if IsLeapYear(y) then 29 else 28)
    else if m == 4 || m == 6 || m == 9 || m == 11 then 30
    else 31
  }

  predicate IsValidDate(d: Date) {
    && MinYear <= d.year <= MaxYear
    && 1 <= d.month <= 12
    && 1 <= d.day <= DaysInMonth(d.year, d.month)
  }

  /** The exceptions the date functions raise. */
  datatype Raised = ValueError | OverflowError

  /** `datetime.date` converts its arguments to C `int`s first. */
  const CIntMin := -0x8000_0000
  const CIntMax := 0x7FFF_FFFF

  predicate FitsCInt(n: int) {
    CIntMin <= n <= CIntMax
  }

  /** `datetime.date(y, m, d)`: OverflowError for an argument beyond a C `int`,
      ValueError for any other triple that is not a valid date. */
  function NewDate(y: int, m: int, d: int): (r: Result<Date, Raised>)
    ensures r.Success? <==> MinYear <= y <= MaxYear && 1 <= m <= 12 && 1 <= d <= DaysInMonth(y, m)
    ensures r.Success? ==> IsValidDate(r.value) && r.value == Date(y, m, d)
    ensures r == Failure(OverflowError) <==> !(FitsCInt(y) && FitsCInt(m) && FitsCInt(d))
  {
    if !(FitsCInt(y) && FitsCInt(m) && FitsCInt(d)) then Failure(OverflowError)
    else if MinYear <= y <= MaxYear && 1 <= m <= 12 && 1 <= d <= DaysInMonth(y, m) then Success(Date(y, m, d))
    else Failure(ValueError)
  }

  /** `get_last_date_of_month(year, month)`: `monthrange` raises ValueError for a
      month outside 1..12 (it accepts any year), then `date` raises for the year. */
  function LastDateOfMonth(year: int, month: int): (r: Result<Date, Raised>)
    ensures r.Success? <==> MinYear <= year <= MaxYear && 1 <= month <= 12
    ensures r == Failure(OverflowError) <==> 1 <= month <= 12 && !FitsCInt(year)
    ensures r.Success? ==> && IsValidDate(r.value)
                           && r.value.year == year && r.value.month == month
                           && !IsValidDate(Date(year, month, r.value.day + 1))
                           && forall d :: 1 <= d <= r.value.day ==> IsValidDate(Date(year, month, d))
  {
    if 1 <= month <= 12 then NewDate(year, month, DaysInMonth(year, month)) else Failure(ValueError)
  }

  /** February has 29 days exactly in the Gregorian leap years. */
  lemma FebruaryEnd(year: int)
    requires MinYear <= year <= MaxYear
    ensures LastDateOfMonth(year, 2).Success?
    ensures LastDateOfMonth(year, 2).value.day == 29 <==> IsLeapYear(year)
    ensures LastDateOfMonth(year, 2).value.day == 28 <==> !IsLeapYear(year)
  {
  }

  lemma LeapYearExamples()
    ensures IsLeapYear(2024) && !IsLeapYear(2023) && !IsLeapYear(1900) && IsLeapYear(2000)
  {
  }

  /** `get_last_date_of_year(year)`: December 31 of that year. */
  function LastDateOfYear(year: int): (r: Result<Date, Raised>)
    ensures r.Success? <==> MinYear <= year <= MaxYear
    ensures r == Failure(OverflowError) <==> !FitsCInt(year)
    ensures r.Success? ==> r.value == Date(year, 12, 31) && IsValidDate(r.value)
    ensures r.Success? ==> forall m, d :: 1 <= m <= 12 && 1 <= d <= DaysInMonth(year, m) ==> !Before(r.value, Date(year, m, d))
  {
    LastDateOfMonth(year, 12)
  }

  /** `<` on `datetime.date`: by year, then month, then day. */
  predicate Before(a: Date, b: Date) {
    || a.year < b.year
    || (a.year == b.year && a.month < b.month)
    || (a.year == b.year && a.month == b.month && a.day < b.day)
  }

  lemma BeforeIsStrictTotalOrder()
    ensures IsStrictTotalOrder(Before)
  {
  }

  /** `str(date)`: the ISO 8601 form `'%04d-%02d-%02d'`. */
  function IsoText(d: Date): (s: string)
    ensures |s| >= 10
    ensures 1 <= d.month <= 99 && 1 <= d.day <= 99 ==> s[|s| - 6] == '-' && s[|s| - 3] == '-'
  {
    PadLeft(DecimalText(d.year), 4) + "-" + PadLeft(DecimalText(d.month), 2) + "-" + PadLeft(DecimalText(d.day), 2)
  }
}
