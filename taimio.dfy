/** The command line of taimio_report.py: the date range its arguments give,
    and the whole run from the mapping file's lines to the printed report. */
module Taimio {
  import opened Wrappers
  import opened Text
  import opened Calendar
  import opened DateSpec
  import opened Projects
  import opened Report

  /** The inclusive range of dates the report asks the server for. */
  datatype DateRange = DateRange(start: Date, end: Date)

  /** How resolving the range ends when it fails: the ValueError handler
      exits with the "Invalid date" message naming the first date argument,
      while an OverflowError from `datetime.date` escapes that handler. */
  datatype RangeError = InvalidDate(arg: string) | Overflow

  /** `x or 1`: None and 0 are both false. */
  function OrOne(x: Option<nat>): (r: nat)
    ensures r >= 1
    ensures x.None? || x.value == 0 ==> r == 1
    ensures x.Some? && x.value != 0 ==> r == x.value
  {
    if x.None? || x.value == 0 then 1 else x.value
  }

  /** `not x`: None and 0 are both false. */
  predicate IsAbsent(x: Option<nat>) {
    x.None? || x.value == 0
  }

  /** `datetime.date(year, month or 1, day or 1)`: the first day the
      argument's own granularity covers. */
  function StartOf(p: DateParts): (r: Result<Date, Raised>)
    ensures r.Success? <==> && MinYear <= p.year <= MaxYear && OrOne(p.month) <= 12
                            && OrOne(p.day) <= DaysInMonth(p.year, OrOne(p.month))
    ensures r.Success? ==> r.value == Date(p.year, OrOne(p.month), OrOne(p.day)) && IsValidDate(r.value)
    ensures r == Failure(OverflowError) <==> !FitsCInt(p.year) || !FitsCInt(OrOne(p.month)) || !FitsCInt(OrOne(p.day))
  {
    NewDate(p.year, OrOne(p.month), OrOne(p.day))
  }

  /** The `if not month ... elif not day ... else` chain: the last day the
      argument's own granularity covers. */
  function EndOf(p: DateParts): (r: Result<Date, Raised>)
    ensures r.Success? ==> IsValidDate(r.value) && r.value.year == p.year
    ensures r.Success? && IsAbsent(p.month) ==> r.value.month == 12 && r.value.day == 31
    ensures r.Success? && !IsAbsent(p.month) ==> r.value.month == p.month.value
    ensures r.Success? && !IsAbsent(p.month) && !IsAbsent(p.day) ==> r.value.day == p.day.value
    ensures r.Success? && !IsAbsent(p.month) && IsAbsent(p.day) ==>
              !IsValidDate(Date(p.year, p.month.value, r.value.day + 1))
  {
    if IsAbsent(p.month) then LastDateOfYear(p.year)
    else if IsAbsent(p.day) then LastDateOfMonth(p.year, p.month.value)
    else NewDate(p.year, p.month.value, p.day.value)
  }

  function Raise(e: Raised, first: string): RangeError {
    if e == OverflowError then Overflow else InvalidDate(first)
  }

  /** The `try` block of `main`: the start from the first argument, the end
      from the second argument when there is one and from the first otherwise. */
  function ResolveRange(first: string, second: Option<string>): (r: Result<DateRange, RangeError>)
    ensures r.Success? ==> IsValidDate(r.value.start) && IsValidDate(r.value.end)
    ensures r.Failure? && r.error.InvalidDate? ==> r.error.arg == first
    ensures ParseDate(first).None? ==> r == Failure(InvalidDate(first))
  {
    match ParseDate(first)
    case None => Failure(InvalidDate(first))
    case Some(p) =>
      match StartOf(p)
      case Failure(e) => Failure(Raise(e, first))
      case Success(start) =>
        var q := if second.Some? then ParseDate(second.value) else Some(p);
        match q
        case None => Failure(InvalidDate(first))
        case Some(q) =>
          match EndOf(q)
          case Failure(e) => Failure(Raise(e, first))
          case Success(end) => Success(DateRange(start, end))
  }

  /** One argument fails exactly when it does not parse, names a year outside
      1..9999, or names a month and day (both non-zero) that make no date; an
      OverflowError escapes exactly for a year beyond a C `int`. */
  lemma SingleRangeFails(first: string)
    ensures ResolveRange(first, None).Failure? <==>
      || ParseDate(first).None?
      || !(MinYear <= ParseDate(first).value.year <= MaxYear)
      || (var p := ParseDate(first).value;
          !IsAbsent(p.month) && !IsAbsent(p.day) && p.day.value > DaysInMonth(p.year, p.month.value))
    ensures ResolveRange(first, None) == Failure(Overflow) <==>
      ParseDate(first).Some? && !FitsCInt(ParseDate(first).value.year)
  {
  }

  /** One argument gives the range its own granularity covers: a year is
      January 1 to December 31, a year and month the whole month, a full date
      that one day. A month or day of 0 counts as absent: the start takes 1
      for it and the end widens to the year or the month. */
  lemma SingleRange(first: string)
    requires ResolveRange(first, None).Success?
    ensures var range := ResolveRange(first, None).value;
      var p := ParseDate(first).value;
      && range.start == Date(p.year, OrOne(p.month), OrOne(p.day))
      && (IsAbsent(p.month) ==> range.start.month == 1)
      && (IsAbsent(p.day) ==> range.start.day == 1)
      && (IsAbsent(p.month) ==> range.end == Date(p.year, 12, 31))
      && (!IsAbsent(p.month) && IsAbsent(p.day) ==>
            range.end.year == p.year && range.end.month == p.month.value
            && !IsValidDate(Date(p.year, p.month.value, range.end.day + 1)))
      && (!IsAbsent(p.month) && !IsAbsent(p.day) ==> range.end == range.start)
      && !Before(range.end, range.start)
  {
    var p := ParseDate(first).value;
    var range := ResolveRange(first, None).value;
    if !IsAbsent(p.month) && IsAbsent(p.day) {
      assert LastDateOfMonth(p.year, p.month.value).Success?;
    }
  }

  /** Two arguments: the start of the first and the end of the second, each
      as it resolves on its own; a failure of the second still names the first.
      Nothing compares the two, so the end may come before the start. */
  lemma TwoArgumentRange(first: string, second: string)
    ensures ResolveRange(first, Some(second)) ==
      match ResolveRange(first, None)
      case Failure(e) => Failure(e)
      case Success(own) =>
        match ResolveRange(second, None)
        case Failure(Overflow) => Failure(Overflow)
        case Failure(InvalidDate(_)) => Failure(InvalidDate(first))
        case Success(other) => Success(DateRange(own.start, other.end))
  {
    match ParseDate(second)
    case None =>
    case Some(q) =>
      if StartOf(q).Success? {
        assert EndOf(q).Success? by {
          if !IsAbsent(q.month) && IsAbsent(q.day) {
            assert LastDateOfMonth(q.year, q.month.value).Success?;
          }
        }
      }
  }

  /** The outcome of a run of taimio_report.py. */
  datatype Outcome =
    | MalformedProjects          // `load_projects` raised: a line has no `=`
    | RangeFailed(error: RangeError)
    | Printed(lines: seq<string>)

  /** `main` after the usage check: loads the mapping, resolves the range and
      prints the report of the activities the server returned for the tag and
      that range, which come in as `fetched`. */
  method Run(projectLines: seq<string>, first: string, second: Option<string>, fetched: seq<Activity>)
    returns (outcome: Outcome)
    ensures outcome == MalformedProjects <==> exists i :: 0 <= i < |projectLines| && '=' !in projectLines[i]
    ensures outcome.RangeFailed? <==> outcome != MalformedProjects && ResolveRange(first, second).Failure?
    ensures outcome.RangeFailed? ==> outcome.error == ResolveRange(first, second).error
    ensures outcome.Printed? ==>
      && AllLinesParse(projectLines)
      && outcome.lines == RowLines(DayReport(fetched, TableOf(ParsedLines(projectLines))))
                          + [TotalLine(SumSeconds(fetched))]
  {
    var table := LoadProjects(projectLines);
    if table.None? {
      return MalformedProjects;
    }
    var range := ResolveRange(first, second);
    if range.Failure? {
      return RangeFailed(range.error);
    }
    var rows := GenerateDayReport(fetched, table.value);
    var lines := PrintReport(rows);
    DayReportTotal(fetched, table.value);
    return Printed(lines);
  }

  /** A single argument resolves to the start and end its parts give. */
  lemma ResolvedFrom(first: string, p: DateParts)
    requires ParseDate(first) == Some(p)
    ensures ResolveRange(first, None) ==
      match (StartOf(p), EndOf(p))
      case (Success(start), Success(end)) => Success(DateRange(start, end))
      case (Failure(e), _) => Failure(Raise(e, first))
      case (_, Failure(e)) => Failure(Raise(e, first))
  {
  }

  lemma YearParts()
    ensures ParseDate("2020") == Some(DateParts(2020, None, None))
  {
    ParseYearOnly("2020");
    YearValue('2', '0', '2', '0');
  }

  lemma ZeroMonthParts()
    ensures ParseDate("2020-00-15") == Some(DateParts(2020, Some(0), Some(15)))
  {
    YearValue('2', '0', '2', '0');
    ParseCompleteDate("2020", "00", "15");
    assert "2020-00-15" == "2020" + "-" + "00" + "-" + "15";
  }

  lemma MonthThirteenParts()
    ensures ParseDate("2020-13") == None
  {
    LeadingDigitsAt("2020-13", 4);
    assert "2020-13"[4..][1..3] == "13";
  }

  lemma LeapMonthParts()
    ensures ParseDate("2024-02") == Some(DateParts(2024, Some(2), None))
  {
    ParseYearMonth("2024", "02");
    assert "2024-02" == "2024" + "-" + "02";
    YearValue('2', '0', '2', '4');
  }

  lemma NoLeapDayParts()
    ensures ParseDate("2023-02-29") == Some(DateParts(2023, Some(2), Some(29)))
  {
    YearValue('2', '0', '2', '3');
    ParseCompleteDate("2023", "02", "29");
    assert "2023-02-29" == "2023" + "-" + "02" + "-" + "29";
  }

  lemma YearDates()
    ensures StartOf(DateParts(2020, None, None)) == Success(Date(2020, 1, 1))
    ensures EndOf(DateParts(2020, None, None)) == Success(Date(2020, 12, 31))
  {
  }

  lemma LeapMonthDates()
    ensures StartOf(DateParts(2024, Some(2), None)) == Success(Date(2024, 2, 1))
    ensures EndOf(DateParts(2024, Some(2), None)) == Success(Date(2024, 2, 29))
  {
    assert DaysInMonth(2024, 2) == 29;
  }

  lemma ZeroMonthDates()
    ensures StartOf(DateParts(2020, Some(0), Some(15))) == Success(Date(2020, 1, 15))
    ensures EndOf(DateParts(2020, Some(0), Some(15))) == Success(Date(2020, 12, 31))
  {
  }

  /** A year is January 1 to December 31. */
  lemma YearExample()
    ensures ResolveRange("2020", None) == Success(DateRange(Date(2020, 1, 1), Date(2020, 12, 31)))
  {
    YearParts();
    YearDates();
    ResolvedFrom("2020", DateParts(2020, None, None));
  }

  /** A year and month is the whole month: February 2024 has 29 days. */
  lemma LeapMonthExample()
    ensures ResolveRange("2024-02", None) == Success(DateRange(Date(2024, 2, 1), Date(2024, 2, 29)))
  {
    LeapMonthParts();
    LeapMonthDates();
    ResolvedFrom("2024-02", DateParts(2024, Some(2), None));
  }

  lemma NoLeapDayStart()
    ensures StartOf(DateParts(2023, Some(2), Some(29))) == Failure(ValueError)
  {
    assert DaysInMonth(2023, 2) == 28;
  }

  /** February 29 of a common year is no date. */
  lemma NoLeapDayExample()
    ensures ResolveRange("2023-02-29", None) == Failure(InvalidDate("2023-02-29"))
  {
    NoLeapDayParts();
    NoLeapDayStart();
    ResolvedFrom("2023-02-29", DateParts(2023, Some(2), Some(29)));
  }

  /** A zero month keeps the day for the start and widens the end to the year. */
  lemma ZeroMonthExample()
    ensures ResolveRange("2020-00-15", None) == Success(DateRange(Date(2020, 1, 15), Date(2020, 12, 31)))
  {
    ZeroMonthParts();
    ZeroMonthDates();
    ResolvedFrom("2020-00-15", DateParts(2020, Some(0), Some(15)));
  }

  /** Month 13 does not parse. */
  lemma MonthThirteenExample()
    ensures ResolveRange("2020-13", None) == Failure(InvalidDate("2020-13"))
  {
    MonthThirteenParts();
  }

  /** A second argument before the first gives a range that ends before it
      starts; an invalid second argument is reported under the first. */
  lemma SecondArgumentExamples()
    ensures ResolveRange("2024-02", Some("2020")) == Success(DateRange(Date(2024, 2, 1), Date(2020, 12, 31)))
    ensures ResolveRange("2020", Some("2023-02-29")) == Failure(InvalidDate("2020"))
  {
    YearExample();
    LeapMonthExample();
    NoLeapDayExample();
    TwoArgumentRange("2024-02", "2020");
    TwoArgumentRange("2020", "2023-02-29");
  }
}

