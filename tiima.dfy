/** tiima_report.py: the same report over all activities the server returns,
    narrowed on the client to one month and one tag. */
module Tiima {
  import opened Wrappers
  import opened Calendar
  import opened Projects
  import opened Report

  /** `filter_activities_by_month`: keeps, in order, the activities that
      start in the given year and month. */
  method FilterByMonth(acts: seq<Activity>, year: int, month: int) returns (kept: seq<Activity>)
    ensures kept == Select(acts, InMonth(year, month))
  {
    kept := [];
    for i := 0 to |acts|
      invariant kept == Select(acts[..i], InMonth(year, month))
    {
      SelectPrefixStep(acts, i, InMonth(year, month));
      if DateOf(acts[i]).year == year && DateOf(acts[i]).month == month {
        kept := kept + [acts[i]];
      }
    }
    assert acts[..|acts|] == acts;
  }

  /** `filter_activities_by_tag`: keeps, in order, the activities whose
      tags include the tag. */
  method FilterByTag(acts: seq<Activity>, tag: string) returns (kept: seq<Activity>)
    ensures kept == Select(acts, HasTag(tag))
  {
    kept := [];
    for i := 0 to |acts|
      invariant kept == Select(acts[..i], HasTag(tag))
    {
      SelectPrefixStep(acts, i, HasTag(tag));
      if tag in acts[i].tags {
        kept := kept + [acts[i]];
      }
    }
    assert acts[..|acts|] == acts;
  }

  /** The activities both filters let through, in their original order. */
  function Filtered(acts: seq<Activity>, tag: string, year: int, month: int): seq<Activity> {
    Select(Select(acts, InMonth(year, month)), HasTag(tag))
  }

  /** The two filters keep every copy of an activity that starts in the
      month and carries the tag, and nothing else. */
  lemma FilteredExactly(acts: seq<Activity>, tag: string, year: int, month: int, a: Activity)
    ensures multiset(Filtered(acts, tag, year, month))[a]
            == if DateOf(a).year == year && DateOf(a).month == month && tag in a.tags
               then multiset(acts)[a] else 0
  {
    SelectCount(acts, InMonth(year, month), a);
    SelectCount(Select(acts, InMonth(year, month)), HasTag(tag), a);
  }

  /** `generate_day_report(activities, tag_projects, tag, year, month)` */
  method GenerateMonthReport(acts: seq<Activity>, projects: ProjectMap, tag: string, year: int, month: int)
    returns (rows: seq<Row>)
    ensures rows == DayReport(Filtered(acts, tag, year, month), projects)
  {
    var inMonth := FilterByMonth(acts, year, month);
    var tagged := FilterByTag(inMonth, tag);
    rows := GenerateDayReport(tagged, projects);
  }

  /** Every row is a day of the requested month, the days strictly ascending. */
  lemma RowsInMonth(acts: seq<Activity>, projects: ProjectMap, tag: string, year: int, month: int)
    ensures var rows := DayReport(Filtered(acts, tag, year, month), projects);
      && (forall i :: 0 <= i < |rows| ==> rows[i].date.year == year && rows[i].date.month == month)
      && (forall i, j :: 0 <= i < j < |rows| ==> Before(rows[i].date, rows[j].date))
  {
    var kept := Filtered(acts, tag, year, month);
    var rows := DayReport(kept, projects);
    DayReportDates(kept, projects);
    SelectMembers(acts, InMonth(year, month));
    SelectMembers(Select(acts, InMonth(year, month)), HasTag(tag));
    forall i | 0 <= i < |rows| ensures rows[i].date.year == year && rows[i].date.month == month {
      assert rows[i].date in DatesOf(kept);
    }
  }

  /** The rows add up to the total duration of the activities both filters
      let through, so that is what the printed total rounds. */
  lemma MonthTotal(acts: seq<Activity>, projects: ProjectMap, tag: string, year: int, month: int)
    ensures SumRows(DayReport(Filtered(acts, tag, year, month), projects))
            == SumSeconds(Filtered(acts, tag, year, month))
  {
    DayReportTotal(Filtered(acts, tag, year, month), projects);
  }

  /** `main`: loads the mapping, then prints the month's report for the tag. */
  method Run(projectLines: seq<string>, acts: seq<Activity>, tag: string, year: int, month: int)
    returns (lines: Option<seq<string>>)
    ensures lines.None? <==> exists i :: 0 <= i < |projectLines| && '=' !in projectLines[i]
    ensures lines.Some? ==>
      && AllLinesParse(projectLines)
      && lines.value == RowLines(DayReport(Filtered(acts, tag, year, month), TableOf(ParsedLines(projectLines))))
                        + [TotalLine(SumSeconds(Filtered(acts, tag, year, month)))]
  {
    var table := LoadProjects(projectLines);
    if table.None? {
      return None;
    }
    var rows := GenerateMonthReport(acts, table.value, tag, year, month);
    var printed := PrintReport(rows);
    MonthTotal(acts, table.value, tag, year, month);
    return Some(printed);
  }
}
