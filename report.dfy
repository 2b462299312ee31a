/** The report engine both scripts share: activities, their grouping by the
    date they start on, the per-day rows of `generate_day_report` and the
    lines `main` prints for them, closing with the rounded grand total. */
module Report {
  import opened Wrappers
  import opened Text
  import opened Sorting
  import opened Calendar
  import opened Projects
  import opened Hours

  /** An `arrow` timestamp: seconds on a common time line, and the calendar
      date it falls on in its own time zone. */
  datatype Timestamp = Timestamp(instant: int, date: Date)

  datatype Activity = Activity(title: string, tags: seq<string>, startedAt: Timestamp, finishedAt: Timestamp)

  /** `activity.started_at.date()` */
  function DateOf(a: Activity): Date {
    a.startedAt.date
  }

  /** `calculate_activity_duration_hours`, in seconds: `finished_at - started_at`,
      never clamped, so an activity that ends before it starts counts negatively. */
  function DurationSeconds(a: Activity): (seconds: int)
    ensures a.startedAt.instant + seconds == a.finishedAt.instant
    ensures seconds < 0 <==> a.finishedAt.instant < a.startedAt.instant
  {
    a.finishedAt.instant - a.startedAt.instant
  }

  /** The conditions the report selects activities by. */
  datatype Criterion =
    | InMonth(year: int, month: int)
    | HasTag(tag: string)
    | OnDate(date: Date)

  predicate Satisfies(a: Activity, c: Criterion) {
    match c
    case InMonth(year, month) => DateOf(a).year == year && DateOf(a).month == month
    case HasTag(tag) => tag in a.tags
    case OnDate(date) => DateOf(a) == date
  }

  /** The activities of s that meet c, in their original order. */
  function Select(s: seq<Activity>, c: Criterion): (r: seq<Activity>)
    ensures |r| <= |s|
  {
    if s == [] then []
    else Select(s[..|s| - 1], c) + (if Satisfies(s[|s| - 1], c) then [s[|s| - 1]] else [])
  }

  lemma SelectSnoc(s: seq<Activity>, a: Activity, c: Criterion)
    ensures Select(s + [a], c) == Select(s, c) + (if Satisfies(a, c) then [a] else [])
  {
    assert (s + [a])[..|s|] == s;
  }

  /** One more element of a prefix is selected exactly when it meets the criterion. */
  lemma SelectPrefixStep(s: seq<Activity>, i: nat, c: Criterion)
    requires i < |s|
    ensures Select(s[..i + 1], c) == Select(s[..i], c) + (if Satisfies(s[i], c) then [s[i]] else [])
  {
    assert s[..i + 1] == s[..i] + [s[i]];
    SelectSnoc(s[..i], s[i], c);
  }

  /** Selection keeps exactly the activities that meet the criterion. */
  lemma {:induction false} SelectMembers(s: seq<Activity>, c: Criterion)
    ensures forall a :: a in Select(s, c) <==> a in s && Satisfies(a, c)
  {
    if s != [] {
      var init := s[..|s| - 1];
      SelectMembers(init, c);
      assert s == init + [s[|s| - 1]];
    }
  }

  /** Selection keeps the order: it goes through the input front to back. */
  lemma {:induction false} SelectAppend(s: seq<Activity>, t: seq<Activity>, c: Criterion)
    ensures Select(s + t, c) == Select(s, c) + Select(t, c)
  {
    if t == [] {
      assert s + t == s;
    } else {
      var init, last := t[..|t| - 1], t[|t| - 1];
      SelectAppend(s, init, c);
      assert s + t == (s + init) + [last] && t == init + [last];
      SelectSnoc(s + init, last, c);
      SelectSnoc(init, last, c);
    }
  }

  /** Selection keeps every copy of an activity that meets the criterion and
      none of any other. */
  lemma {:induction false} SelectCount(s: seq<Activity>, c: Criterion, a: Activity)
    ensures multiset(Select(s, c))[a] == if Satisfies(a, c) then multiset(s)[a] else 0
  {
    if s != [] {
      var init, last := s[..|s| - 1], s[|s| - 1];
      SelectCount(init, c, a);
      assert s == init + [last];
      SelectSnoc(init, last, c);
    }
  }

  /** The dates activities start on. */
  function DatesOf(acts: seq<Activity>): set<Date> {
    set a | a in acts :: DateOf(a)
  }

  /** A date no activity starts on has no activities. */
  lemma {:induction false} NoneOnDate(s: seq<Activity>, d: Date)
    requires d !in DatesOf(s)
    ensures Select(s, OnDate(d)) == []
  {
    if s != [] {
      var init, last := s[..|s| - 1], s[|s| - 1];
      assert s == init + [last];
      assert last in s;
      NoneOnDate(init, d);
      SelectSnoc(init, last, OnDate(d));
    }
  }

  /** The grouping after one more activity. */
  lemma GroupStep(acts: seq<Activity>, i: int)
    requires 0 <= i < |acts|
    ensures DatesOf(acts[..i + 1]) == DatesOf(acts[..i]) + {DateOf(acts[i])}
    ensures forall d :: Select(acts[..i + 1], OnDate(d))
                        == Select(acts[..i], OnDate(d)) + (if DateOf(acts[i]) == d then [acts[i]] else [])
  {
    assert acts[..i + 1] == acts[..i] + [acts[i]];
    forall d ensures Select(acts[..i + 1], OnDate(d))
                     == Select(acts[..i], OnDate(d)) + (if DateOf(acts[i]) == d then [acts[i]] else [])
    {
      SelectSnoc(acts[..i], acts[i], OnDate(d));
    }
  }

  /** `group_activities_by_date`: appends each activity to the list of its
      date. Every date of an activity is a key, and the list of a date holds
      exactly the activities of that date, in input order. */
  method GroupByDate(acts: seq<Activity>) returns (dates: map<Date, seq<Activity>>)
    ensures dates.Keys == DatesOf(acts)
    ensures forall d :: d in dates ==> dates[d] == Select(acts, OnDate(d))
  {
    dates := map[];
    for i := 0 to |acts|
      invariant dates.Keys == DatesOf(acts[..i])
      invariant forall d :: d in dates ==> dates[d] == Select(acts[..i], OnDate(d))
    {
      var date := DateOf(acts[i]);
      GroupStep(acts, i);
      var bucket: seq<Activity> := [];
      if date in dates {
        bucket := dates[date];
      } else {
        NoneOnDate(acts[..i], date);
      }
      dates := dates[date := bucket + [acts[i]]];
    }
    assert acts[..|acts|] == acts;
  }

  /** One row of the day report: the date, its hours (as seconds) and its projects. */
  datatype Row = Row(date: Date, seconds: int, projects: string)

  /** `sum(calculate_activity_duration_hours(activity) for activity in activities)` */
  function SumSeconds(s: seq<Activity>): int {
    if s == [] then 0 else SumSeconds(s[..|s| - 1]) + DurationSeconds(s[|s| - 1])
  }

  /** `{get_activity_project(activity, tag_projects) or 'Other' for activity in activities}` */
  function NameSet(bucket: seq<Activity>, projects: ProjectMap): set<string> {
    set a | a in bucket :: ProjectName(a.tags, projects)
  }

  /** The same names, one per activity, in activity order. */
  function Names(bucket: seq<Activity>, projects: ProjectMap): (names: seq<string>)
    ensures Elements(names) == NameSet(bucket, projects)
  {
    var names := seq(|bucket|, i requires 0 <= i < |bucket| => ProjectName(bucket[i].tags, projects));
    assert forall a :: a in bucket ==> ProjectName(a.tags, projects) in names by {
      forall a | a in bucket ensures ProjectName(a.tags, projects) in names {
        var i :| 0 <= i < |bucket| && bucket[i] == a;
        assert names[i] == ProjectName(a.tags, projects);
      }
    }
    names
  }

  /** `sorted(projects)`: the distinct names in ascending order. */
  function SortedNames(bucket: seq<Activity>, projects: ProjectMap): (names: seq<string>)
    ensures Ascending(names, Less)
    ensures Elements(names) == NameSet(bucket, projects)
  {
    LessIsStrictTotalOrder();
    SortedDistinct(Names(bucket, projects), Less)
  }

  /** `sorted` applied to the set of names. */
  method SortNames(bucket: seq<Activity>, projects: ProjectMap) returns (names: seq<string>)
    ensures names == SortedNames(bucket, projects)
  {
    LessIsStrictTotalOrder();
    names := SortSet(NameSet(bucket, projects), Less);
    AscendingUnique(names, SortedNames(bucket, projects), Less);
  }

  /** The row for date d and the activities of that date: their summed
      duration and `', '.join(sorted(projects))`. */
  function DayRow(d: Date, bucket: seq<Activity>, projects: ProjectMap): Row {
    Row(d, SumSeconds(bucket), Join(", ", SortedNames(bucket, projects)))
  }

  /** `sorted(activities_by_date)`: the distinct dates in ascending order. */
  function SortedDates(acts: seq<Activity>): (ds: seq<Date>)
    ensures Ascending(ds, Before)
    ensures Elements(ds) == DatesOf(acts)
  {
    BeforeIsStrictTotalOrder();
    var all := seq(|acts|, i requires 0 <= i < |acts| => DateOf(acts[i]));
    assert Elements(all) == DatesOf(acts) by {
      forall a | a in acts ensures DateOf(a) in all {
        var i :| 0 <= i < |acts| && acts[i] == a;
        assert all[i] == DateOf(a);
      }
    }
    SortedDistinct(all, Before)
  }

  /** `sorted` applied to the keys of the grouping. */
  method SortDates(acts: seq<Activity>, keys: set<Date>) returns (ds: seq<Date>)
    requires keys == DatesOf(acts)
    ensures ds == SortedDates(acts)
  {
    BeforeIsStrictTotalOrder();
    ds := SortSet(keys, Before);
    AscendingUnique(ds, SortedDates(acts), Before);
  }

  /** The rows for the dates ds, in the order of ds. */
  function RowsFor(ds: seq<Date>, acts: seq<Activity>, projects: ProjectMap): seq<Row> {
    seq(|ds|, i requires 0 <= i < |ds| => DayRow(ds[i], Select(acts, OnDate(ds[i])), projects))
  }

  lemma RowsForStep(ds: seq<Date>, i: int, acts: seq<Activity>, projects: ProjectMap)
    requires 0 <= i < |ds|
    ensures RowsFor(ds[..i + 1], acts, projects)
            == RowsFor(ds[..i], acts, projects) + [DayRow(ds[i], Select(acts, OnDate(ds[i])), projects)]
  {
    var longer := RowsFor(ds[..i + 1], acts, projects);
    var shorter := RowsFor(ds[..i], acts, projects);
    var extended := shorter + [DayRow(ds[i], Select(acts, OnDate(ds[i])), projects)];
    assert |longer| == |extended| == i + 1;
    forall k | 0 <= k < i + 1 ensures longer[k] == extended[k] {
      assert ds[..i + 1][k] == ds[k];
      if k < i {
        assert ds[..i][k] == ds[k];
      }
    }
  }

  /** What `generate_day_report` yields for the given activities. */
  function DayReport(acts: seq<Activity>, projects: ProjectMap): (rows: seq<Row>)
    ensures |rows| == |SortedDates(acts)|
    ensures rows == [] <==> acts == []
  {
    NoElements(SortedDates(acts));
    assert acts != [] ==> DateOf(acts[0]) in DatesOf(acts);
    RowsFor(SortedDates(acts), acts, projects)
  }

  /** `generate_day_report` over activities already at hand: groups them,
      then yields one row per date in ascending order. */
  method GenerateDayReport(acts: seq<Activity>, projects: ProjectMap) returns (rows: seq<Row>)
    ensures rows == DayReport(acts, projects)
  {
    var byDate := GroupByDate(acts);
    var dates := SortDates(acts, byDate.Keys);
    rows := [];
    for i := 0 to |dates|
      invariant rows == RowsFor(dates[..i], acts, projects)
    {
      assert dates[i] in Elements(dates);
      var bucket := byDate[dates[i]];
      var names := SortNames(bucket, projects);
      RowsForStep(dates, i, acts, projects);
      rows := rows + [Row(dates[i], SumSeconds(bucket), Join(", ", names))];
    }
    assert dates[..|dates|] == dates;
  }

  /** The rows come in strictly ascending date order, one for each date an
      activity starts on and none for any other date. */
  lemma DayReportDates(acts: seq<Activity>, projects: ProjectMap)
    ensures var rows := DayReport(acts, projects);
      && (forall i, j :: 0 <= i < j < |rows| ==> Before(rows[i].date, rows[j].date))
      && (forall d :: d in DatesOf(acts) <==> exists i :: 0 <= i < |rows| && rows[i].date == d)
  {
    var ds := SortedDates(acts);
    var rows := DayReport(acts, projects);
    RowDates(ds, acts, projects);
    assert Ascending(ds, Before);
    forall d | d in DatesOf(acts) ensures exists i :: 0 <= i < |rows| && rows[i].date == d {
      assert d in Elements(ds);
      var i :| 0 <= i < |ds| && ds[i] == d;
      assert rows[i].date == d;
    }
    forall d | (exists i :: 0 <= i < |rows| && rows[i].date == d) ensures d in DatesOf(acts) {
      var i :| 0 <= i < |rows| && rows[i].date == d;
      assert ds[i] in Elements(ds);
    }
  }

  /** The row for each date of ds carries that date. */
  lemma RowDates(ds: seq<Date>, acts: seq<Activity>, projects: ProjectMap)
    ensures |RowsFor(ds, acts, projects)| == |ds|
    ensures forall i :: 0 <= i < |ds| ==> RowsFor(ds, acts, projects)[i].date == ds[i]
  {
  }

  /** `', '.join(list)` for the names of `names` in ascending order. */
  ghost predicate JoinsSorted(text: string, names: set<string>) {
    exists list :: Ascending(list, Less) && Elements(list) == names && text == Join(", ", list)
  }

  /** Each row stands for a non-empty group: its seconds are the summed
      durations of the activities of its date, and its projects are their
      resolved names, each once, sorted and joined by ", ". */
  lemma DayReportRows(acts: seq<Activity>, projects: ProjectMap, i: int)
    requires 0 <= i < |DayReport(acts, projects)|
    ensures var row := DayReport(acts, projects)[i];
      var bucket := Select(acts, OnDate(row.date));
      && bucket != []
      && row.seconds == SumSeconds(bucket)
      && JoinsSorted(row.projects, NameSet(bucket, projects))
  {
    var ds := SortedDates(acts);
    var d := ds[i];
    assert d in Elements(ds);
    var a :| a in acts && DateOf(a) == d;
    var bucket := Select(acts, OnDate(d));
    SelectMembers(acts, OnDate(d));
    assert a in bucket;
    var list := SortedNames(bucket, projects);
    assert DayReport(acts, projects)[i].projects == Join(", ", list);
  }

  ghost predicate Distinct<T>(s: seq<T>) {
    forall i, j :: 0 <= i < j < |s| ==> s[i] != s[j]
  }

  /** The sum of the rows' seconds. */
  function SumRows(rows: seq<Row>): int {
    if rows == [] then 0 else SumRows(rows[..|rows| - 1]) + rows[|rows| - 1].seconds
  }


  /** The seconds of the activities of each date of ds, added up. */
  function SecondsOnDates(ds: seq<Date>, acts: seq<Activity>): int {
    if ds == [] then 0
    else SecondsOnDates(ds[..|ds| - 1], acts) + SumSeconds(Select(acts, OnDate(ds[|ds| - 1])))
  }

  lemma {:induction false} SumRowsFor(ds: seq<Date>, acts: seq<Activity>, projects: ProjectMap)
    ensures SumRows(RowsFor(ds, acts, projects)) == SecondsOnDates(ds, acts)
  {
    if ds != [] {
      var rows := RowsFor(ds, acts, projects);
      assert rows[..|rows| - 1] == RowsFor(ds[..|ds| - 1], acts, projects);
      SumRowsFor(ds[..|ds| - 1], acts, projects);
    }
  }

  /** With no activities every date has none. */
  lemma {:induction false} NoSecondsOnDates(ds: seq<Date>)
    ensures SecondsOnDates(ds, []) == 0
  {
    if ds != [] {
      NoSecondsOnDates(ds[..|ds| - 1]);
    }
  }

  lemma SumSecondsSnoc(s: seq<Activity>, a: Activity)
    ensures SumSeconds(s + [a]) == SumSeconds(s) + DurationSeconds(a)
  {
    assert (s + [a])[..|s|] == s;
  }

  lemma DistinctLast<T>(ds: seq<T>)
    requires ds != [] && Distinct(ds)
    ensures Distinct(ds[..|ds| - 1]) && ds[|ds| - 1] !in ds[..|ds| - 1]
  {
  }

  /** One more activity adds its duration to its own date, if that is among ds. */
  lemma {:induction false} SecondsOnDatesAdd(ds: seq<Date>, acts: seq<Activity>, a: Activity)
    requires Distinct(ds)
    ensures SecondsOnDates(ds, acts + [a])
            == SecondsOnDates(ds, acts) + (if DateOf(a) in ds then DurationSeconds(a) else 0)
  {
    if ds != [] {
      var n := |ds| - 1;
      var init, d := ds[..n], ds[n];
      DistinctLast(ds);
      SecondsOnDatesAdd(init, acts, a);
      var extra := SecondsOnDate(d, acts, a);
      SecondsOnDatesLast(ds, acts + [a]);
      SecondsOnDatesLast(ds, acts);
      if DateOf(a) == d {
        assert DateOf(a) in ds && DateOf(a) !in init;
      } else {
        assert ds == init + [d];
        assert DateOf(a) in ds <==> DateOf(a) in init;
      }
    }
  }

  lemma SecondsOnDatesLast(ds: seq<Date>, acts: seq<Activity>)
    requires ds != []
    ensures SecondsOnDates(ds, acts)
            == SecondsOnDates(ds[..|ds| - 1], acts) + SumSeconds(Select(acts, OnDate(ds[|ds| - 1])))
  {
  }

  /** What one more activity adds to the seconds of date d. */
  lemma SecondsOnDate(d: Date, acts: seq<Activity>, a: Activity) returns (extra: int)
    ensures extra == if DateOf(a) == d then DurationSeconds(a) else 0
    ensures SumSeconds(Select(acts + [a], OnDate(d))) == SumSeconds(Select(acts, OnDate(d))) + extra
  {
    SelectSnoc(acts, a, OnDate(d));
    if DateOf(a) == d {
      SumSecondsSnoc(Select(acts, OnDate(d)), a);
      extra := DurationSeconds(a);
    } else {
      assert Select(acts + [a], OnDate(d)) == Select(acts, OnDate(d));
      extra := 0;
    }
  }

  /** Distinct dates that include every activity's date account for the
      total duration. */
  lemma {:induction false} SecondsOnAllDates(ds: seq<Date>, acts: seq<Activity>)
    requires Distinct(ds) && DatesOf(acts) <= Elements(ds)
    ensures SecondsOnDates(ds, acts) == SumSeconds(acts)
  {
    if acts == [] {
      NoSecondsOnDates(ds);
    } else {
      var init, a := acts[..|acts| - 1], acts[|acts| - 1];
      assert acts == init + [a];
      assert DatesOf(acts) == DatesOf(init) + {DateOf(a)};
      SecondsOnAllDates(ds, init);
      SecondsOnDatesAdd(ds, init, a);
    }
  }

  /** Each activity is counted in exactly one row: the rows' seconds add up
      to the total duration of all activities. */
  lemma DayReportTotal(acts: seq<Activity>, projects: ProjectMap)
    ensures SumRows(DayReport(acts, projects)) == SumSeconds(acts)
  {
    var ds := SortedDates(acts);
    assert Distinct(ds) by {
      forall i, j | 0 <= i < j < |ds| ensures ds[i] != ds[j] {
        assert Before(ds[i], ds[j]);
      }
    }
    SumRowsFor(ds, acts, projects);
    SecondsOnAllDates(ds, acts);
  }

  /** `print(date, format_hours(hours), projects)` */
  function RowLine(row: Row): string {
    IsoText(row.date) + " " + FormatHours(row.seconds) + " " + row.projects
  }

  /** A printed row starts with the date and a space, then shows hours that
      read back as the row's rounded half hours, then a space and the projects. */
  lemma RowLineParts(row: Row)
    ensures var line, date, hours := RowLine(row), IsoText(row.date), FormatHours(row.seconds);
      && |line| == |date| + |hours| + |row.projects| + 2
      && line[..|date| + 1] == date + " "
      && ReadHours(line[|date| + 1..|date| + 1 + |hours|]) == Some(RoundHalves(row.seconds))
      && line[|line| - |row.projects| - 1..] == " " + row.projects
  {
    SpaceSeparated(IsoText(row.date), FormatHours(row.seconds), row.projects);
    ReadFormattedHours(row.seconds);
  }

  /** The three fields of `print(a, b, c)` sit where the spaces put them. */
  lemma SpaceSeparated(a: string, b: string, c: string)
    ensures var line := a + " " + b + " " + c;
      && |line| == |a| + |b| + |c| + 2
      && line[..|a| + 1] == a + " "
      && line[|a| + 1..|a| + 1 + |b|] == b
      && line[|line| - |c| - 1..] == " " + c
  {
    var line := a + " " + b + " " + c;
    assert line == (a + " ") + b + (" " + c);
  }

  /** `print('Total:', format_hours(total_hours))` */
  function TotalLine(seconds: int): (line: string)
    ensures |line| > 7 && line[..7] == "Total: "
    ensures ReadHours(line[7..]) == Some(RoundHalves(seconds))
  {
    ReadFormattedHours(seconds);
    var line := "Total: " + FormatHours(seconds);
    assert line[7..] == FormatHours(seconds);
    line
  }

  /** f applied to each element of s, in order. */
  function Mapped<A, B>(f: A -> B, s: seq<A>): (r: seq<B>)
    ensures |r| == |s|
    ensures forall k :: 0 <= k < |s| ==> r[k] == f(s[k])
  {
    if s == [] then [] else Mapped(f, s[..|s| - 1]) + [f(s[|s| - 1])]
  }

  lemma MappedStep<A, B>(f: A -> B, s: seq<A>, i: int)
    requires 0 <= i < |s|
    ensures Mapped(f, s[..i + 1]) == Mapped(f, s[..i]) + [f(s[i])]
  {
    assert s[..i + 1][..i] == s[..i];
  }

  /** The lines printed for the rows, line i for row i. */
  function RowLines(rows: seq<Row>): seq<string> {
    Mapped(RowLine, rows)
  }

  lemma PrintStep(rows: seq<Row>, i: int)
    requires 0 <= i < |rows|
    ensures RowLines(rows[..i + 1]) == RowLines(rows[..i]) + [RowLine(rows[i])]
  {
    MappedStep(RowLine, rows, i);
  }

  lemma SumRowsStep(rows: seq<Row>, i: int)
    requires 0 <= i < |rows|
    ensures SumRows(rows[..i + 1]) == SumRows(rows[..i]) + rows[i].seconds
  {
    assert rows[..i + 1][..i] == rows[..i];
  }

  /** The printing loop of `main`: one line per row, while the unrounded
      total is accumulated, then the total rounded once. */
  method PrintReport(rows: seq<Row>) returns (lines: seq<string>)
    ensures lines == RowLines(rows) + [TotalLine(SumRows(rows))]
  {
    var total := 0;
    lines := [];
    for i := 0 to |rows|
      invariant lines == RowLines(rows[..i])
      invariant total == SumRows(rows[..i])
    {
      PrintStep(rows, i);
      SumRowsStep(rows, i);
      lines := lines + [RowLine(rows[i])];
      total := total + rows[i].seconds;
    }
    assert rows[..|rows|] == rows;
    lines := lines + [TotalLine(total)];
  }

  /** The printed total is the total duration of all activities, rounded
      once; with no activities it reads `Total: 0.0h`. */
  lemma ReportTotal(acts: seq<Activity>, projects: ProjectMap)
    ensures TotalLine(SumRows(DayReport(acts, projects))) == TotalLine(SumSeconds(acts))
    ensures acts == [] ==> TotalLine(SumRows(DayReport(acts, projects))) == "Total: 0.0h"
  {
    DayReportTotal(acts, projects);
    FormatHoursExamples();
  }

  /** Activities that all start on one day make a single row holding all of them. */
  lemma OneDayReport(acts: seq<Activity>, projects: ProjectMap, d: Date)
    requires acts != [] && forall a :: a in acts ==> DateOf(a) == d
    ensures DayReport(acts, projects) == [DayRow(d, acts, projects)]
  {
    assert acts[0] in acts;
    assert DatesOf(acts) == {d};
    BeforeIsStrictTotalOrder();
    AscendingUnique(SortedDates(acts), [d], Before);
    AllOnDate(acts, d);
  }

  lemma {:induction false} AllOnDate(acts: seq<Activity>, d: Date)
    requires forall i :: 0 <= i < |acts| ==> DateOf(acts[i]) == d
    ensures Select(acts, OnDate(d)) == acts
  {
    if acts != [] {
      var init, last := acts[..|acts| - 1], acts[|acts| - 1];
      AllOnDate(init, d);
      assert acts == init + [last];
      SelectSnoc(init, last, OnDate(d));
    }
  }

  /** Two activities on one day, 09:00-10:30 tagged x and 09:00-09:45
      tagged y, and a mapping for x only. */
  const ScenarioDay := Date(2024, 3, 5)
  const ScenarioActivities := [
    Activity("first", ["x"], Timestamp(32400, ScenarioDay), Timestamp(37800, ScenarioDay)),
    Activity("second", ["y"], Timestamp(32400, ScenarioDay), Timestamp(35100, ScenarioDay))
  ]
  const ScenarioProjects := map["x" := "Alpha"]

  lemma ScenarioNames()
    ensures SortedNames(ScenarioActivities, ScenarioProjects) == ["Alpha", "Other"]
  {
    var acts := ScenarioActivities;
    assert ProjectName(acts[0].tags, ScenarioProjects) == "Alpha";
    assert ProjectName(acts[1].tags, ScenarioProjects) == "Other" by {
      assert acts[1].tags[1..] == [];
    }
    assert NameSet(acts, ScenarioProjects) == {"Alpha", "Other"};
    LessIsStrictTotalOrder();
    assert Less("Alpha", "Other");
    AscendingUnique(SortedNames(acts, ScenarioProjects), ["Alpha", "Other"], Less);
  }

  lemma ScenarioSeconds()
    ensures SumSeconds(ScenarioActivities) == 8100
  {
    var acts := ScenarioActivities;
    SumSecondsSnoc([acts[0]], acts[1]);
    SumSecondsSnoc([], acts[0]);
    assert acts == [acts[0]] + [acts[1]] && [acts[0]] == [] + [acts[0]];
  }

  lemma ScenarioOnOneDay()
    ensures ScenarioActivities != []
    ensures forall a :: a in ScenarioActivities ==> DateOf(a) == ScenarioDay
  {
  }

  lemma ScenarioJoin()
    ensures Join(", ", ["Alpha", "Other"]) == "Alpha, Other"
  {
    assert ["Alpha", "Other"][1..] == ["Other"];
  }

  /** The scenario gives one row of 2.25 hours (8100 seconds, shown as 2.0h)
      with the projects "Alpha, Other". */
  lemma SameDayScenario()
    ensures DayReport(ScenarioActivities, ScenarioProjects) == [Row(ScenarioDay, 8100, "Alpha, Other")]
  {
    ScenarioOnOneDay();
    OneDayReport(ScenarioActivities, ScenarioProjects, ScenarioDay);
    ScenarioNames();
    ScenarioSeconds();
    ScenarioJoin();
  }
}
