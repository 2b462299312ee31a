# taimio-report in Dafny

A model of the report engine of the two scripts of taimio-report, with proofs
of what that engine promises.

- `taimio_report.py` asks the server for the activities of one tag over a
  date range given as `YYYY`, `YYYY-MM` or `YYYY-MM-DD` (one or two arguments).
  It then prints one line per day and a grand total.
- `tiima_report.py` fetches every activity and keeps those of one month and one
  tag before printing the same report.

Both scripts contain the same engine: `get_activity_project`,
`calculate_activity_duration_hours`, `group_activities_by_date`, the rows of
`generate_day_report`, `load_projects` and `format_hours`. The model states it
once and both scripts use it.

Modules, one per concern:

| module | file | what it holds |
|---|---|---|
| `Wrappers` | wrappers.dfy | `Option` (Python's `None`) and `Result` (the raising path) |
| `Sorting` | sorting.dfy | `sorted` of a set of distinct values under a strict total order: an insertion sort as a function and a selection of minima as a method |
| `Text` | text.dfy | `int()` and `str()` of natural numbers, zero padding, `str.strip`, `str.split(sep, 1)`, `', '.join` and the code-point order of strings |
| `Calendar` | calendar.dfy | `datetime.date` validity, `calendar.monthrange`, the last day of a month and of a year, date order, `str(date)` |
| `DateSpec` | date_spec.dfy | `DATE_REGEX` and `parse_date` |
| `Hours` | hours.dfy | `format_hours` |
| `Projects` | projects.dfy | `get_activity_project` and `load_projects` |
| `Report` | report.dfy | activities, durations, grouping by date, the rows of the day report, the printing loop and the total |
| `Tiima` | tiima.dfy | the month and tag filters and `main` of tiima_report.py |
| `Taimio` | taimio.dfy | the date range of `main` of taimio_report.py, and its `main` |

Conventions of the model:

- A timestamp is an instant in whole seconds together with the calendar date
  it falls on in its own time zone. Durations are whole seconds.
- `format_hours(seconds / 3600)` is stated on seconds. `round(x * 2)` becomes
  the nearest whole number of half hours (`seconds / 1800`), with ties going
  to the even neighbour as Python's `round` does.
- The loops of the source are methods with loop invariants:
  - `GroupByDate`
  - `LoadProjects`
  - `GetActivityProject`
  - the two filters
  - the printing loop of `main` (`PrintReport`)
  - `sorted`

  Each method is proved equal to a function, and the properties are proved
  as lemmas about that function.
- A raised exception becomes a `Failure` or `None` value:
  - `load_projects` on a line without `=`;
  - `parse_date` on a string the expression does not match;
  - `datetime.date` with ValueError or OverflowError.

Behaviour of the code worth noting:

- `round` ties go to the even number of half hours. So 0.25h shows as
  `0.0h` and 2.25h as `2.0h` (`Hours.FormatHoursExamples`).
- A day is checked against the length of its month, because `datetime.date`
  raises for February 29 of a common year (`Taimio.NoLeapDayExample`).
- A month or day of `00` passes the regular expression and then counts as
  absent (`month or 1`, `not month`). For `2020-00-15` the start keeps the
  day 15 and the end widens to December 31 (`Taimio.ZeroMonthExample`).
- A mapped project that is the empty string is false in Python, so it also
  shows as `Other` (`Projects.ProjectName`).
- A second argument that fails is reported under the first argument, since
  the message formats `sys.argv[2]` (`Taimio.SecondArgumentExamples`).
- Nothing compares the two bounds, so the end may come before the start.
- A year that does not fit a C `int` makes `datetime.date` raise
  OverflowError. That error escapes the `except ValueError` handler
  (`Taimio.RangeError.Overflow`).

## Model

| member | source | states |
|---|---|---|
| DateSpec.ParseDateAcceptsExactly | taimio_report.py:14-22 | `parse_date` succeeds exactly on the strings `DATE_REGEX` matches: one or more digits, optionally `-MM` with MM in 00-12, and only after a month optionally `-DD` with DD in 00-31 |
| DateSpec.ParseDate | taimio_report.py:17-22 | a month read is at most 12, and a day is at most 31 and only present together with a month |
| DateSpec.ParseDateValues | taimio_report.py:22 | the year is the `int` of the digits, and month and day are the `int`s of their groups when those matched and `None` otherwise |
| DateSpec.ParseCompleteDate | taimio_report.py:17-22 | `YYYY-MM-DD` is read as the year, month and day its fields spell |
| DateSpec.ParseYearOnly | taimio_report.py:17-22 | a run of digits is read as a year with no month and no day |
| DateSpec.ParseYearMonth | taimio_report.py:17-22 | `YYYY-MM` is read as year and month with no day |
| DateSpec.ParseIsoText | taimio_report.py:150 | the `str(date)` printed for a valid date is read back by `parse_date` as that date |
| DateSpec.TokenValue | taimio_report.py:22 | `int()` of a two-digit group is the number it spells, at most 12 for a month and at most 31 for a day |
| Calendar.NewDate | taimio_report.py:135 | `datetime.date(y, m, d)` succeeds exactly for a year in 1..9999, a month in 1..12 and a day within the month's length; it raises OverflowError exactly when an argument exceeds a C `int`, and ValueError otherwise |
| Calendar.LastDateOfMonth | taimio_report.py:57-59 | `get_last_date_of_month` succeeds exactly for a year in 1..9999 and a month in 1..12, giving a valid date in that month whose next day is not a date and before which every day of the month is; a month outside 1..12 raises ValueError whatever the year |
| Calendar.FebruaryEnd | taimio_report.py:57-59 | February ends on day 29 exactly in Gregorian leap years and on day 28 otherwise |
| Calendar.LeapYearExamples | taimio_report.py:57-59 | 2024 and 2000 are leap years, while 2023 and 1900 are not |
| Calendar.DaysInMonth | taimio_report.py:59 | `monthrange(y, m)[1]` is between 28 and 31; it is below 30 exactly for February, 29 exactly for February of a leap year, and 30 exactly for April, June, September and November |
| Calendar.LastDateOfYear | taimio_report.py:62-63 | `get_last_date_of_year` is December 31 of the year, which no date of that year comes after; it fails exactly for a year outside 1..9999 |
| Calendar.BeforeIsStrictTotalOrder | taimio_report.py:102 | dates compare by year, then month, then day, which is a strict total order |
| Calendar.IsoText | taimio_report.py:150 | `str(date)` is at least ten characters, with the dashes three and six characters from the end when month and day are from 1 to 99; `DateSpec.ParseIsoText` reads it back |
| Taimio.OrOne | taimio_report.py:135 | `x or 1` is 1 when x is None or 0, and x itself when x is present and non-zero |
| Taimio.ResolveRange | taimio_report.py:133-145 | a resolved range has valid start and end dates; an unparsable first argument fails; every "Invalid date" failure names the first argument |
| Taimio.StartOf | taimio_report.py:135 | `datetime.date(year, month or 1, day or 1)` succeeds exactly when that date is valid, and then is that date; it raises OverflowError exactly when an argument exceeds a C `int` |
| Taimio.EndOf | taimio_report.py:138-143 | a resolved end is a valid date in the argument's year: December 31 without a month, the month's last day with a month but no day, and the given month and day otherwise |
| Taimio.SingleRangeFails | taimio_report.py:133-145 | one argument fails exactly when it does not parse, its year is outside 1..9999, or it has a non-zero month and day whose day exceeds the month's length; OverflowError escapes exactly for a year beyond a C `int` |
| Taimio.SingleRange | taimio_report.py:134-143 | one argument gives the range of its own granularity: a year from January 1 to December 31, a month from its day 1 to its last day, a full date that day alone; an absent month or day, or one of 0, starts at 1, and a 0 widens the end to the year or the month; the end never comes before the start |
| Taimio.TwoArgumentRange | taimio_report.py:136-143 | with two arguments the range runs from the start of the first to the end of the second, each as it resolves alone; a failure of the second still names the first |
| Taimio.YearExample | taimio_report.py:133-145 | `2020` resolves to 2020-01-01 .. 2020-12-31 |
| Taimio.LeapMonthExample | taimio_report.py:133-145 | `2024-02` resolves to 2024-02-01 .. 2024-02-29 |
| Taimio.NoLeapDayExample | taimio_report.py:133-145 | `2023-02-29` fails with "Invalid date" |
| Taimio.ZeroMonthExample | taimio_report.py:133-145 | `2020-00-15` resolves to 2020-01-15 .. 2020-12-31 |
| Taimio.MonthThirteenExample | taimio_report.py:133-145 | `2020-13` fails with "Invalid date" |
| Taimio.SecondArgumentExamples | taimio_report.py:133-145 | `2024-02 2020` gives 2024-02-01 .. 2020-12-31, and `2020 2023-02-29` fails naming `2020` |
| Taimio.Run | taimio_report.py:124-152 | `main` stops on a mapping line without `=`, otherwise on a range that does not resolve (with that error), and otherwise prints one line per row of the day report of the fetched activities followed by the total line of their summed duration |
| Projects.ProjectOf | taimio_report.py:79-83 | a project found is a value of the mapping |
| Projects.ProjectOfIsFirstMatch | tiima_report.py:36-40 | `None` exactly when no tag is a key, and otherwise the project of the first tag in the activity's order that is a key |
| Projects.TagOrderDecides | taimio_report.py:79-83 | with both tags mapped, the one listed first decides, in either order |
| Projects.GetActivityProject | taimio_report.py:79-83 | the loop with its early return gives the first-match project |
| Projects.ProjectName | taimio_report.py:104 | `... or 'Other'` is never empty: it is `Other` when no tag is mapped, and otherwise the mapped project (or `Other` for an empty one) |
| Projects.ParseLine | taimio_report.py:115-116 | a line fails to unpack exactly when it holds no `=` |
| Projects.ParseLineSplitsAtFirst | taimio_report.py:115-116 | the split is at the first `=`, so the project may itself contain `=`, and both halves are stripped |
| Projects.ParsedLinesInOrder | taimio_report.py:114-116 | the i-th entry is what the i-th line parses to |
| Projects.LoadProjects | taimio_report.py:111-117 | `load_projects` fails exactly when some line has no `=`, and otherwise returns the table the lines' entries build in order |
| Projects.LaterLinesOverwrite | tiima_report.py:83-89 | the keys are exactly the tags of the lines, and a tag given on several lines maps to the project of the last of them |
| Projects.TableOf | taimio_report.py:116 | every entry of the table comes from some line with that tag and project |
| Text.StripTrimsWhitespace | taimio_report.py:116 | `strip` keeps a slice of the line with only whitespace around it, and that slice neither starts nor ends with whitespace |
| Text.SplitAtFirst | taimio_report.py:115 | `split('=', 1)` has no second part exactly when the line holds no `=` |
| Text.Strip | taimio_report.py:116 | `strip()` is never longer than its input and neither starts nor ends with whitespace |
| Text.SplitAtFirstParts | taimio_report.py:115 | the two parts put back around the separator give the line, and the first part holds no separator |
| Text.DecimalRoundTrip | taimio_report.py:150 | `int(str(n)) == n` for every natural n |
| Text.PaddedDecimal | taimio_report.py:150 | zero padding keeps the digits' value |
| Text.LessIsStrictTotalOrder | taimio_report.py:108 | the code-point order `sorted` uses on project names is a strict total order |
| Text.Join | taimio_report.py:108 | `', '.join(list)` is empty for no names, starts with the first name, and is as long as the names plus one separator between each two |
| Text.JoinSnoc | taimio_report.py:108 | joining one more name appends `', '` and that name, so every name appears in order with the separator between each two |
| Sorting.SortedDistinct | taimio_report.py:108 | the sort of a sequence is ascending and has the same elements |
| Sorting.AscendingUnique | taimio_report.py:102 | two ascending sequences with the same elements are equal, so `sorted` has one result |
| Sorting.SortSet | taimio_report.py:102 | sorting a set gives an ascending sequence of exactly its elements |
| Report.SelectMembers | tiima_report.py:48-59 | the selected activities are exactly those of the input that meet the criterion |
| Report.DurationSeconds | taimio_report.py:86-88 | the duration is the seconds from start to finish, not clamped: negative exactly when the activity finishes before it starts |
| Report.SelectCount | tiima_report.py:62-66 | each copy of an activity is kept exactly when it meets the criterion; with dates as the criterion every activity lands in the bucket of its own date and no other |
| Report.SelectAppend | tiima_report.py:48-59 | selecting from two concatenated lists is selecting from each and concatenating, so order is kept |
| Report.GroupByDate | taimio_report.py:91-95 | the keys are exactly the dates activities start on, and each date's list holds exactly that date's activities in input order |
| Report.Names | taimio_report.py:104-105 | the names list holds exactly the resolved project names of the activities |
| Report.SortedNames | taimio_report.py:104-108 | the projects of a row are the resolved names of its activities, each once, in ascending order |
| Report.SortNames | taimio_report.py:108 | `sorted` of the set of names gives that ascending list |
| Report.SortedDates | taimio_report.py:102 | the report's dates are the dates activities start on, each once, ascending |
| Report.SortDates | taimio_report.py:102 | `sorted` of the grouping's keys gives those dates |
| Report.GenerateDayReport | taimio_report.py:98-108 | the loop yields the day report: one row per sorted date, built from that date's group |
| Report.DayReportDates | taimio_report.py:102 | rows come in strictly ascending date order, with a row for every date an activity starts on and for no other date |
| Report.DayReport | taimio_report.py:98-108 | one row per distinct start date, and no rows exactly when there are no activities |
| Report.DayReportRows | taimio_report.py:103-108 | each row stands for a non-empty group, its seconds are the summed unclamped durations of that date's activities, and its projects are their names deduplicated, sorted and joined by `', '` |
| Report.DayReportTotal | taimio_report.py:106-108 | the rows' seconds add up to the total duration of all activities, each counted once |
| Report.PrintReport | taimio_report.py:149-152 | one line per row, `date hours projects`, then `Total:` with the unrounded sum of the rows rounded once |
| Report.RowLineParts | taimio_report.py:150 | a printed row is the date, a space, hours that read back as the row's rounded half hours, a space and the projects |
| Report.TotalLine | taimio_report.py:152 | the total line is `Total: ` followed by hours that read back as the rounded half hours of the total |
| Report.ReportTotal | taimio_report.py:127-152 | the printed total is the rounded total duration of all activities, and `Total: 0.0h` when there are none |
| Report.OneDayReport | taimio_report.py:91-108 | activities that all start on one day give a single row holding all of them |
| Report.SameDayScenario | taimio_report.py:98-108 | 09:00-10:30 tagged x and 09:00-09:45 tagged y on one day, with only x mapped to Alpha, give one row of 8100 seconds (2.0h) with `Alpha, Other` |
| Hours.RoundHalves | taimio_report.py:121 | the half-hour count is within a quarter hour of the duration, and an exact tie goes to the even count |
| Hours.RoundHalvesUnique | taimio_report.py:121 | no other count of half hours meets those two conditions |
| Hours.ReadFormattedHours | tiima_report.py:92-93 | the text shown reads back as the rounded count of half hours, so the display loses nothing beyond the rounding |
| Hours.FormatHours | taimio_report.py:120-121 | the text shown ends in `.0h` or `.5h` after at least one digit |
| Hours.ReadHalvesText | taimio_report.py:121 | `str(k / 2)` followed by `h` reads back as k for every whole number of half hours k |
| Hours.FormatHoursExamples | taimio_report.py:120-121 | 1.24h shows as `1.0h`, 1.26h as `1.5h`, 0h as `0.0h`, the tie 0.25h as `0.0h`, 0.75h as `1.0h` and the tie 2.25h as `2.0h` |
| Hours.RoundOnlyTheTotal | taimio_report.py:149-152 | two rows of a quarter hour each show `0.0h` while their total shows `0.5h` |
| Tiima.FilterByMonth | tiima_report.py:48-53 | keeps, in order, exactly the activities that start in the given year and month |
| Tiima.FilterByTag | tiima_report.py:56-59 | keeps, in order, exactly the activities whose tags contain the tag |
| Tiima.FilteredExactly | tiima_report.py:69-71 | after both filters each copy of an activity remains exactly when it starts in the month and carries the tag |
| Tiima.GenerateMonthReport | tiima_report.py:69-80 | the report is the day report of the activities both filters keep |
| Tiima.RowsInMonth | tiima_report.py:69-74 | every row is a date of the requested month, and the dates are strictly ascending |
| Tiima.MonthTotal | tiima_report.py:78-79 | the rows add up to the total duration of the activities both filters keep |
| Tiima.Run | tiima_report.py:96-106 | `main` stops on a mapping line without `=`, and otherwise prints the month's rows followed by the total line of the filtered activities' summed duration |

## Left out

- `fetch_token` in both scripts: the interactive prompts, the login request
  and the `token` file are input and output.
- `fetch_activities` and `as_activity`: the HTTP request, the JSON decoding
  and `arrow`'s timestamp parsing are calls into libraries. Activities come
  in as a parameter, each with an instant and the calendar date of its
  start, so time zones and offsets are not modelled.
- The server's own selection by tag and date range in taimio_report.py is
  not modelled. Its `main` reports whatever activities it is given.
- Reading the `projects` file: `load_projects` is modelled over the file's
  lines. The model does not keep the newline at the end of each line, which
  `strip` removes in the source anyway.
- `sys.argv`, the usage check of taimio_report.py, `print` and `sys.exit`.
  The arguments come in as parameters, and the printed lines are returned as
  strings.
- Tiima.Run: `int(sys.argv[2])` and `int(sys.argv[3])` are taken as integers
  already, so a non-numeric argument (ValueError) is not modelled.
- Floating point: `/ 3600`, the float sum and `str()` of a float are stated
  exactly on whole seconds and half hours. Float rounding error and the
  exponent form `str()` uses for huge values are not modelled.
- DateSpec.ParseDate: `\d` is taken as the ASCII digits. Python also matches
  other Unicode decimal digits, and `$` also matches before a final newline.
  Neither is modelled.
- DateSpec.ParseDate: `int()` refuses strings of more than 4300 digits by
  default. This limit is not modelled, so a longer year parses.
- The projects of a row are sorted by code point (`Text.Less`), as Python
  sorts strings. There is no locale ordering in the source.
- A report by date and project ("project mode") exists in neither script, so
  it is not modelled.
