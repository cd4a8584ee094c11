# Enrollment report planner

A model of the data logic behind the enrollment-report page (`app.yp.py`). The
page takes a spreadsheet of course enrollments and, after a click, builds a PDF
document. This model covers what the page computes, not how it draws:

- the check that the five required columns are present, and the list of the
  missing ones shown otherwise;
- the figures of the cover page: the number of distinct full names and the
  first and last start time;
- the bar chart: one bar per course with its number of enrollments, in the
  sorted key order of `groupby`, with its value written above each bar;
- one table page per course, in the first-seen order of `unique()`, holding the
  name, email and phone of that course's records in their original order;
- the order of the pages: cover, chart, then the tables, and the three
  outcomes of an upload: missing columns, a failure during generation, or the
  report.

Modules:

- `Collections` (`collections.dfy`): selection by a condition (`Filter`,
  `Positions`), distinct values in first-seen order (`Unique`, the behaviour of
  `unique()`), and the code-point order of strings with a sort (`StrLess`,
  `SortStrings`), used for the key order of `groupby`.
- `Schema` (`schema.dfy`): the required column names and `MissingColumns`.
- `Enrollment` (`enrollment.dfy`): the record type, the aggregates, the course
  tables, the per-course counts and the chart bars, with their properties.
- `Report` (`report.dfy`): the page datatype and the methods that assemble the
  pages step by step, as the source appends them to the document.

Modelling choices:

- A record holds the five required columns. The start time is an `int` that
  orders like the timestamp it stands for.
- The upload is given already parsed: a header (`seq<string>`) and the records.
- The generation time (`datetime.now()` formatted) is a parameter of the cover
  page.
- `groupby(...).count()` is modelled as a map from course to its number of
  records (`CourseCounts`). Its keys are sorted by Python's string order, which
  is modelled as `StrLess`. Any correct sort gives the same list
  (`StrictlySortedUnique`), so the insertion sort used is a valid stand-in.
- The table pages follow `unique()`, which keeps first-seen order. The model
  keeps the two orders apart: `ChartOrderMayDifferFromTableOrder` shows that
  whenever a course seen earlier sorts after a course seen later, the chart
  and the tables list the two in opposite orders.
- The source has no guard for an empty table. With no rows the earliest and
  latest start times do not exist: the statistics panel already fails on
  `min().date()` (app.yp.py:154), before the button is reached, and were it
  passed the bar chart would have no data to plot. Either way the catch-all at
  app.yp.py:172-173 shows an error and no document is made. `Generate` returns
  `GenerationError` for it. `MinStart` and `MaxStart` require at least one
  record.

## Model

| member | source | states |
|---|---|---|
| `Schema.MissingColumns` | app.yp.py:129-137 | a column is in the result iff it is required and absent from the header; the result is empty iff every required column is present; no name is listed twice |
| `Schema.MissingColumnsInRequiredOrder` | app.yp.py:129-137 | the missing names appear in the order in which the required list gives them |
| `Schema.MissingEmailColumn` | app.yp.py:129-140 | a header lacking only "Correo de contacto" yields exactly that one name |
| `Report.Generate` | app.yp.py:123-173 | missing columns give only the list of their names and no report; with all columns, an empty table gives a generation error; otherwise the report's pages are the cover, the chart page with one label per bar showing its course's row count, and one table per course, 2 + number of courses in all |
| `Enrollment.DistinctEnrolleesIsNameCount` | app.yp.py:27 | the enrollee count is the number of distinct full names, at most the number of records, and at least 1 when there are records |
| `Enrollment.MinStart` | app.yp.py:30 | the earliest start time is at most every record's start time and is the start time of some record |
| `Enrollment.MaxStart` | app.yp.py:31 | the latest start time is at least every record's start time and is the start time of some record |
| `Enrollment.PeriodBounds` | app.yp.py:30-31 | the first start time is at most the last, and a single record gives both |
| `Enrollment.PeriodOfIncreasingStarts` | app.yp.py:30-31 | for records whose start times increase, the period runs from the first record's start to the last record's |
| `Collections.UniqueFirstSeenOrder` | app.yp.py:92 | `unique()` lists the values in the order of their first occurrence |
| `Collections.UniqueCountsDistinct` | app.yp.py:27 | `unique()` returns as many values as there are distinct values, at least one for a non-empty column |
| `Enrollment.CoursesFirstSeen` | app.yp.py:92 | the courses of the table pages have no duplicates, include every course of the data and nothing else, and follow first-seen order |
| `Enrollment.DistinctCourseCount` | app.yp.py:92 | the number of table pages equals the number of distinct course values |
| `Collections.FilterSelectsPositions` | app.yp.py:93 | a boolean mask keeps exactly the elements at the matching positions, in their order |
| `Enrollment.TableRowsSelectCourse` | app.yp.py:93-101 | the k-th row of a course's table is the name, email and phone of the k-th record of that course; every record of that course appears, in the order of the data |
| `Enrollment.EachRecordInOneTable` | app.yp.py:92-93 | a record is selected for a course's table iff that course is its own, so it is in exactly one table |
| `Enrollment.TablesPartitionRows` | app.yp.py:92-93 | the table sizes over all courses add up to the number of records |
| `Enrollment.CourseCountsMatchTables` | app.yp.py:62 | the count `groupby` gives a course equals the number of rows of that course's table |
| `Enrollment.ChartCourses` | app.yp.py:62 | the chart's courses are the courses of the data, each once, in strictly ascending string order |
| `Enrollment.ChartBars` | app.yp.py:62-71 | the bars follow the sorted courses, and each bar's height is its course's number of table rows |
| `Enrollment.ChartHasBarPerCourse` | app.yp.py:62-71 | there are as many bars as table pages, and every course of the data has a bar |
| `Enrollment.ChartOrderMayDifferFromTableOrder` | app.yp.py:62-92 | for any two courses where the one seen first sorts after the one seen later, the chart lists the later-seen course before the earlier-seen one, the reverse of the table order |
| `Collections.SortStringsSorted` | app.yp.py:62 | sorting distinct strings yields them in strictly ascending order |
| `Collections.StrictlySortedUnique` | app.yp.py:62 | two strictly ascending lists of the same strings are equal, so the sorted key order does not depend on the sorting method |
| `Report.AnnotateBars` | app.yp.py:78-79 | one label per bar, label i at position i showing bar i's count |
| `Report.ChartPage` | app.yp.py:61-89 | the chart page holds the chart bars, and label i shows the number of table rows of bar i's course |
| `Report.AppendTablePages` | app.yp.py:91-115 | the pages already written are kept, and one table page per course follows, in the order of the course list, with that course's rows |
| `Report.PlanReport` | app.yp.py:39-115 | the report is the cover with the enrollee count, first and last start time, then the chart page, then one table page per course in first-seen order: 2 + number of courses pages |
| `Enrollment.ThreeEnrollments` | app.yp.py:27-93 | three records, the first and last by one person, the first two in one course, in increasing start order, give 2 enrollees, the period from the first to the last start, two courses in the order seen, and tables of 2 and 1 rows |

## Left out

- Streamlit UI: page configuration, title, uploader, the data preview, the
  statistics panel, the button, the spinner and the success and error widgets
  (app.yp.py:10-22, 121-170). `Generate` stands for one click on an uploaded
  file. The statistics panel repeats the aggregates that are modelled.
- Spreadsheet parsing with `pd.read_excel` (app.yp.py:126). The model takes
  the header and the typed records. The catch-all (app.yp.py:172-173) also
  reports parse errors and other library failures; only the empty table is
  modelled as a generation failure.
- Empty cells (NaN): every record has all five values. With empty cells,
  `unique()` would list NaN as a value, `groupby` would drop empty courses and
  `count()` would skip empty names.
- Timestamps: the start time is an integer, and how the cover page prints
  the first and last start time is not modelled. The generation time is an
  opaque `generatedAt` string passed in; reading it from the clock with
  `datetime.now()` and formatting it (app.yp.py:34) are left out.
- Drawing: page sizes, text positions, fonts, the frame, bar colours, label
  rotation, margins, table scaling and column widths (app.yp.py:41-57, 64-86,
  95-113). They are floating-point layout inside the plotting library.
- Fixed texts: the cover title and author line, the axis and chart titles,
  and the table titles and column labels.
- Report.AnnotateBars: a label's vertical offset of 0.5 above the bar and the
  decimal text of the value are not modelled; a label carries the bar's
  position and the value itself.
- The colour map lookup `plt.cm.get_cmap` (app.yp.py:70): recent matplotlib
  releases no longer provide it, and with them every generation ends in the
  catch-all. The model assumes a library version where the lookup succeeds.
- PDF serialisation into the buffer, rewinding it, base64 encoding and the HTML
  link and preview (app.yp.py:37-39, 58, 88, 114, 117, 162-170). They are I/O
  over libraries. The page count is stated on the page list, not on the bytes.
