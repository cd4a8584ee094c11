/** The report itself: the page sequence `generar_informe_pdf` writes (a cover
    page, a bar chart, one table page per course) and the request handling
    around it that checks the columns first and turns a failure during
    generation into an error message (app.yp.py:25-118, 123-173). */
module Report {
  import opened Schema
  import opened Enrollment

  /** The value printed above bar number x. */
  datatype Label = Label(x: nat, value: nat)

  /** One page of the report. The cover page carries the figures it prints
      and the generation time as the caller formatted it. */
  datatype Page =
    | Cover(enrolled: nat, periodStart: int, periodEnd: int, generatedAt: string)
    | Chart(bars: seq<Bar>, labels: seq<Label>)
    | Table(course: string, rows: seq<TableRow>)

  /** What one upload produces: the list of missing columns, the message of
      a failure during generation, or the report. */
  datatype Outcome =
    | SchemaError(missing: seq<string>)
    | GenerationError
    | Generated(pages: seq<Page>)

  /** Writes each bar's value above it, bar by bar (the `enumerate` loop). */
  method AnnotateBars(bars: seq<Bar>) returns (labels: seq<Label>)
    ensures |labels| == |bars|
    ensures forall i :: 0 <= i < |bars| ==> labels[i].x == i && labels[i].value == bars[i].count
  {
    labels := [];
    for i := 0 to |bars|
      invariant |labels| == i
      invariant forall j :: 0 <= j < i ==> labels[j].x == j && labels[j].value == bars[j].count
    {
      labels := labels + [Label(i, bars[i].count)];
    }
  }

  /** The chart page: one bar per course in sorted order, each annotated
      with its course's count, which is the size of that course's table. */
  method ChartPage(rows: seq<Record>) returns (page: Page)
    ensures page.Chart? && page.bars == ChartBars(rows) && |page.labels| == |page.bars|
    ensures forall i :: 0 <= i < |page.labels| ==>
              page.labels[i].x == i && page.labels[i].value == |TableRows(rows, page.bars[i].course)|
  {
    var bars := ChartBars(rows);
    var labels := AnnotateBars(bars);
    page := Chart(bars, labels);
  }

  /** The pages of the report for non-empty data, appended in the order the
      source writes them: the cover, the chart, then one table per course in
      first-seen order. */
  method PlanReport(rows: seq<Record>, generatedAt: string) returns (pages: seq<Page>)
    requires rows != []
    ensures |pages| == 2 + |Courses(rows)|
    ensures pages[0] == Cover(DistinctEnrollees(rows), MinStart(rows), MaxStart(rows), generatedAt)
    ensures pages[1].Chart? && pages[1].bars == ChartBars(rows) && |pages[1].labels| == |pages[1].bars|
    ensures forall i :: 0 <= i < |pages[1].labels| ==>
              pages[1].labels[i].x == i && pages[1].labels[i].value == |TableRows(rows, pages[1].bars[i].course)|
    ensures forall k :: 0 <= k < |Courses(rows)| ==>
              pages[2 + k] == Table(Courses(rows)[k], TableRows(rows, Courses(rows)[k]))
  {
    var cover := Cover(DistinctEnrollees(rows), MinStart(rows), MaxStart(rows), generatedAt);
    var chart := ChartPage(rows);
    pages := AppendTablePages([cover, chart], rows, Courses(rows));
  }

  /** Appends one table page per course of courses, in that order (the loop
      over `unique()` courses). */
  method AppendTablePages(before: seq<Page>, rows: seq<Record>, courses: seq<string>) returns (pages: seq<Page>)
    ensures |pages| == |before| + |courses|
    ensures forall j :: 0 <= j < |before| ==> pages[j] == before[j]
    ensures forall k :: 0 <= k < |courses| ==>
              pages[|before| + k] == Table(courses[k], TableRows(rows, courses[k]))
  {
    pages := before;
    for k := 0 to |courses|
      invariant |pages| == |before| + k
      invariant forall j :: 0 <= j < |before| ==> pages[j] == before[j]
      invariant forall j :: 0 <= j < k ==> pages[|before| + j] == Table(courses[j], TableRows(rows, courses[j]))
    {
      pages := pages + [Table(courses[k], TableRows(rows, courses[k]))];
    }
  }

  /** Handles one uploaded table: the column check, then the report. With a
      column missing only the list of missing names comes back; with no rows
      the generation fails and its error is reported instead of a document. */
  method Generate(header: seq<string>, rows: seq<Record>, generatedAt: string) returns (outcome: Outcome)
    ensures outcome.SchemaError? <==> MissingColumns(header) != []
    ensures outcome.SchemaError? ==> outcome.missing == MissingColumns(header)
    ensures outcome.GenerationError? <==> MissingColumns(header) == [] && rows == []
    ensures outcome.Generated? ==> forall col :: col in RequiredColumns ==> col in header
    ensures outcome.Generated? ==> rows != [] && |outcome.pages| == 2 + |Courses(rows)|
    ensures outcome.Generated? ==>
              outcome.pages[0] == Cover(DistinctEnrollees(rows), MinStart(rows), MaxStart(rows), generatedAt)
    ensures outcome.Generated? ==> outcome.pages[1].Chart? && outcome.pages[1].bars == ChartBars(rows)
    ensures outcome.Generated? ==> |outcome.pages[1].labels| == |outcome.pages[1].bars|
    ensures outcome.Generated? ==> forall i :: 0 <= i < |outcome.pages[1].labels| ==>
              outcome.pages[1].labels[i].x == i &&
              outcome.pages[1].labels[i].value == |TableRows(rows, outcome.pages[1].bars[i].course)|
    ensures outcome.Generated? ==> forall k :: 0 <= k < |Courses(rows)| ==>
              outcome.pages[2 + k] == Table(Courses(rows)[k], TableRows(rows, Courses(rows)[k]))
  {
    var missing := MissingColumns(header);
    if missing != [] {
      return SchemaError(missing);
    }
    if rows == [] {
      return GenerationError;
    }
    var pages := PlanReport(rows, generatedAt);
    return Generated(pages);
  }
}
