/** The enrollment records a report is computed from, and the figures the
    report shows about them: the number of distinct enrollees, the first and
    last start time, the courses, each course's table and the per-course
    counts of the bar chart (app.yp.py:25-31, 62, 92-101). */
module Enrollment {
  import opened Collections

  /** One spreadsheet row, reduced to the five required columns. The start
      time is an integer that orders like the timestamp it stands for. */
  datatype Record = Record(name: string, start: int, course: string, email: string, phone: string)

  /** One row of a course's table: the name, email and phone columns. */
  datatype TableRow = TableRow(name: string, email: string, phone: string)

  /** One bar of the chart: a course and the number of its enrollments. */
  datatype Bar = Bar(course: string, count: nat)

  /** The full names, row by row. */
  function Names(rows: seq<Record>): (names: seq<string>)
    ensures |names| == |rows|
  {
    seq(|rows|, i requires 0 <= i < |rows| => rows[i].name)
  }

  /** The courses, row by row. */
  function CourseValues(rows: seq<Record>): (courses: seq<string>)
    ensures |courses| == |rows|
  {
    seq(|rows|, i requires 0 <= i < |rows| => rows[i].course)
  }

  lemma CourseValuesSnoc(rows: seq<Record>, r: Record)
    ensures CourseValues(rows + [r]) == CourseValues(rows) + [r.course]
  {
  }

  // ---------------------------------------------------------------------------
  // Cover-page figures

  /** The number of distinct full names (`len(unique())` of the name column). */
  function DistinctEnrollees(rows: seq<Record>): nat
  {
    |Unique(Names(rows))|
  }

  /** Duplicate names are counted once: the figure is the size of the set of
      names, at most the number of rows and at least one when there are rows. */
  lemma DistinctEnrolleesIsNameCount(rows: seq<Record>)
    ensures DistinctEnrollees(rows) == |set r | r in rows :: r.name|
    ensures DistinctEnrollees(rows) <= |rows|
    ensures rows != [] ==> DistinctEnrollees(rows) >= 1
  {
    var names := Names(rows);
    UniqueCountsDistinct(names);
    assert Elements(names) == set r | r in rows :: r.name by {
      forall x | x in set r | r in rows :: r.name
        ensures x in Elements(names)
      {
        var i :| 0 <= i < |rows| && rows[i].name == x;
        assert names[i] == x;
      }
    }
  }

  /** The earliest start time. */
  function MinStart(rows: seq<Record>): (m: int)
    requires rows != []
    ensures forall i :: 0 <= i < |rows| ==> m <= rows[i].start
    ensures exists r :: r in rows && r.start == m
  {
    if |rows| == 1 then rows[0].start
    else
      var rest := MinStart(rows[1..]);
      assert forall r :: r in rows[1..] ==> r in rows;
      if rows[0].start <= rest then rows[0].start else rest
  }

  /** The latest start time. */
  function MaxStart(rows: seq<Record>): (m: int)
    requires rows != []
    ensures forall i :: 0 <= i < |rows| ==> rows[i].start <= m
    ensures exists r :: r in rows && r.start == m
  {
    if |rows| == 1 then rows[0].start
    else
      var rest := MaxStart(rows[1..]);
      assert forall r :: r in rows[1..] ==> r in rows;
      if rest <= rows[0].start then rows[0].start else rest
  }

  /** The period runs forwards, and a single row opens and closes it. */
  lemma PeriodBounds(rows: seq<Record>)
    requires rows != []
    ensures MinStart(rows) <= MaxStart(rows)
    ensures |rows| == 1 ==> MinStart(rows) == rows[0].start == MaxStart(rows)
  {
    assert MinStart(rows) <= rows[0].start <= MaxStart(rows);
  }

  // ---------------------------------------------------------------------------
  // Courses and their tables

  /** The distinct courses in first-seen order (`unique()` of the course
      column), the order in which table pages are emitted. */
  function Courses(rows: seq<Record>): seq<string>
  {
    Unique(CourseValues(rows))
  }

  /** Every course of the data is listed once, and the list follows the order
      in which courses first appear. */
  lemma CoursesFirstSeen(rows: seq<Record>)
    ensures NoDuplicates(Courses(rows))
    ensures forall i :: 0 <= i < |rows| ==> rows[i].course in Courses(rows)
    ensures forall c :: c in Courses(rows) ==> exists i :: 0 <= i < |rows| && rows[i].course == c
    ensures forall k, l :: 0 <= k < l < |Courses(rows)| ==>
              FirstIndex(CourseValues(rows), Courses(rows)[k]) < FirstIndex(CourseValues(rows), Courses(rows)[l])
  {
    var column := CourseValues(rows);
    UniqueFirstSeenOrder(column);
    forall i | 0 <= i < |rows|
      ensures rows[i].course in Courses(rows)
    {
      assert column[i] == rows[i].course;
    }
    forall c | c in Courses(rows)
      ensures exists i :: 0 <= i < |rows| && rows[i].course == c
    {
      var k :| 0 <= k < |Courses(rows)| && Courses(rows)[k] == c;
      var i := FirstIndex(column, c);
      assert rows[i].course == c;
    }
  }

  /** The courses listed are as many as the distinct course values. */
  lemma DistinctCourseCount(rows: seq<Record>)
    ensures |Courses(rows)| == |set r | r in rows :: r.course|
  {
    var column := CourseValues(rows);
    UniqueCountsDistinct(column);
    assert Elements(column) == set r | r in rows :: r.course by {
      forall x | x in set r | r in rows :: r.course
        ensures x in Elements(column)
      {
        var i :| 0 <= i < |rows| && rows[i].course == x;
        assert column[i] == x;
      }
    }
  }

  /** Holds of the records of course c (the mask `df[course] == c`). */
  function InCourse(c: string): Record -> bool
  {
    (r: Record) => r.course == c
  }

  /** The records of course c, in their original order. */
  function Group(rows: seq<Record>, c: string): seq<Record>
  {
    Filter(rows, InCourse(c))
  }

  function ToTableRow(r: Record): TableRow
  {
    TableRow(r.name, r.email, r.phone)
  }

  /** The rows of the table page of course c: its records projected to name,
      email and phone. */
  function TableRows(rows: seq<Record>, c: string): (table: seq<TableRow>)
    ensures |table| == |Group(rows, c)|
  {
    var group := Group(rows, c);
    seq(|group|, i requires 0 <= i < |group| => ToTableRow(group[i]))
  }

  /** The k-th row of course c's table is the projection of the k-th record
      whose course is c: exactly those records, in the order of the data. */
  lemma TableRowsSelectCourse(rows: seq<Record>, c: string)
    ensures |TableRows(rows, c)| == |Positions(rows, InCourse(c))|
    ensures forall k :: 0 <= k < |TableRows(rows, c)| ==>
              rows[Positions(rows, InCourse(c))[k]].course == c &&
              TableRows(rows, c)[k] == ToTableRow(rows[Positions(rows, InCourse(c))[k]])
    ensures forall i :: 0 <= i < |rows| && rows[i].course == c ==> i in Positions(rows, InCourse(c))
  {
    FilterSelectsPositions(rows, InCourse(c));
  }

  /** Every record belongs to the table of its own course and to no other. */
  lemma EachRecordInOneTable(rows: seq<Record>, i: nat, c: string)
    requires i < |rows|
    ensures i in Positions(rows, InCourse(c)) <==> c == rows[i].course
  {
  }

  lemma GroupSnoc(rows: seq<Record>, r: Record, c: string)
    ensures Group(rows + [r], c) == Group(rows, c) + (if r.course == c then [r] else [])
  {
    FilterSnoc(rows, r, InCourse(c));
  }

  /** A course that does not occur has an empty table. */
  lemma GroupOfAbsentCourse(rows: seq<Record>, c: string)
    requires c !in CourseValues(rows)
    ensures Group(rows, c) == []
  {
    forall i | 0 <= i < |rows|
      ensures !InCourse(c)(rows[i])
    {
      assert CourseValues(rows)[i] == rows[i].course;
    }
    FilterNone(rows, InCourse(c));
  }

  /** The total number of table rows over the courses cs. */
  function TableSizes(rows: seq<Record>, cs: seq<string>): nat
  {
    if cs == [] then 0 else |TableRows(rows, cs[0])| + TableSizes(rows, cs[1..])
  }

  lemma {:induction false} TableSizesAppend(rows: seq<Record>, cs: seq<string>, d: string)
    ensures TableSizes(rows, cs + [d]) == TableSizes(rows, cs) + |TableRows(rows, d)|
  {
    if cs != [] {
      assert (cs + [d])[1..] == cs[1..] + [d];
      TableSizesAppend(rows, cs[1..], d);
    }
  }

  /** A new record adds one row to the tables of a course list that names its
      course once, and none to a list that does not name it. */
  lemma {:induction false} TableSizesSnoc(rows: seq<Record>, r: Record, cs: seq<string>)
    requires NoDuplicates(cs)
    ensures TableSizes(rows + [r], cs) == TableSizes(rows, cs) + (if r.course in cs then 1 else 0)
  {
    if cs != [] {
      GroupSnoc(rows, r, cs[0]);
      TableSizesSnoc(rows, r, cs[1..]);
      assert cs == [cs[0]] + cs[1..];
    }
  }

  /** The course tables partition the data: their sizes add up to the
      number of records. */
  lemma {:induction false} TablesPartitionRows(rows: seq<Record>)
    ensures TableSizes(rows, Courses(rows)) == |rows|
  {
    if rows != [] {
      var n := |rows| - 1;
      var prefix, r := rows[..n], rows[n];
      assert rows == prefix + [r];
      TablesPartitionRows(prefix);
      CourseValuesSnoc(prefix, r);
      UniqueSnoc(CourseValues(prefix), r.course);
      var before := Courses(prefix);
      TableSizesSnoc(prefix, r, before);
      if r.course !in before {
        TableSizesAppend(rows, before, r.course);
        assert r.course !in CourseValues(prefix);
        GroupOfAbsentCourse(prefix, r.course);
        GroupSnoc(prefix, r, r.course);
      }
    }
  }

  // ---------------------------------------------------------------------------
  // The bar chart

  /** Enrollments per course (`groupby(course)[name].count()`): a map from
      each course of the data to the number of its records. */
  function CourseCounts(rows: seq<Record>): (counts: map<string, nat>)
    ensures counts.Keys == Elements(CourseValues(rows))
  {
    if rows == [] then map[]
    else
      var n := |rows| - 1;
      assert rows == rows[..n] + [rows[n]];
      CourseValuesSnoc(rows[..n], rows[n]);
      var counts := CourseCounts(rows[..n]);
      var c := rows[n].course;
      counts[c := if c in counts then counts[c] + 1 else 1]
  }

  /** The count the chart shows for a course is the number of rows of that
      course's table. */
  lemma {:induction false} CourseCountsMatchTables(rows: seq<Record>)
    ensures forall c :: c in CourseCounts(rows) ==> CourseCounts(rows)[c] == |TableRows(rows, c)|
  {
    if rows != [] {
      var n := |rows| - 1;
      var prefix, r := rows[..n], rows[n];
      assert rows == prefix + [r];
      CourseCountsMatchTables(prefix);
      forall c | c in CourseCounts(rows)
        ensures CourseCounts(rows)[c] == |TableRows(rows, c)|
      {
        GroupSnoc(prefix, r, c);
        if c !in CourseCounts(prefix) {
          GroupOfAbsentCourse(prefix, c);
        }
      }
    }
  }

  /** The course names of a list of bars. */
  function BarCourses(bars: seq<Bar>): (courses: seq<string>)
    ensures |courses| == |bars|
  {
    seq(|bars|, i requires 0 <= i < |bars| => bars[i].course)
  }

  /** Every listed course has a count. */
  lemma CoursesAreCounted(rows: seq<Record>)
    ensures forall c :: c in Courses(rows) ==> c in CourseCounts(rows)
  {
    var column := CourseValues(rows);
    forall c | c in Courses(rows)
      ensures c in Elements(column)
    {
      var k :| 0 <= k < |Courses(rows)| && Courses(rows)[k] == c;
      assert column[FirstIndex(column, c)] == c;
    }
  }

  /** The chart's courses: those of the data, in the ascending order of
      course names that `groupby` sorts its keys into. */
  function ChartCourses(rows: seq<Record>): (keys: seq<string>)
    ensures multiset(keys) == multiset(Courses(rows))
    ensures StrictlySorted(keys)
  {
    SortStringsSorted(Courses(rows));
    SortStrings(Courses(rows))
  }

  /** The bars of the chart: one per course, in the order of ChartCourses,
      each with its course's count. */
  function ChartBars(rows: seq<Record>): (bars: seq<Bar>)
    ensures BarCourses(bars) == ChartCourses(rows)
    ensures forall i :: 0 <= i < |bars| ==> bars[i].count == |TableRows(rows, bars[i].course)|
  {
    var keys := ChartCourses(rows);
    SortedCoursesCounted(rows);
    var bars := seq(|keys|, i requires 0 <= i < |keys| => Bar(keys[i], CourseCounts(rows)[keys[i]]));
    assert BarCourses(bars) == keys;
    bars
  }

  /** Each sorted course has a count, and it is the size of its table. */
  lemma SortedCoursesCounted(rows: seq<Record>)
    ensures forall i :: 0 <= i < |ChartCourses(rows)| ==>
              ChartCourses(rows)[i] in CourseCounts(rows) &&
              CourseCounts(rows)[ChartCourses(rows)[i]] == |TableRows(rows, ChartCourses(rows)[i])|
  {
    var keys := ChartCourses(rows);
    CourseCountsMatchTables(rows);
    CoursesAreCounted(rows);
    forall i | 0 <= i < |keys|
      ensures keys[i] in CourseCounts(rows)
    {
      assert keys[i] in multiset(Courses(rows));
    }
  }

  /** The chart has one bar per distinct course, so as many bars as there are
      table pages, and every course of the data has its bar. */
  lemma ChartHasBarPerCourse(rows: seq<Record>)
    ensures |ChartBars(rows)| == |Courses(rows)|
    ensures forall i :: 0 <= i < |rows| ==> rows[i].course in BarCourses(ChartBars(rows))
  {
    var keys := ChartCourses(rows);
    assert |multiset(keys)| == |multiset(Courses(rows))|;
    CoursesFirstSeen(rows);
    forall i | 0 <= i < |rows|
      ensures rows[i].course in keys
    {
      assert rows[i].course in multiset(Courses(rows));
    }
  }

  /** Sorting by name and first-seen order are different orders: when the
      data names course k before course l but l sorts first, the tables list
      k first and the chart lists l first. */
  lemma ChartOrderMayDifferFromTableOrder(rows: seq<Record>, k: nat, l: nat)
    requires k < l < |Courses(rows)| && StrLess(Courses(rows)[l], Courses(rows)[k])
    ensures exists i, j :: 0 <= i < j < |ChartCourses(rows)| &&
              ChartCourses(rows)[i] == Courses(rows)[l] && ChartCourses(rows)[j] == Courses(rows)[k]
  {
    var keys := ChartCourses(rows);
    var seenFirst, sortedFirst := Courses(rows)[k], Courses(rows)[l];
    assert seenFirst in multiset(keys) && sortedFirst in multiset(keys);
    var i :| 0 <= i < |keys| && keys[i] == sortedFirst;
    var j :| 0 <= j < |keys| && keys[j] == seenFirst;
    StrLessAsymmetric(sortedFirst, seenFirst);
    assert i < j;
  }

  /** The size of a course's table over three records. */
  lemma GroupOfThree(rows: seq<Record>, d: string)
    requires |rows| == 3
    ensures |Group(rows, d)| == (if rows[0].course == d then 1 else 0)
                              + (if rows[1].course == d then 1 else 0)
                              + (if rows[2].course == d then 1 else 0)
  {
    var a, b, c := rows[0], rows[1], rows[2];
    assert rows == [a, b] + [c] && [a, b] == [a] + [b] && [a] == [] + [a];
    GroupSnoc([a, b], c, d);
    GroupSnoc([a], b, d);
    GroupSnoc([], a, d);
  }

  /** The period of records whose start times increase runs from the first
      start to the last. */
  lemma PeriodOfIncreasingStarts(rows: seq<Record>)
    requires rows != []
    requires forall i :: 0 < i < |rows| ==> rows[i - 1].start < rows[i].start
    ensures MinStart(rows) == rows[0].start && MaxStart(rows) == rows[|rows| - 1].start
  {
    var n := |rows| - 1;
    forall i | 0 <= i <= n
      ensures rows[0].start <= rows[i].start <= rows[n].start
    {
      StartsIncrease(rows, 0, i);
      StartsIncrease(rows, i, n);
    }
  }

  lemma {:induction false} StartsIncrease(rows: seq<Record>, i: nat, j: nat)
    requires i <= j < |rows|
    requires forall k :: 0 < k < |rows| ==> rows[k - 1].start < rows[k].start
    ensures rows[i].start <= rows[j].start
  {
    if i < j {
      StartsIncrease(rows, i, j - 1);
    }
  }

  /** Three enrollments, the first and the last by the same person, the first
      two in the same course, in increasing start order: two enrollees, the
      period from the first start to the last, two courses in the order seen,
      two rows in the first course's table and one in the second's. */
  lemma ThreeEnrollments(rows: seq<Record>)
    requires |rows| == 3
    requires rows[0].name == rows[2].name != rows[1].name
    requires rows[0].course == rows[1].course != rows[2].course
    requires rows[0].start < rows[1].start < rows[2].start
    ensures DistinctEnrollees(rows) == 2
    ensures MinStart(rows) == rows[0].start && MaxStart(rows) == rows[2].start
    ensures Courses(rows) == [rows[0].course, rows[2].course]
    ensures |TableRows(rows, rows[0].course)| == 2 && |TableRows(rows, rows[2].course)| == 1
  {
    assert Names(rows) == [rows[0].name, rows[1].name, rows[0].name];
    UniqueOfThree(rows[0].name, rows[1].name);
    assert CourseValues(rows) == [rows[0].course, rows[0].course, rows[2].course];
    UniqueOfRepeatThenOther(rows[0].course, rows[2].course);
    PeriodOfIncreasingStarts(rows);
    GroupOfThree(rows, rows[0].course);
    GroupOfThree(rows, rows[2].course);
  }
}
