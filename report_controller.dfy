/** The report endpoints of the Laravel back end: the student report,
    filtered by course, and the faculty report, filtered by department,
    each with its summary (totals, a per-status breakdown and, for
    faculty, the distinct departments). */
module ReportController {
  import opened Values
  import opened Seqs

  /** A table row: its primary key and its other columns. */
  datatype Record = Record(id: int, columns: map<string, Val>)

  /** One entry of `status_breakdown`: a status and how many rows have it. */
  datatype StatusCount = StatusCount(status: string, count: nat)

  datatype StudentReport = StudentReport(
    students: seq<Record>, total: nat, enrolled: nat, course: Val,
    statusBreakdown: seq<StatusCount>, generatedAt: string)

  datatype FacultyReport = FacultyReport(
    faculties: seq<Record>, total: nat, active: nat, department: Val,
    departments: seq<string>, statusBreakdown: seq<StatusCount>, generatedAt: string)

  function Column(r: Record, column: string): Val {
    Get(r.columns, column)
  }

  /** The filter is applied only when it is truthy and not `'All'`. */
  predicate Filtering(filter: Val) {
    PhpTruthy(filter) && filter != Str("All")
  }

  /** `if ($filter && $filter !== 'All') $query->where($column, $filter)`. */
  function Select(rows: seq<Record>, column: string, filter: Val): (r: seq<Record>)
    ensures !Filtering(filter) ==> r == rows
    ensures Filtering(filter) ==> forall x :: x in r <==> x in rows && Column(x, column) == filter
  {
    if Filtering(filter) then Filter(x => Column(x, column) == filter, rows) else rows
  }

  predicate SortedByIdDesc(s: seq<Record>) {
    forall i, j :: 0 <= i < j < |s| ==> s[i].id >= s[j].id
  }

  function InsertById(x: Record, s: seq<Record>): (r: seq<Record>)
    requires SortedByIdDesc(s)
    ensures SortedByIdDesc(r)
    ensures multiset(r) == multiset(s) + multiset{x}
    ensures |r| == |s| + 1
    ensures forall y :: y in r ==> y == x || y in s
    decreases |s|
  {
    if |s| == 0 || s[0].id <= x.id then
      [x] + s
    else
      var rest := InsertById(x, s[1..]);
      assert s == [s[0]] + s[1..];
      assert forall y :: y in rest ==> y.id <= s[0].id;
      [s[0]] + rest
  }

  /** `->orderBy('id', 'desc')`: the rows, highest id first. */
  function SortByIdDesc(rows: seq<Record>): (r: seq<Record>)
    ensures SortedByIdDesc(r)
    ensures multiset(r) == multiset(rows)
    decreases |rows|
  {
    if |rows| == 0 then []
    else
      assert rows == [rows[0]] + rows[1..];
      InsertById(rows[0], SortByIdDesc(rows[1..]))
  }

  /** The rows' columns, as the report's JSON carries them. */
  function ColumnsOf(rows: seq<Record>): (cs: seq<map<string, Val>>)
    ensures |cs| == |rows|
    ensures forall i :: 0 <= i < |rows| ==> cs[i] == rows[i].columns
  {
    seq(|rows|, i requires 0 <= i < |rows| => rows[i].columns)
  }

  /** The test `where($column, $value)` applies to a row. */
  function ColumnIs(column: string, value: Val): Record -> bool {
    r => Column(r, column) == value
  }

  /** Testing the rows' columns is testing the rows. */
  lemma {:induction false} FilterColumns(rows: seq<Record>, column: string, value: Val)
    ensures |Filter(FieldIs(column, value), ColumnsOf(rows))| == |Filter(ColumnIs(column, value), rows)|
    decreases |rows|
  {
    if |rows| > 0 {
      assert ColumnsOf(rows)[1..] == ColumnsOf(rows[1..]);
      FilterColumns(rows[1..], column, value);
    }
  }

  /** `$rows->where($column, $value)->count()`: the number of rows holding
      the value, zero exactly when none does. */
  function CountWhere(rows: seq<Record>, column: string, value: string): (n: nat)
    ensures n == |Filter(ColumnIs(column, Str(value)), rows)|
    ensures n <= |rows|
    ensures n == 0 <==> forall i :: 0 <= i < |rows| ==> Column(rows[i], column) != Str(value)
  {
    FilterColumns(rows, column, Str(value));
    CountField(ColumnsOf(rows), column, Str(value))
  }

  /** The key `groupBy('status')` files a row under: its status, `''` when null. */
  function StatusKey(r: Record): string {
    OrEmpty(Column(r, "status"))
  }

  function StatusKeys(rows: seq<Record>): (ks: seq<string>)
    ensures |ks| == |rows|
    ensures forall i :: 0 <= i < |rows| ==> ks[i] == StatusKey(rows[i])
  {
    seq(|rows|, i requires 0 <= i < |rows| => StatusKey(rows[i]))
  }

  /** For each key in turn, how often it occurs among `ks`. */
  function Tally(keys: seq<string>, ks: seq<string>): (t: seq<StatusCount>)
    ensures |t| == |keys|
    ensures forall i :: 0 <= i < |keys| ==> t[i].status == keys[i]
    decreases |keys|
  {
    if |keys| == 0 then []
    else Tally(keys[..|keys| - 1], ks) + [StatusCount(keys[|keys| - 1], Count(ks, keys[|keys| - 1]))]
  }

  /** Each tallied key carries its number of occurrences. */
  lemma {:induction false} TallyCounts(keys: seq<string>, ks: seq<string>)
    ensures forall i :: 0 <= i < |keys| ==> Tally(keys, ks)[i].count == Count(ks, keys[i])
    decreases |keys|
  {
    if |keys| > 0 {
      var init := keys[..|keys| - 1];
      TallyCounts(init, ks);
      assert forall i :: 0 <= i < |init| ==> init[i] == keys[i];
    }
  }

  function TotalCount(t: seq<StatusCount>): nat
    decreases |t|
  {
    if |t| == 0 then 0 else TotalCount(t[..|t| - 1]) + t[|t| - 1].count
  }

  /** `->groupBy('status')->map->count()`: each status once, in order of
      first appearance, with its number of rows. */
  function StatusBreakdown(rows: seq<Record>): seq<StatusCount> {
    var ks := StatusKeys(rows);
    Tally(Dedup(ks), ks)
  }

  /** The tally's counts add up to the occurrences of its keys. */
  lemma {:induction false} TallyTotal(keys: seq<string>, ks: seq<string>)
    ensures TotalCount(Tally(keys, ks)) == CountsOf(keys, ks)
    decreases |keys|
  {
    if |keys| > 0 {
      var t := Tally(keys, ks);
      TallyTotal(keys[..|keys| - 1], ks);
      assert t[..|t| - 1] == Tally(keys[..|keys| - 1], ks);
    }
  }

  /** The breakdown's counts sum to the number of rows, and it lists each
      status once. */
  lemma BreakdownTotal(rows: seq<Record>)
    ensures TotalCount(StatusBreakdown(rows)) == |rows|
    ensures var b := StatusBreakdown(rows);
      forall i, j :: 0 <= i < j < |b| ==> b[i].status != b[j].status
  {
    var ks := StatusKeys(rows);
    TallyTotal(Dedup(ks), ks);
    CountsOfDedup(ks);
  }

  /** Every status of the rows is in the breakdown, and each entry holds the
      number of rows with its status. */
  lemma BreakdownEntries(rows: seq<Record>)
    ensures var ks, b := StatusKeys(rows), StatusBreakdown(rows);
      forall i :: 0 <= i < |b| ==> b[i].status in ks && b[i].count == Count(ks, b[i].status)
    ensures var ks, b := StatusKeys(rows), StatusBreakdown(rows);
      forall k :: k in ks ==> exists i :: 0 <= i < |b| && b[i].status == k
  {
    var ks, b := StatusKeys(rows), StatusBreakdown(rows);
    var d := Dedup(ks);
    TallyCounts(d, ks);
    assert forall i :: 0 <= i < |d| ==> d[i] in d;
    forall k | k in ks ensures exists i :: 0 <= i < |b| && b[i].status == k {
      var i :| 0 <= i < |d| && d[i] == k;
      assert b[i].status == k;
    }
  }

  function Departments(rows: seq<Record>): (vs: seq<Val>)
    ensures |vs| == |rows|
    ensures forall i :: 0 <= i < |rows| ==> vs[i] == Column(rows[i], "department")
  {
    seq(|rows|, i requires 0 <= i < |rows| => Column(rows[i], "department"))
  }

  lemma DepartmentsMembership(rows: seq<Record>, v: Val)
    ensures v in Departments(rows) <==> exists r :: r in rows && Column(r, "department") == v
  {
    var vs := Departments(rows);
    if v in vs {
      var k :| 0 <= k < |vs| && vs[k] == v;
      assert rows[k] in rows;
    }
    if exists r :: r in rows && Column(r, "department") == v {
      var r :| r in rows && Column(r, "department") == v;
      var k :| 0 <= k < |rows| && rows[k] == r;
      assert vs[k] == v;
    }
  }

  /** The texts of values that are all strings. */
  function Texts(vals: seq<Val>): (ds: seq<string>)
    requires forall i :: 0 <= i < |vals| ==> vals[i].Str?
    ensures |ds| == |vals|
    ensures forall i :: 0 <= i < |vals| ==> Str(ds[i]) == vals[i]
  {
    seq(|vals|, i requires 0 <= i < |vals| => vals[i].s)
  }

  lemma TextsMembership(vals: seq<Val>, d: string)
    requires forall i :: 0 <= i < |vals| ==> vals[i].Str?
    ensures d in Texts(vals) <==> Str(d) in vals
  {
    var ds := Texts(vals);
    if Str(d) in vals {
      var k :| 0 <= k < |vals| && vals[k] == Str(d);
      assert ds[k] == d;
    }
  }

  /** `->pluck('department')->filter()->unique()->values()`: the truthy
      departments, each once, in order of first appearance. */
  function DistinctDepartments(rows: seq<Record>): (ds: seq<string>)
    ensures NoDuplicates(ds)
    ensures forall d :: d in ds ==> PhpTruthy(Str(d)) && exists r :: r in rows && Column(r, "department") == Str(d)
    ensures forall r :: r in rows && PhpTruthy(Column(r, "department")) ==> Column(r, "department").s in ds
  {
    var vals := Dedup(Filter(v => PhpTruthy(v), Departments(rows)));
    assert forall i :: 0 <= i < |vals| ==> vals[i] in vals;
    var ds := Texts(vals);
    forall d | d in ds ensures PhpTruthy(Str(d)) && exists r :: r in rows && Column(r, "department") == Str(d) {
      TextsMembership(vals, d);
      DepartmentsMembership(rows, Str(d));
    }
    forall r | r in rows && PhpTruthy(Column(r, "department")) ensures Column(r, "department").s in ds {
      var v := Column(r, "department");
      DepartmentsMembership(rows, v);
      TextsMembership(vals, v.s);
    }
    ds
  }

  /** `ReportController::studentReport`. */
  function StudentReportOf(table: seq<Record>, course: Val, now: string): (r: StudentReport)
    ensures SortedByIdDesc(r.students)
    ensures multiset(r.students) == multiset(Select(table, "course", course))
    ensures r.total == |r.students| && r.enrolled <= r.total
    ensures r.enrolled == CountWhere(r.students, "status", "Enrolled")
    ensures r.enrolled == |Filter(ColumnIs("status", Str("Enrolled")), r.students)|
    ensures r.statusBreakdown == StatusBreakdown(r.students)
    ensures TotalCount(r.statusBreakdown) == r.total
    ensures r.course == if PhpTruthy(course) then course else Str("All")
    ensures r.generatedAt == now
  {
    var students := SortByIdDesc(Select(table, "course", course));
    BreakdownTotal(students);
    StudentReport(students, |students|, CountWhere(students, "status", "Enrolled"),
      PhpElvis(course, Str("All")), StatusBreakdown(students), now)
  }

  /** `ReportController::facultyReport`. */
  function FacultyReportOf(table: seq<Record>, department: Val, now: string): (r: FacultyReport)
    ensures SortedByIdDesc(r.faculties)
    ensures multiset(r.faculties) == multiset(Select(table, "department", department))
    ensures r.total == |r.faculties| && r.active <= r.total
    ensures r.active == CountWhere(r.faculties, "status", "Active")
    ensures r.active == |Filter(ColumnIs("status", Str("Active")), r.faculties)|
    ensures r.statusBreakdown == StatusBreakdown(r.faculties)
    ensures TotalCount(r.statusBreakdown) == r.total
    ensures r.department == if PhpTruthy(department) then department else Str("All")
    ensures NoDuplicates(r.departments)
    ensures forall d :: d in r.departments ==> PhpTruthy(Str(d))
    ensures forall d :: d in r.departments ==> exists x :: x in r.faculties && Column(x, "department") == Str(d)
    ensures forall x :: x in r.faculties && PhpTruthy(Column(x, "department")) ==> Column(x, "department").s in r.departments
    ensures r.departments == DistinctDepartments(r.faculties)
    ensures r.generatedAt == now
  {
    var faculties := SortByIdDesc(Select(table, "department", department));
    BreakdownTotal(faculties);
    FacultyReport(faculties, |faculties|, CountWhere(faculties, "status", "Active"),
      PhpElvis(department, Str("All")), DistinctDepartments(faculties), StatusBreakdown(faculties), now)
  }

  /** A report filtered by a department lists only that department, and
      every row of it. */
  lemma FilteredReportRows(table: seq<Record>, department: Val, now: string)
    requires Filtering(department)
    ensures var r := FacultyReportOf(table, department, now);
      forall x :: x in r.faculties <==> x in table && Column(x, "department") == department
  {
    var r := FacultyReportOf(table, department, now);
    forall x ensures x in r.faculties <==> x in multiset(Select(table, "department", department)) {
      assert x in r.faculties <==> x in multiset(r.faculties);
    }
  }
}
