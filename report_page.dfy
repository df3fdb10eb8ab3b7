/** The reports screen: for students and for faculty, the request URL built
    from the selected filter, the records and summary taken from the
    answer, with each summary field computed from the records when the
    server leaves it out, and the reset after a failed request. The answer
    and the clock are inputs. */
module ReportPage {
  import opened Values
  import opened Text
  import opened Seqs
  import opened Encoding
  import ReportController

  /** A record as the server sends it. */
  type Record = map<string, Val>

  const StudentPath: string := "/api/reports/students"
  const FacultyPath: string := "/api/reports/faculties"

  /** A filter is sent only when it is non-empty and not `All`. */
  predicate Filtering(filter: string) {
    filter != "" && filter != "All"
  }

  /** The URL requested: the path, and `?key=value` only when filtering. */
  function ReportUrl(path: string, key: string, filter: string): (url: string)
    ensures !Filtering(filter) ==> url == path
    ensures '?' !in path ==> ('?' in url <==> Filtering(filter))
  {
    if Filtering(filter) then
      var url := path + "?" + key + "=" + FormUrlEncode(filter);
      assert url[|path|] == '?';
      url
    else path
  }

  /** A filtered URL carries the filter: after the path's `?` come the key,
      `=` and a value that holds no `&`, `=` or `#` and parses back to the
      filter's bytes. */
  lemma UrlCarriesFilter(path: string, key: string, filter: string)
    requires '?' !in path && Filtering(filter)
    ensures var url := ReportUrl(path, key, filter);
      var i := IndexOf(url, '?');
      i == |path| && url[..i] == path && url[i + 1..] == key + "=" + FormUrlEncode(filter)
    ensures var v := FormUrlEncode(filter);
      FormUrlDecode(v) == Utf8Encode(filter) && '&' !in v && '=' !in v && '#' !in v
  {
    var url := ReportUrl(path, key, filter);
    assert url[|path|] == '?';
    assert forall k :: 0 <= k < |path| ==> url[k] == path[k];
    assert url[|path| + 1..] == key + "=" + FormUrlEncode(filter);
    FormRoundTrip(filter);
  }

  /** The summary part of the server's student report; a missing or null
      field is `None`. */
  datatype StudentSummaryIn = StudentSummaryIn(
    total: Option<int>, enrolled: Option<int>, course: Option<string>, generatedAt: Option<string>)

  /** The student report as the page reads it: `students` is `None` when it
      is not an array, `summary` when it is missing or null. */
  datatype StudentJson = StudentJson(
    students: Option<seq<Record>>, summary: Option<StudentSummaryIn>, generatedAt: Option<string>)

  datatype FacultySummaryIn = FacultySummaryIn(
    total: Option<int>, active: Option<int>, department: Option<string>,
    departments: Option<seq<Val>>, generatedAt: Option<string>)

  datatype FacultyJson = FacultyJson(
    faculties: Option<seq<Record>>, summary: Option<FacultySummaryIn>, generatedAt: Option<string>)

  /** How a request ended: a status other than 2xx, a thrown error (network,
      JSON parsing) with its message, or a parsed answer. */
  datatype Outcome<J> = HttpError(status: nat) | Thrown(message: string) | Received(json: J)

  datatype StudentSummary = StudentSummary(total: int, enrolled: int, course: string)
  datatype FacultySummary = FacultySummary(total: int, active: int, department: string, departments: seq<Val>)

  const InitialStudentSummary: StudentSummary := StudentSummary(0, 0, "All")
  const InitialFacultySummary: FacultySummary := FacultySummary(0, 0, "All", [])

  /** When the report was made: the server's time stamp, or the page's clock. */
  datatype Stamp = ServerTime(text: string) | ClientTime(now: nat)

  /** `Array.isArray(field) ? field : []`. */
  function Records(field: Option<seq<Record>>): (r: seq<Record>)
    ensures field.None? ==> r == []
    ensures field.Some? ==> r == field.value
  {
    if field.Some? then field.value else []
  }

  /** `x ?? fallback`. */
  function OrElse<T>(x: Option<T>, fallback: T): (r: T)
    ensures x.Some? ==> r == x.value
    ensures x.None? ==> r == fallback
  {
    if x.Some? then x.value else fallback
  }

  /** `records.filter((record) => record.status === status).length`. */
  function WithStatus(records: seq<Record>, status: string): (n: nat)
    ensures n == |Filter(FieldIs("status", Str(status)), records)|
    ensures n <= |records|
    ensures n == 0 <==> forall r :: r in records ==> Get(r, "status") != Str(status)
  {
    CountField(records, "status", Str(status))
  }

  function Departments(records: seq<Record>): (ds: seq<Val>)
    ensures |ds| == |records|
    ensures forall i :: 0 <= i < |records| ==> ds[i] == Get(records[i], "department")
  {
    seq(|records|, i requires 0 <= i < |records| => Get(records[i], "department"))
  }

  /** `[...new Set(records.map((r) => r.department).filter(Boolean))]`. */
  function FallbackDepartments(records: seq<Record>): (ds: seq<Val>)
    ensures NoDuplicates(ds)
    ensures forall d :: d in ds <==> JsTruthy(d) && exists i :: 0 <= i < |records| && Get(records[i], "department") == d
  {
    var deps := Departments(records);
    var ds := Dedup(Filter((v: Val) => JsTruthy(v), deps));
    forall d ensures d in ds <==> JsTruthy(d) && exists i :: 0 <= i < |records| && Get(records[i], "department") == d {
      if d in deps {
        var k :| 0 <= k < |deps| && deps[k] == d;
      }
    }
    ds
  }

  /** The fallback departments come in the order in which they first occur
      among the records' truthy departments. */
  lemma FallbackDepartmentsOrder(records: seq<Record>)
    ensures var src := Filter((v: Val) => JsTruthy(v), Departments(records));
      var ds := FallbackDepartments(records);
      forall i, j :: 0 <= i < j < |ds| ==> ds[i] in src && ds[j] in src && FirstIndex(src, ds[i]) < FirstIndex(src, ds[j])
  {
    DedupFirstOccurrenceOrder(Filter((v: Val) => JsTruthy(v), Departments(records)));
  }

  function StudentField<T>(j: StudentJson, field: StudentSummaryIn -> Option<T>): Option<T> {
    if j.summary.Some? then field(j.summary.value) else None
  }

  /** The summary `fetchStudentReport` keeps: each server field when given,
      otherwise the number of records, the number of `Enrolled` records and
      the filter (or `All` when it is empty). */
  function StudentSummaryOf(j: StudentJson, filter: string): (s: StudentSummary)
    ensures var records := Records(j.students);
      (j.summary.None? ==> s == StudentSummary(|records|, WithStatus(records, "Enrolled"), if filter == "" then "All" else filter))
    ensures j.summary.Some? ==>
      var sum := j.summary.value;
      s.total == OrElse(sum.total, |Records(j.students)|) &&
      s.enrolled == OrElse(sum.enrolled, WithStatus(Records(j.students), "Enrolled")) &&
      s.course == OrElse(sum.course, if filter == "" then "All" else filter)
  {
    var records := Records(j.students);
    StudentSummary(
      OrElse(StudentField(j, (x: StudentSummaryIn) => x.total), |records|),
      OrElse(StudentField(j, (x: StudentSummaryIn) => x.enrolled), WithStatus(records, "Enrolled")),
      OrElse(StudentField(j, (x: StudentSummaryIn) => x.course), JsOr(Str(filter), Str("All")).s))
  }

  function FacultyField<T>(j: FacultyJson, field: FacultySummaryIn -> Option<T>): Option<T> {
    if j.summary.Some? then field(j.summary.value) else None
  }

  /** The summary `fetchFacultyReport` keeps, the same way, with the
      distinct truthy departments as the fallback list. */
  function FacultySummaryOf(j: FacultyJson, filter: string): (s: FacultySummary)
    ensures var records := Records(j.faculties);
      (j.summary.None? ==> s == FacultySummary(|records|, WithStatus(records, "Active"),
         if filter == "" then "All" else filter, FallbackDepartments(records)))
    ensures j.summary.Some? ==>
      var sum := j.summary.value;
      s.total == OrElse(sum.total, |Records(j.faculties)|) &&
      s.active == OrElse(sum.active, WithStatus(Records(j.faculties), "Active")) &&
      s.department == OrElse(sum.department, if filter == "" then "All" else filter) &&
      s.departments == OrElse(sum.departments, FallbackDepartments(Records(j.faculties)))
  {
    var records := Records(j.faculties);
    FacultySummary(
      OrElse(FacultyField(j, (x: FacultySummaryIn) => x.total), |records|),
      OrElse(FacultyField(j, (x: FacultySummaryIn) => x.active), WithStatus(records, "Active")),
      OrElse(FacultyField(j, (x: FacultySummaryIn) => x.department), JsOr(Str(filter), Str("All")).s),
      OrElse(FacultyField(j, (x: FacultySummaryIn) => x.departments), FallbackDepartments(records)))
  }

  /** Without a server summary the computed one is consistent: the active
      count is at most the total, which is the number of records shown. */
  lemma FallbackSummaryBounds(j: FacultyJson, filter: string)
    requires j.summary.None?
    ensures var s := FacultySummaryOf(j, filter);
      s.total == |Records(j.faculties)| && 0 <= s.active <= s.total && s.department != ""
  {
  }

  /** `summary?.generated_at ?? generated_at`, then a truthy stamp is the
      server's, anything else the page's own clock. */
  function StampOf(summaryStamp: Option<string>, topStamp: Option<string>, now: nat): (t: Stamp)
    ensures t.ServerTime? ==> t.text != "" && (t.text == OrElse(summaryStamp, OrElse(topStamp, "")))
    ensures t.ClientTime? ==> t.now == now && OrElse(summaryStamp, OrElse(topStamp, "")) == ""
  {
    var ts := if summaryStamp.Some? then summaryStamp else topStamp;
    if ts.Some? && ts.value != "" then ServerTime(ts.value) else ClientTime(now)
  }

  /** The message kept after a failure. */
  function FailureMessage<J>(o: Outcome<J>, what: string): string
    requires !o.Received?
  {
    if o.HttpError? then "Failed to load " + what + " report (" + NatToString(o.status) + ")" else o.message
  }

  /** The filter value the back end receives: the query parameter when the
      page sends one, otherwise nothing. */
  function ServerFilter(filter: string): Val {
    if Filtering(filter) then Str(filter) else Null
  }

  /** The back end's student report as JSON. */
  function StudentJsonOf(r: ReportController.StudentReport): StudentJson {
    StudentJson(Some(ReportController.ColumnsOf(r.students)),
      Some(StudentSummaryIn(Some(r.total), Some(r.enrolled), Some(OrEmpty(r.course)), Some(r.generatedAt))), None)
  }

  /** The back end's faculty report as JSON. */
  function FacultyJsonOf(r: ReportController.FacultyReport): FacultyJson {
    var ds := seq(|r.departments|, i requires 0 <= i < |r.departments| => Str(r.departments[i]));
    FacultyJson(Some(ReportController.ColumnsOf(r.faculties)),
      Some(FacultySummaryIn(Some(r.total), Some(r.active), Some(OrEmpty(r.department)), Some(ds), Some(r.generatedAt))), None)
  }

  /** The back end's student summary is the one the page would compute
      from the records itself: the same total and the same number enrolled,
      and the same course label unless the filter is `0`, which PHP reads
      as false. */
  lemma StudentSummaryAgrees(table: seq<ReportController.Record>, filter: string, now: string)
    ensures var j := StudentJsonOf(ReportController.StudentReportOf(table, ServerFilter(filter), now));
      var s, fallback := StudentSummaryOf(j, filter), StudentSummaryOf(j.(summary := None), filter);
      s.total == fallback.total && s.enrolled == fallback.enrolled &&
      (filter != "0" ==> s.course == fallback.course)
  {
  }

  /** The same for the faculty summary's total, active count and department label. */
  lemma FacultySummaryAgrees(table: seq<ReportController.Record>, filter: string, now: string)
    ensures var j := FacultyJsonOf(ReportController.FacultyReportOf(table, ServerFilter(filter), now));
      var s, fallback := FacultySummaryOf(j, filter), FacultySummaryOf(j.(summary := None), filter);
      s.total == fallback.total && s.active == fallback.active &&
      (filter != "0" ==> s.department == fallback.department)
  {
  }

  /** The reports screen's state. */
  class ReportScreen {
    var studentCourseFilter: string
    var facultyDepartmentFilter: string
    var students: seq<Record>
    var faculties: seq<Record>
    var studentSummary: StudentSummary
    var facultySummary: FacultySummary
    var studentReportDate: Option<Stamp>
    var facultyReportDate: Option<Stamp>
    var studentLoading: bool
    var facultyLoading: bool
    var studentError: Option<string>
    var facultyError: Option<string>

    constructor ()
      ensures studentCourseFilter == "All" && facultyDepartmentFilter == "All"
      ensures students == [] && faculties == []
      ensures studentSummary == InitialStudentSummary && facultySummary == InitialFacultySummary
      ensures studentReportDate == None && facultyReportDate == None
      ensures !studentLoading && !facultyLoading && studentError == None && facultyError == None
    {
      studentCourseFilter := "All";
      facultyDepartmentFilter := "All";
      students := [];
      faculties := [];
      studentSummary := InitialStudentSummary;
      facultySummary := InitialFacultySummary;
      studentReportDate := None;
      facultyReportDate := None;
      studentLoading := false;
      facultyLoading := false;
      studentError := None;
      facultyError := None;
    }

    /** The `try` branch of `fetchStudentReport`: the answer's records,
        summary and stamp are stored. */
    method ReceiveStudentReport(j: StudentJson, filter: string, now: nat)
      modifies this
      ensures students == Records(j.students) && studentSummary == StudentSummaryOf(j, filter)
      ensures studentReportDate == Some(StampOf(if j.summary.Some? then j.summary.value.generatedAt else None, j.generatedAt, now))
      ensures studentError == old(studentError) && studentLoading == old(studentLoading)
      ensures studentCourseFilter == old(studentCourseFilter)
      ensures facultyDepartmentFilter == old(facultyDepartmentFilter) && faculties == old(faculties)
      ensures facultySummary == old(facultySummary) && facultyReportDate == old(facultyReportDate)
      ensures facultyLoading == old(facultyLoading) && facultyError == old(facultyError)
    {
      var records, summary := Records(j.students), StudentSummaryOf(j, filter);
      var stamp := StampOf(if j.summary.Some? then j.summary.value.generatedAt else None, j.generatedAt, now);
      students, studentSummary, studentReportDate := records, summary, Some(stamp);
    }

    /** The `catch` branch of `fetchStudentReport`: the student half is
        cleared and the message is shown. */
    method FailStudentReport(outcome: Outcome<StudentJson>)
      requires !outcome.Received?
      modifies this
      ensures students == [] && studentSummary == InitialStudentSummary && studentReportDate == None
      ensures studentError == Some(FailureMessage(outcome, "student"))
      ensures studentLoading == old(studentLoading)
      ensures studentCourseFilter == old(studentCourseFilter)
      ensures facultyDepartmentFilter == old(facultyDepartmentFilter) && faculties == old(faculties)
      ensures facultySummary == old(facultySummary) && facultyReportDate == old(facultyReportDate)
      ensures facultyLoading == old(facultyLoading) && facultyError == old(facultyError)
    {
      students, studentSummary, studentReportDate := [], InitialStudentSummary, None;
      studentError := Some(FailureMessage(outcome, "student"));
    }

    /** `fetchStudentReport(filter)`, start to finish. Returns the URL it
      requested; `outcome` is how the request ended, `now` the clock. */
    method FetchStudentReport(filter: string, outcome: Outcome<StudentJson>, now: nat) returns (url: string)
      modifies this
      ensures url == ReportUrl(StudentPath, "course", filter)
      ensures outcome.Received? ==>
        var j := outcome.json;
        students == Records(j.students) && studentSummary == StudentSummaryOf(j, filter) &&
        studentReportDate == Some(StampOf(if j.summary.Some? then j.summary.value.generatedAt else None, j.generatedAt, now)) &&
        studentError == None
      ensures !outcome.Received? ==>
        students == [] && studentSummary == InitialStudentSummary && studentReportDate == None &&
        studentError == Some(FailureMessage(outcome, "student"))
      ensures !studentLoading
      ensures studentCourseFilter == old(studentCourseFilter)
      ensures facultyDepartmentFilter == old(facultyDepartmentFilter) && faculties == old(faculties)
      ensures facultySummary == old(facultySummary) && facultyReportDate == old(facultyReportDate)
      ensures facultyLoading == old(facultyLoading) && facultyError == old(facultyError)
    {
      studentLoading := true;
      studentError := None;
      url := ReportUrl(StudentPath, "course", filter);
      if outcome.Received? {
        ReceiveStudentReport(outcome.json, filter, now);
      } else {
        FailStudentReport(outcome);
      }
      studentLoading := false;
    }

    /** The `try` branch of `fetchFacultyReport`. */
    method ReceiveFacultyReport(j: FacultyJson, filter: string, now: nat)
      modifies this
      ensures faculties == Records(j.faculties) && facultySummary == FacultySummaryOf(j, filter)
      ensures facultyReportDate == Some(StampOf(if j.summary.Some? then j.summary.value.generatedAt else None, j.generatedAt, now))
      ensures facultyError == old(facultyError) && facultyLoading == old(facultyLoading)
      ensures facultyDepartmentFilter == old(facultyDepartmentFilter)
      ensures studentCourseFilter == old(studentCourseFilter) && students == old(students)
      ensures studentSummary == old(studentSummary) && studentReportDate == old(studentReportDate)
      ensures studentLoading == old(studentLoading) && studentError == old(studentError)
    {
      var records, summary := Records(j.faculties), FacultySummaryOf(j, filter);
      var stamp := StampOf(if j.summary.Some? then j.summary.value.generatedAt else None, j.generatedAt, now);
      faculties, facultySummary, facultyReportDate := records, summary, Some(stamp);
    }

    /** The `catch` branch of `fetchFacultyReport`. */
    method FailFacultyReport(outcome: Outcome<FacultyJson>)
      requires !outcome.Received?
      modifies this
      ensures faculties == [] && facultySummary == InitialFacultySummary && facultyReportDate == None
      ensures facultyError == Some(FailureMessage(outcome, "faculty"))
      ensures facultyLoading == old(facultyLoading)
      ensures facultyDepartmentFilter == old(facultyDepartmentFilter)
      ensures studentCourseFilter == old(studentCourseFilter) && students == old(students)
      ensures studentSummary == old(studentSummary) && studentReportDate == old(studentReportDate)
      ensures studentLoading == old(studentLoading) && studentError == old(studentError)
    {
      faculties, facultySummary, facultyReportDate := [], InitialFacultySummary, None;
      facultyError := Some(FailureMessage(outcome, "faculty"));
    }

    /** `fetchFacultyReport(filter)`, start to finish. */
    method FetchFacultyReport(filter: string, outcome: Outcome<FacultyJson>, now: nat) returns (url: string)
      modifies this
      ensures url == ReportUrl(FacultyPath, "department", filter)
      ensures outcome.Received? ==>
        var j := outcome.json;
        faculties == Records(j.faculties) && facultySummary == FacultySummaryOf(j, filter) &&
        facultyReportDate == Some(StampOf(if j.summary.Some? then j.summary.value.generatedAt else None, j.generatedAt, now)) &&
        facultyError == None
      ensures !outcome.Received? ==>
        faculties == [] && facultySummary == InitialFacultySummary && facultyReportDate == None &&
        facultyError == Some(FailureMessage(outcome, "faculty"))
      ensures !facultyLoading
      ensures facultyDepartmentFilter == old(facultyDepartmentFilter)
      ensures studentCourseFilter == old(studentCourseFilter) && students == old(students)
      ensures studentSummary == old(studentSummary) && studentReportDate == old(studentReportDate)
      ensures studentLoading == old(studentLoading) && studentError == old(studentError)
    {
      facultyLoading := true;
      facultyError := None;
      url := ReportUrl(FacultyPath, "department", filter);
      if outcome.Received? {
        ReceiveFacultyReport(outcome.json, filter, now);
      } else {
        FailFacultyReport(outcome);
      }
      facultyLoading := false;
    }

    /** Choosing a course: the filter changes and the report is fetched again. */
    method SetStudentCourseFilter(filter: string, outcome: Outcome<StudentJson>, now: nat) returns (url: string)
      modifies this
      ensures studentCourseFilter == filter
      ensures url == ReportUrl(StudentPath, "course", filter)
      ensures outcome.Received? ==>
        var j := outcome.json;
        students == Records(j.students) && studentSummary == StudentSummaryOf(j, filter) &&
        studentReportDate == Some(StampOf(if j.summary.Some? then j.summary.value.generatedAt else None, j.generatedAt, now)) &&
        studentError == None
      ensures !outcome.Received? ==>
        students == [] && studentSummary == InitialStudentSummary && studentReportDate == None &&
        studentError == Some(FailureMessage(outcome, "student"))
      ensures !studentLoading
      ensures facultyDepartmentFilter == old(facultyDepartmentFilter) && faculties == old(faculties)
      ensures facultySummary == old(facultySummary) && facultyReportDate == old(facultyReportDate)
      ensures facultyLoading == old(facultyLoading) && facultyError == old(facultyError)
    {
      studentCourseFilter := filter;
      url := FetchStudentReport(filter, outcome, now);
    }

    /** Choosing a department: the filter changes and the report is fetched again. */
    method SetFacultyDepartmentFilter(filter: string, outcome: Outcome<FacultyJson>, now: nat) returns (url: string)
      modifies this
      ensures facultyDepartmentFilter == filter
      ensures url == ReportUrl(FacultyPath, "department", filter)
      ensures outcome.Received? ==>
        var j := outcome.json;
        faculties == Records(j.faculties) && facultySummary == FacultySummaryOf(j, filter) &&
        facultyReportDate == Some(StampOf(if j.summary.Some? then j.summary.value.generatedAt else None, j.generatedAt, now)) &&
        facultyError == None
      ensures !outcome.Received? ==>
        faculties == [] && facultySummary == InitialFacultySummary && facultyReportDate == None &&
        facultyError == Some(FailureMessage(outcome, "faculty"))
      ensures !facultyLoading
      ensures studentCourseFilter == old(studentCourseFilter) && students == old(students)
      ensures studentSummary == old(studentSummary) && studentReportDate == old(studentReportDate)
      ensures studentLoading == old(studentLoading) && studentError == old(studentError)
    {
      facultyDepartmentFilter := filter;
      url := FetchFacultyReport(filter, outcome, now);
    }
  }
}
