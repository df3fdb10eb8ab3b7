/** The settings screen: courses and academic years, each with an add or
    edit form, and an archive that entries move to and are restored from.
    Entries are plain objects, modelled as maps from field names to values.
    The clock is an input: `now` for new ids, `archivedAt` for the
    archive's time stamp. */
module SettingsPage {
  import opened Values
  import opened Text
  import opened Seqs

  /** A course, an academic year or an archived entry. */
  type Item = map<string, Val>

  datatype Tab = CoursesTab | AcademicYearsTab | ArchivedTab

  const CourseLabel: string := "Course"
  const YearLabel: string := "Academic Year"
  const CourseAlert: string := "Both course title and code are required."
  const YearAlert: string := "Please provide the academic year plus start and end dates."

  const SampleCourses: seq<Item> := [
    map["id" := Str("course-1"), "title" := Str("Computer Science"), "code" := Str("CS-101"),
        "description" := Str("Core computing curriculum")],
    map["id" := Str("course-2"), "title" := Str("Business Administration"), "code" := Str("BA-204"),
        "description" := Str("Leadership + strategy")]
  ]

  const SampleYears: seq<Item> := [
    map["id" := Str("year-1"), "year" := Str("2024/2025"), "start" := Str("2024-09-01"), "end" := Str("2025-06-30")],
    map["id" := Str("year-2"), "year" := Str("2023/2024"), "start" := Str("2023-09-01"), "end" := Str("2024-06-30")]
  ]

  const EmptyCourseForm: Item := map["title" := Str(""), "code" := Str("")]
  const EmptyYearForm: Item := map["year" := Str(""), "start" := Str(""), "end" := Str("")]

  /** The fields a restored entry keeps. */
  const CourseFields: set<string> := {"id", "title", "code"}
  const YearFields: set<string> := {"id", "year", "start", "end"}

  function Id(e: Item): Val {
    Get(e, "id")
  }

  /** `!field.trim()`: nothing is left once white space is trimmed, that is
      (by `Text.TrimEmpty`) every character is white space. */
  predicate Blank(v: Val) {
    v.Null? || AllIn(v.s, JsWhitespace)
  }

  lemma BlankIsTrimmedEmpty(v: Val)
    requires v.Str?
    ensures Blank(v) <==> Trim(v.s, JsWhitespace) == ""
  {
    TrimEmpty(v.s, JsWhitespace);
  }

  predicate CourseFormComplete(form: Item) {
    !Blank(Get(form, "title")) && !Blank(Get(form, "code"))
  }

  predicate YearFormComplete(form: Item) {
    !Blank(Get(form, "year")) && JsTruthy(Get(form, "start")) && JsTruthy(Get(form, "end"))
  }

  /** `prev.map((e) => (e.id === id ? { ...e, ...form } : e))`: the entries
      with that id take the form's fields, the others are untouched. */
  function Edit(list: seq<Item>, id: Val, form: Item): (r: seq<Item>)
    ensures |r| == |list|
    ensures forall i :: 0 <= i < |list| && Id(list[i]) != id ==> r[i] == list[i]
    ensures forall i :: 0 <= i < |list| && Id(list[i]) == id ==>
      r[i].Keys == list[i].Keys + form.Keys &&
      forall k :: k in r[i] ==> r[i][k] == if k in form then form[k] else list[i][k]
  {
    seq(|list|, i requires 0 <= i < |list| => if Id(list[i]) == id then list[i] + form else list[i])
  }

  /** An edit whose form has no `id` field keeps every entry's id. */
  lemma EditKeepsIds(list: seq<Item>, id: Val, form: Item)
    requires "id" !in form
    ensures forall i :: 0 <= i < |list| ==> Id(Edit(list, id, form)[i]) == Id(list[i])
  {
    var r := Edit(list, id, form);
    forall i | 0 <= i < |list| ensures Id(r[i]) == Id(list[i]) {
      if Id(list[i]) == id {
        assert "id" in r[i] <==> "id" in list[i];
      }
    }
  }

  /** Two edits of the same entry are one edit with the later form winning;
      in particular submitting the same form again changes nothing. */
  lemma EditTwice(list: seq<Item>, id: Val, form: Item, form2: Item)
    requires "id" !in form
    ensures Edit(Edit(list, id, form), id, form2) == Edit(list, id, form + form2)
  {
    var once := Edit(list, id, form);
    EditKeepsIds(list, id, form);
    var a, b := Edit(once, id, form2), Edit(list, id, form + form2);
    forall i | 0 <= i < |list| ensures a[i] == b[i] {
      if Id(list[i]) == id {
        assert a[i] == list[i] + form + form2;
        assert list[i] + form + form2 == list[i] + (form + form2);
      }
    }
  }

  /** An edit of an id no entry has changes nothing. */
  lemma EditAbsent(list: seq<Item>, id: Val, form: Item)
    requires forall i :: 0 <= i < |list| ==> Id(list[i]) != id
    ensures Edit(list, id, form) == list
  {
  }

  /** `{ id: `${prefix}${Date.now()}`, ...form }`. */
  function NewEntry(prefix: string, now: nat, form: Item): (e: Item)
    ensures e.Keys == form.Keys + {"id"}
    ensures forall k :: k in form ==> e[k] == form[k]
    ensures "id" !in form ==> Id(e) == Str(prefix + NatToString(now))
  {
    map["id" := Str(prefix + NatToString(now))] + form
  }

  /** `prev.find((e) => e.id === id)`. */
  function FindById(list: seq<Item>, id: Val): (r: Option<nat>)
    ensures r.Some? ==> r.value < |list| && Id(list[r.value]) == id
    ensures r.Some? ==> forall j :: 0 <= j < r.value ==> Id(list[j]) != id
    ensures r.None? ==> forall j :: 0 <= j < |list| ==> Id(list[j]) != id
  {
    FirstWhere(list, (e: Item) => Id(e) == id)
  }

  /** `prev.filter((e) => e.id !== id)`. */
  function WithoutId(list: seq<Item>, id: Val): (r: seq<Item>)
    ensures IsSubsequence(r, list)
    ensures forall e :: e in r <==> e in list && Id(e) != id
  {
    Filter((e: Item) => Id(e) != id, list)
  }

  /** Removing an id that only the entry at `k` has removes just that entry. */
  lemma WithoutUniqueId(list: seq<Item>, k: nat)
    requires k < |list|
    requires forall j :: 0 <= j < |list| && j != k ==> Id(list[j]) != Id(list[k])
    ensures WithoutId(list, Id(list[k])) == list[..k] + list[k + 1..]
  {
    var id := Id(list[k]);
    FilterDropsOne((e: Item) => Id(e) != id, list, k);
  }

  /** An entry list and the archive it moves to. */
  datatype Lists = Lists(active: seq<Item>, archived: seq<Item>)

  /** The updater of `archiveCourse`/`archiveYear`: the first entry with the
      id goes, stamped, to the front of the archive, and every entry with
      the id leaves the list; an unknown id changes nothing. */
  function Archive(l: Lists, id: Val, archivedAt: string): (r: Lists)
    ensures FindById(l.active, id).None? ==> r == l
    ensures FindById(l.active, id).Some? ==>
      |r.archived| == |l.archived| + 1 && r.archived[1..] == l.archived &&
      r.archived[0] == l.active[FindById(l.active, id).value]["archivedAt" := Str(archivedAt)]
    ensures forall e :: e in r.active <==> e in l.active && Id(e) != id
  {
    match FindById(l.active, id)
    case None =>
      FilterAll((e: Item) => Id(e) != id, l.active);
      l
    case Some(k) => Lists(WithoutId(l.active, id), [l.active[k]["archivedAt" := Str(archivedAt)]] + l.archived)
  }

  /** With distinct ids, archiving moves one entry: the two lists together
      keep their size. */
  lemma ArchiveKeepsSize(l: Lists, id: Val, archivedAt: string)
    requires forall i, j :: 0 <= i < j < |l.active| ==> Id(l.active[i]) != Id(l.active[j])
    ensures var r := Archive(l, id, archivedAt); |r.active| + |r.archived| == |l.active| + |l.archived|
  {
    var found := FindById(l.active, id);
    if found.Some? {
      WithoutUniqueId(l.active, found.value);
    }
  }

  /** `{ id: item.id, title: item.title, code: item.code }` and its year
      counterpart: only the listed fields, a missing one read as `Null`. */
  function Project(item: Item, fields: set<string>): (r: Item)
    ensures r.Keys == fields
    ensures forall k :: k in fields ==> r[k] == Get(item, k)
  {
    map k | k in fields :: Get(item, k)
  }

  /** The two updates of `restoreItem`: the item leaves the archive and its
      listed fields go to the front of the entry list. */
  function Restore(l: Lists, item: Item, fields: set<string>): (r: Lists)
    ensures r.active == [Project(item, fields)] + l.active
    ensures forall e :: e in r.archived <==> e in l.archived && Id(e) != Id(item)
    ensures IsSubsequence(r.archived, l.archived)
  {
    Lists([Project(item, fields)] + l.active, WithoutId(l.archived, Id(item)))
  }

  /** `{ ...item, type: tag }`. */
  function Tagged(e: Item, tag: string): Item {
    e["type" := Str(tag)]
  }

  function TagAll(s: seq<Item>, tag: string): (r: seq<Item>)
    ensures |r| == |s|
    ensures forall i :: 0 <= i < |s| ==> r[i] == Tagged(s[i], tag)
  {
    seq(|s|, i requires 0 <= i < |s| => Tagged(s[i], tag))
  }

  /** `archivedItems`: the archived courses, tagged `Course`, before the
      archived years, tagged `Academic Year`; the tag tells which list an
      item came from. */
  function ArchivedItems(courses: seq<Item>, years: seq<Item>): (r: seq<Item>)
    ensures |r| == |courses| + |years|
    ensures forall i :: 0 <= i < |courses| ==> r[i] == Tagged(courses[i], CourseLabel)
    ensures forall i :: 0 <= i < |years| ==> r[|courses| + i] == Tagged(years[i], YearLabel)
    ensures forall i :: 0 <= i < |r| ==> (Get(r[i], "type") == Str(CourseLabel) <==> i < |courses|)
  {
    var r := TagAll(courses, CourseLabel) + TagAll(years, YearLabel);
    assert CourseLabel != YearLabel by {
      assert CourseLabel[0] != YearLabel[0];
    }
    r
  }

  /** The round trip: archiving an entry with a distinct id and restoring
      the archived item brings back that entry's listed fields at the front
      and leaves the archive as it was. The rest of the list keeps its order.
      Fields not listed, such as `description` and `archivedAt`, are dropped. */
  lemma ArchiveThenRestore(l: Lists, k: nat, archivedAt: string, tag: string, fields: set<string>)
    requires k < |l.active|
    requires forall j :: 0 <= j < |l.active| && j != k ==> Id(l.active[j]) != Id(l.active[k])
    requires forall j :: 0 <= j < |l.archived| ==> Id(l.archived[j]) != Id(l.active[k])
    requires "archivedAt" !in fields && "type" !in fields
    ensures var a := Archive(l, Id(l.active[k]), archivedAt);
      var r := Restore(a, Tagged(a.archived[0], tag), fields);
      r.archived == l.archived &&
      r.active == [Project(l.active[k], fields)] + l.active[..k] + l.active[k + 1..]
  {
    var id := Id(l.active[k]);
    var a := Archive(l, id, archivedAt);
    assert FindById(l.active, id) == Some(k);
    var stamped := l.active[k]["archivedAt" := Str(archivedAt)];
    WithoutUniqueId(l.active, k);
    assert a == Lists(l.active[..k] + l.active[k + 1..], [stamped] + l.archived);
    var item := Tagged(stamped, tag);
    assert Id(item) == id;
    ProjectDropsStamps(l.active[k], archivedAt, tag, fields);
    WithoutUniqueId(a.archived, 0);
    assert a.archived[1..] == l.archived;
  }

  /** The archive stamp and the type tag do not survive a restore. */
  lemma ProjectDropsStamps(e: Item, archivedAt: string, tag: string, fields: set<string>)
    requires "archivedAt" !in fields && "type" !in fields
    ensures Project(Tagged(e["archivedAt" := Str(archivedAt)], tag), fields) == Project(e, fields)
  {
  }

  /** The settings screen's state. */
  class Settings {
    var activeTab: Tab
    var courses: seq<Item>
    var academicYears: seq<Item>
    var archivedCourses: seq<Item>
    var archivedYears: seq<Item>
    var courseForm: Item
    var yearForm: Item
    var editingCourseId: Val
    var editingYearId: Val
    var formAlert: string

    constructor ()
      ensures activeTab == CoursesTab && courses == SampleCourses && academicYears == SampleYears
      ensures archivedCourses == [] && archivedYears == []
      ensures courseForm == EmptyCourseForm && yearForm == EmptyYearForm
      ensures editingCourseId == Null && editingYearId == Null && formAlert == ""
    {
      activeTab := CoursesTab;
      courses := SampleCourses;
      academicYears := SampleYears;
      archivedCourses := [];
      archivedYears := [];
      courseForm := EmptyCourseForm;
      yearForm := EmptyYearForm;
      editingCourseId := Null;
      editingYearId := Null;
      formAlert := "";
    }

    function Archived(): seq<Item>
      reads this
    {
      ArchivedItems(archivedCourses, archivedYears)
    }

    /** A tab button: the tab is shown and nothing else changes. */
    method SelectTab(tab: Tab)
      modifies this
      ensures activeTab == tab
      ensures courses == old(courses) && academicYears == old(academicYears)
      ensures archivedCourses == old(archivedCourses) && archivedYears == old(archivedYears)
      ensures courseForm == old(courseForm) && editingCourseId == old(editingCourseId)
      ensures yearForm == old(yearForm) && editingYearId == old(editingYearId) && formAlert == old(formAlert)
    {
      activeTab := tab;
    }

    /** Typing into the course title or code input: that field of the form
      takes the input's text, the other fields are kept. */
    method ChangeCourseField(field: string, value: string)
      requires field == "title" || field == "code"
      modifies this
      ensures courseForm == old(courseForm)[field := Str(value)]
      ensures courseForm.Keys == old(courseForm).Keys + {field}
      ensures forall k :: k in old(courseForm) && k != field ==> k in courseForm && courseForm[k] == old(courseForm)[k]
      ensures courses == old(courses) && academicYears == old(academicYears)
      ensures archivedCourses == old(archivedCourses) && archivedYears == old(archivedYears)
      ensures editingCourseId == old(editingCourseId) && activeTab == old(activeTab)
      ensures yearForm == old(yearForm) && editingYearId == old(editingYearId) && formAlert == old(formAlert)
    {
      courseForm := courseForm[field := Str(value)];
    }

    /** Typing into the year label, start date or end date input. */
    method ChangeYearField(field: string, value: string)
      requires field == "year" || field == "start" || field == "end"
      modifies this
      ensures yearForm == old(yearForm)[field := Str(value)]
      ensures yearForm.Keys == old(yearForm).Keys + {field}
      ensures forall k :: k in old(yearForm) && k != field ==> k in yearForm && yearForm[k] == old(yearForm)[k]
      ensures courses == old(courses) && academicYears == old(academicYears)
      ensures archivedCourses == old(archivedCourses) && archivedYears == old(archivedYears)
      ensures editingYearId == old(editingYearId) && activeTab == old(activeTab)
      ensures courseForm == old(courseForm) && editingCourseId == old(editingCourseId) && formAlert == old(formAlert)
    {
      yearForm := yearForm[field := Str(value)];
    }

    /** `resetCourseForm`, the course form's "Cancel edit": the form is
      emptied and no course is being edited. */
    method ResetCourseForm()
      modifies this
      ensures courseForm == EmptyCourseForm && editingCourseId == Null
      ensures courses == old(courses) && academicYears == old(academicYears)
      ensures archivedCourses == old(archivedCourses) && archivedYears == old(archivedYears)
      ensures yearForm == old(yearForm) && editingYearId == old(editingYearId)
      ensures formAlert == old(formAlert) && activeTab == old(activeTab)
    {
      courseForm, editingCourseId := EmptyCourseForm, Null;
    }

    /** `resetYearForm`, the year form's "Cancel edit". */
    method ResetYearForm()
      modifies this
      ensures yearForm == EmptyYearForm && editingYearId == Null
      ensures courses == old(courses) && academicYears == old(academicYears)
      ensures archivedCourses == old(archivedCourses) && archivedYears == old(archivedYears)
      ensures courseForm == old(courseForm) && editingCourseId == old(editingCourseId)
      ensures formAlert == old(formAlert) && activeTab == old(activeTab)
    {
      yearForm, editingYearId := EmptyYearForm, Null;
    }

    /** `handleCourseSubmit`: an incomplete form only raises the alert; a
      complete one edits the entry being edited, or else adds a new entry
      at the front, and then empties the form. */
    method HandleCourseSubmit(now: nat)
      modifies this
      ensures !CourseFormComplete(old(courseForm)) ==>
        formAlert == CourseAlert && courses == old(courses) &&
        courseForm == old(courseForm) && editingCourseId == old(editingCourseId)
      ensures CourseFormComplete(old(courseForm)) ==>
        formAlert == "" && courseForm == EmptyCourseForm && editingCourseId == Null &&
        courses == if JsTruthy(old(editingCourseId)) then Edit(old(courses), old(editingCourseId), old(courseForm))
                   else [NewEntry("course-", now, old(courseForm))] + old(courses)
      ensures academicYears == old(academicYears) && yearForm == old(yearForm) && editingYearId == old(editingYearId)
      ensures archivedCourses == old(archivedCourses) && archivedYears == old(archivedYears)
      ensures activeTab == old(activeTab)
    {
      if !CourseFormComplete(courseForm) {
        formAlert := CourseAlert;
        return;
      }
      formAlert := "";
      if JsTruthy(editingCourseId) {
        courses := Edit(courses, editingCourseId, courseForm);
      } else {
        courses := [NewEntry("course-", now, courseForm)] + courses;
      }
      courseForm := EmptyCourseForm;
      editingCourseId := Null;
    }

    /** `handleYearSubmit`, the same for academic years. */
    method HandleYearSubmit(now: nat)
      modifies this
      ensures !YearFormComplete(old(yearForm)) ==>
        formAlert == YearAlert && academicYears == old(academicYears) &&
        yearForm == old(yearForm) && editingYearId == old(editingYearId)
      ensures YearFormComplete(old(yearForm)) ==>
        formAlert == "" && yearForm == EmptyYearForm && editingYearId == Null &&
        academicYears == if JsTruthy(old(editingYearId)) then Edit(old(academicYears), old(editingYearId), old(yearForm))
                         else [NewEntry("year-", now, old(yearForm))] + old(academicYears)
      ensures courses == old(courses) && courseForm == old(courseForm) && editingCourseId == old(editingCourseId)
      ensures archivedCourses == old(archivedCourses) && archivedYears == old(archivedYears)
      ensures activeTab == old(activeTab)
    {
      if !YearFormComplete(yearForm) {
        formAlert := YearAlert;
        return;
      }
      formAlert := "";
      if JsTruthy(editingYearId) {
        academicYears := Edit(academicYears, editingYearId, yearForm);
      } else {
        academicYears := [NewEntry("year-", now, yearForm)] + academicYears;
      }
      yearForm := EmptyYearForm;
      editingYearId := Null;
    }

    /** `handleEditCourse`: the form takes the course's title and code. */
    method HandleEditCourse(course: Item)
      modifies this
      ensures courseForm == map["title" := Get(course, "title"), "code" := Get(course, "code")]
      ensures editingCourseId == Id(course) && activeTab == CoursesTab
      ensures courses == old(courses) && academicYears == old(academicYears)
      ensures archivedCourses == old(archivedCourses) && archivedYears == old(archivedYears)
      ensures yearForm == old(yearForm) && editingYearId == old(editingYearId) && formAlert == old(formAlert)
    {
      courseForm := map["title" := Get(course, "title"), "code" := Get(course, "code")];
      editingCourseId := Id(course);
      activeTab := CoursesTab;
    }

    /** `handleEditYear`: the form takes the year's tag and dates. */
    method HandleEditYear(year: Item)
      modifies this
      ensures yearForm == map["year" := Get(year, "year"), "start" := Get(year, "start"), "end" := Get(year, "end")]
      ensures editingYearId == Id(year) && activeTab == AcademicYearsTab
      ensures courses == old(courses) && academicYears == old(academicYears)
      ensures archivedCourses == old(archivedCourses) && archivedYears == old(archivedYears)
      ensures courseForm == old(courseForm) && editingCourseId == old(editingCourseId) && formAlert == old(formAlert)
    {
      yearForm := map["year" := Get(year, "year"), "start" := Get(year, "start"), "end" := Get(year, "end")];
      editingYearId := Id(year);
      activeTab := AcademicYearsTab;
    }

    /** `archiveCourse`: the course moves to the archive, and the form is
      reset when it was the course being edited. */
    method ArchiveCourse(id: Val, archivedAt: string)
      modifies this
      ensures Lists(courses, archivedCourses) == Archive(Lists(old(courses), old(archivedCourses)), id, archivedAt)
      ensures old(editingCourseId) == id ==> courseForm == EmptyCourseForm && editingCourseId == Null
      ensures old(editingCourseId) != id ==> courseForm == old(courseForm) && editingCourseId == old(editingCourseId)
      ensures academicYears == old(academicYears) && archivedYears == old(archivedYears)
      ensures yearForm == old(yearForm) && editingYearId == old(editingYearId)
      ensures formAlert == old(formAlert) && activeTab == old(activeTab)
    {
      var l := Archive(Lists(courses, archivedCourses), id, archivedAt);
      courses := l.active;
      archivedCourses := l.archived;
      if editingCourseId == id {
        courseForm := EmptyCourseForm;
        editingCourseId := Null;
      }
    }

    /** `archiveYear`, the same for academic years. */
    method ArchiveYear(id: Val, archivedAt: string)
      modifies this
      ensures Lists(academicYears, archivedYears) == Archive(Lists(old(academicYears), old(archivedYears)), id, archivedAt)
      ensures old(editingYearId) == id ==> yearForm == EmptyYearForm && editingYearId == Null
      ensures old(editingYearId) != id ==> yearForm == old(yearForm) && editingYearId == old(editingYearId)
      ensures courses == old(courses) && archivedCourses == old(archivedCourses)
      ensures courseForm == old(courseForm) && editingCourseId == old(editingCourseId)
      ensures formAlert == old(formAlert) && activeTab == old(activeTab)
    {
      var l := Archive(Lists(academicYears, archivedYears), id, archivedAt);
      academicYears := l.active;
      archivedYears := l.archived;
      if editingYearId == id {
        yearForm := EmptyYearForm;
        editingYearId := Null;
      }
    }

    /** `restoreItem`: an item tagged `Course` goes back to the courses,
      any other item to the academic years. */
    method RestoreItem(item: Item)
      modifies this
      ensures Get(item, "type") == Str(CourseLabel) ==>
        Lists(courses, archivedCourses) == Restore(Lists(old(courses), old(archivedCourses)), item, CourseFields) &&
        academicYears == old(academicYears) && archivedYears == old(archivedYears)
      ensures Get(item, "type") != Str(CourseLabel) ==>
        Lists(academicYears, archivedYears) == Restore(Lists(old(academicYears), old(archivedYears)), item, YearFields) &&
        courses == old(courses) && archivedCourses == old(archivedCourses)
      ensures courseForm == old(courseForm) && editingCourseId == old(editingCourseId)
      ensures yearForm == old(yearForm) && editingYearId == old(editingYearId)
      ensures formAlert == old(formAlert) && activeTab == old(activeTab)
    {
      if Get(item, "type") == Str(CourseLabel) {
        var l := Restore(Lists(courses, archivedCourses), item, CourseFields);
        courses, archivedCourses := l.active, l.archived;
      } else {
        var l := Restore(Lists(academicYears, archivedYears), item, YearFields);
        academicYears, archivedYears := l.active, l.archived;
      }
    }
  }
}
