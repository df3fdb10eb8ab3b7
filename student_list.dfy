/** The student list screen: course and department filters, a
    case-insensitive search, five students per page, the window of page
    buttons, the Previous/Next buttons and the status statistics. */
module StudentList {
  import opened Values
  import opened Text
  import opened Seqs

  datatype Student = Student(studentId: string, name: string, course: string,
                             department: string, status: string, email: string)

  /** The page-independent filters; `""` means "no filter". */
  datatype Filters = Filters(course: string, department: string)

  datatype FilterKey = CourseKey | DepartmentKey

  const ItemsPerPage: nat := 5

  /** The built-in sample students the screen lists. */
  const MockStudents: seq<Student> := [
    Student("S001", "Alice Johnson", "Computer Science", "Engineering", "Active", "alice.j@example.edu"),
    Student("S002", "Bob Williams", "Business Administration", "Business", "Active", "bob.w@example.edu"),
    Student("S003", "Charlie Brown", "Biology", "Sciences", "On Leave", "charlie.b@example.edu"),
    Student("S004", "Diana Miller", "Psychology", "Humanities", "Graduated", "diana.m@example.edu"),
    Student("S005", "Eve Davis", "Computer Science", "Engineering", "Active", "eve.d@example.edu"),
    Student("S006", "Frank White", "History", "Humanities", "Active", "frank.w@example.edu"),
    Student("S007", "Grace Lee", "Electrical Engineering", "Engineering", "On Leave", "grace.l@example.edu")
  ]

  /** `handleFilterChange(key, value)`: choosing `All` clears the filter. */
  function ChangeFilter(f: Filters, key: FilterKey, value: string): (g: Filters)
    ensures var stored := if value == "All" then "" else value;
      match key
      case CourseKey => g.course == stored && g.department == f.department
      case DepartmentKey => g.department == stored && g.course == f.course
  {
    var stored := if value == "All" then "" else value;
    match key
    case CourseKey => f.(course := stored)
    case DepartmentKey => f.(department := stored)
  }

  /** The search hit: the lower-cased term occurs in the lower-cased name,
      student id or email. */
  predicate SearchHit(s: Student, lowerSearch: string) {
    Contains(Lower(s.name), lowerSearch) || Contains(Lower(s.studentId), lowerSearch) ||
    Contains(Lower(s.email), lowerSearch)
  }

  /** Every condition the filtered list applies, each only when its input is non-empty. */
  predicate Matches(s: Student, f: Filters, search: string) {
    (f.course == "" || s.course == f.course) &&
    (f.department == "" || s.department == f.department) &&
    (search == "" || SearchHit(s, Lower(search)))
  }

  /** `filteredStudents`: the course filter, then the department filter,
      then the search, each skipped when its input is empty. */
  function FilteredStudents(students: seq<Student>, f: Filters, search: string): seq<Student> {
    var byCourse := if f.course != "" then Filter((s: Student) => s.course == f.course, students) else students;
    var byDepartment := if f.department != "" then Filter((s: Student) => s.department == f.department, byCourse) else byCourse;
    if search != "" then
      var lowerSearch := Lower(search);
      Filter((s: Student) => SearchHit(s, lowerSearch), byDepartment)
    else byDepartment
  }

  /** The filtered list keeps the students that match every condition,
      and only those, in their original order. */
  lemma FilteredSubsequence(students: seq<Student>, f: Filters, search: string)
    ensures IsSubsequence(FilteredStudents(students, f, search), students)
    ensures forall s :: s in FilteredStudents(students, f, search) <==> s in students && Matches(s, f, search)
  {
    var byCourse := if f.course != "" then Filter((s: Student) => s.course == f.course, students) else students;
    var byDepartment := if f.department != "" then Filter((s: Student) => s.department == f.department, byCourse) else byCourse;
    var r := FilteredStudents(students, f, search);
    SubsequenceRefl(students);
    SubsequenceRefl(byCourse);
    SubsequenceRefl(byDepartment);
    SubsequenceTrans(byDepartment, byCourse, students);
    SubsequenceTrans(r, byDepartment, students);
  }

  /** The empty search term keeps every student the filters keep. */
  lemma EmptySearchKeepsAll(students: seq<Student>)
    ensures FilteredStudents(students, Filters("", ""), "") == students
  {
  }

  /** `Math.ceil(totalItems / itemsPerPage)`. */
  function TotalPages(totalItems: nat): (t: nat)
    ensures (t - 1) * ItemsPerPage < totalItems <= t * ItemsPerPage || (t == 0 && totalItems == 0)
  {
    (totalItems + ItemsPerPage - 1) / ItemsPerPage
  }

  /** `s.slice(start, end)` for non-negative bounds. */
  function Slice<T>(s: seq<T>, start: nat, end: nat): (r: seq<T>)
    ensures start <= |s| ==> r == s[start..if end < start then start else if end > |s| then |s| else end]
    ensures start > |s| ==> r == []
  {
    if start > |s| then []
    else if end < start then []
    else if end > |s| then s[start..]
    else s[start..end]
  }

  /** `paginatedStudents`: page `page` of the filtered list. */
  function Page<T>(items: seq<T>, page: nat): (r: seq<T>)
    requires page >= 1
    ensures |r| <= ItemsPerPage
    ensures forall k :: 0 <= k < |r| ==> (page - 1) * ItemsPerPage + k < |items| && r[k] == items[(page - 1) * ItemsPerPage + k]
    ensures r != [] <==> page <= TotalPages(|items|)
    ensures page < TotalPages(|items|) ==> |r| == ItemsPerPage
  {
    var start := (page - 1) * ItemsPerPage;
    Slice(items, start, start + ItemsPerPage)
  }

  /** The pages one after another, as recursion on the list. */
  function Chunks<T>(items: seq<T>): (cs: seq<seq<T>>)
    decreases |items|
  {
    if |items| == 0 then []
    else if |items| <= ItemsPerPage then [items]
    else [items[..ItemsPerPage]] + Chunks(items[ItemsPerPage..])
  }

  function Flatten<T>(xss: seq<seq<T>>): seq<T>
    decreases |xss|
  {
    if |xss| == 0 then [] else xss[0] + Flatten(xss[1..])
  }

  /** Pages `1..TotalPages` are the successive chunks of the list, so
      together they hold every filtered item once, in order. */
  lemma {:induction false} PagesCoverItems<T>(items: seq<T>)
    ensures |Chunks(items)| == TotalPages(|items|)
    ensures forall p :: 1 <= p <= TotalPages(|items|) ==> Chunks(items)[p - 1] == Page(items, p)
    ensures Flatten(Chunks(items)) == items
    decreases |items|
  {
    if |items| > ItemsPerPage {
      var rest := items[ItemsPerPage..];
      PagesCoverItems(rest);
      forall p | 2 <= p <= TotalPages(|items|) ensures Chunks(items)[p - 1] == Page(items, p) {
        PageOfRest(items, p);
      }
      assert Chunks(items)[0] == Page(items, 1);
    } else if |items| > 0 {
      assert Chunks(items)[0] == Page(items, 1);
      assert Flatten(Chunks(items)) == items + Flatten([]);
    }
  }

  lemma PageOfRest<T>(items: seq<T>, p: nat)
    requires |items| > ItemsPerPage && p >= 2
    ensures Page(items, p) == Page(items[ItemsPerPage..], p - 1)
  {
    var a, b := Page(items, p), Page(items[ItemsPerPage..], p - 1);
    assert |a| == |b|;
    forall k | 0 <= k < |a| ensures a[k] == b[k] {}
  }

  /** `Array.from({ length: n }, (_, i) => i + 1)` and the `for` loop's
      range: the pages `lo..hi`, empty when `lo > hi`. */
  function Range(lo: int, hi: int): (r: seq<int>)
    decreases hi - lo
    ensures |r| == if lo <= hi then hi - lo + 1 else 0
    ensures forall k :: 0 <= k < |r| ==> r[k] == lo + k
  {
    if lo > hi then [] else [lo] + Range(lo + 1, hi)
  }

  /** Which page buttons are shown: every page when there are at most
      five, otherwise up to two on either side of the current page. */
  function PageWindow(currentPage: int, totalPages: nat): seq<int> {
    if totalPages <= 5 then Range(1, totalPages)
    else Range(if currentPage - 2 > 1 then currentPage - 2 else 1,
               if currentPage + 2 < totalPages then currentPage + 2 else totalPages)
  }

  /** The shown buttons are real pages, ascending and consecutive, at most
      five, and include the current page when it is a real page. */
  lemma PageWindowShape(currentPage: int, totalPages: nat)
    ensures var w := PageWindow(currentPage, totalPages);
      |w| <= 5 &&
      (forall k :: 0 <= k < |w| ==> 1 <= w[k] <= totalPages) &&
      (forall k :: 0 < k < |w| ==> w[k] == w[k - 1] + 1) &&
      (1 <= currentPage <= totalPages ==> currentPage in w)
  {
    var w := PageWindow(currentPage, totalPages);
    if 1 <= currentPage <= totalPages {
      var from := if totalPages <= 5 then 1 else if currentPage - 2 > 1 then currentPage - 2 else 1;
      assert w[currentPage - from] == currentPage;
    }
  }

  /** With at most five pages, every page has a button. */
  lemma AllPagesShown(currentPage: int, totalPages: nat)
    requires totalPages <= 5
    ensures forall p :: 1 <= p <= totalPages ==> p in PageWindow(currentPage, totalPages)
  {
    var w := PageWindow(currentPage, totalPages);
    forall p | 1 <= p <= totalPages ensures p in w {
      assert w[p - 1] == p;
    }
  }

  /** The `displayedPages` computation of the pagination bar. */
  method DisplayedPages(currentPage: int, totalPages: nat) returns (displayed: seq<int>)
    ensures displayed == PageWindow(currentPage, totalPages)
  {
    if totalPages <= 5 {
      displayed := Range(1, totalPages);
    } else {
      var start := if currentPage - 2 > 1 then currentPage - 2 else 1;
      var end := if currentPage + 2 < totalPages then currentPage + 2 else totalPages;
      displayed := [];
      var i := start;
      while i <= end
        invariant start <= i
        invariant i <= end + 1 || (i == start && start > end)
        invariant displayed == Range(start, i - 1)
        decreases end - i
      {
        displayed := displayed + [i];
        i := i + 1;
      }
    }
  }

  /** Previous is disabled on page 1. */
  predicate PreviousDisabled(currentPage: int) {
    currentPage == 1
  }

  /** Next as written: disabled only when the current page equals the page count. */
  predicate NextDisabledAsWritten(currentPage: int, totalPages: nat) {
    currentPage == totalPages
  }

  /** With no matching student there are no pages, yet Next is enabled on
      page 1 and leads to page 2, which is past the last page and empty. */
  lemma NextEnabledWithoutPages(items: seq<Student>)
    requires items == []
    ensures !NextDisabledAsWritten(1, TotalPages(|items|))
    ensures 2 > TotalPages(|items|) && Page(items, 2) == []
  {
  }

  /** Next as evidently intended: disabled from the last page on. */
  predicate NextDisabled(currentPage: int, totalPages: nat) {
    currentPage >= totalPages
  }

  /** With the intended rule, Next only ever leads to a page holding items. */
  lemma NextStaysOnPages(items: seq<Student>, currentPage: nat)
    requires currentPage >= 1 && !NextDisabled(currentPage, TotalPages(|items|))
    ensures Page(items, currentPage + 1) != []
  {
  }

  /** The statistics cards. */
  datatype Stats = Stats(total: nat, active: nat, inactive: int)

  /** `studentStats`: all students, those `Active`, and the rest. */
  function StudentStats(students: seq<Student>): (st: Stats)
    ensures st.active <= st.total == |students|
    ensures st.active + st.inactive == st.total
    ensures st.inactive == |Filter((s: Student) => s.status != "Active", students)|
  {
    var active := |Filter((s: Student) => s.status == "Active", students)|;
    FilterSplitsCount((s: Student) => s.status == "Active", (s: Student) => s.status != "Active", students);
    Stats(|students|, active, |students| - active)
  }

  /** The screen's state: the search box, the two filters and the page. */
  class StudentsApp {
    var searchTerm: string
    var filters: Filters
    var currentPage: int

    predicate Valid()
      reads this
    {
      currentPage >= 1
    }

    constructor ()
      ensures Valid()
      ensures searchTerm == "" && filters == Filters("", "") && currentPage == 1
    {
      searchTerm := "";
      filters := Filters("", "");
      currentPage := 1;
    }

    function Filtered(): seq<Student>
      reads this
    {
      FilteredStudents(MockStudents, filters, searchTerm)
    }

    function Shown(): seq<Student>
      requires Valid()
      reads this
    {
      Page(Filtered(), currentPage)
    }

    method SetSearchTerm(term: string)
      modifies this
      ensures searchTerm == term && filters == old(filters) && currentPage == old(currentPage)
    {
      searchTerm := term;
    }

    /** The filter bar's `onChange`. The page is not reset. */
    method HandleFilterChange(key: FilterKey, value: string)
      modifies this
      ensures filters == ChangeFilter(old(filters), key, value)
      ensures searchTerm == old(searchTerm) && currentPage == old(currentPage)
    {
      filters := ChangeFilter(filters, key, value);
    }

    method PressPrevious()
      requires Valid()
      modifies this
      ensures Valid()
      ensures currentPage == if PreviousDisabled(old(currentPage)) then old(currentPage) else old(currentPage) - 1
      ensures searchTerm == old(searchTerm) && filters == old(filters)
    {
      if !PreviousDisabled(currentPage) {
        currentPage := currentPage - 1;
      }
    }

    /** Next, with the intended disabling rule. */
    method PressNext()
      requires Valid()
      modifies this
      ensures Valid()
      ensures var total := TotalPages(|old(Filtered())|);
        currentPage == if NextDisabled(old(currentPage), total) then old(currentPage) else old(currentPage) + 1
      ensures currentPage != old(currentPage) ==> Shown() != []
      ensures searchTerm == old(searchTerm) && filters == old(filters)
    {
      var total := TotalPages(|Filtered()|);
      if !NextDisabled(currentPage, total) {
        currentPage := currentPage + 1;
      }
    }

    /** A page button sets the page it shows. */
    method PressPage(page: int)
      requires Valid()
      requires page in PageWindow(currentPage, TotalPages(|Filtered()|))
      modifies this
      ensures Valid() && currentPage == page && Shown() != []
      ensures searchTerm == old(searchTerm) && filters == old(filters)
    {
      PageWindowShape(currentPage, TotalPages(|Filtered()|));
      currentPage := page;
    }
  }
}
