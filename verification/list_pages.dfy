/** The list pages' own logic: the three-state column sort, which events
    reset the page, the three-button page window, the colleges page's
    client-side slice and its Previous/Next buttons, and the students
    table's program cell. */
module ListPages {
  import opened Common
  import opened Text
  import opened Views
  import opened Pagination
  import TablePagination

  datatype Direction = Asc | Desc

  /** `sortBy` (`""` for unsorted) and `sortOrder`. */
  datatype SortState = SortState(sortBy: string, order: Direction)

  const Unsorted := SortState("", Asc)

  /** `handleSort`: a new column sorts ascending, the same column flips to
      descending, and a third click clears the sort. */
  function NextSort(s: SortState, column: string): (r: SortState)
    ensures s.sortBy != column ==> r == SortState(column, Asc)
    ensures s.sortBy == column && s.order == Asc ==> r == SortState(column, Desc)
    ensures s.sortBy == column && s.order == Desc ==> r == Unsorted
  {
    if s.sortBy != column then SortState(column, Asc)
    else if s.order == Asc then SortState(column, Desc)
    else Unsorted
  }

  /** Three clicks on one column from any other column's sort, or from no
      sort, end unsorted, passing through ascending and descending. */
  lemma SortCycle(s: SortState, column: string)
    requires s.sortBy != column && column != ""
    ensures NextSort(s, column) == SortState(column, Asc)
    ensures NextSort(NextSort(s, column), column) == SortState(column, Desc)
    ensures NextSort(NextSort(NextSort(s, column), column), column) == Unsorted
    ensures NextSort(NextSort(NextSort(Unsorted, column), column), column) == Unsorted
  {
  }

  /** The sort the students page requests: an order only with a column. */
  function RequestedSort(s: SortState): (r: (string, Option<Direction>))
    ensures r.0 == s.sortBy
    ensures r.1.Some? <==> s.sortBy != ""
    ensures r.1.Some? ==> r.1.value == s.order
  {
    (s.sortBy, if s.sortBy != "" then Some(s.order) else None)
  }

  // ---------------------------------------------------------------- page state

  datatype Page = StudentsPage | CollegesPage

  datatype ListState = ListState(sort: SortState, page: int, perPage: int, searchBy: string)

  /** The handlers that touch the page number. `PerPageChange` carries the
      option's value already read by `parseInt`. */
  datatype Event =
    | SortClick(column: string)
    | PageChange(target: int)
    | PerPageChange(entries: int)
    | SearchByChange(column: string)

  function Step(p: Page, s: ListState, e: Event): (r: ListState)
    ensures e.SortClick? ==> r.sort == NextSort(s.sort, e.column) && r.perPage == s.perPage && r.searchBy == s.searchBy
    ensures e.SortClick? && p == StudentsPage ==> r.page == 1
    ensures e.SortClick? && p == CollegesPage ==> r.page == s.page
    ensures e.PageChange? ==> r == s.(page := e.target)
    ensures e.PerPageChange? ==> r == s.(perPage := e.entries, page := 1)
    ensures e.SearchByChange? ==> r == s.(searchBy := e.column, page := 1)
  {
    match e
    case SortClick(column) =>
      var sorted := s.(sort := NextSort(s.sort, column));
      if p == StudentsPage then sorted.(page := 1) else sorted
    case PageChange(target) => s.(page := target)
    case PerPageChange(entries) => s.(perPage := entries, page := 1)
    case SearchByChange(column) => s.(searchBy := column, page := 1)
  }

  /** Sorting on the students page returns to the first page; on the
      colleges page a sort keeps the page, so a later page can fall past
      the end of a shorter result. */
  lemma SortResetDiffers(s: ListState, column: string)
    requires s.page != 1
    ensures Step(StudentsPage, s, SortClick(column)).page == 1
    ensures Step(CollegesPage, s, SortClick(column)).page == s.page
    ensures Step(StudentsPage, s, SortClick(column)).sort == Step(CollegesPage, s, SortClick(column)).sort
  {
  }

  // ---------------------------------------------------------------- page window

  /** `getPageNumbers`: at most three consecutive page numbers around the
      current page. */
  function PageNumbers(page: int, totalPages: int): (r: seq<int>)
    requires totalPages >= 1
    ensures |r| == if totalPages <= 3 then totalPages else 3
    ensures forall i :: 0 <= i < |r| ==> 1 <= r[i] <= totalPages
    ensures forall i :: 0 <= i < |r| - 1 ==> r[i + 1] == r[i] + 1
    ensures 1 <= page <= totalPages ==> page in r
  {
    if totalPages <= 3 then
      var r := UpTo(totalPages);
      assert 1 <= page <= totalPages ==> r[page - 1] == page;
      r
    else if page <= 2 then [1, 2, 3]
    else if page >= totalPages - 1 then [totalPages - 2, totalPages - 1, totalPages]
    else [page - 1, page, page + 1]
  }

  /** `[1, 2, ..., n]`. */
  function UpTo(n: nat): (r: seq<int>)
    ensures |r| == n
    ensures forall i :: 0 <= i < n ==> r[i] == i + 1
  {
    if n == 0 then [] else UpTo(n - 1) + [n]
  }

  /** The window is the middle of the five-page one when both are centred:
      away from the ends, the three buttons are the current page and its
      neighbours, which the five-page window also shows. */
  lemma WindowsAgreeInTheMiddle(page: int, totalPages: int)
    requires 3 <= page <= totalPages - 2
    ensures var w := TablePagination.VisibleWindow(page, totalPages);
      forall q :: q in PageNumbers(page, totalPages) ==> w.first <= q <= w.last
  {
  }

  // ---------------------------------------------------------------- colleges page

  /** JavaScript's `Array.prototype.slice(start, end)`: negative indices count
      from the end and both are clamped to the array. */
  function JsSlice<T>(rows: seq<T>, start: int, end: int): (r: seq<T>)
    ensures 0 <= start <= end <= |rows| ==> r == rows[start..end]
    ensures |r| <= |rows|
  {
    var n := |rows|;
    var from := if start < 0 then (if n + start < 0 then 0 else n + start) else (if start > n then n else start);
    var to := if end < 0 then (if n + end < 0 then 0 else n + end) else (if end > n then n else end);
    if from < to then rows[from..to] else []
  }

  /** `filteredColleges.slice(startIndex, endIndex)`. */
  function VisibleRows<T>(rows: seq<T>, page: int, perPage: int): (r: seq<T>)
    ensures page >= 1 && perPage >= 0 ==> |r| <= perPage
  {
    var start := (page - 1) * perPage;
    OffsetNonNegative(page, perPage);
    JsSlice(rows, start, start + perPage)
  }

  lemma OffsetNonNegative(page: int, perPage: int)
    ensures page >= 1 && perPage >= 0 ==> Offset(page, perPage) >= 0
  {
    if page >= 1 && perPage >= 0 {
      MulMonotone(0, page - 1, perPage);
    }
  }

  /** From page 1 on, the client-side slice is the page the backend's
      `LIMIT`/`OFFSET` would return. */
  lemma VisibleRowsArePage<T>(rows: seq<T>, page: int, perPage: int)
    requires page >= 1 && perPage >= 1
    ensures PageSlice(rows, perPage, Offset(page, perPage)) == Some(VisibleRows(rows, page, perPage))
  {
    MulMonotone(0, page - 1, perPage);
    var s := PageSlice(rows, perPage, Offset(page, perPage)).value;
    var v := VisibleRows(rows, page, perPage);
    var o := Offset(page, perPage);
    if o < |rows| {
      assert |s| == |v|;
      forall i | 0 <= i < |s| ensures s[i] == v[i] {
      }
    }
  }

  /** The colleges page's Previous and Next buttons. */
  datatype NavState = NavState(previousDisabled: bool, nextDisabled: bool)

  function CollegeNav(page: int, perPage: int, total: nat, loading: bool): (r: NavState)
    requires perPage >= 1
    ensures r.previousDisabled <==> page == 1 || loading || total == 0
    ensures r.nextDisabled <==> page == TablePagination.DisplayPages(total, perPage) || total == 0 || loading
  {
    var totalPages := TablePagination.DisplayPages(total, perPage);
    NavState(page == 1 || loading || total == 0, page == totalPages || total == 0 || loading)
  }

  /** With rows and no request in flight, the buttons are enabled exactly
      when their target page exists. */
  lemma CollegeNavWithinPages(page: int, perPage: int, total: nat)
    requires perPage >= 1 && total > 0 && 1 <= page <= TablePagination.DisplayPages(total, perPage)
    ensures !CollegeNav(page, perPage, total, false).previousDisabled <==> page - 1 >= 1
    ensures !CollegeNav(page, perPage, total, false).nextDisabled <==> page + 1 <= TablePagination.DisplayPages(total, perPage)
  {
  }

  // ---------------------------------------------------------------- students page

  const NotApplicable := "Not Applicable"

  /** The program cell: the student's own `program_code`, else the code of
      the program with that id in the page's program list, else "Not Applicable". */
  function ProgramCell(student: StudentView, programs: seq<ProgramView>): (r: string)
    ensures r != ""
    ensures student.programCode != "" ==> r == student.programCode
    ensures student.programCode == "" && FindProgram(programs, student.programId).None? ==> r == NotApplicable
    ensures r != NotApplicable && student.programCode == "" ==>
      exists i :: 0 <= i < |programs| && programs[i].code == r && Some(programs[i].id) == student.programId
  {
    if student.programCode != "" then student.programCode
    else match FindProgram(programs, student.programId)
      case Some(p) => if p.code != "" then p.code else NotApplicable
      case None => NotApplicable
  }

  /** The students page's page count: the backend's `total_pages`, or 1 when
      that is 0; it matches the component's own count for the same rows. */
  lemma StudentsPageCount(total: nat, perPage: int)
    requires perPage >= 1
    ensures TablePagination.AtLeastOnePage(Meta(1, perPage, total).totalPages) == TablePagination.DisplayPages(total, perPage)
  {
  }
}
