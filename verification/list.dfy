/**
 The list component's controller: search and department filters, the
 current page and page size, the view mode, and the pending-delete state
 behind the confirmation modal. Handlers are functions from the old state
 to the new one; `handleModalConfirm` also returns the employee it reports
 as deleted, if any.
 */
module ListController {
  import opened Wrappers
  import opened Records
  import opened Filtering
  import opened Pagination

  datatype ListState = ListState(
    employees: seq<Employee>,
    searchTerm: string,
    departmentFilter: string,
    currentPage: int,
    viewMode: string,
    itemsPerPage: int,
    openModal: bool,
    modalAction: string,
    modalRecordName: string,
    currentEmployee: Option<Employee>)

  /** The page size is one of the two the view modes use. */
  predicate Valid(st: ListState) {
    st.itemsPerPage == 9 || st.itemsPerPage == 4
  }

  /** The state the constructor sets up, for the collection the app passes in. */
  function InitialList(employees: seq<Employee>): (st: ListState)
    ensures Valid(st) && st.currentPage == 1 && st.currentEmployee.None? && !st.openModal
    ensures st.employees == employees && st.searchTerm == "" && st.departmentFilter == ""
    ensures st.viewMode == "table" && st.itemsPerPage == 9
  {
    ListState(employees, "", "", 1, "table", 9, false, "", "", None)
  }

  /** A fresh list shows the first 9 records of the collection it was given. */
  lemma InitialListShowsFirstPage(employees: seq<Employee>)
    ensures Visible(InitialList(employees)) == employees[..if |employees| < 9 then |employees| else 9]
  {
    EmptyCriteriaKeepAll(employees);
    PageWindow(employees, 1, 9);
  }

  /** `handleSearchChange`: a new term sends the list back to page 1. */
  function HandleSearchChange(st: ListState, term: string): (r: ListState)
    ensures r.searchTerm == term && r.currentPage == 1
    ensures r.(searchTerm := st.searchTerm, currentPage := st.currentPage) == st
  {
    st.(searchTerm := term, currentPage := 1)
  }

  /** `handleDepartmentChange`: a new department filter sends the list back to page 1. */
  function HandleDepartmentChange(st: ListState, department: string): (r: ListState)
    ensures r.departmentFilter == department && r.currentPage == 1
    ensures r.(departmentFilter := st.departmentFilter, currentPage := st.currentPage) == st
  {
    st.(departmentFilter := department, currentPage := 1)
  }

  /** `handlePageChange`. */
  function HandlePageChange(st: ListState, page: int): (r: ListState)
    ensures r.currentPage == page
    ensures r.(currentPage := st.currentPage) == st
  {
    st.(currentPage := page)
  }

  /** `handleViewModeChange`: the table shows 9 per page, any other mode 4; the page is kept. */
  function HandleViewModeChange(st: ListState, mode: string): (r: ListState)
    ensures r.viewMode == mode && r.currentPage == st.currentPage
    ensures r.itemsPerPage == (if mode == "table" then 9 else 4)
    ensures r.(viewMode := st.viewMode, itemsPerPage := st.itemsPerPage) == st
  {
    st.(viewMode := mode, itemsPerPage := if mode == "table" then 9 else 4)
  }

  /** `handleDeleteEmployee`: remember the employee and open the confirmation modal. */
  function HandleDeleteEmployee(st: ListState, e: Employee): (r: ListState)
    ensures r.currentEmployee == Some(e) && r.openModal && r.modalAction == "delete"
    ensures r.modalRecordName == e.firstName + " " + e.lastName
    ensures r.employees == st.employees && r.currentPage == st.currentPage
    ensures r.(modalAction := st.modalAction, modalRecordName := st.modalRecordName,
               currentEmployee := st.currentEmployee, openModal := st.openModal) == st
  {
    st.(modalAction := "delete", modalRecordName := e.firstName + " " + e.lastName,
        currentEmployee := Some(e), openModal := true)
  }

  /** The detail of the modal's confirm event. */
  datatype ConfirmDetail = ConfirmDetail(action: string, recordName: string)

  /** The new state and the employee an `employee-deleted` event was dispatched for, if one was. */
  datatype ConfirmOutcome = ConfirmOutcome(state: ListState, deleted: Option<Employee>)

  /** `handleModalConfirm`. */
  function HandleModalConfirm(st: ListState, detail: ConfirmDetail): (r: ConfirmOutcome)
    ensures r.deleted.Some? <==> detail.action == "delete" && st.currentEmployee.Some?
    ensures r.deleted.Some? ==> r.deleted == st.currentEmployee
    ensures !r.state.openModal && r.state.currentEmployee.None?
    ensures r.state.employees == st.employees && r.state.currentPage == st.currentPage
    ensures r.state.(openModal := st.openModal, currentEmployee := st.currentEmployee) == st
  {
    var deleted := if detail.action == "delete" && st.currentEmployee.Some? then st.currentEmployee else None;
    ConfirmOutcome(st.(openModal := false, currentEmployee := None), deleted)
  }

  /** The modal's close event (cancel or Escape): the modal shuts and nothing is reported. */
  function HandleModalClose(st: ListState): (r: ListState)
    ensures !r.openModal
    ensures r.(openModal := st.openModal) == st
  {
    st.(openModal := false)
  }

  /** Confirming a second time reports nothing: one request yields at most one deletion. */
  lemma ConfirmReportsAtMostOnce(st: ListState, first: ConfirmDetail, second: ConfirmDetail)
    ensures HandleModalConfirm(HandleModalConfirm(st, first).state, second).deleted.None?
  {
  }

  /** Requesting a delete and confirming it reports exactly that employee. */
  lemma DeleteThenConfirm(st: ListState, e: Employee, recordName: string)
    ensures HandleModalConfirm(HandleDeleteEmployee(st, e), ConfirmDetail("delete", recordName)).deleted == Some(e)
  {
  }

  /** Every handler keeps the page size at one of the two legal values. */
  lemma HandlersKeepValid(st: ListState, s: string, page: int, e: Employee, detail: ConfirmDetail)
    requires Valid(st)
    ensures Valid(HandleSearchChange(st, s)) && Valid(HandleDepartmentChange(st, s))
    ensures Valid(HandlePageChange(st, page)) && Valid(HandleViewModeChange(st, s))
    ensures Valid(HandleViewModeChangeFixed(st, s))
    ensures Valid(HandleDeleteEmployee(st, e)) && Valid(HandleModalConfirm(st, detail).state)
    ensures Valid(HandleModalClose(st))
  {
  }

  /** The records that pass the current filters, in collection order. */
  function Filtered(st: ListState): seq<Employee> {
    FilterEmployees(st.employees, st.searchTerm, st.departmentFilter)
  }

  /** What the list renders: the current page of the filtered records. */
  function Visible(st: ListState): seq<Employee> {
    PageOf(Filtered(st), st.currentPage, st.itemsPerPage)
  }

  /**
   The render's guard: the rows, and the pagination below them, are drawn
   only when the current page has records; otherwise the empty state is.
   */
  predicate ShowsRows(st: ListState) {
    Visible(st) != []
  }

  /** Pagination controls are drawn when rows are and the filtered records do not fit on one page. */
  predicate ShowsControls(st: ListState) {
    ShowsRows(st) && |Filtered(st)| > st.itemsPerPage
  }

  /**
   From page 1 on, rows are drawn exactly when the page is not past the last
   one, and controls exactly when, in addition, there is more than one page.
   */
  lemma ShownIffPageInRange(st: ListState)
    requires Valid(st) && st.currentPage >= 1
    ensures ShowsRows(st) <==> st.currentPage <= TotalPages(|Filtered(st)|, st.itemsPerPage)
    ensures ShowsControls(st) <==>
      st.currentPage <= TotalPages(|Filtered(st)|, st.itemsPerPage) && |Filtered(st)| > st.itemsPerPage
  {
    PageNonEmptyIffInRange(Filtered(st), st.currentPage, st.itemsPerPage);
  }

  /**
   As written, a view-mode change keeps the page even when the new page size
   leaves it past the last page: twelve matching records shown four a page on
   page 3 become nine a page, still on page 3, which is empty. The list shows
   the empty state and no controls to get back, although every record matches.
   */
  lemma ViewModeChangeStrandsPage(e: Employee)
    ensures var st := ListState(seq(12, _ => e), "", "", 3, "list", 4, false, "", "", None);
      var r := HandleViewModeChange(st, "table");
      && |Filtered(r)| == 12 && ShowsRows(st) && !ShowsRows(r) && !ShowsControls(r)
  {
    var st := ListState(seq(12, _ => e), "", "", 3, "list", 4, false, "", "", None);
    var r := HandleViewModeChange(st, "table");
    EmptyCriteriaKeepAll(st.employees);
    assert TotalPages(12, 4) == 3 && TotalPages(12, 9) == 2;
    ShownIffPageInRange(st);
    ShownIffPageInRange(r);
  }

  /**
   `handleViewModeChange` as intended: like the search and department
   handlers, a change to the shape of the view sends the list back to page 1.
   */
  function HandleViewModeChangeFixed(st: ListState, mode: string): (r: ListState)
    ensures r.viewMode == mode && r.itemsPerPage == (if mode == "table" then 9 else 4)
    ensures r.currentPage == 1
    ensures r.(viewMode := st.viewMode, itemsPerPage := st.itemsPerPage, currentPage := st.currentPage) == st
  {
    st.(viewMode := mode, itemsPerPage := if mode == "table" then 9 else 4, currentPage := 1)
  }

  /**
   With the intended handler, a view-mode change never strands a list that
   has matching records: it shows their first page.
   */
  lemma FixedViewModeShowsRows(st: ListState, mode: string)
    requires Filtered(st) != []
    ensures ShowsRows(HandleViewModeChangeFixed(st, mode))
    ensures var r := HandleViewModeChangeFixed(st, mode);
      Visible(r) == Filtered(r)[..Min(r.itemsPerPage, |Filtered(r)|)]
  {
    var r := HandleViewModeChangeFixed(st, mode);
    assert Filtered(r) == Filtered(st);
    ShownIffPageInRange(r);
    PageWindow(Filtered(r), 1, r.itemsPerPage);
  }

  /** After a new search term the list shows the first records matching it. */
  lemma SearchShowsFirstPage(st: ListState, term: string)
    requires Valid(st)
    ensures var r := HandleSearchChange(st, term);
      Visible(r) == Filtered(r)[..Min(r.itemsPerPage, |Filtered(r)|)]
  {
    var r := HandleSearchChange(st, term);
    PageWindow(Filtered(r), 1, r.itemsPerPage);
  }

  /** After a new department filter the list shows the first records matching it. */
  lemma DepartmentShowsFirstPage(st: ListState, department: string)
    requires Valid(st)
    ensures var r := HandleDepartmentChange(st, department);
      Visible(r) == Filtered(r)[..Min(r.itemsPerPage, |Filtered(r)|)]
  {
    var r := HandleDepartmentChange(st, department);
    PageWindow(Filtered(r), 1, r.itemsPerPage);
  }
}
