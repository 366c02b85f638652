/** `PaginationInfo`: "Showing start to end of total entries", with a "(filtered from N total
    entries)" suffix while a search is active. */
module PaginationInfo {
  import opened Wrappers
  import opened Values
  import TableUtils

  /** The component's props; an absent prop takes its default. */
  datatype Props = Props(
    currentPageData: Option<seq<Row>>,
    page: Option<int>,
    rowsPerPage: Option<int>,
    totalFilteredRecords: Option<int>,
    totalRecords: Option<int>,
    search: Option<string>)

  /** The numbers shown; `filteredFrom` is the total in the suffix, None when there is no
      suffix. */
  datatype Info = Info(start: int, end: int, total: int, filteredFrom: Option<int>)

  function Or<T>(o: Option<T>, default: T): T
  {
    if o.Some? then o.value else default
  }

  function Min(a: int, b: int): int { if a <= b then a else b }

  /** What the component shows for its props. */
  function Describe(props: Props): (info: Info)
    ensures info.total == Or(props.totalFilteredRecords, 0)
    ensures info.filteredFrom.Some? <==> Or(props.search, "") != ""
  {
    var pageData := Or(props.currentPageData, []);
    var page := Or(props.page, 1);
    var rowsPerPage := Or(props.rowsPerPage, 5);
    var totalFiltered := Or(props.totalFilteredRecords, 0);
    var search := Or(props.search, "");
    Info(
      if |pageData| > 0 then (page - 1) * rowsPerPage + 1 else 0,
      Min(page * rowsPerPage, totalFiltered),
      totalFiltered,
      if search != "" then Some(Or(props.totalRecords, 0)) else None)
  }

  /** With every prop absent: "Showing 0 to 0 of 0 entries" and no suffix. */
  lemma DefaultsShowNothing()
    ensures Describe(Props(None, None, None, None, None, None)) == Info(0, 0, 0, None)
  {
  }

  /** Showing a page that paginateData cut from the filtered rows: when it is not empty, start
      is the 1-based position of its first row and end that of its last, so the range holds
      exactly its rows; when it is empty start is 0. */
  lemma RangeCoversPage(filtered: seq<Row>, page: int, rowsPerPage: int, totalRecords: int, search: string)
    requires page >= 1 && rowsPerPage >= 1
    ensures var pageData := TableUtils.PaginateData(TableUtils.Rows(filtered), page, rowsPerPage);
      var info := Describe(Props(Some(pageData), Some(page), Some(rowsPerPage), Some(|filtered|), Some(totalRecords), Some(search)));
      (|pageData| > 0 ==> info.start == (page - 1) * rowsPerPage + 1 && info.end - info.start + 1 == |pageData|)
      && (|pageData| == 0 ==> info.start == 0)
  {
    var pageData := TableUtils.PaginateData(TableUtils.Rows(filtered), page, rowsPerPage);
    TableUtils.PaginateDataSlice(filtered, page, rowsPerPage);
    var first := (page - 1) * rowsPerPage;
    assert page * rowsPerPage == first + rowsPerPage;
  }
}
