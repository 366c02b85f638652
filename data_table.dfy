/** The table component: search, a date range applied on demand, header-click sorting and
    pagination over the rows it is given. Its state is the component's `useState` fields; what
    it shows is computed from them by the table functions. */
module DataTable {
  import opened Wrappers
  import opened Dates
  import opened Values
  import opened Text
  import opened Seqs
  import opened TableUtils
  import PaginationControls

  /** `getDefaultDateRange()` at the instant nowMs: from ninety days back to today, both as
      YYYY-MM-DD. */
  function DefaultRange(nowMs: int): (range: (string, string))
  {
    (IsoDatePart(nowMs - 90 * MsPerDay), IsoDatePart(nowMs))
  }

  /** The default range ends on the calendar date of the instant and starts on the calendar
      date ninety days earlier. */
  lemma DefaultRangeSpansNinetyDays(nowMs: int)
    ensures DefaultRange(nowMs) == (IsoDateText(CivilFromDays(DayOf(nowMs) - 90)), IsoDateText(CivilOf(nowMs)))
  {
    assert DayOf(nowMs - 90 * MsPerDay) == DayOf(nowMs) - 90;
  }

  /** For years 0..9999 both ends of the default range are YYYY-MM-DD texts, the shape the
      date filter hands to `new Date`, and they read back as their calendar dates. */
  lemma DefaultRangeIsIso(nowMs: int)
    requires 0 <= CivilFromDays(DayOf(nowMs) - 90).year <= 9999
    requires 0 <= CivilOf(nowMs).year <= 9999
    ensures IsIsoShape(DefaultRange(nowMs).0) && IsIsoShape(DefaultRange(nowMs).1)
    ensures var from, to := CivilFromDays(DayOf(nowMs) - 90), CivilOf(nowMs);
      DigitsValue(DefaultRange(nowMs).0[..4]) == from.year && DigitsValue(DefaultRange(nowMs).0[5..7]) == from.month
      && DigitsValue(DefaultRange(nowMs).0[8..]) == from.day
      && DigitsValue(DefaultRange(nowMs).1[..4]) == to.year && DigitsValue(DefaultRange(nowMs).1[5..7]) == to.month
      && DigitsValue(DefaultRange(nowMs).1[8..]) == to.day
  {
    DefaultRangeSpansNinetyDays(nowMs);
    IsoDateTextReadsBack(CivilFromDays(DayOf(nowMs) - 90));
    IsoDateTextReadsBack(CivilOf(nowMs));
  }

  /** `Math.ceil(n / d)` for a positive d. */
  function CeilDiv(n: nat, d: int): (q: nat)
    requires d > 0
    ensures (q - 1) * d < n <= q * d || (n == 0 && q == 0)
  {
    (n + d - 1) / d
  }

  /** `Math.ceil(n / rowsPerPage) || 1`. */
  function TotalPagesFor(n: nat, rowsPerPage: int): (total: int)
    requires rowsPerPage > 0
    ensures total >= 1
  {
    var q := CeilDiv(n, rowsPerPage);
    if q == 0 then 1 else q
  }

  /** There is always at least one page, the pages hold every row, and each page but the
      first starts within the rows. */
  lemma TotalPagesCoverRows(n: nat, rowsPerPage: int)
    requires rowsPerPage > 0
    ensures TotalPagesFor(n, rowsPerPage) >= 1
    ensures n <= TotalPagesFor(n, rowsPerPage) * rowsPerPage
    ensures n > 0 ==> (TotalPagesFor(n, rowsPerPage) - 1) * rowsPerPage < n
    ensures n == 0 ==> TotalPagesFor(n, rowsPerPage) == 1
  {
  }

  /** `processedData`: search, then the applied date range on the "date" field, then sort. */
  function Process(parse: DateParser, data: seq<Row>, search: string, appliedFrom: string, appliedTo: string, sortKey: string, order: string): seq<Row>
  {
    var filtered := FilterData(Rows(data), search);
    var dateFiltered := FilterDataByDate(parse, Rows(filtered), appliedFrom, appliedTo, "date");
    SortedData(parse, Rows(dateFiltered), sortKey, order)
  }

  /** What the table holds before paging: exactly the given rows that pass the search and the
      applied date range, each as often as it is given. */
  lemma ProcessKeepsExactly(parse: DateParser, data: seq<Row>, search: string, appliedFrom: string, appliedTo: string, sortKey: string, order: string, row: Row)
    ensures row in Process(parse, data, search, appliedFrom, appliedTo, sortKey, order) <==>
      row in data
      && (search == "" || RowMatches(row, Lower(search)))
      && ((appliedFrom == "" && appliedTo == "") || KeepsRow(parse, appliedFrom, appliedTo, "date", row))
    ensures multiset(Process(parse, data, search, appliedFrom, appliedTo, sortKey, order))[row] ==
      if (search == "" || RowMatches(row, Lower(search)))
        && ((appliedFrom == "" && appliedTo == "") || KeepsRow(parse, appliedFrom, appliedTo, "date", row))
      then multiset(data)[row] else 0
  {
    var filtered := FilterData(Rows(data), search);
    var dateFiltered := FilterDataByDate(parse, Rows(filtered), appliedFrom, appliedTo, "date");
    FilterDataGuards(Rows(data), search);
    if search != "" {
      FilterMembers(SearchTest(search), data, row);
      FilterCounts(SearchTest(search), data, row);
    }
    FilterDataByDateGuards(parse, Rows(filtered), "", "", "date");
    if appliedFrom != "" || appliedTo != "" {
      FilterDataByDateKeepsExactlyInRange(parse, filtered, appliedFrom, appliedTo, "date", row);
    }
    SortDataPermutes(parse, Rows(dateFiltered), sortKey, order);
    assert row in SortedData(parse, Rows(dateFiltered), sortKey, order) <==> row in multiset(dateFiltered);
  }

  /** With no search, no applied range and no sort key the table holds the rows as given. */
  lemma NothingAppliedKeepsRows(parse: DateParser, data: seq<Row>)
    ensures Process(parse, data, "", "", "", "", "asc") == data
  {
    FilterDataGuards(Rows(data), "");
    FilterDataByDateGuards(parse, Rows(data), "", "", "date");
    SortDataPermutes(parse, Rows(data), "", "asc");
  }

  /** The sort only reorders the rows, so their number does not depend on the sort key or
      order. */
  lemma SortKeepsCount(parse: DateParser, data: seq<Row>, search: string, appliedFrom: string, appliedTo: string, sortKey: string, order: string)
    ensures |Process(parse, data, search, appliedFrom, appliedTo, sortKey, order)| ==
      |Process(parse, data, search, appliedFrom, appliedTo, "", "asc")|
  {
    var filtered := FilterData(Rows(data), search);
    var dateFiltered := FilterDataByDate(parse, Rows(filtered), appliedFrom, appliedTo, "date");
    SortDataPermutes(parse, Rows(dateFiltered), sortKey, order);
    SortDataPermutes(parse, Rows(dateFiltered), "", "asc");
    assert |multiset(SortedData(parse, Rows(dateFiltered), sortKey, order))| == |multiset(dateFiltered)|;
  }

  /** Within the pages, a page starts before the end of the rows; so a page in range shows at
      least one row whenever there are rows. */
  lemma PageStartsWithinRows(n: nat, page: int, rowsPerPage: int)
    requires rowsPerPage > 0 && 1 <= page <= TotalPagesFor(n, rowsPerPage) && n > 0
    ensures (page - 1) * rowsPerPage < n
  {
    TotalPagesCoverRows(n, rowsPerPage);
    var total := TotalPagesFor(n, rowsPerPage);
    assert (page - 1) * rowsPerPage <= (total - 1) * rowsPerPage by {
      MulMonotone(page - 1, total - 1, rowsPerPage);
    }
  }

  /** A page within the pages shows at least one row when there are rows, and no more than
      a page. */
  lemma PageWithinPagesShowsRows(rows: seq<Row>, page: int, rowsPerPage: int)
    requires rowsPerPage > 0 && 1 <= page <= TotalPagesFor(|rows|, rowsPerPage)
    ensures rows != [] ==> PaginateData(Rows(rows), page, rowsPerPage) != []
    ensures |PaginateData(Rows(rows), page, rowsPerPage)| <= rowsPerPage
  {
    PaginateDataSlice(rows, page, rowsPerPage);
    if rows != [] {
      PageStartsWithinRows(|rows|, page, rowsPerPage);
    }
  }

  lemma MulMonotone(a: int, b: int, c: nat)
    requires a <= b
    ensures a * c <= b * c
  {
  }

  class Table {
    const data: seq<Row>
    const columns: seq<Column>
    const parse: DateParser
    var search: string
    var sortKey: string
    var order: string
    var page: int
    var rowsPerPage: int
    var fromDate: string
    var toDate: string
    var appliedFromDate: string
    var appliedToDate: string

    /** The page is at least 1 and the page size positive. */
    predicate Valid()
      reads this
    {
      page >= 1 && rowsPerPage > 0
    }

    function ProcessedData(): seq<Row>
      reads this
    {
      Process(parse, data, search, appliedFromDate, appliedToDate, sortKey, order)
    }

    /** The rows on screen. */
    function PaginatedData(): seq<Row>
      reads this
    {
      PaginateData(Rows(ProcessedData()), page, rowsPerPage)
    }

    function TotalPages(): int
      reads this
      requires Valid()
    {
      TotalPagesFor(|ProcessedData()|, rowsPerPage)
    }

    /** The page is one of the pages, so the view is never stranded on an empty page while
        rows remain. */
    predicate PageInRange()
      reads this
    {
      Valid() && page <= TotalPages()
    }

    /** A page in range shows at least one row when there are rows, and no more than a page. */
    lemma PageInRangeShowsRows()
      requires PageInRange()
      ensures ProcessedData() != [] ==> PaginatedData() != []
      ensures |PaginatedData()| <= rowsPerPage
    {
      PageWithinPagesShowsRows(ProcessedData(), page, rowsPerPage);
    }

    /** Page 1 shows the leading rows, as many as fit. */
    lemma FirstPageShowsLeadingRows()
      requires Valid() && page == 1
      ensures PaginatedData() == ProcessedData()[..Min(rowsPerPage, |ProcessedData()|)]
    {
      PaginateDataSlice(ProcessedData(), page, rowsPerPage);
    }

    /** The first render: empty search, no sort, page 1 of 5 rows, the pending range set to
        the default range and no range applied, so every row is shown in its own order. */
    constructor(data: seq<Row>, columns: seq<Column>, parse: DateParser, defaults: (string, string))
      ensures Valid()
      ensures this.data == data && this.columns == columns && this.parse == parse
      ensures search == "" && sortKey == "" && order == "asc" && page == 1 && rowsPerPage == 5
      ensures fromDate == defaults.0 && toDate == defaults.1 && appliedFromDate == "" && appliedToDate == ""
      ensures ProcessedData() == data
      ensures PageInRange()
    {
      this.data := data;
      this.columns := columns;
      this.parse := parse;
      search := "";
      sortKey := "";
      order := "asc";
      page := 1;
      rowsPerPage := 5;
      fromDate := defaults.0;
      toDate := defaults.1;
      appliedFromDate := "";
      appliedToDate := "";
      NothingAppliedKeepsRows(parse, data);
    }

    /** Typing in the search box: only the search changes; this table keeps the page. */
    method SetSearch(text: string)
      modifies this
      ensures search == text
      ensures sortKey == old(sortKey) && order == old(order) && page == old(page) && rowsPerPage == old(rowsPerPage)
      ensures fromDate == old(fromDate) && toDate == old(toDate)
      ensures appliedFromDate == old(appliedFromDate) && appliedToDate == old(appliedToDate)
    {
      search := text;
    }

    /** Editing the pending start date changes nothing on screen. */
    method SetFromDate(date: string)
      modifies this
      ensures fromDate == date && toDate == old(toDate)
      ensures search == old(search) && sortKey == old(sortKey) && order == old(order) && page == old(page) && rowsPerPage == old(rowsPerPage)
      ensures appliedFromDate == old(appliedFromDate) && appliedToDate == old(appliedToDate)
      ensures PaginatedData() == old(PaginatedData())
    {
      fromDate := date;
    }

    /** Editing the pending end date changes nothing on screen. */
    method SetToDate(date: string)
      modifies this
      ensures toDate == date && fromDate == old(fromDate)
      ensures search == old(search) && sortKey == old(sortKey) && order == old(order) && page == old(page) && rowsPerPage == old(rowsPerPage)
      ensures appliedFromDate == old(appliedFromDate) && appliedToDate == old(appliedToDate)
      ensures PaginatedData() == old(PaginatedData())
    {
      toDate := date;
    }

    /** `handleDateSearch`: the pending range becomes the applied range, back to page 1. */
    method HandleDateSearch()
      modifies this
      ensures appliedFromDate == old(fromDate) && appliedToDate == old(toDate) && page == 1
      ensures fromDate == old(fromDate) && toDate == old(toDate)
      ensures search == old(search) && sortKey == old(sortKey) && order == old(order) && rowsPerPage == old(rowsPerPage)
      ensures old(Valid()) ==> PageInRange()
    {
      appliedFromDate := fromDate;
      appliedToDate := toDate;
      page := 1;
    }

    /** `handleDateReset`: pending and applied range both become `defaults`, the value of
        `getDefaultDateRange()` at the click (`DefaultRange` of the clock), back to page 1. */
    method HandleDateReset(defaults: (string, string))
      modifies this
      ensures fromDate == defaults.0 && toDate == defaults.1
      ensures appliedFromDate == defaults.0 && appliedToDate == defaults.1 && page == 1
      ensures search == old(search) && sortKey == old(sortKey) && order == old(order) && rowsPerPage == old(rowsPerPage)
      ensures old(Valid()) ==> PageInRange()
    {
      fromDate := defaults.0;
      toDate := defaults.1;
      appliedFromDate := defaults.0;
      appliedToDate := defaults.1;
      page := 1;
    }

    /** A header click: the sorted column flips between "asc" and "desc"; another column
        becomes the sort key, ascending. The page stays. */
    method OnSort(key: string)
      modifies this
      ensures sortKey == key
      ensures order == if old(sortKey) == key then (if old(order) == "asc" then "desc" else "asc") else "asc"
      ensures search == old(search) && page == old(page) && rowsPerPage == old(rowsPerPage)
      ensures fromDate == old(fromDate) && toDate == old(toDate)
      ensures appliedFromDate == old(appliedFromDate) && appliedToDate == old(appliedToDate)
      ensures old(PageInRange()) ==> PageInRange()
    {
      SortKeepsCount(parse, data, search, appliedFromDate, appliedToDate, sortKey, order);
      if sortKey == key {
        order := if order == "asc" then "desc" else "asc";
      } else {
        sortKey := key;
        order := "asc";
      }
      SortKeepsCount(parse, data, search, appliedFromDate, appliedToDate, sortKey, order);
    }

    /** Choosing a page size (the selector offers only positive sizes); the page stays. */
    method SetRowsPerPage(size: int)
      requires size > 0
      modifies this
      ensures rowsPerPage == size
      ensures search == old(search) && sortKey == old(sortKey) && order == old(order) && page == old(page)
      ensures fromDate == old(fromDate) && toDate == old(toDate)
      ensures appliedFromDate == old(appliedFromDate) && appliedToDate == old(appliedToDate)
      ensures old(Valid()) ==> Valid()
    {
      rowsPerPage := size;
    }

    /** A click on Previous or Next: the page moves when the button is enabled. The page
        never drops below 1. */
    method ChangePage(button: PaginationControls.Button)
      requires Valid()
      modifies this
      ensures Valid()
      ensures var target := PaginationControls.Click(button, old(page), old(TotalPages()));
        page == if target.Some? then target.value else old(page)
      ensures search == old(search) && sortKey == old(sortKey) && order == old(order) && rowsPerPage == old(rowsPerPage)
      ensures fromDate == old(fromDate) && toDate == old(toDate)
      ensures appliedFromDate == old(appliedFromDate) && appliedToDate == old(appliedToDate)
      ensures old(PageInRange()) ==> PageInRange()
    {
      if page <= TotalPages() {
        PaginationControls.ClickStaysInRange(button, page, TotalPages());
      }
      var target := PaginationControls.Click(button, page, TotalPages());
      if target.Some? {
        page := target.value;
      }
    }

    /** Typing in the search box with the page reset the other filters apply: the search
        changes and the view goes back to page 1, so it cannot be left past the last page. */
    method SetSearchFromFirstPage(text: string)
      modifies this
      ensures search == text && page == 1
      ensures sortKey == old(sortKey) && order == old(order) && rowsPerPage == old(rowsPerPage)
      ensures fromDate == old(fromDate) && toDate == old(toDate)
      ensures appliedFromDate == old(appliedFromDate) && appliedToDate == old(appliedToDate)
      ensures old(Valid()) ==> PageInRange()
    {
      search := text;
      page := 1;
    }

    /** Choosing a page size with the page reset: back to page 1, which is always in range. */
    method SetRowsPerPageFromFirstPage(size: int)
      requires size > 0
      modifies this
      ensures rowsPerPage == size && page == 1
      ensures search == old(search) && sortKey == old(sortKey) && order == old(order)
      ensures fromDate == old(fromDate) && toDate == old(toDate)
      ensures appliedFromDate == old(appliedFromDate) && appliedToDate == old(appliedToDate)
      ensures PageInRange()
    {
      rowsPerPage := size;
      page := 1;
    }

    /** Computes the rows on screen, sorting a copy of the filtered rows in place. */
    method Render() returns (rows: seq<Row>)
      ensures rows == PaginatedData()
    {
      var filtered := FilterData(Rows(data), search);
      var dateFiltered := FilterDataByDate(parse, Rows(filtered), appliedFromDate, appliedToDate, "date");
      var sorted := SortData(parse, Rows(dateFiltered), sortKey, order);
      rows := PaginateData(Rows(sorted), page, rowsPerPage);
    }
  }

  /** As written, a search keeps the page. Six rows shown five to a page, on page 2 (in range),
      then a search that only the first row matches: the one row is on page 1 of 1, page 2
      shows nothing, and Next is still enabled, leading to page 3. */
  lemma SearchStrandsPage(parse: DateParser)
    ensures var hit := map["name" := Str("x")];
      var miss := map["name" := Str("y")];
      var data := [hit, miss, miss, miss, miss, miss];
      var shown := Process(parse, data, "x", "", "", "", "asc");
      |Process(parse, data, "", "", "", "", "asc")| == 6 && TotalPagesFor(6, 5) == 2
      && shown == [hit]
      && TotalPagesFor(|shown|, 5) == 1
      && PaginateData(Rows(shown), 2, 5) == []
      && PaginationControls.Click(PaginationControls.Next, 2, TotalPagesFor(|shown|, 5)) == Some(3)
  {
    var hit := map["name" := Str("x")];
    var miss := map["name" := Str("y")];
    var data := [hit, miss, miss, miss, miss, miss];
    NothingAppliedKeepsRows(parse, data);
    SearchFindsOneRow(parse, hit, miss);
  }

  /** The search "x" over one row holding "x" and five holding "y" keeps the first row. */
  lemma SearchFindsOneRow(parse: DateParser, hit: Row, miss: Row)
    requires hit == map["name" := Str("x")] && miss == map["name" := Str("y")]
    ensures Process(parse, [hit, miss, miss, miss, miss, miss], "x", "", "", "", "asc") == [hit]
  {
    var data := [hit, miss, miss, miss, miss, miss];
    assert Lower("x") == "x" && Lower("y") == "y";
    assert "x"[..1] == "x" && "y"[..1] == "y" && "y"[1..] == "";
    assert ToText(hit["name"]) == "x" && ToText(miss["name"]) == "y";
    assert RowMatches(hit, Lower("x")) by {
      assert "name" in hit && Includes(Lower(ToText(hit["name"])), "x");
    }
    assert !RowMatches(miss, Lower("x")) by {
      assert !Includes("", "x");
      assert !Includes("y", "x");
      forall k | k in miss ensures !Includes(Lower(ToText(miss[k])), "x") {
        assert k == "name";
      }
    }
    var misses := [miss, miss, miss, miss, miss];
    assert Filter(SearchTest("x"), misses) == [] by {
      var f := Filter(SearchTest("x"), misses);
      if f != [] {
        FilterMembers(SearchTest("x"), misses, f[0]);
        assert false;
      }
    }
    assert data[1..] == misses;
    assert Filter(SearchTest("x"), data) == [hit];
    FilterDataByDateGuards(parse, Rows([hit]), "", "", "date");
    SortDataPermutes(parse, Rows([hit]), "", "asc");
  }

  /** As written, a new page size keeps the page. Twelve rows five to a page, on page 3 (the
      last, showing two rows); after choosing 50 rows a page there is one page and page 3 shows
      nothing. */
  lemma RowsPerPageStrandsPage(parse: DateParser, data: seq<Row>)
    requires |data| == 12
    ensures var shown := Process(parse, data, "", "", "", "", "asc");
      shown == data
      && TotalPagesFor(12, 5) == 3 && |PaginateData(Rows(shown), 3, 5)| == 2
      && TotalPagesFor(12, 50) == 1 && PaginateData(Rows(shown), 3, 50) == []
  {
    FilterDataGuards(Rows(data), "");
    FilterDataByDateGuards(parse, Rows(data), "", "", "date");
    PaginateDataSlice(data, 3, 5);
    PaginateDataSlice(data, 3, 50);
  }
}
