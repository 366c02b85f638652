/** The older table component: search, sorting by header click or by a dropdown, a page-size
    selector and pagination. Unlike the newer table it has no date filter, sorts with its own
    comparator and sends the view back to page 1 whenever the search, the sort or the page
    size changes. */
module LegacyDataTable {
  import opened Wrappers
  import opened Text
  import opened Seqs
  import opened Sorting
  import opened Values
  import opened TableUtils
  import SortDropdown
  import PaginationControls
  import PaginationInfo
  import DataTable

  /** The sort state: a key ("" for none) and an order, which the dropdown can leave undefined. */
  datatype SortState = SortState(key: string, order: Option<string>)

  const Dash: set<char> := {'-'}

  /** `typeof v === "number"`: NaN is a number too. */
  predicate IsNumber(v: Value) { v.Num? || v.NaN? }

  /** `String(v).toLowerCase()`. */
  function LowerText(v: Value): string { Lower(ToText(v)) }

  /** The ascending comparison of two values: numerically when both are numbers (a difference
      involving NaN is NaN, which `sort` reads as 0), otherwise as lower-cased text. */
  function CompareValues(va: Value, vb: Value): (c: int)
    ensures -1 <= c <= 1
  {
    if IsNumber(va) && IsNumber(vb) then
      (if va.Num? && vb.Num? then Sign(va.x - vb.x) else 0)
    else Compare(LowerText(va), LowerText(vb))
  }

  /** The comparator handed to `sort`: the ascending comparison when the order is "asc", its
      negation for any other order, undefined included. */
  function CompareRows(key: string, order: Option<string>, a: Row, b: Row): (c: int)
    ensures -1 <= c <= 1
    ensures c == 0 <==> CompareValues(Get(a, key), Get(b, key)) == 0
  {
    var comparison := CompareValues(Get(a, key), Get(b, key));
    if order == Some("asc") then comparison else -comparison
  }

  function Comparator(key: string, order: Option<string>): (Row, Row) -> int
  {
    (a, b) => CompareRows(key, order, a, b)
  }

  /** `processedData`: the search filter, then, when a key is set, a sorted copy. */
  function Processed(data: seq<Row>, search: string, sort: SortState): seq<Row>
  {
    var filtered := FilterData(Rows(data), search);
    if sort.key == "" then filtered else InsertionSorted(Comparator(sort.key, sort.order), filtered)
  }

  /** The search keeps exactly the rows with a field whose lower-cased text contains the
      lower-cased query; the sort only reorders them. */
  lemma ProcessedKeepsExactly(data: seq<Row>, search: string, sort: SortState)
    ensures forall row :: row in Processed(data, search, sort) <==>
      row in data && (search == "" || RowMatches(row, Lower(search)))
    ensures multiset(Processed(data, search, sort)) == multiset(FilterData(Rows(data), search))
  {
    var filtered := FilterData(Rows(data), search);
    FilterDataGuards(Rows(data), search);
    if sort.key != "" {
      SortPermutes(Comparator(sort.key, sort.order), filtered);
    }
    forall row ensures row in Processed(data, search, sort) <==> row in filtered {
      assert row in Processed(data, search, sort) <==> row in multiset(Processed(data, search, sort));
    }
    if search != "" {
      forall row ensures row in filtered <==> row in data && RowMatches(row, Lower(search)) {
        FilterMembers(SearchTest(search), data, row);
      }
    }
  }

  /** The rows shown for a sort do not depend on the sort: only their order does. */
  lemma SortKeepsCount(data: seq<Row>, search: string, sort: SortState)
    ensures |Processed(data, search, sort)| == |FilterData(Rows(data), search)|
  {
    ProcessedKeepsExactly(data, search, sort);
    assert |multiset(Processed(data, search, sort))| == |multiset(FilterData(Rows(data), search))|;
  }

  /** The comparator is antisymmetric whatever the order: swapping the rows flips its sign. */
  lemma CompareRowsAntisymmetric(key: string, order: Option<string>, a: Row, b: Row)
    ensures CompareRows(key, order, a, b) == -CompareRows(key, order, b, a)
  {
    var va := Get(a, key);
    var vb := Get(b, key);
    if !(IsNumber(va) && IsNumber(vb)) {
      CompareAntisymmetric(LowerText(va), LowerText(vb));
    }
  }

  /** An undefined order, which a dropdown value without '-' leaves behind, sorts like "desc". */
  lemma UndefinedOrderSortsDescending(key: string, a: Row, b: Row)
    ensures CompareRows(key, None, a, b) == CompareRows(key, Some("desc"), a, b)
    ensures CompareRows(key, Some("desc"), a, b) == CompareRows(key, Some("asc"), b, a)
  {
    var va := Get(a, key);
    var vb := Get(b, key);
    if !(IsNumber(va) && IsNumber(vb)) {
      CompareAntisymmetric(LowerText(va), LowerText(vb));
    }
  }

  /** Every row holds a number other than NaN at the key. */
  predicate NumericColumn(rows: seq<Row>, key: string)
  {
    forall i :: 0 <= i < |rows| ==> Get(rows[i], key).Num?
  }

  /** No row holds a number (nor NaN) at the key: every value compares as text. */
  predicate TextColumn(rows: seq<Row>, key: string)
  {
    forall i :: 0 <= i < |rows| ==> !IsNumber(Get(rows[i], key))
  }

  lemma NumericColumnPreorder(rows: seq<Row>, key: string, order: Option<string>)
    requires NumericColumn(rows, key)
    ensures TotalPreorderOn(Comparator(key, order), rows)
  {
    forall x | x in rows ensures Get(x, key).Num? {
      var i :| 0 <= i < |rows| && rows[i] == x;
    }
  }

  /** A column of numbers comes out in numeric order: ascending for "asc", descending for any
      other order. */
  lemma NumericColumnSorted(rows: seq<Row>, key: string, order: Option<string>)
    requires key != "" && NumericColumn(rows, key)
    ensures var r := Processed(rows, "", SortState(key, order));
      NumericColumn(r, key) && multiset(r) == multiset(rows) &&
      forall i, j :: 0 <= i < j < |r| ==>
        if order == Some("asc") then Get(r[i], key).x <= Get(r[j], key).x
        else Get(r[i], key).x >= Get(r[j], key).x
  {
    var cmp := Comparator(key, order);
    var r := InsertionSorted(cmp, rows);
    SortedCopy(rows, key, order);
    NumericColumnPreorder(rows, key, order);
    SortSorts(cmp, rows);
    SortKeepsNumericColumn(rows, key, order);
    forall i, j | 0 <= i < j < |r|
      ensures if order == Some("asc") then Get(r[i], key).x <= Get(r[j], key).x
        else Get(r[i], key).x >= Get(r[j], key).x
    {
      assert cmp(r[i], r[j]) <= 0;
      CompareNumbers(key, order, r[i], r[j]);
    }
  }

  /** Without a search the table holds the sorted copy of the rows. */
  lemma SortedCopy(rows: seq<Row>, key: string, order: Option<string>)
    requires key != ""
    ensures Processed(rows, "", SortState(key, order)) == InsertionSorted(Comparator(key, order), rows)
  {
    FilterDataGuards(Rows(rows), "");
  }

  /** Sorting a column of numbers keeps the rows, so it stays a column of numbers. */
  lemma SortKeepsNumericColumn(rows: seq<Row>, key: string, order: Option<string>)
    requires NumericColumn(rows, key)
    ensures var r := InsertionSorted(Comparator(key, order), rows);
      NumericColumn(r, key) && multiset(r) == multiset(rows)
  {
    var r := InsertionSorted(Comparator(key, order), rows);
    SortPermutes(Comparator(key, order), rows);
    forall i | 0 <= i < |r| ensures Get(r[i], key).Num? {
      assert r[i] in multiset(rows);
      var k :| 0 <= k < |rows| && rows[k] == r[i];
    }
  }

  /** Two numbers other than NaN compare numerically, reversed unless "asc". */
  lemma CompareNumbers(key: string, order: Option<string>, a: Row, b: Row)
    requires Get(a, key).Num? && Get(b, key).Num?
    ensures CompareRows(key, order, a, b) ==
      if order == Some("asc") then Sign(Get(a, key).x - Get(b, key).x)
      else Sign(Get(b, key).x - Get(a, key).x)
  {
  }

  lemma TextColumnPreorder(rows: seq<Row>, key: string, order: Option<string>)
    requires TextColumn(rows, key)
    ensures TotalPreorderOn(Comparator(key, order), rows)
  {
    var cmp := Comparator(key, order);
    forall x | x in rows ensures !IsNumber(Get(x, key)) {
      var i :| 0 <= i < |rows| && rows[i] == x;
    }
    forall x, y | x in rows && y in rows ensures cmp(x, y) <= 0 || cmp(y, x) <= 0 {
      CompareAntisymmetric(LowerText(Get(x, key)), LowerText(Get(y, key)));
    }
    forall x, y, z | x in rows && y in rows && z in rows && cmp(x, y) <= 0 && cmp(y, z) <= 0
      ensures cmp(x, z) <= 0
    {
      var tx, ty, tz := LowerText(Get(x, key)), LowerText(Get(y, key)), LowerText(Get(z, key));
      if order == Some("asc") {
        CompareTransitive(tx, ty, tz);
      } else {
        CompareAntisymmetric(tx, ty);
        CompareAntisymmetric(ty, tz);
        CompareAntisymmetric(tx, tz);
        CompareTransitive(tz, ty, tx);
      }
    }
  }

  /** A column without numbers comes out in the order of the lower-cased text: ascending for
      "asc", descending for any other order. */
  lemma TextColumnSorted(rows: seq<Row>, key: string, order: Option<string>)
    requires key != "" && TextColumn(rows, key)
    ensures var r := Processed(rows, "", SortState(key, order));
      multiset(r) == multiset(rows) &&
      forall i, j :: 0 <= i < j < |r| ==>
        if order == Some("asc") then Compare(LowerText(Get(r[i], key)), LowerText(Get(r[j], key))) <= 0
        else Compare(LowerText(Get(r[j], key)), LowerText(Get(r[i], key))) <= 0
  {
    var cmp := Comparator(key, order);
    FilterDataGuards(Rows(rows), "");
    var r := InsertionSorted(cmp, rows);
    TextColumnPreorder(rows, key, order);
    SortSorts(cmp, rows);
    SortPermutes(cmp, rows);
    forall i, j | 0 <= i < j < |r|
      ensures if order == Some("asc") then Compare(LowerText(Get(r[i], key)), LowerText(Get(r[j], key))) <= 0
        else Compare(LowerText(Get(r[j], key)), LowerText(Get(r[i], key))) <= 0
    {
      assert cmp(r[i], r[j]) <= 0;
      assert r[i] in multiset(rows) && r[j] in multiset(rows);
      var a :| 0 <= a < |rows| && rows[a] == r[i];
      var b :| 0 <= b < |rows| && rows[b] == r[j];
      CompareTexts(key, order, r[i], r[j]);
    }
  }

  /** Two values that are not numbers compare as lower-cased text, reversed unless "asc". */
  lemma CompareTexts(key: string, order: Option<string>, a: Row, b: Row)
    requires !IsNumber(Get(a, key)) && !IsNumber(Get(b, key))
    ensures CompareRows(key, order, a, b) ==
      if order == Some("asc") then Compare(LowerText(Get(a, key)), LowerText(Get(b, key)))
      else Compare(LowerText(Get(b, key)), LowerText(Get(a, key)))
  {
    CompareAntisymmetric(LowerText(Get(a, key)), LowerText(Get(b, key)));
  }

  /** The text printed for an order: an undefined order prints as "undefined". */
  function OrderText(order: Option<string>): string
  {
    match order
    case Some(o) => o
    case None => "undefined"
  }

  /** `getSortDropdownValue`: "" without a key, otherwise `key-order`. */
  function DropdownValue(sort: SortState): (value: string)
    ensures value == "" <==> sort.key == ""
  {
    if sort.key == "" then "" else sort.key + "-" + OrderText(sort.order)
  }

  /** `handleSortDropdownChange`: the placeholder clears the sort to ascending without a key;
      any other value is split at '-' into key and order, the order undefined when there is
      no '-'. */
  function DecodeDropdown(value: string): SortState
  {
    if value == "" then SortState("", Some("asc"))
    else
      var parts := Split(value, Dash);
      SortState(parts[0], if |parts| > 1 then Some(parts[1]) else None)
  }

  /** A value `key-order` decodes to that key and order when neither contains '-'. */
  lemma DecodeKeyOrder(key: string, order: string)
    requires key != "" && NoneOf(key, Dash) && NoneOf(order, Dash)
    ensures DecodeDropdown(key + ['-'] + order) == SortState(key, Some(order))
  {
    SplitAtFirstSeparator(key, '-', order, Dash);
    SplitWithoutSeparator(order, Dash);
  }

  /** Choosing the value shown for a sort gives that sort back, when neither key nor order
      contains '-'. Without a key the shown value is the placeholder, which means ascending. */
  lemma DropdownRoundTrip(key: string, order: string)
    requires NoneOf(key, Dash) && NoneOf(order, Dash)
    ensures key != "" ==> DecodeDropdown(DropdownValue(SortState(key, Some(order)))) == SortState(key, Some(order))
    ensures DecodeDropdown(DropdownValue(SortState("", Some(order)))) == SortState("", Some("asc"))
  {
    if key != "" {
      DecodeKeyOrder(key, order);
      assert DropdownValue(SortState(key, Some(order))) == key + ['-'] + order;
    }
  }

  /** A column's two options select that column with "asc" and "desc" when its key has no '-'. */
  lemma OptionsSelectColumn(columns: seq<Column>, i: int)
    requires 0 <= i < |columns| && columns[i].key != "" && NoneOf(columns[i].key, Dash)
    ensures SortDropdown.Options(columns, '-')[0] == ""
    ensures DecodeDropdown(SortDropdown.Options(columns, '-')[2 * i + 1]) == SortState(columns[i].key, Some("asc"))
    ensures DecodeDropdown(SortDropdown.Options(columns, '-')[2 * i + 2]) == SortState(columns[i].key, Some("desc"))
  {
    SortDropdown.OptionsAt(columns, '-', i);
    assert NoneOf("asc", Dash) && NoneOf("desc", Dash);
    DecodeKeyOrder(columns[i].key, "asc");
    DecodeKeyOrder(columns[i].key, "desc");
  }

  /** The sorted copy `[...filtered].sort(...)`, made in a fresh array. */
  method SortRows(rows: seq<Row>, key: string, order: Option<string>) returns (r: seq<Row>)
    ensures r == InsertionSorted(Comparator(key, order), rows)
  {
    var a := new Row[|rows|](i requires 0 <= i < |rows| => rows[i]);
    assert a[..] == rows;
    SortInPlace(a, Comparator(key, order));
    r := a[..];
  }

  class Table {
    const columns: seq<Column>
    const data: seq<Row>
    var search: string
    var sort: SortState
    var page: int
    var rowsPerPage: int

    /** The page is at least 1 and the page size positive. */
    predicate Valid()
      reads this
    {
      page >= 1 && rowsPerPage > 0
    }

    function ProcessedData(): seq<Row>
      reads this
    {
      Processed(data, search, sort)
    }

    /** `Math.ceil(length / rowsPerPage)`: 0 when no row passes the search. */
    function TotalPages(): int
      reads this
      requires Valid()
    {
      DataTable.CeilDiv(|ProcessedData()|, rowsPerPage)
    }

    /** `slice((page - 1) * rowsPerPage, page * rowsPerPage)`. */
    function PaginatedData(): seq<Row>
      reads this
    {
      PaginateData(Rows(ProcessedData()), page, rowsPerPage)
    }

    /** The page is one of the pages, or page 1 when there are none. */
    predicate PageInRange()
      reads this
    {
      Valid() && (page == 1 || page <= TotalPages())
    }

    /** The "Showing … entries" line. */
    function Info(): PaginationInfo.Info
      reads this
    {
      PaginationInfo.Describe(PaginationInfo.Props(
        Some(PaginatedData()), Some(page), Some(rowsPerPage), Some(|ProcessedData()|), Some(|data|), Some(search)))
    }

    /** The value the dropdown shows. */
    function Dropdown(): string
      reads this
    {
      DropdownValue(sort)
    }

    /** The first render: empty search, no sort key, ascending, page 1 of 5 rows, the rows in
        their own order. */
    constructor(columns: seq<Column>, data: seq<Row>)
      ensures this.columns == columns && this.data == data
      ensures search == "" && sort == SortState("", Some("asc")) && page == 1 && rowsPerPage == 5
      ensures ProcessedData() == data && Dropdown() == ""
      ensures PageInRange()
    {
      this.columns := columns;
      this.data := data;
      search := "";
      sort := SortState("", Some("asc"));
      page := 1;
      rowsPerPage := 5;
      FilterDataGuards(Rows(data), "");
    }

    /** Typing in the search box; a changed search sends the view back to page 1. */
    method SetSearch(text: string)
      modifies this
      ensures search == text && sort == old(sort) && rowsPerPage == old(rowsPerPage)
      ensures page == if text != old(search) then 1 else old(page)
      ensures old(PageInRange()) ==> PageInRange()
    {
      if text != search {
        search := text;
        page := 1;
      }
    }

    /** Sets the sort; a changed sort sends the view back to page 1. */
    method SetSort(next: SortState)
      modifies this
      ensures sort == next && search == old(search) && rowsPerPage == old(rowsPerPage)
      ensures page == if next != old(sort) then 1 else old(page)
      ensures old(PageInRange()) ==> PageInRange()
    {
      SortKeepsCount(data, search, sort);
      if next != sort {
        sort := next;
        page := 1;
      }
      SortKeepsCount(data, search, sort);
    }

    /** `handleSort`: a click on the sorted column flips "asc" to "desc" and anything else to
        "asc"; a click on another column sorts it ascending. Either way the sort changes, so
        the view goes back to page 1. */
    method HandleSort(key: string)
      modifies this
      ensures sort.key == key
      ensures sort.order == if old(sort.key) == key && old(sort.order) == Some("asc") then Some("desc") else Some("asc")
      ensures search == old(search) && rowsPerPage == old(rowsPerPage) && page == 1
      ensures old(Valid()) ==> PageInRange()
    {
      if sort.key == key {
        SetSort(SortState(key, if sort.order == Some("asc") then Some("desc") else Some("asc")));
      } else {
        SetSort(SortState(key, Some("asc")));
      }
    }

    /** `handleSortDropdownChange`: the sort becomes what the chosen value decodes to. */
    method HandleSortDropdownChange(value: string)
      modifies this
      ensures sort == DecodeDropdown(value) && search == old(search) && rowsPerPage == old(rowsPerPage)
      ensures page == if DecodeDropdown(value) != old(sort) then 1 else old(page)
      ensures old(PageInRange()) ==> PageInRange()
    {
      SetSort(DecodeDropdown(value));
    }

    /** Choosing a page size (the selector offers 5, 10, 25, 50 and 100); a changed size sends
        the view back to page 1. */
    method SetRowsPerPage(size: int)
      requires size > 0
      modifies this
      ensures rowsPerPage == size && search == old(search) && sort == old(sort)
      ensures page == if size != old(rowsPerPage) then 1 else old(page)
      ensures old(PageInRange()) ==> PageInRange()
    {
      if size != rowsPerPage {
        rowsPerPage := size;
        page := 1;
      }
    }

    /** A click on Previous or Next, enabled as in the pagination controls: Previous is off on
        page 1, Next on the last page and when there are no pages. */
    method ChangePage(button: PaginationControls.Button)
      requires Valid()
      modifies this
      ensures var target := PaginationControls.Click(button, old(page), old(TotalPages()));
        page == if target.Some? then target.value else old(page)
      ensures search == old(search) && sort == old(sort) && rowsPerPage == old(rowsPerPage)
      ensures old(PageInRange()) ==> PageInRange()
    {
      var total := TotalPages();
      if 1 <= page <= total {
        PaginationControls.ClickStaysInRange(button, page, total);
      }
      var target := PaginationControls.Click(button, page, total);
      if target.Some? {
        page := target.value;
      }
    }

    /** The info line counts the rows of the page: from the position of its first row to that
        of its last, or from 0 when the page is empty; the suffix appears with a search. */
    lemma InfoCoversPage()
      requires Valid()
      ensures |PaginatedData()| > 0 ==>
        Info().start == (page - 1) * rowsPerPage + 1 && Info().end - Info().start + 1 == |PaginatedData()|
      ensures |PaginatedData()| == 0 ==> Info().start == 0
      ensures Info().total == |ProcessedData()|
      ensures Info().filteredFrom.Some? <==> search != ""
    {
      var rows := ProcessedData();
      assert Info() == PaginationInfo.Describe(PaginationInfo.Props(
        Some(PaginateData(Rows(rows), page, rowsPerPage)), Some(page), Some(rowsPerPage), Some(|rows|), Some(|data|), Some(search)));
      PaginationInfo.RangeCoversPage(rows, page, rowsPerPage, |data|, search);
    }

    /** A page in range shows at least one row when any row passes the search. */
    lemma PageInRangeShowsRows()
      requires PageInRange()
      ensures ProcessedData() != [] ==> PaginatedData() != []
      ensures |PaginatedData()| <= rowsPerPage
    {
      var rows := ProcessedData();
      assert page <= DataTable.TotalPagesFor(|rows|, rowsPerPage);
      DataTable.PageWithinPagesShowsRows(rows, page, rowsPerPage);
    }

    /** Computes the rows on screen, sorting a copy of the filtered rows. */
    method Render() returns (rows: seq<Row>)
      ensures rows == PaginatedData()
    {
      var filtered := FilterData(Rows(data), search);
      var processed := filtered;
      if sort.key != "" {
        processed := SortRows(filtered, sort.key, sort.order);
      }
      rows := PaginateData(Rows(processed), page, rowsPerPage);
    }
  }
}
