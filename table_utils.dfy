/** The stages of the table pipeline (src/components/DataTable/utils.js): text search,
    date parsing and display formatting, pagination, the date-range filter, and sorting
    with a comparator that tells dates, numbers and text apart. */
module TableUtils {
  import opened Wrappers
  import opened Text
  import opened Seqs
  import opened Sorting
  import opened Dates
  import opened Values

  /** The data argument of a stage: an array of rows, or `null`/`undefined`. */
  datatype Data = Rows(rows: seq<Row>) | Absent

  // ---------------------------------------------------------------------------------
  // filterData

  /** Some field value of the row, as lower-cased text, contains the lower-cased query. */
  predicate RowMatches(row: Row, lowerQuery: string)
  {
    exists k :: k in row && Includes(Lower(ToText(row[k])), lowerQuery)
  }

  function SearchTest(search: string): Row -> bool
  {
    row => RowMatches(row, Lower(search))
  }

  /** `filterData(data, search)`. */
  function FilterData(data: Data, search: string): seq<Row>
  {
    match data
    case Absent => []
    case Rows(rows) => if search == "" then rows else Filter(SearchTest(search), rows)
  }

  /** A missing array gives no rows; an empty query gives the rows unchanged. */
  lemma FilterDataGuards(data: Data, search: string)
    ensures data.Absent? ==> FilterData(data, search) == []
    ensures data.Rows? && search == "" ==> FilterData(data, search) == data.rows
  {
  }

  /** A non-empty query keeps exactly the rows having a field whose lower-cased text
      contains the lower-cased query at some position, in their original order. */
  lemma FilterDataKeepsExactlyMatching(rows: seq<Row>, search: string, row: Row)
    requires search != ""
    ensures row in FilterData(Rows(rows), search) <==>
      row in rows && exists k :: k in row && exists i :: OccursAt(Lower(ToText(row[k])), Lower(search), i)
    ensures IsSubsequence(FilterData(Rows(rows), search), rows)
    ensures multiset(FilterData(Rows(rows), search))[row] ==
      if exists k :: k in row && exists i :: OccursAt(Lower(ToText(row[k])), Lower(search), i)
      then multiset(rows)[row] else 0
  {
    FilterMembers(SearchTest(search), rows, row);
    FilterCounts(SearchTest(search), rows, row);
    FilterIsSubsequence(SearchTest(search), rows);
    forall k | k in row {
      IncludesIff(Lower(ToText(row[k])), Lower(search));
    }
  }

  // ---------------------------------------------------------------------------------
  // Date forms recognised by regular expressions

  const DateSeparators: set<char> := {'/', '-'}

  /** `/^(\d{1,2})[/-](\d{1,2})[/-](\d{4})$/`: the day, month and year digits of a
      day-first date. The groups hold no separator, so splitting at the separators finds them. */
  function MatchDayFirst(s: string): Option<(string, string, string)>
  {
    var parts := Split(s, DateSeparators);
    if |parts| == 3
      && 1 <= |parts[0]| <= 2 && AllDigits(parts[0])
      && 1 <= |parts[1]| <= 2 && AllDigits(parts[1])
      && |parts[2]| == 4 && AllDigits(parts[2])
    then Some((parts[0], parts[1], parts[2]))
    else None
  }

  predicate IsDayFirstText(d: string, m: string, y: string)
  {
    1 <= |d| <= 2 && AllDigits(d) && 1 <= |m| <= 2 && AllDigits(m) && |y| == 4 && AllDigits(y)
  }

  /** Every string the regular expression describes is recognised, with its three groups. */
  lemma MatchDayFirstAccepts(d: string, sep1: char, m: string, sep2: char, y: string)
    requires IsDayFirstText(d, m, y) && sep1 in DateSeparators && sep2 in DateSeparators
    ensures MatchDayFirst(d + [sep1] + m + [sep2] + y) == Some((d, m, y))
  {
    assert NoneOf(d, DateSeparators) && NoneOf(m, DateSeparators) && NoneOf(y, DateSeparators);
    assert d + [sep1] + m + [sep2] + y == d + [sep1] + (m + [sep2] + y);
    SplitAtFirstSeparator(d, sep1, m + [sep2] + y, DateSeparators);
    SplitAtFirstSeparator(m, sep2, y, DateSeparators);
    SplitWithoutSeparator(y, DateSeparators);
  }

  /** `/^\d{4}-\d{2}-\d{2}$/`. */
  predicate IsIsoShape(s: string)
  {
    |s| == 10 && AllDigits(s[..4]) && s[4] == '-' && AllDigits(s[5..7]) && s[7] == '-' && AllDigits(s[8..])
  }

  predicate IsAsciiLetter(c: char)
  {
    'A' <= c <= 'Z' || 'a' <= c <= 'z'
  }

  /** The characters `\s` matches. */
  predicate IsRegexSpace(c: char)
  {
    c in {'\t', '\n', '\U{B}', '\U{C}', '\r', ' ', '\U{A0}', '\U{1680}', '\U{2028}', '\U{2029}',
          '\U{202F}', '\U{205F}', '\U{3000}', '\U{FEFF}'}
    || '\U{2000}' <= c <= '\U{200A}'
  }

  /** `/^([A-Za-z]{3})\s(\d{4})$/`: the month word and the year digits. */
  function MatchMonthYear(s: string): Option<(string, string)>
  {
    if |s| == 8 && IsAsciiLetter(s[0]) && IsAsciiLetter(s[1]) && IsAsciiLetter(s[2])
      && IsRegexSpace(s[3]) && AllDigits(s[4..])
    then Some((s[..3], s[4..]))
    else None
  }

  /** `monthNames.indexOf(name)`, absent for -1. */
  function MonthIndex(name: string): (r: Option<nat>)
    ensures r.Some? ==> r.value < 12 && MonthAbbreviations[r.value] == name
    ensures r.None? ==> name !in MonthAbbreviations
  {
    if name in MonthAbbreviations then
      var i :| 0 <= i < 12 && MonthAbbreviations[i] == name;
      Some(i)
    else None
  }

  // ---------------------------------------------------------------------------------
  // parseDateValue

  /** `parseDateValue(v)`: None for `null`; otherwise the Date object, which for the ISO form
      is whatever `new Date(s)` gives, the invalid date included. */
  function ParseDateValue(parse: DateParser, v: Value): Option<Instant>
  {
    if !Truthy(v) || !v.Str? then None
    else
      var s := v.s;
      match MatchDayFirst(s)
      case Some((d, m, y)) => Some(NewDateFromParts(DigitsValue(y), DigitsValue(m) - 1, DigitsValue(d)))
      case None =>
        if IsIsoShape(s) then Some(parse(s))
        else if MatchMonthYear(s).Some? && MonthIndex(MatchMonthYear(s).value.0).Some? then
          Some(NewDateFromParts(DigitsValue(MatchMonthYear(s).value.1), MonthIndex(MatchMonthYear(s).value.0).value, 1))
        else if parse(s).Time? then Some(parse(s))
        else None
  }

  /** Falsy values and values that are not strings give `null`. */
  lemma ParseDateValueRejects(parse: DateParser, v: Value)
    requires !Truthy(v) || !v.Str?
    ensures ParseDateValue(parse, v) == None
  {
  }

  /** D/M/YYYY and D-M-YYYY are read day first, whatever the engine's parser does. */
  lemma ParseDayFirst(parse: DateParser, d: string, sep1: char, m: string, sep2: char, y: string)
    requires IsDayFirstText(d, m, y) && sep1 in DateSeparators && sep2 in DateSeparators
    ensures ParseDateValue(parse, Str(d + [sep1] + m + [sep2] + y))
         == Some(NewDateFromParts(DigitsValue(y), DigitsValue(m) - 1, DigitsValue(d)))
  {
    MatchDayFirstAccepts(d, sep1, m, sep2, y);
    ParseMatchedDayFirst(parse, d + [sep1] + m + [sep2] + y, d, m, y, DigitsValue(y), DigitsValue(m), DigitsValue(d));
  }

  lemma ParseMatchedDayFirst(parse: DateParser, s: string, d: string, m: string, y: string, year: int, month: int, day: int)
    requires MatchDayFirst(s) == Some((d, m, y))
    requires year == DigitsValue(y) && month == DigitsValue(m) && day == DigitsValue(d)
    ensures ParseDateValue(parse, Str(s)) == Some(NewDateFromParts(year, month - 1, day))
  {
  }

  /** YYYY-MM-DD is handed to the engine's parser. */
  lemma ParseIso(parse: DateParser, s: string)
    requires IsIsoShape(s)
    ensures ParseDateValue(parse, Str(s)) == Some(parse(s))
  {
    assert s[2] == s[..4][2] && IsDigit(s[2]);
    NotDayFirstWhenIso(s);
  }

  /** An ISO date is never mistaken for a day-first one: its first part has four digits. */
  lemma NotDayFirstWhenIso(s: string)
    requires IsIsoShape(s)
    ensures MatchDayFirst(s) == None
  {
    var a, b := s[..4], s[5..];
    assert s == a + ['-'] + b;
    assert NoneOf(a, DateSeparators) by {
      forall i | 0 <= i < |a| ensures a[i] !in DateSeparators {
        assert IsDigit(s[..4][i]);
      }
    }
    SplitAtFirstSeparator(a, '-', b, DateSeparators);
  }

  /** "Mon YYYY" with a known English abbreviation is the first day of that month; an
      unknown abbreviation falls through to the engine's parser. */
  lemma ParseMonthYear(parse: DateParser, name: string, sp: char, y: string)
    requires |name| == 3 && IsAsciiLetter(name[0]) && IsAsciiLetter(name[1]) && IsAsciiLetter(name[2])
    requires IsRegexSpace(sp) && |y| == 4 && AllDigits(y)
    ensures name in MonthAbbreviations ==>
      ParseDateValue(parse, Str(name + [sp] + y)) == Some(NewDateFromParts(DigitsValue(y), MonthIndex(name).value, 1))
    ensures name !in MonthAbbreviations ==>
      ParseDateValue(parse, Str(name + [sp] + y)) == (if parse(name + [sp] + y).Time? then Some(parse(name + [sp] + y)) else None)
  {
    var s := name + [sp] + y;
    MonthYearMatches(name, sp, y);
    assert Truthy(Str(s)) && MatchMonthYear(s).value == (name, y);
    if name in MonthAbbreviations {
      assert MonthIndex(name).Some?;
    } else {
      assert MonthIndex(name).None?;
    }
  }

  /** "Mon YYYY" matches only the month-and-year pattern. */
  lemma MonthYearMatches(name: string, sp: char, y: string)
    requires |name| == 3 && IsAsciiLetter(name[0]) && IsAsciiLetter(name[1]) && IsAsciiLetter(name[2])
    requires IsRegexSpace(sp) && |y| == 4 && AllDigits(y)
    ensures MatchDayFirst(name + [sp] + y) == None
    ensures !IsIsoShape(name + [sp] + y)
    ensures MatchMonthYear(name + [sp] + y) == Some((name, y))
  {
    var s := name + [sp] + y;
    assert s[..3] == name && s[4..] == y && s[3] == sp;
    assert !IsIsoShape(s);
    assert NoneOf(name, DateSeparators);
    if sp in DateSeparators {
      SplitAtFirstSeparator(name, sp, y, DateSeparators);
    } else {
      assert NoneOf(s, DateSeparators) by {
        forall i | 0 <= i < |s| ensures s[i] !in DateSeparators {
          if i >= 4 {
            assert s[i] == y[i - 4];
          }
        }
      }
      SplitWithoutSeparator(s, DateSeparators);
    }
  }

  // ---------------------------------------------------------------------------------
  // formatDateToDisplay

  /** `formatDateToDisplay(dateString)`, None standing for `null`/`undefined`. */
  function FormatDateToDisplay(parse: DateParser, dateString: Option<string>): string
  {
    match dateString
    case None => ""
    case Some(s) =>
      if s == "" then ""
      else if MatchDayFirst(s).Some? then s
      else if IsIsoShape(s) then
        NatToString(DigitsValue(s[8..])) + "-" + NatToString(DigitsValue(s[5..7])) + "-" + s[..4]
      else
        match parse(s)
        case InvalidDate => s
        case Time(ms) =>
          var c := CivilOf(ms);
          IntToString(c.day) + "-" + IntToString(c.month) + "-" + IntToString(c.year)
  }

  /** Empty input gives the empty string; a day-first string comes back unchanged, and so
      does a string the engine cannot parse. */
  lemma FormatDateToDisplayPassThrough(parse: DateParser, s: string)
    ensures FormatDateToDisplay(parse, None) == "" && FormatDateToDisplay(parse, Some("")) == ""
    ensures MatchDayFirst(s).Some? ==> FormatDateToDisplay(parse, Some(s)) == s
    ensures MatchDayFirst(s).None? && !IsIsoShape(s) && parse(s).InvalidDate? ==> FormatDateToDisplay(parse, Some(s)) == s
  {
  }

  /** YYYY-MM-DD is shown as D-M-YYYY: leading zeros of day and month dropped, the year kept. */
  lemma FormatIsoDate(parse: DateParser, s: string)
    requires IsIsoShape(s)
    ensures var shown := FormatDateToDisplay(parse, Some(s));
      shown == NatToString(DigitsValue(s[8..])) + "-" + NatToString(DigitsValue(s[5..7])) + "-" + s[..4]
      && MatchDayFirst(shown) == Some((NatToString(DigitsValue(s[8..])), NatToString(DigitsValue(s[5..7])), s[..4]))
  {
    NotDayFirstWhenIso(s);
    var d := NatToString(DigitsValue(s[8..]));
    var m := NatToString(DigitsValue(s[5..7]));
    DigitsBelow100(s[8..]);
    DigitsBelow100(s[5..7]);
    NatToStringLength(DigitsValue(s[8..]));
    NatToStringLength(DigitsValue(s[5..7]));
    assert AllDigits(s[..4]);
    MatchDayFirstAccepts(d, '-', m, '-', s[..4]);
  }

  lemma DigitsBelow100(dd: string)
    requires |dd| == 2 && AllDigits(dd)
    ensures DigitsValue(dd) < 100
  {
    assert dd[..1][..0] == [];
    assert DigitsValue(dd[..1]) == dd[0] as int - '0' as int;
    assert IsDigit(dd[0]) && IsDigit(dd[1]);
  }

  // ---------------------------------------------------------------------------------
  // paginateData

  /** A relative index of `slice`: negative counts from the end; clamped to 0..len. */
  function SliceIndex(k: int, len: nat): (i: nat)
    ensures i <= len
  {
    if k < 0 then (if len + k < 0 then 0 else len + k)
    else if k > len then len
    else k
  }

  /** `s.slice(start, end)`. */
  function Slice<T>(s: seq<T>, start: int, end: int): seq<T>
  {
    var from := SliceIndex(start, |s|);
    var to := SliceIndex(end, |s|);
    if from < to then s[from..to] else []
  }

  function Min(a: int, b: int): int { if a <= b then a else b }

  /** `paginateData(data, page, rowsPerPage)`. */
  function PaginateData(data: Data, page: int, rowsPerPage: int): seq<Row>
  {
    match data
    case Absent => []
    case Rows(rows) =>
      var start := (page - 1) * rowsPerPage;
      Slice(rows, start, start + rowsPerPage)
  }

  /** For a page from 1 on, the page is the run of at most rowsPerPage rows starting at
      (page - 1) * rowsPerPage; it is empty once that start is past the data. */
  lemma PaginateDataSlice(rows: seq<Row>, page: int, rowsPerPage: int)
    requires page >= 1 && rowsPerPage >= 1
    ensures var start := (page - 1) * rowsPerPage;
      var r := PaginateData(Rows(rows), page, rowsPerPage);
      r == rows[Min(start, |rows|)..Min(start + rowsPerPage, |rows|)]
      && |r| <= rowsPerPage
      && (start >= |rows| ==> r == [])
      && (forall i :: 0 <= i < |r| ==> start + i < |rows| && r[i] == rows[start + i])
  {
    var start := (page - 1) * rowsPerPage;
    assert start >= 0 by {
      MulNonNegative(page - 1, rowsPerPage);
    }
    SliceRun(rows, start, rowsPerPage);
  }

  lemma MulNonNegative(a: nat, b: nat)
    ensures a * b >= 0
  {
  }

  /** A slice of n elements from a non-negative start is the run of s from start, cut short
      at the end of s. */
  lemma SliceRun<T>(s: seq<T>, start: int, n: int)
    requires start >= 0 && n >= 1
    ensures var r := Slice(s, start, start + n);
      r == s[Min(start, |s|)..Min(start + n, |s|)]
      && |r| <= n
      && (start >= |s| ==> r == [])
      && (forall i :: 0 <= i < |r| ==> start + i < |s| && r[i] == s[start + i])
  {
  }

  lemma PaginateDataAbsent(page: int, rowsPerPage: int)
    ensures PaginateData(Absent, page, rowsPerPage) == []
  {
  }

  // ---------------------------------------------------------------------------------
  // filterDataByDate

  /** `item.originalDate || item[dateField]`. */
  function DateOfRow(row: Row, dateField: string): Value
  {
    var original := Get(row, "originalDate");
    if Truthy(original) then original else Get(row, dateField)
  }

  /** The YYYY-MM-DD text filterDataByDate compares for a truthy date value, or None when
      the value does not parse (the row is then kept). */
  function NormalizedDate(parse: DateParser, v: Value): Option<string>
  {
    if v.Str? && IsIsoShape(v.s) then Some(v.s)
    else if v.Str? && MatchDayFirst(v.s).Some? then
      var (d, m, y) := MatchDayFirst(v.s).value;
      Some(y + "-" + PadStart2(m) + "-" + PadStart2(d))
    else
      match NewDate(parse, v)
      case InvalidDate => None
      case Time(ms) => Some(IsoDatePart(ms))
  }

  /** Whether filterDataByDate keeps the row. */
  predicate KeepsRow(parse: DateParser, fromDate: string, toDate: string, dateField: string, row: Row)
  {
    var v := DateOfRow(row, dateField);
    if !Truthy(v) then true
    else match NormalizedDate(parse, v)
      case None => true
      case Some(n) => !(fromDate != "" && Less(n, fromDate)) && !(toDate != "" && Less(toDate, n))
  }

  function DateTest(parse: DateParser, fromDate: string, toDate: string, dateField: string): Row -> bool
  {
    row => KeepsRow(parse, fromDate, toDate, dateField, row)
  }

  /** `filterDataByDate(data, fromDate, toDate, dateField)`. */
  function FilterDataByDate(parse: DateParser, data: Data, fromDate: string, toDate: string, dateField: string): seq<Row>
  {
    match data
    case Absent => []
    case Rows(rows) =>
      if fromDate == "" && toDate == "" then rows
      else Filter(DateTest(parse, fromDate, toDate, dateField), rows)
  }

  /** No array gives no rows; without bounds the rows pass unchanged. */
  lemma FilterDataByDateGuards(parse: DateParser, data: Data, fromDate: string, toDate: string, dateField: string)
    ensures FilterDataByDate(parse, Absent, fromDate, toDate, dateField) == []
    ensures data.Rows? ==> FilterDataByDate(parse, data, "", "", dateField) == data.rows
  {
  }

  /** The round trip: the display form of a YYYY-MM-DD string normalises back to it. */
  lemma DisplayFormNormalisesBack(parse: DateParser, s: string)
    requires IsIsoShape(s)
    ensures NormalizedDate(parse, Str(FormatDateToDisplay(parse, Some(s)))) == Some(s)
  {
    FormatIsoDate(parse, s);
    var shown := FormatDateToDisplay(parse, Some(s));
    var d := NatToString(DigitsValue(s[8..]));
    assert !IsIsoShape(shown) by {
      NatToStringLength(DigitsValue(s[8..]));
      assert shown[|d|] == '-';
      assert |d| < 4;
      assert !IsDigit(shown[..4][|d|]);
    }
    TwoDigitsRoundTrip(s[8..]);
    TwoDigitsRoundTrip(s[5..7]);
    assert s == s[..4] + "-" + s[5..7] + "-" + s[8..];
  }

  /** n lies within the bounds that are set, both inclusive. */
  predicate WithinBounds(n: string, fromDate: string, toDate: string)
  {
    (fromDate == "" || Compare(fromDate, n) <= 0) && (toDate == "" || Compare(n, toDate) <= 0)
  }

  /** A row is kept exactly when it has no truthy date, its date does not parse, or its
      normalised date is within the bounds. */
  lemma KeepsRowIff(parse: DateParser, fromDate: string, toDate: string, dateField: string, row: Row)
    ensures KeepsRow(parse, fromDate, toDate, dateField, row) <==>
      var v := DateOfRow(row, dateField);
      !Truthy(v) || NormalizedDate(parse, v).None? || WithinBounds(NormalizedDate(parse, v).value, fromDate, toDate)
  {
    var v := DateOfRow(row, dateField);
    var nd := NormalizedDate(parse, v);
    if Truthy(v) && nd.Some? {
      CompareAntisymmetric(nd.value, fromDate);
      CompareAntisymmetric(nd.value, toDate);
    }
  }

  /** The date filter keeps exactly the rows KeepsRowIff describes, in their order. */
  lemma FilterDataByDateKeepsExactlyInRange(parse: DateParser, rows: seq<Row>, fromDate: string, toDate: string, dateField: string, row: Row)
    requires fromDate != "" || toDate != ""
    ensures row in FilterDataByDate(parse, Rows(rows), fromDate, toDate, dateField) <==>
      row in rows && KeepsRow(parse, fromDate, toDate, dateField, row)
    ensures IsSubsequence(FilterDataByDate(parse, Rows(rows), fromDate, toDate, dateField), rows)
    ensures multiset(FilterDataByDate(parse, Rows(rows), fromDate, toDate, dateField))[row] ==
      if KeepsRow(parse, fromDate, toDate, dateField, row) then multiset(rows)[row] else 0
  {
    FilterMembers(DateTest(parse, fromDate, toDate, dateField), rows, row);
    FilterCounts(DateTest(parse, fromDate, toDate, dateField), rows, row);
    FilterIsSubsequence(DateTest(parse, fromDate, toDate, dateField), rows);
  }

  /** originalDate, when truthy, is consulted instead of the date field. */
  lemma OriginalDateFirst(row: Row, dateField: string)
    requires Truthy(Get(row, "originalDate"))
    ensures DateOfRow(row, dateField) == row["originalDate"]
  {
  }

  // ---------------------------------------------------------------------------------
  // sortData

  /** The sign of a difference: `sort` only looks at whether the comparator's result is
      negative, zero or positive. */
  function Sign(x: real): (c: int)
    ensures -1 <= c <= 1 && (c < 0 <==> x < 0.0) && (c == 0 <==> x == 0.0)
  {
    if x < 0.0 then -1 else if x > 0.0 then 1 else 0
  }

  predicate IsDateKey(sortKey: string) { sortKey == "date" || sortKey == "monthYear" }

  /** The comparator sortData passes to `sort`, reduced to its sign. Two dates of which one
      is invalid subtract to NaN, which `sort` reads as 0. Any order other than "asc" sorts
      descending. */
  function CompareRows(parse: DateParser, sortKey: string, order: string, a: Row, b: Row): (c: int)
    ensures -1 <= c <= 1
  {
    var va := Get(a, sortKey);
    var vb := Get(b, sortKey);
    var asc := order == "asc";
    if va.Undef? || vb.Undef? then 0
    else if IsDateKey(sortKey) && ParseDateValue(parse, va).Some? && ParseDateValue(parse, vb).Some? then
      var da := ParseDateValue(parse, va).value;
      var db := ParseDateValue(parse, vb).value;
      if da.InvalidDate? || db.InvalidDate? then 0
      else if asc then Sign((da.ms - db.ms) as real) else Sign((db.ms - da.ms) as real)
    else if va.Num? && vb.Num? then
      if asc then Sign(va.x - vb.x) else Sign(vb.x - va.x)
    else if asc then Compare(ToText(va), ToText(vb))
    else Compare(ToText(vb), ToText(va))
  }

  function RowComparator(parse: DateParser, sortKey: string, order: string): (Row, Row) -> int
  {
    (a, b) => CompareRows(parse, sortKey, order, a, b)
  }

  /** What `sortData(data, sortKey, order)` returns. */
  function SortedData(parse: DateParser, data: Data, sortKey: string, order: string): seq<Row>
  {
    match data
    case Absent => []
    case Rows(rows) => if sortKey == "" then rows else InsertionSorted(RowComparator(parse, sortKey, order), rows)
  }

  /** `sortData`: copies the rows into a fresh array and sorts the copy in place. */
  method SortData(parse: DateParser, data: Data, sortKey: string, order: string) returns (r: seq<Row>)
    ensures r == SortedData(parse, data, sortKey, order)
  {
    match data {
      case Absent =>
        r := [];
      case Rows(rows) =>
        if sortKey == "" {
          r := rows;
        } else {
          var a := new Row[|rows|](i requires 0 <= i < |rows| => rows[i]);
          assert a[..] == rows;
          SortInPlace(a, RowComparator(parse, sortKey, order));
          r := a[..];
        }
    }
  }

  /** No array gives no rows; an empty key leaves the rows as they are; otherwise the result
      holds the same rows, each as often as before. */
  lemma SortDataPermutes(parse: DateParser, data: Data, sortKey: string, order: string)
    ensures data.Absent? ==> SortedData(parse, data, sortKey, order) == []
    ensures data.Rows? && sortKey == "" ==> SortedData(parse, data, sortKey, order) == data.rows
    ensures data.Rows? ==> multiset(SortedData(parse, data, sortKey, order)) == multiset(data.rows)
  {
    if data.Rows? && sortKey != "" {
      SortPermutes(RowComparator(parse, sortKey, order), data.rows);
    }
  }

  /** A row without a value at the key is level with every row. */
  lemma CompareRowsUndefined(parse: DateParser, sortKey: string, order: string, a: Row, b: Row)
    requires sortKey !in a || a[sortKey] == Undef
    ensures CompareRows(parse, sortKey, order, a, b) == 0 && CompareRows(parse, sortKey, order, b, a) == 0
  {
  }

  /** Descending is ascending with the operands exchanged, and ascending is antisymmetric. */
  lemma DescMirrorsAsc(parse: DateParser, sortKey: string, a: Row, b: Row)
    ensures CompareRows(parse, sortKey, "desc", a, b) == CompareRows(parse, sortKey, "asc", b, a)
    ensures CompareRows(parse, sortKey, "asc", a, b) == -CompareRows(parse, sortKey, "asc", b, a)
  {
    CompareAntisymmetric(ToText(Get(a, sortKey)), ToText(Get(b, sortKey)));
  }

  /** Every row holds a number at the key. */
  predicate NumericColumn(rows: seq<Row>, key: string)
  {
    forall i :: 0 <= i < |rows| ==> Get(rows[i], key).Num?
  }

  /** Every row holds a string at the key, and the key is not one of the date keys. */
  predicate TextColumn(rows: seq<Row>, key: string)
  {
    !IsDateKey(key) && forall i :: 0 <= i < |rows| ==> Get(rows[i], key).Str?
  }

  /** The key is a date key and every row's value parses to a valid date. */
  predicate DateColumn(parse: DateParser, rows: seq<Row>, key: string)
  {
    IsDateKey(key) && forall i :: 0 <= i < |rows| ==> ValidDateAt(parse, rows[i], key)
  }

  predicate ValidDateAt(parse: DateParser, row: Row, key: string)
  {
    ParseDateValue(parse, Get(row, key)).Some? && ParseDateValue(parse, Get(row, key)).value.Time?
  }

  function MsAt(parse: DateParser, row: Row, key: string): int
    requires ValidDateAt(parse, row, key)
  {
    ParseDateValue(parse, Get(row, key)).value.ms
  }

  /** Sorting keeps the rows, so every row of the result is a row of the input. */
  lemma SortedRowsFromInput(parse: DateParser, rows: seq<Row>, key: string, order: string)
    requires key != ""
    ensures var r := SortedData(parse, Rows(rows), key, order);
      |r| == |rows| && forall i :: 0 <= i < |r| ==> r[i] in rows
  {
    var r := SortedData(parse, Rows(rows), key, order);
    SortPermutes(RowComparator(parse, key, order), rows);
    forall i | 0 <= i < |r| ensures r[i] in rows {
      assert r[i] in multiset(r);
    }
  }

  lemma NumericColumnPreorder(parse: DateParser, rows: seq<Row>, key: string, order: string)
    requires NumericColumn(rows, key)
    ensures TotalPreorderOn(RowComparator(parse, key, order), rows)
  {
    forall x | x in rows ensures Get(x, key).Num? && ParseDateValue(parse, Get(x, key)).None? {
      var i :| 0 <= i < |rows| && rows[i] == x;
    }
  }

  /** A column of numbers comes out in numeric order, ascending for "asc" and descending
      otherwise. */
  lemma NumericColumnSorted(parse: DateParser, rows: seq<Row>, key: string, order: string)
    requires key != "" && NumericColumn(rows, key)
    ensures var r := SortedData(parse, Rows(rows), key, order);
      NumericColumn(r, key) &&
      forall i, j :: 0 <= i < j < |r| ==>
        if order == "asc" then Get(r[i], key).x <= Get(r[j], key).x else Get(r[i], key).x >= Get(r[j], key).x
  {
    var cmp := RowComparator(parse, key, order);
    var r := SortedData(parse, Rows(rows), key, order);
    NumericColumnPreorder(parse, rows, key, order);
    SortSorts(cmp, rows);
    SortedRowsFromInput(parse, rows, key, order);
    forall x | x in rows ensures Get(x, key).Num? && ParseDateValue(parse, Get(x, key)).None? {
      var i :| 0 <= i < |rows| && rows[i] == x;
    }
    forall i, j | 0 <= i < j < |r|
      ensures if order == "asc" then Get(r[i], key).x <= Get(r[j], key).x else Get(r[i], key).x >= Get(r[j], key).x
    {
      assert cmp(r[i], r[j]) <= 0;
    }
  }

  /** Two numbers compare numerically, under any key. */
  lemma CompareNumbers(parse: DateParser, key: string, order: string, a: Row, b: Row)
    requires Get(a, key).Num? && Get(b, key).Num?
    ensures CompareRows(parse, key, order, a, b) ==
      if order == "asc" then Sign(Get(a, key).x - Get(b, key).x) else Sign(Get(b, key).x - Get(a, key).x)
  {
    assert ParseDateValue(parse, Get(a, key)).None?;
  }

  /** Rows with the same number at the key keep their relative order. */
  lemma NumericColumnStable(parse: DateParser, rows: seq<Row>, key: string, order: string, v: real)
    requires key != "" && NumericColumn(rows, key)
    ensures Filter(HasNumber(key, v), SortedData(parse, Rows(rows), key, order)) == Filter(HasNumber(key, v), rows)
  {
    var cmp := RowComparator(parse, key, order);
    var y: Row := map[key := Num(v)];
    var dom := rows + [y];
    assert NumericColumn(dom, key) by {
      forall i | 0 <= i < |dom| ensures Get(dom[i], key).Num? {
        if i < |rows| { assert dom[i] == rows[i]; }
      }
    }
    NumericColumnPreorder(parse, dom, key, order);
    SortIsStable(cmp, rows, y);
    var r := SortedData(parse, Rows(rows), key, order);
    SortedRowsFromInput(parse, rows, key, order);
    forall i | 0 <= i < |rows| ensures LevelWith(cmp, y)(rows[i]) == HasNumber(key, v)(rows[i]) {
      CompareNumbers(parse, key, order, rows[i], y);
      CompareNumbers(parse, key, order, y, rows[i]);
    }
    forall i | 0 <= i < |r| ensures LevelWith(cmp, y)(r[i]) == HasNumber(key, v)(r[i]) {
      var k :| 0 <= k < |rows| && rows[k] == r[i];
      CompareNumbers(parse, key, order, rows[k], y);
      CompareNumbers(parse, key, order, y, rows[k]);
    }
    FilterAgree(LevelWith(cmp, y), HasNumber(key, v), rows);
    FilterAgree(LevelWith(cmp, y), HasNumber(key, v), r);
  }

  function HasNumber(key: string, v: real): Row -> bool
  {
    row => Get(row, key) == Num(v)
  }

  lemma TextColumnPreorder(parse: DateParser, rows: seq<Row>, key: string, order: string)
    requires TextColumn(rows, key)
    ensures TotalPreorderOn(RowComparator(parse, key, order), rows)
  {
    var cmp := RowComparator(parse, key, order);
    forall x | x in rows ensures Get(x, key).Str? {
      var i :| 0 <= i < |rows| && rows[i] == x;
    }
    forall x, y | x in rows && y in rows ensures cmp(x, y) <= 0 || cmp(y, x) <= 0 {
      CompareAntisymmetric(Get(x, key).s, Get(y, key).s);
    }
    forall x, y, z | x in rows && y in rows && z in rows && cmp(x, y) <= 0 && cmp(y, z) <= 0
      ensures cmp(x, z) <= 0
    {
      if order == "asc" {
        CompareTransitive(Get(x, key).s, Get(y, key).s, Get(z, key).s);
      } else {
        CompareTransitive(Get(z, key).s, Get(y, key).s, Get(x, key).s);
      }
    }
  }

  /** A column of strings under a key other than the date keys comes out in string order,
      ascending for "asc" and descending otherwise. */
  lemma TextColumnSorted(parse: DateParser, rows: seq<Row>, key: string, order: string)
    requires key != "" && TextColumn(rows, key)
    ensures var r := SortedData(parse, Rows(rows), key, order);
      TextColumn(r, key) &&
      forall i, j :: 0 <= i < j < |r| ==>
        if order == "asc" then Compare(Get(r[i], key).s, Get(r[j], key).s) <= 0
        else Compare(Get(r[j], key).s, Get(r[i], key).s) <= 0
  {
    var cmp := RowComparator(parse, key, order);
    var r := SortedData(parse, Rows(rows), key, order);
    TextColumnPreorder(parse, rows, key, order);
    SortSorts(cmp, rows);
    SortedRowsFromInput(parse, rows, key, order);
    forall i | 0 <= i < |r| ensures Get(r[i], key).Str? {
      var k :| 0 <= k < |rows| && rows[k] == r[i];
    }
    forall i, j | 0 <= i < j < |r|
      ensures if order == "asc" then Compare(Get(r[i], key).s, Get(r[j], key).s) <= 0
        else Compare(Get(r[j], key).s, Get(r[i], key).s) <= 0
    {
      assert cmp(r[i], r[j]) <= 0;
    }
  }

  /** Two valid dates under a date key compare chronologically. */
  lemma CompareDates(parse: DateParser, key: string, order: string, a: Row, b: Row)
    requires IsDateKey(key) && ValidDateAt(parse, a, key) && ValidDateAt(parse, b, key)
    ensures CompareRows(parse, key, order, a, b) ==
      if order == "asc" then Sign((MsAt(parse, a, key) - MsAt(parse, b, key)) as real)
      else Sign((MsAt(parse, b, key) - MsAt(parse, a, key)) as real)
  {
    assert !Get(a, key).Undef? && !Get(b, key).Undef?;
  }

  lemma DateColumnPreorder(parse: DateParser, rows: seq<Row>, key: string, order: string)
    requires DateColumn(parse, rows, key)
    ensures TotalPreorderOn(RowComparator(parse, key, order), rows)
  {
    var cmp := RowComparator(parse, key, order);
    forall x | x in rows ensures ValidDateAt(parse, x, key) {
      var i :| 0 <= i < |rows| && rows[i] == x;
    }
    forall x, y | x in rows && y in rows
      ensures cmp(x, y) == if order == "asc" then Sign((MsAt(parse, x, key) - MsAt(parse, y, key)) as real)
        else Sign((MsAt(parse, y, key) - MsAt(parse, x, key)) as real)
    {
      CompareDates(parse, key, order, x, y);
    }
  }

  /** Under the keys "date" and "monthYear", a column of dates that all parse comes out in
      chronological order, earliest first for "asc" and latest first otherwise. */
  lemma DateColumnSorted(parse: DateParser, rows: seq<Row>, key: string, order: string)
    requires DateColumn(parse, rows, key)
    ensures var r := SortedData(parse, Rows(rows), key, order);
      DateColumn(parse, r, key) &&
      forall i, j :: 0 <= i < j < |r| ==>
        if order == "asc" then MsAt(parse, r[i], key) <= MsAt(parse, r[j], key)
        else MsAt(parse, r[i], key) >= MsAt(parse, r[j], key)
  {
    var cmp := RowComparator(parse, key, order);
    var r := SortedData(parse, Rows(rows), key, order);
    DateColumnPreorder(parse, rows, key, order);
    SortSorts(cmp, rows);
    SortedRowsFromInput(parse, rows, key, order);
    forall i | 0 <= i < |r| ensures ValidDateAt(parse, r[i], key) && !Get(r[i], key).Undef? {
      var k :| 0 <= k < |rows| && rows[k] == r[i];
    }
    forall i, j | 0 <= i < j < |r|
      ensures if order == "asc" then MsAt(parse, r[i], key) <= MsAt(parse, r[j], key)
        else MsAt(parse, r[i], key) >= MsAt(parse, r[j], key)
    {
      assert cmp(r[i], r[j]) <= 0;
    }
  }

  /** The numeric sorting example: amounts 100, 50, 200 come out as 50, 100, 200. */
  lemma SortAmountsExample(parse: DateParser)
    ensures var rows: seq<Row> := [map["id" := Num(1.0), "amount" := Num(100.0)],
                                   map["id" := Num(2.0), "amount" := Num(50.0)],
                                   map["id" := Num(3.0), "amount" := Num(200.0)]];
      SortedData(parse, Rows(rows), "amount", "asc") == [rows[1], rows[0], rows[2]]
  {
    var rows: seq<Row> := [map["id" := Num(1.0), "amount" := Num(100.0)],
                           map["id" := Num(2.0), "amount" := Num(50.0)],
                           map["id" := Num(3.0), "amount" := Num(200.0)]];
    var cmp := RowComparator(parse, "amount", "asc");
    CompareNumbers(parse, "amount", "asc", rows[0], rows[1]);
    CompareNumbers(parse, "amount", "asc", rows[1], rows[2]);
    CompareNumbers(parse, "amount", "asc", rows[0], rows[2]);
    assert rows[..1] == [rows[0]] && rows[..2] == [rows[0], rows[1]];
    assert cmp(rows[0], rows[1]) == 1 && cmp(rows[0], rows[2]) == -1;
    assert rows[..2][..1] == rows[..1] && rows[..|rows| - 1] == rows[..2];
    assert InsertionSorted(cmp, rows[..1]) == [rows[0]];
    assert InsertBack(cmp, [rows[0]], rows[1]) == [rows[1], rows[0]];
    assert InsertionSorted(cmp, rows[..2]) == [rows[1], rows[0]];
  }
}
