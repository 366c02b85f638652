# Rewards dashboard tables, modelled in Dafny

This project models a customer rewards dashboard. The parts modelled are:

- the reward points earned by a purchase;
- the grouping of transactions into monthly rows and per-customer totals;
- the transactions table, built from the purchase list;
- the data-table pipeline, which runs text search, then a date range, then sorting, then paging;
- two table components built on that pipeline. The newer one applies its date range on demand. The older one has a sort dropdown and resets the page when a filter changes.

Pure stages are modelled as Dafny functions, with lemmas proved about them. Stateful parts are modelled imperatively:

- `Array.prototype.sort` is a stable insertion sort that runs in place on an `array` copy.
- The `groupRewards` loop is a method with loop invariants.
- Each React component's `useState` variables are the fields of a class. Each handler is a method that updates those fields.

Module layout:

| module | file | models |
|---|---|---|
| `Wrappers` | wrappers.dfy | the `Option` type |
| `Text` | text.dfy | `toLowerCase`, `includes`, `split`, `padStart`, `parseInt`, `String(n)`, string order |
| `Seqs` | seqs.dfy | `Array.prototype.filter` |
| `Sorting` | sorting.dfy | `Array.prototype.sort` with a comparator |
| `Dates` | dates.dfy | the `Date` constructor, getters, `toISOString` and `toLocaleDateString` (UTC, en-US) |
| `Values` | values.dfy | row field values and the coercions applied to them |
| `TableUtils` | table_utils.dfy | `filterData`, `sortData`, `parseDateValue`, `formatDateToDisplay`, `paginateData`, `filterDataByDate` |
| `Rewards` | rewards.dfy | `calculatePoints` |
| `RewardsTable` | rewards_table.dfy | `groupRewards` and the rows the two reward tables show |
| `TransactionsTable` | transactions_table.dfy | the rows and columns of the transactions table |
| `SortDropdown` | sort_dropdown.dfy | the `key:order` dropdown |
| `PaginationControls` | pagination_controls.dfy | the Previous/Next buttons and the page label |
| `PaginationInfo` | pagination_info.dfy | the "Showing … entries" line |
| `DataTable` | data_table.dfy | the table component in `src/components/DataTable/DataTable.jsx` |
| `LegacyDataTable` | legacy_data_table.dfy | the table component in `src/components/DataTable.jsx` |

**Row values.** A row is a `map<string, Value>`. A `Value` is one of four things:

- a finite number (`real`);
- `NaN`;
- a string;
- `undefined`.

Reading a missing key gives `undefined`.

**Date parsing.** `new Date(string)` is implementation-defined, so the model takes it as a function parameter (`DateParser`). Every date-dependent operation receives it. All date arithmetic runs in UTC:

- `new Date(y, m, d)` uses ECMAScript's MakeDay. Months outside 0..11 carry into the year, and years 0..99 mean 1900..1999.
- `toISOString` writes a signed six-digit year for years outside 0..9999.

## Model

| member | source | states |
|---|---|---|
| `Rewards.CalculatePoints` | src/utils/rewards.js:10-19 | points are never negative; `NaN`, non-numbers and amounts up to $50 earn 0 |
| `Rewards.PointsBands` | src/utils/rewards.js:13-18 | above $100: `floor(2·(x−100)+50)`; between $50 and $100: `floor(x−50)`, within 0..50 |
| `Rewards.PointsMonotone` | src/utils/rewards.js:11-18 | spending more never earns fewer points; the two bands meet at $100 |
| `Rewards.PointsExamples` | src/utils/rewards.js:10-19 | 50→0, 51→1, 100→50, 101→52, 120→90, 75.5→25; negative, NaN and undefined → 0 |
| `RewardsTable.MonthlyRow` | src/components/RewardsTable.jsx:14-25 | the pushed entry carries the customer id and name and the purchase's points; an invalid date gives month "Invalid Date" and year NaN |
| `RewardsTable.MonthlyRows` | src/components/RewardsTable.jsx:13-25 | exactly one monthly entry per transaction, in input order |
| `RewardsTable.MonthlyAsRow` | src/components/RewardsTable.jsx:49-55 | a monthly entry has exactly the five fields the monthly columns name |
| `RewardsTable.TotalAsRow` | src/components/RewardsTable.jsx:57-61 | a total has exactly the three fields the totals columns name |
| `RewardsTable.GroupRewards` | src/components/RewardsTable.jsx:9-41 | the loop produces the monthly entries `MonthlyRows` and the totals `TotalsOf` of the transactions |
| `RewardsTable.RecordTransaction` | src/components/RewardsTable.jsx:19-34 | one iteration: push the entry; create the customer's total at 0 if it is missing, then add the points |
| `RewardsTable.TotalsOfStep` | src/components/RewardsTable.jsx:13-34 | the totals after one more transaction are the previous totals with that transaction added |
| `RewardsTable.TotalsKeys` | src/components/RewardsTable.jsx:27-34 | exactly one total per distinct customer id seen, none listed twice; no transactions, no totals |
| `RewardsTable.TotalIsCustomerSum` | src/components/RewardsTable.jsx:27-34 | a customer's total is the sum of that customer's transaction points |
| `RewardsTable.NoTransactionsNoPoints` | src/components/RewardsTable.jsx:27-34 | a customer without transactions has 0 points |
| `RewardsTable.TotalNamedByFirstTransaction` | src/components/RewardsTable.jsx:27-33 | a total's id and name come from the customer's first transaction |
| `RewardsTable.KeysHaveTotals` | src/components/RewardsTable.jsx:27-40 | every customer, listed in first-seen order, has a total, and none is listed twice |
| `RewardsTable.TotalsSumStep` | src/components/RewardsTable.jsx:13-34 | one transaction more adds its points to the grand total |
| `RewardsTable.TotalsSumToAllPoints` | src/components/RewardsTable.jsx:9-41 | the totals together hold exactly the points of all transactions |
| `RewardsTable.MonthlyPointsMatch` | src/components/RewardsTable.jsx:9-41 | per customer, the monthly entries' points sum to the customer's total |
| `TransactionsTable.TransactionRows` | src/components/TransactionsTable.jsx:9-16 | one row per transaction, in input order |
| `TransactionsTable.ColumnKeysAre` | src/components/TransactionsTable.jsx:18-25 | the six column keys |
| `TransactionsTable.TransactionRowKeys` | src/components/TransactionsTable.jsx:9-25 | each row has exactly the fields the columns name, so `customerId` is dropped |
| `TransactionsTable.TransactionRowValues` | src/components/TransactionsTable.jsx:10-15 | id, name, product and amount are copied; the date is shown month/day/year; points are those of the amount |
| `TableUtils.FilterDataGuards` | src/components/DataTable/utils.js:7-9 | a non-array gives `[]`; an empty query returns the rows unchanged |
| `TableUtils.FilterDataKeepsExactlyMatching` | src/components/DataTable/utils.js:10-15 | a non-empty query keeps exactly the rows with a field whose lower-cased text contains the lower-cased query, in order, each as often as in the input |
| `Seqs.FilterMembers` | src/components/DataTable/utils.js:11-15 | `filter` keeps exactly the elements passing the test |
| `Seqs.FilterCounts` | src/components/DataTable/utils.js:11-15 | `filter` keeps every copy of an element that passes the test and no copy of one that fails |
| `Seqs.FilterIsSubsequence` | src/components/DataTable/utils.js:11-15 | `filter` keeps the relative order |
| `Seqs.FilterKeepsAll` | src/components/DataTable/utils.js:183-223 | a test passing every element returns the input |
| `Seqs.FilterConcat` | src/components/DataTable/utils.js:183-223 | filtering distributes over concatenation |
| `Seqs.FilterAgree` | src/components/DataTable/utils.js:183-223 | two tests that agree on the elements filter alike |
| `Text.Lower` | src/components/DataTable/utils.js:13 | `toLowerCase` keeps the length and lowers each character |
| `Text.IncludesIff` | src/components/DataTable/utils.js:13 | `includes` holds iff the query occurs at some position |
| `Text.NatToString` | src/components/DataTable/utils.js:132 | decimal text without leading zeros that reads back as the number |
| `Text.PadStart2` | src/components/DataTable/utils.js:203-204 | `padStart(2, "0")`: long strings unchanged, short ones left-padded with zeros to length 2 |
| `Text.TwoDigitsRoundTrip` | src/components/DataTable/utils.js:130-133 | `parseInt` then `padStart(2, "0")` gives back any two-digit run |
| `Text.SplitWithoutSeparator` | src/components/DataTable/SortDropdown.jsx:9 | a string without separators splits into itself |
| `Text.SplitAtFirstSeparator` | src/components/DataTable/utils.js:202 | splitting cuts at the first separator |
| `Text.CompareAntisymmetric` | src/components/DataTable/utils.js:50-52 | string comparison is antisymmetric |
| `Text.CompareZeroIffEqual` | src/components/DataTable/utils.js:50-52 | two strings compare level iff they are equal |
| `Text.CompareTransitive` | src/components/DataTable/utils.js:219-220 | string order is transitive |
| `Text.NatToStringLength` | src/components/DataTable/utils.js:213 | decimal text of a number below 10, 100, 1000 or 10000 has at most 1, 2, 3 or 4 digits |
| `Text.LeadingZerosValue` | src/components/DataTable/utils.js:132 | leading zeros do not change the value of a digit run |
| `Dates.CivilFromDays` | src/components/DataTable/utils.js:141-142 | the month of a day count is in 1..12 and its day in 1..31 |
| `Dates.CivilRoundTrip` | src/components/DataTable/utils.js:75 | a calendar date turned into a day count reads back as the same year, month and day |
| `Dates.DaysFromCivilInMonth` | src/components/DataTable/utils.js:75 | within a month the day count moves one for one with the day |
| `Dates.NewDateFromPartsIsCalendarDate` | src/components/DataTable/utils.js:75 | `new Date(year, month − 1, day)` for a date of the calendar is midnight of exactly that date, years 0..99 read as 1900..1999 |
| `Dates.PadNat` | src/components/DataTable/utils.js:213 | zero-padded digits that read back as the number, exactly `width` long when the number fits |
| `Dates.IsoDateTextReadsBack` | src/components/DataTable/utils.js:213 | for years 0..9999 the ISO text is YYYY-MM-DD and its digit runs read back as the year, the month and the day |
| `TableUtils.MonthIndex` | src/components/DataTable/utils.js:88-103 | `indexOf` gives a position below 12 holding the name, or −1 for names not in the list |
| `TableUtils.MatchDayFirstAccepts` | src/components/DataTable/utils.js:70-72 | every D/M/YYYY or D-M-YYYY string matches with its three groups |
| `TableUtils.ParseDateValueRejects` | src/components/DataTable/utils.js:61-114 | falsy values and non-strings give `null` |
| `TableUtils.ParseDayFirst` | src/components/DataTable/utils.js:70-76 | day-first text is `new Date(year, month − 1, day)`, whatever the engine's parser does |
| `TableUtils.ParseIso` | src/components/DataTable/utils.js:79-82 | YYYY-MM-DD goes to the engine's parser unchecked |
| `TableUtils.NotDayFirstWhenIso` | src/components/DataTable/utils.js:70-82 | an ISO date never matches the day-first pattern |
| `TableUtils.ParseMonthYear` | src/components/DataTable/utils.js:85-110 | "Mon YYYY" with a known abbreviation is the first of that month; otherwise the engine parses it, and an invalid result gives `null` |
| `TableUtils.MonthYearMatches` | src/components/DataTable/utils.js:70-86 | "Mon YYYY" matches only the month-year pattern |
| `TableUtils.FormatDateToDisplayPassThrough` | src/components/DataTable/utils.js:121-150 | empty input gives ""; day-first text and unparseable text come back unchanged |
| `TableUtils.FormatIsoDate` | src/components/DataTable/utils.js:130-134 | YYYY-MM-DD is shown as D-M-YYYY, with leading zeros of day and month dropped |
| `TableUtils.SliceIndex` | src/components/DataTable/utils.js:163 | a `slice` index is clamped into 0..length |
| `TableUtils.PaginateDataSlice` | src/components/DataTable/utils.js:159-164 | page p holds the rows from (p−1)·n on, at most n of them, and nothing past the end |
| `TableUtils.PaginateDataAbsent` | src/components/DataTable/utils.js:160 | a non-array gives `[]` |
| `TableUtils.FilterDataByDateGuards` | src/components/DataTable/utils.js:180-181 | a non-array gives `[]` whatever the bounds; with neither bound the rows pass unchanged |
| `TableUtils.DisplayFormNormalisesBack` | src/components/DataTable/utils.js:192-206 | the display form of YYYY-MM-DD normalises back to the same text |
| `TableUtils.KeepsRowIff` | src/components/DataTable/utils.js:183-222 | a row stays iff it has no truthy date, its date is invalid, or its normalised date lies within the bounds that are set |
| `TableUtils.FilterDataByDateKeepsExactlyInRange` | src/components/DataTable/utils.js:174-224 | with a bound set, exactly those rows are kept, in order, each as often as in the input |
| `TableUtils.OriginalDateFirst` | src/components/DataTable/utils.js:185 | a truthy `originalDate` is consulted instead of the date field |
| `TableUtils.Sign` | src/components/DataTable/utils.js:37-46 | only the sign of a difference matters to `sort` |
| `TableUtils.CompareRows` | src/components/DataTable/utils.js:27-53 | the comparator's result is −1, 0 or 1 |
| `TableUtils.SortData` | src/components/DataTable/utils.js:25-54 | copies the rows into an array and sorts it in place, giving `SortedData` |
| `TableUtils.SortDataPermutes` | src/components/DataTable/utils.js:25-27 | a non-array gives `[]`; an empty key leaves the rows as they are; otherwise the result is a permutation |
| `TableUtils.CompareRowsUndefined` | src/components/DataTable/utils.js:30 | a row without a value at the key is level with every row |
| `TableUtils.DescMirrorsAsc` | src/components/DataTable/utils.js:37-52 | "desc" is "asc" with the operands exchanged, and "asc" is antisymmetric |
| `TableUtils.SortedRowsFromInput` | src/components/DataTable/utils.js:27 | every sorted row is an input row |
| `TableUtils.NumericColumnPreorder` | src/components/DataTable/utils.js:43-47 | on a column of numbers the comparator is a total preorder |
| `TableUtils.NumericColumnSorted` | src/components/DataTable/utils.js:43-47 | a column of numbers comes out ascending for "asc" and descending otherwise |
| `TableUtils.CompareNumbers` | src/components/DataTable/utils.js:43-47 | two numbers compare by the sign of their difference |
| `TableUtils.NumericColumnStable` | src/components/DataTable/utils.js:27 | rows holding equal numbers keep their relative order |
| `TableUtils.TextColumnPreorder` | src/components/DataTable/utils.js:50-52 | on a column of strings the comparator is a total preorder |
| `TableUtils.TextColumnSorted` | src/components/DataTable/utils.js:50-52 | a column of strings comes out in string order, reversed unless "asc" |
| `TableUtils.CompareDates` | src/components/DataTable/utils.js:33-39 | two valid dates under "date" or "monthYear" compare chronologically |
| `TableUtils.DateColumnPreorder` | src/components/DataTable/utils.js:33-39 | on a column of valid dates the comparator is a total preorder |
| `TableUtils.DateColumnSorted` | src/components/DataTable/utils.js:33-39 | a column of valid dates comes out in chronological order, reversed unless "asc" |
| `TableUtils.SortAmountsExample` | src/components/DataTable/utils.js:43-47 | amounts 100, 50, 200 sort to 50, 100, 200 |
| `Sorting.InsertBackPermutes` | src/components/DataTable/utils.js:27 | one insertion step only reorders |
| `Sorting.SortPermutes` | src/components/DataTable/utils.js:27 | `sort` returns a permutation of its input |
| `Sorting.InsertBackSorted` | src/components/DataTable/utils.js:27 | inserting into a sorted prefix keeps it sorted |
| `Sorting.AppendSorted` | src/components/DataTable/utils.js:27 | an element not ordered before the last one may be appended |
| `Sorting.InsertBackSortedPast` | src/components/DataTable/utils.js:27 | inserting past the last element keeps the sequence sorted |
| `Sorting.SortSorts` | src/components/DataTable/utils.js:27 | under a total-preorder comparator the result is sorted |
| `Sorting.InsertBackKeepsLevelOrder` | src/components/DataTable/utils.js:27 | an insertion keeps the order among elements level with one another |
| `Sorting.SortIsStable` | src/components/DataTable/utils.js:27 | the sort is stable: level elements keep their relative order |
| `Sorting.InsertBackAt` | src/components/DataTable/utils.js:27 | where the inserted element lands |
| `Sorting.InsertionSortedStep` | src/components/DataTable/utils.js:27 | sorting one element more is one insertion step |
| `Sorting.SortInPlace` | src/components/DataTable/utils.js:27 | sorting the array in place leaves the sorted sequence of its old contents |
| `Sorting.InsertLast` | src/components/DataTable/utils.js:27 | one pass inserts `a[i]` into the sorted prefix and leaves the rest alone |
| `SortDropdown.DecodeWithoutColon` | src/components/DataTable/SortDropdown.jsx:8-11 | a value without ':' is all key, with an undefined order |
| `SortDropdown.DecodeEncode` | src/components/DataTable/SortDropdown.jsx:8-16 | decoding the shown value gives back the key and order |
| `SortDropdown.DecodePlaceholder` | src/components/DataTable/SortDropdown.jsx:8-19 | the placeholder decodes to an empty key and no order |
| `SortDropdown.Options` | src/components/DataTable/SortDropdown.jsx:19-25 | the placeholder first, then two options per column |
| `SortDropdown.OptionsAt` | src/components/DataTable/SortDropdown.jsx:20-24 | column i contributes `key:asc` at 2i+1 and `key:desc` at 2i+2 |
| `SortDropdown.KeyOptionsDecode` | src/components/DataTable/SortDropdown.jsx:8-23 | a key's two options decode to that key with "asc" and "desc" |
| `SortDropdown.OptionsDecode` | src/components/DataTable/SortDropdown.jsx:8-25 | choosing a column's option reports that column's key and order |
| `PaginationControls.Click` | src/components/DataTable/PaginationControls.jsx:11-22 | a click fires iff its button is enabled, and moves one page back or forward |
| `PaginationControls.ClickStaysInRange` | src/components/DataTable/PaginationControls.jsx:11-22 | from a page in 1..total, a click lands in 1..total; Previous is off exactly on page 1, Next exactly on the last |
| `PaginationControls.NoPages` | src/components/DataTable/PaginationControls.jsx:17-21 | with no pages Next is off and the label reads "0 of 0" |
| `PaginationInfo.Describe` | src/components/DataTable/PaginationInfo.jsx:15-29 | the total shown is the filtered count; the suffix appears iff there is a search |
| `PaginationInfo.DefaultsShowNothing` | src/components/DataTable/PaginationInfo.jsx:16-21 | with no props: "Showing 0 to 0 of 0 entries" |
| `PaginationInfo.RangeCoversPage` | src/components/DataTable/PaginationInfo.jsx:24-25 | a non-empty page is shown as the 1-based positions of its first and last rows; an empty page starts at 0 |
| `DataTable.DefaultRangeSpansNinetyDays` | src/components/DataTable/DataTable.jsx:22-31 | the range is the ISO text of the calendar date 90 days before the instant's day, then the ISO text of the instant's own date |
| `DataTable.DefaultRangeIsIso` | src/components/DataTable/DataTable.jsx:28-29 | for years 0..9999 both ends are YYYY-MM-DD and read back as the year, month and day of their dates |
| `DataTable.CeilDiv` | src/components/DataTable/DataTable.jsx:81 | `Math.ceil(n / d)`: the least q with n ≤ q·d |
| `DataTable.TotalPagesFor` | src/components/DataTable/DataTable.jsx:81 | there is always at least one page |
| `DataTable.TotalPagesCoverRows` | src/components/DataTable/DataTable.jsx:81 | the pages hold every row, and every page before the last is full; no rows means one page |
| `DataTable.ProcessKeepsExactly` | src/components/DataTable/DataTable.jsx:63-72 | a row is shown iff it is a data row that passes both the search and the applied date range, and as often as it occurs in the data |
| `DataTable.NothingAppliedKeepsRows` | src/components/DataTable/DataTable.jsx:63-72 | in the initial state the table holds the data as given |
| `DataTable.SortKeepsCount` | src/components/DataTable/DataTable.jsx:70 | the sort key and order do not change how many rows there are |
| `DataTable.PageStartsWithinRows` | src/components/DataTable/DataTable.jsx:75-81 | a page within the pages starts before the end of the rows |
| `DataTable.PageWithinPagesShowsRows` | src/components/DataTable/DataTable.jsx:75-81 | a page within the pages shows at least one row when there are rows, and at most a page of them |
| `DataTable.Table.PageInRangeShowsRows` | src/components/DataTable/DataTable.jsx:75-81 | in a state whose page is in range, some row is on screen whenever any row passes the filters |
| `DataTable.Table.FirstPageShowsLeadingRows` | src/components/DataTable/DataTable.jsx:75-78 | page 1 shows the leading rows, as many as fit |
| `DataTable.Table.constructor` | src/components/DataTable/DataTable.jsx:33-43 | the initial state; the table shows all the data, and page 1 is in range |
| `DataTable.Table.SetSearch` | src/components/DataTable/DataTable.jsx:88 | only the search changes; the page is kept |
| `DataTable.Table.SetFromDate` | src/components/DataTable/DataTable.jsx:93 | only the pending start date changes; the rows on screen are unchanged |
| `DataTable.Table.SetToDate` | src/components/DataTable/DataTable.jsx:94 | only the pending end date changes; the rows on screen are unchanged |
| `DataTable.Table.HandleDateSearch` | src/components/DataTable/DataTable.jsx:46-50 | the pending range is applied and the page becomes 1, which is in range |
| `DataTable.Table.HandleDateReset` | src/components/DataTable/DataTable.jsx:53-60 | the pending and applied ranges become the default range, and the page becomes 1 |
| `DataTable.Table.OnSort` | src/components/DataTable/DataTable.jsx:107-114 | the same column flips its order; another column sorts ascending; an in-range page stays in range |
| `DataTable.Table.SetRowsPerPage` | src/components/DataTable/DataTable.jsx:122 | only the page size changes; the page is kept |
| `DataTable.Table.ChangePage` | src/components/DataTable/DataTable.jsx:131-135 | the page moves as the enabled button says, and stays in range |
| `DataTable.Table.SetSearchFromFirstPage` | src/components/DataTable/DataTable.jsx:88 | a search that goes back to page 1 always leaves the page in range |
| `DataTable.Table.SetRowsPerPageFromFirstPage` | src/components/DataTable/DataTable.jsx:122 | a page-size change that goes back to page 1 always leaves the page in range |
| `DataTable.Table.Render` | src/components/DataTable/DataTable.jsx:63-78 | computes the rows on screen, sorting a copy in place |
| `DataTable.SearchStrandsPage` | src/components/DataTable/DataTable.jsx:81-88 | a search from page 2 of 2 leaves an empty page 2 of 1, with Next still enabled |
| `DataTable.SearchFindsOneRow` | src/components/DataTable/utils.js:7-16 | searching "x" keeps the one row holding "x" |
| `DataTable.RowsPerPageStrandsPage` | src/components/DataTable/DataTable.jsx:122 | twelve rows on page 3 of 3 at five a page: at fifty a page there is one page, and page 3 is empty |
| `LegacyDataTable.CompareValues` | src/components/DataTable.jsx:36-43 | two numbers compare by sign of difference, NaN level; otherwise lower-cased text order |
| `LegacyDataTable.CompareRows` | src/components/DataTable.jsx:33-45 | the result is −1, 0 or 1, and it is 0 exactly when the two values are level, whatever the order |
| `LegacyDataTable.CompareRowsAntisymmetric` | src/components/DataTable.jsx:33-45 | swapping the two rows flips the comparator's sign, for every order |
| `LegacyDataTable.ProcessedKeepsExactly` | src/components/DataTable.jsx:17-50 | exactly the rows passing the search, each as often as in the data |
| `LegacyDataTable.SortKeepsCount` | src/components/DataTable.jsx:31-47 | sorting does not change how many rows there are |
| `LegacyDataTable.UndefinedOrderSortsDescending` | src/components/DataTable.jsx:78-80 | an undefined order sorts like "desc", which mirrors "asc" |
| `LegacyDataTable.NumericColumnPreorder` | src/components/DataTable.jsx:37-38 | on a column of numbers the comparator is a total preorder |
| `LegacyDataTable.NumericColumnSorted` | src/components/DataTable.jsx:31-47 | a column of numbers comes out ascending for "asc" and descending otherwise |
| `LegacyDataTable.SortedCopy` | src/components/DataTable.jsx:31-32 | without a search the table holds the sorted copy |
| `LegacyDataTable.SortKeepsNumericColumn` | src/components/DataTable.jsx:32 | sorting a column of numbers keeps it a column of numbers |
| `LegacyDataTable.CompareNumbers` | src/components/DataTable.jsx:37-45 | two numbers compare numerically, reversed unless "asc" |
| `LegacyDataTable.TextColumnPreorder` | src/components/DataTable.jsx:39-43 | on a column of non-numbers the comparator is a total preorder |
| `LegacyDataTable.TextColumnSorted` | src/components/DataTable.jsx:31-47 | a column of non-numbers comes out in lower-cased text order, reversed unless "asc" |
| `LegacyDataTable.CompareTexts` | src/components/DataTable.jsx:39-45 | two non-numbers compare as lower-cased text, reversed unless "asc" |
| `LegacyDataTable.DropdownValue` | src/components/DataTable.jsx:84-86 | the dropdown shows "" exactly when no key is set |
| `LegacyDataTable.DecodeKeyOrder` | src/components/DataTable.jsx:77-80 | `key-order` decodes to that key and order |
| `LegacyDataTable.DropdownRoundTrip` | src/components/DataTable.jsx:72-86 | choosing the shown value gives the sort back; with no key it becomes ascending |
| `LegacyDataTable.OptionsSelectColumn` | src/components/DataTable.jsx:110-120 | a column's two options select that column with "asc" and "desc" |
| `LegacyDataTable.SortRows` | src/components/DataTable.jsx:32-46 | sorts a fresh copy in place, giving the insertion-sorted rows |
| `LegacyDataTable.Table.constructor` | src/components/DataTable.jsx:10-14 | the initial state; all data shown; the dropdown on the placeholder |
| `LegacyDataTable.Table.SetSearch` | src/components/DataTable.jsx:58-61 | the search changes; the page becomes 1 iff the search changed; an in-range page stays in range |
| `LegacyDataTable.Table.SetSort` | src/components/DataTable.jsx:58-61 | the sort changes; the page becomes 1 iff the sort changed |
| `LegacyDataTable.Table.HandleSort` | src/components/DataTable.jsx:63-70 | the sorted column flips "asc" to "desc", anything else to "asc"; another column sorts ascending; back to page 1 |
| `LegacyDataTable.Table.HandleSortDropdownChange` | src/components/DataTable.jsx:72-82 | the sort becomes what the value decodes to; page 1 iff it changed |
| `LegacyDataTable.Table.SetRowsPerPage` | src/components/DataTable.jsx:58-61 | the page size changes; page 1 iff it changed |
| `LegacyDataTable.Table.ChangePage` | src/components/DataTable.jsx:197-217 | the page moves as the enabled button says, and stays in range |
| `LegacyDataTable.Table.InfoCoversPage` | src/components/DataTable.jsx:190-195 | the info line counts the page's rows by position and the filtered total; the suffix appears iff there is a search |
| `LegacyDataTable.Table.PageInRangeShowsRows` | src/components/DataTable.jsx:53-56 | a page in range shows some row whenever any row passes the search, and at most a page |
| `LegacyDataTable.Table.Render` | src/components/DataTable.jsx:17-56 | computes the rows on screen |

## Left out

- Fetching the transactions, loading and error states, logging and every rendered element other than the numbers and strings modelled above. This includes table headers, arrows, the empty-state message and CSS.
- `new Date(string)` is a parameter, because the engine parses strings its own way. The timezone is fixed to UTC and the locale to en-US. The default date range takes its instant (`DataTable.DefaultRange`) or its value (`constructor`, `HandleDateReset`) as a parameter instead of reading the clock.
- `localeCompare` is modelled as code-unit order, and `toLowerCase` lowers ASCII letters only. There is no Unicode collation or case mapping.
- Numbers are finite reals and `NaN`. The model leaves out IEEE rounding, `Infinity` and `-0`.
- `isNaN` and `Number` coercion of numeric strings are left out. Only number values count as numeric, so a column of strings such as "10" sorts as text.
- `String(x)` for a number writes its exact decimal expansion. JavaScript's shortest round-trip form and exponent notation are not modelled.
- Type checks against arrays and `Date` objects (`Array.isArray`, `instanceof Date`) are reduced to `Rows`/`Absent` and to string values. A row never holds a `Date` object.
- React's extra render between a state change and the legacy table's page-reset effect is collapsed. The reset happens within the same handler, exactly when a watched value changed.
- `DataTable/DateFilter.jsx` never calls `onSearchClick`, so `handleDateSearch` cannot be reached from the screen. `DataTable.Table.HandleDateSearch` models the handler as the component defines it.
- `TableUtils.SortSorts`, `TableUtils.NumericColumnSorted`, `TableUtils.TextColumnSorted` and `TableUtils.DateColumnSorted` prove sortedness only for columns of one kind: all numbers, all strings, or all valid dates. On mixed columns the comparator is not a consistent order, and JavaScript's `sort` result is then implementation-defined.
- `Sorting.SortInPlace` fixes one algorithm, a stable insertion sort. `Array.prototype.sort` is stable but does not fix an algorithm. Every stable sort gives the same result under a total preorder.
- `LegacyDataTable.DecodeDropdown` is correct only for keys without '-'. `split("-")` cuts such a key at its first dash, so the round-trip lemmas require keys without '-'.
- `SortDropdown.Decode` is correct only for keys and orders without ':', for the same reason.
- `Dates.DaysFromCivil` and `Dates.CivilFromDays` are proved inverse on calendar dates (`Dates.CivilRoundTrip`), but not checked against an independent count of days, such as one summing `Dates.DaysInMonth` month by month.
- `RewardsTable.KeysHaveTotals` lists the customers in first-seen order. `Object.values` lists integer-like keys first, in ascending order, so the order of the totals list is not modelled for such ids.
- `RewardsTable.AddPoints` models the plain-object lookup `totals[customerId]` as a lookup in a fresh map. Ids that name inherited properties of `Object.prototype`, such as "constructor", "toString" or "__proto__", behave differently in JavaScript and are not modelled.
- The `TableBody`, `TableHeader`, `SearchBar`, `RowsPerPageSelector` and `DateFilter` components are not part of this model beyond the callbacks they fire.

## Findings

In the newer table, the date filter's handlers send the view back to page 1 (lines 49 and 59 of `src/components/DataTable/DataTable.jsx`). The search box and the page-size selector do not, although the component's documented behaviour is that every filter change returns to page 1. The model follows the code and records the two gaps here. Sorting a column (`handleSort`, lines 107-114) also keeps the page, but that is harmless: sorting keeps the number of rows, so a page in range stays in range (`DataTable.Table.OnSort`).

| source | as written | input that shows it | evidently intended | confidence | as-written member | corrected member |
|---|---|---|---|---|---|---|
| src/components/DataTable/DataTable.jsx:88 | typing a search keeps the current page | 6 rows, 5 a page, on page 2; searching "x" leaves one row, so there is 1 page; page 2 is empty and Next is enabled | a new search starts from page 1, as the date filter does (lines 49, 59) | not executed | `DataTable.SearchStrandsPage` (on `DataTable.Table.SetSearch`) | `DataTable.Table.SetSearchFromFirstPage` |
| src/components/DataTable/DataTable.jsx:122 | choosing a page size keeps the current page | 12 rows, 5 a page, on page 3; at 50 a page there is 1 page and page 3 is empty | a new page size starts from page 1 | not executed | `DataTable.RowsPerPageStrandsPage` (on `DataTable.Table.SetRowsPerPage`) | `DataTable.Table.SetRowsPerPageFromFirstPage` |
