# Publishing dashboard: sheet rows, contract table, statistics and release calendar

This project models the dashboard of a book publisher's contract sheet. The page loads the
sheet as a Google Visualization feed. It cuts the feed's `prefix(` … `);` envelope off and
zips each body row with the header labels into a row, a map from column label to text. It
keeps the columns on an allow-list. Only accounts of the company's mail domain see the
result. Two views are modelled:

- **The contract table.** Rows with a title are grouped by the year of their contract date,
  and the years are listed newest first. Each cell is rendered by the kind of its column:
  - sheet date literals `Date(Y,M,D)` and `Date(Y,M)` become `YYYY-MM-DD` or `YYYY-MM`;
  - amounts become `₩` plus digit groups.

  A click on a column header sorts that year's rows by the column, and a second click on it
  reverses the direction. A statistics panel shows, for each year:
  - the number of contracts;
  - the total sales;
  - the rounded average price;
  - the largest and smallest positive sales and copy counts.
- **The release calendar.** Every titled row's pre-sale date and print date is indexed by
  month and day. The years that occur are listed newest first, and a default year is
  chosen. Each month of the chosen year is laid out as Sunday-first weeks, with the list of
  titles of each kind underneath.

The modules follow the source files, with shared helpers on their own:

- `Page` models `page.tsx`.
- `ItemTable` models `itemtable.tsx`.
- `Statistics` models `statisticsitemtable.tsx`.
- `Calendar` models `calendar.tsx`.
- `Sheet` holds the row type. `Sequences` holds sequence utilities.
- `Text` holds digit strings, `parseFloat` on integers and `toLocaleString`.
- `DateLiterals` is the recogniser of the two date-literal patterns.
- `Gregorian` is the proleptic Gregorian calendar of `new Date(y, m, d)`, with roll-over.
- `Sorting` is the stable sort `Array.prototype.sort` performs. It is given both as a
  function and as an in-place array method.

The source has no classes. Its only mutable state is React state, whose updates are pure
functions of the previous state. So the state updates are modelled as functions.

The loops that build values step by step are methods proved equal to the functions that
specify them:
- the year grouping;
- the sorted copy of the rows;
- the date index;
- the set of years;
- the month cells and the week split;
- the zipping of a row.

Choices worth knowing:
- A missing cell and an empty cell are the same for every `row[c] || ""` in the source.
  Here both are `Sheet.CellText(row, c) == ""`.
- `parseFloat(s.replace(/,/g, ""))` is `Text.NumberValue`: commas are removed, leading
  whitespace (every character JavaScript's `\s` names) is skipped, then an optional sign and
  a maximal run of digits are read. A `.` and a digit right after the sign read as integer
  part 0, as `parseFloat(".5")` has integer part 0. It is `None` (NaN) when neither a digit
  nor `.` and a digit follows.
- `new Date(y, m, d)` with `0 <= y <= 99` means the year `1900 + y`, as in JavaScript
  (`Gregorian.FullYear`).
- A feed row with more cells than there are header labels writes its extra cells under the
  key `"undefined"`, because `cols[idx]` is `undefined` there (`Page.Label`).
- Neither Dafny nor this model treats `null` specially. A sort state entry of `null` is
  an absent key. A `null` feed cell is `FeedCell.NullCell`.

## Model

| member | source | states |
|---|---|---|
| ItemTable.FirstFourDigits | src/app/components/itemtable.tsx:17 | the result is the leftmost position from `from` where four digits start, and nothing means no four digits occur from `from` on |
| ItemTable.GetYear | src/app/components/itemtable.tsx:14-19 | a year exists exactly when the text holds four consecutive digits; it is four digits and is the leftmost such run |
| ItemTable.YearOfDayLiteral | src/app/components/itemtable.tsx:14-19 | a contract date written as `Date(YYYY,M,D)` is filed under `YYYY` |
| DateLiterals.ParseDay | src/app/components/itemtable.tsx:35 | whatever `^Date\((\d{4}),(\d{1,2}),(\d{1,2})\)$` accepts is a well-formed literal that prints back as the input |
| DateLiterals.ParseMonth | src/app/components/itemtable.tsx:44 | whatever `^Date\((\d{4}),(\d{1,2})\)$` accepts is a well-formed literal that prints back as the input |
| DateLiterals.ParseRenderedDay | src/app/components/itemtable.tsx:35 | every well-formed day literal is accepted and its three groups are captured exactly |
| DateLiterals.ParseRenderedMonth | src/app/components/itemtable.tsx:44 | every well-formed year-month literal is accepted and its two groups are captured exactly |
| DateLiterals.LiteralsDisjoint | src/app/components/itemtable.tsx:35-49 | no text matches both the day pattern and the month pattern, so the order of the two checks does not matter |
| ItemTable.FormatDateString | src/app/components/itemtable.tsx:29-51 | the text is changed exactly when it is a day literal or a month literal |
| ItemTable.FormatDayLiteral | src/app/components/itemtable.tsx:35-42 | a day literal is shown as an ISO date that reads back as its year, its month plus one and its day; month-only columns drop the day |
| ItemTable.FormatDayLiteralFields | src/app/components/itemtable.tsx:35-42 | with a month below 99, the display is the four year digits, `-`, two digits worth the month plus one and, unless month-only, `-` and two digits worth the day |
| ItemTable.FormatMonthLiteral | src/app/components/itemtable.tsx:44-49 | a month literal is shown as `YYYY-MM` that reads back as its year and its month plus one, in 7 characters when the month is below 99 |
| Text.TwoDigit | src/app/components/itemtable.tsx:38-39 | `String(n).padStart(2, "0")` is digits whose value is `n`, exactly two of them when `n < 100` |
| Text.NumberValue | src/app/components/itemtable.tsx:55 | a non-empty run of digits, `parseFloat` after the commas are removed, reads as the number it writes |
| Text.ParseLeadingNumeral | src/app/components/itemtable.tsx:55 | `parseFloat` skips leading white space, takes an optional sign, and reads the digits up to the first non-digit as their signed value, whatever follows |
| Text.NumberValueOfNumeral | src/app/components/itemtable.tsx:55 | a cell holding white space, an optional sign, digits grouped by commas and any text after them (`"1,000원"`, `" -12abc"`) shows the signed value of those digits |
| ItemTable.FormatCurrency | src/app/components/itemtable.tsx:53-60 | text that does not read as a number is shown unchanged |
| ItemTable.FormatCurrencyReadsBack | src/app/components/itemtable.tsx:53-60 | text that reads as a number is shown as `₩` followed by a rendering that reads back as the same number |
| ItemTable.ProjectCell | src/app/components/itemtable.tsx:199-210 | a date column shows the full-date display of the cell; otherwise a month column shows its month-only display; otherwise a currency column shows its currency display; otherwise a day literal shows its full-date display and any other text is kept. A cell changes only if it holds a date literal or a number in a currency column |
| ItemTable.CurrencyColumnKeepsLiteral | src/app/components/itemtable.tsx:204-208 | in a currency column a day literal is shown as it is, because the currency rule comes before the day-literal rule and a literal is not a number |
| Text.LetterIsNotNumber | src/app/components/itemtable.tsx:55 | text starting with a capital letter, such as a date literal, does not read as a number |
| ItemTable.RowsOfYearMembers | src/app/components/itemtable.tsx:96-103 | a year's rows (`RowsOfYear`) are exactly the titled rows whose contract date has that year, kept in data order |
| ItemTable.RowsOfYearCount | src/app/components/itemtable.tsx:96-103 | a row occurs in its year's rows as often as in the data, and not at all in any other year's |
| ItemTable.CollectYears | src/app/components/itemtable.tsx:96-103 | the year map files every titled row with a contract year under that year, in data order; its key list holds each of the map's keys once, and each is a four-digit year |
| ItemTable.GroupByYear | src/app/components/itemtable.tsx:96-104 | a year is a key exactly when it has rows; each key maps to its rows in data order; the year list holds exactly the keys, strictly newest first |
| ItemTable.YearsDescending | src/app/components/itemtable.tsx:104 | sorting distinct four-digit years by `Number(b) - Number(a)` permutes them into strictly decreasing order |
| ItemTable.Toggle | src/app/components/itemtable.tsx:139 | the direction always changes |
| ItemTable.HandleHeaderClick | src/app/components/itemtable.tsx:130-150 | the year becomes sorted by the clicked column, reversed if it was already sorted by it and ascending otherwise; every other year keeps its sort |
| ItemTable.ClickTwiceRestores | src/app/components/itemtable.tsx:133-141 | two clicks on the column a year is sorted by give back the previous state |
| ItemTable.ClickCycle | src/app/components/itemtable.tsx:130-150 | repeated clicks on a new column sort ascending, then descending, then ascending |
| ItemTable.GetSortedRows | src/app/components/itemtable.tsx:110-127 | sorting a fresh array copy in place gives the rows unsorted when the year has no sort, and their stable sort by the year's comparator otherwise |
| ItemTable.SortedRows | src/app/components/itemtable.tsx:110-127 | the displayed rows are a permutation of the year's rows, whatever the locale comparison does; a year without a sort keeps data order |
| ItemTable.CompareRows | src/app/components/itemtable.tsx:114-122 | when both cells are numbers, the comparison is zero exactly for equal numbers and negative exactly when the first comes first in the direction asked |
| ItemTable.NumericComparator | src/app/components/itemtable.tsx:118-122 | when every cell of the column is a number, the comparator orders rows by their number, negated for descending |
| ItemTable.SortedRowsOrdered | src/app/components/itemtable.tsx:118-122 | on an all-numeric column the rows come out ascending or descending by value, as the direction says |
| ItemTable.SortedRowsStable | src/app/components/itemtable.tsx:114-122 | on an all-numeric column the rows of each value keep their data order, in both directions |
| Sorting.InsertionSortPermutes | src/app/components/itemtable.tsx:114 | the stable sort returns a permutation of its input for any comparator |
| Sorting.InsertionSortSorted | src/app/components/itemtable.tsx:114 | when the comparator orders by a key, the result is sorted by that key |
| Sorting.InsertionSortStable | src/app/components/itemtable.tsx:114 | when the comparator orders by a key, elements with equal keys keep their relative order |
| Sorting.InsertAt | src/app/components/itemtable.tsx:114 | one pass moves the element at `i` into the sorted prefix before it and leaves the rest of the array alone |
| Sorting.SortInPlace | src/app/components/itemtable.tsx:114 | sorting the array in place leaves in it the stable sort of its old contents |
| Statistics.ParseNumberOfLocaleString | src/app/components/statisticsitemtable.tsx:13-22 | an integer rendered with digit-group commas parses back to itself |
| Text.LocaleStringRoundTrip | src/app/components/statisticsitemtable.tsx:20-22 | the `ko-KR` grouping of an integer, with commas removed, reads back as the integer |
| Statistics.FormatWon | src/app/components/statisticsitemtable.tsx:20-22 | the display is `₩` followed by text that reads back as the amount |
| Statistics.FindColumn | src/app/components/statisticsitemtable.tsx:26-28 | the first column whose label contains the name, or the name itself when no label contains it |
| Statistics.PositivesMembers | src/app/components/statisticsitemtable.tsx:33 | `filter(n => n > 0)` keeps exactly the positive values |
| Statistics.PositiveValuesMembers | src/app/components/statisticsitemtable.tsx:33-36 | the positive values of a column are exactly the positive numbers of its cells |
| Statistics.Max | src/app/components/statisticsitemtable.tsx:34 | `Math.max` of a non-empty list is one of its elements and bounds all of them from above |
| Statistics.Min | src/app/components/statisticsitemtable.tsx:35 | `Math.min` of a non-empty list is one of its elements and bounds all of them from below |
| Statistics.ExtremesZero | src/app/components/statisticsitemtable.tsx:33-38 | the largest and smallest shown are 0 exactly when no cell of the column is positive |
| Statistics.ExtremesBound | src/app/components/statisticsitemtable.tsx:33-38 | otherwise they bound every positive cell from both sides and are themselves cell values |
| Statistics.Average | src/app/components/statisticsitemtable.tsx:32 | the average times the row count is the total, and it is 0 for no rows |
| Statistics.SummarizeFigures | src/app/components/statisticsitemtable.tsx:30-38 | the count is the number of rows, and the smallest and largest sales and copy counts are ordered and never negative |
| Statistics.ColumnTotalPermutation | src/app/components/statisticsitemtable.tsx:31-32 | the total of a column does not depend on row order |
| Statistics.SummarizePermutation | src/app/components/statisticsitemtable.tsx:26-38 | the whole panel is the same for any order of the same rows, so the table's sort does not affect it |
| Statistics.Round | src/app/components/statisticsitemtable.tsx:46 | `Math.round` gives the integer within half of the value, a half rounding up |
| Calendar.ParseDate | src/app/components/calendar.tsx:7-19 | a date exists exactly for a present, non-empty cell that is a day literal, and it is a valid calendar date |
| Calendar.ParseDateOfRendered | src/app/components/calendar.tsx:10-14 | a day literal is read as `new Date(Y, M, D)` with a zero-based month |
| Calendar.ParseDateInRange | src/app/components/calendar.tsx:10-14 | a literal naming a real day from year 100 on is read as exactly that day, month shifted by one |
| Gregorian.DaysInMonth | src/app/components/calendar.tsx:87 | every month has 28 to 31 days, and February has 29 exactly in leap years |
| Gregorian.Normalize | src/app/components/calendar.tsx:13 | an out-of-range day rolls over into a valid date |
| Gregorian.NormalizeDayNumber | src/app/components/calendar.tsx:13 | the rolled-over date is `d - 1` days after the first of the month |
| Gregorian.MakeDate | src/app/components/calendar.tsx:13 | `new Date(y, m, d)` is always a valid calendar date, whatever the month and day |
| Gregorian.MakeDateDayNumber | src/app/components/calendar.tsx:13 | `new Date(y, m, d)` is `d - 1` days after the first of month `m`, whole years carried out of `m` |
| Gregorian.DayNumberInjective | src/app/components/calendar.tsx:13 | two valid dates with the same day number are the same date, so the roll-over result is unique |
| Gregorian.MakeDateInRange | src/app/components/calendar.tsx:13 | in-range arguments from year 100 on give exactly that date |
| Gregorian.FirstOfMonth | src/app/components/calendar.tsx:86 | `new Date(year, i, 1)` is the first of month `i + 1` of the full year |
| Gregorian.LastDayOfMonth | src/app/components/calendar.tsx:87 | `new Date(year, month, 0)` is the last day of month `month`, leap years included |
| Gregorian.Weekday | src/app/components/calendar.tsx:86 | `getDay()` is a weekday from 0 (Sunday) to 6 |
| Gregorian.EpochWeekday | src/app/components/calendar.tsx:86 | 1 January 1970 is a Thursday |
| Gregorian.WeekdayNextDay | src/app/components/calendar.tsx:86 | the weekday of the next day is the next weekday, Saturday wrapping to Sunday |
| Calendar.RowEntries | src/app/components/calendar.tsx:24-36 | a row places its pre-sale entry, then its print entry, each exactly when the row has a title and the column holds a date |
| Calendar.EntriesInRowOrder | src/app/components/calendar.tsx:24-36 | within a day, entries of earlier rows come before those of later rows |
| Calendar.PlacementsOnRealDays | src/app/components/calendar.tsx:32-35 | every entry lands on a day from 1 to 31 |
| Calendar.IndexOfLookup | src/app/components/calendar.tsx:33-35 | looking up a month and day gives exactly the entries placed there, in placement order, and no stored day is empty |
| Calendar.IndexOfKeys | src/app/components/calendar.tsx:32-33 | a month key exists exactly when some entry is placed in that month |
| Calendar.GetDateMap | src/app/components/calendar.tsx:21-39 | the loops build exactly the index of all rows' entries |
| Calendar.RowYearsMembers | src/app/components/calendar.tsx:44-47 | a row contributes a year exactly when one of its two date columns, titled or not, holds a date in it |
| Calendar.DateYearsMembers | src/app/components/calendar.tsx:43-48 | a year occurs exactly when some row contributes it |
| Calendar.YearsNewestFirst | src/app/components/calendar.tsx:50 | sorting distinct years by `b - a` permutes them into strictly decreasing order |
| Calendar.GetYearsFromData | src/app/components/calendar.tsx:41-51 | the list holds exactly the years that occur, strictly newest first |
| Calendar.AddRowYears | src/app/components/calendar.tsx:44-47 | adding a row's years to the set keeps it duplicate-free and adds exactly those years |
| Calendar.ListNewestFirst | src/app/components/calendar.tsx:50 | `Array.from(set).sort((a, b) => b - a)` has the set's years, strictly decreasing |
| Calendar.DefaultYearIsNewest | src/app/components/calendar.tsx:61-65 | when the current year has no dates, the default is the newest year that occurs |
| Calendar.MonthCellsLayout | src/app/components/calendar.tsx:84-132 | a month's grid (`MonthCells`) is as many blanks as the weekday of the 1st, then each day of the month once, in order, carrying its marks |
| Calendar.MonthFitsSixWeeks | src/app/components/calendar.tsx:84-137 | a month's grid has at most 42 cells, so at most six weeks |
| Calendar.BuildMonthCells | src/app/components/calendar.tsx:85-132 | the two loops build exactly the month's cells |
| Calendar.PushBlanks | src/app/components/calendar.tsx:93 | the loop pushes `firstDay` blank cells |
| Calendar.PushDays | src/app/components/calendar.tsx:94-132 | the loop appends days 1 to `lastDate`, each with its marks |
| Calendar.SplitWeeks | src/app/components/calendar.tsx:134-137 | the loop cuts the cells into consecutive slices of seven |
| Sequences.ChunksFlatten | src/app/components/calendar.tsx:134-137 | the weeks put back together are the cells, none lost, none repeated |
| Sequences.ChunksShape | src/app/components/calendar.tsx:134-137 | every week but the last has seven cells; the last has one to seven |
| Calendar.YearGrid | src/app/components/calendar.tsx:84-137 | twelve months of one to six weeks each; every week but the last has seven cells, the last one to seven, and the weeks put together are that month's cells |
| Calendar.OfKindMembers | src/app/components/calendar.tsx:160-162 | filtering by kind keeps exactly the marks of that kind |
| Calendar.OfKindCount | src/app/components/calendar.tsx:160-162 | filtering by kind keeps each mark of that kind as often as it occurs, and drops the others |
| Calendar.MarksFromMembers | src/app/components/calendar.tsx:160-178 | a kind's title list holds exactly the month's marks of that kind, from every day |
| Calendar.MarksFromInDayOrder | src/app/components/calendar.tsx:160-178 | the marks of a kind are the month's days' marks laid end to end, days ascending and each day in placement order, then filtered by kind |
| Calendar.MonthTitlesInDayOrder | src/app/components/calendar.tsx:160-178 | the titles listed for a kind are those of the month's marks of that kind, in day order then placement order, repeats kept |
| Page.FirstIndex | src/app/page.tsx:31 | the position of the first `(`, or nothing exactly when there is none |
| Page.AfterOpen | src/app/page.tsx:31 | `^[^\(]*\(` removes everything up to and including the first `(`, and nothing when there is no `(` |
| Page.DropClose | src/app/page.tsx:31 | `\);?$` removes a final `);` or `)` and otherwise nothing |
| Page.StripCallback | src/app/page.tsx:31 | a feed `prefix(body);` yields exactly `body` |
| Page.StripCall | src/app/page.tsx:31 | a feed `prefix(body)` yields exactly `body` |
| Page.StripEnvelope | src/app/page.tsx:31 | the result is a piece of the text, and text with no `(` and no closing `)` or `);` is kept whole |
| Page.ZipRow | src/app/page.tsx:35-37 | the loop builds exactly the row the assignments describe |
| Page.RowOfKeys | src/app/page.tsx:33-39 | a row's (`RowOf`) keys are exactly the labels of its cells' positions, `"undefined"` past the last label |
| Page.RowOfValues | src/app/page.tsx:35-37 | every value of a row is the value (`cell?.v ?? ""`) of a cell labelled with its key |
| Page.RowOfLastWriter | src/app/page.tsx:35-37 | when labels repeat, the last cell with a label gives its value |
| Page.LabelsPastCellsAbsent | src/app/page.tsx:35-36 | a label that names no cell of a short row is absent from it |
| Page.BuildRows | src/app/page.tsx:33-39 | one row per feed row, in order, each zipped from its cells, and each row's keys are exactly the labels of its cells' positions |
| Page.FilterColumns | src/app/page.tsx:46 | no more columns are shown than the sheet has, and each one shown is allowed |
| Page.FilterColumnsSelects | src/app/page.tsx:46 | the visible columns are exactly the allowed ones, in the sheet's order |
| Page.FilterColumnsCount | src/app/page.tsx:46 | an allowed column is shown as often as the sheet lists it, any other not at all |
| Page.HasAccess | src/app/page.tsx:74-75 | access needs a present address at least as long as the company suffix |
| Page.AccessExactly | src/app/page.tsx:74-75 | the dashboard is shown exactly to a present address ending in the company suffix |

## Left out

- Fetching the feed, `JSON.parse`, React rendering, state hooks and effects are left out. The feed arrives as header labels plus cells (`Page.BuildRows`). State updates are the functions they apply.
- The allow-list module `config/visibleColumns` is not part of this model. `Page.FilterColumns` takes the allowed labels as a parameter.
- The navbar, the "me" and mail views, the authentication route and the build configuration are outside the modelled core. The session's address enters `Page.HasAccess` as a parameter.
- `Text.NumberValue`: `parseFloat` is modelled on integers only. A fraction or exponent part is dropped after the integer digits (`"1.5"` reads as 1, `".5"` as 0), and `Infinity` is not recognised.
- `Text.LocaleString`: the `ko-KR` rendering is modelled for integers only, with a comma every three digits. No fraction digits are rendered.
- `Text.NumberValue`: the sign of negative zero is lost. `"-0"` reads as the integer 0, so `Statistics.FormatWon` and `ItemTable.FormatCurrency` show `₩0` where JavaScript's `toLocaleString` shows `₩-0`.
- `Text.NumberValue`: integers are unbounded. JavaScript numbers are doubles, so `parseFloat` and `toLocaleString` round integers above 2^53 to the nearest double. The model keeps them exact.
- `ItemTable.CompareRows`: `localeCompare` is a parameter. For a column with a non-numeric cell, only the permutation (`ItemTable.SortedRows`) is proved, not an order.
- `Sorting.InsertionSort`: engines implement `Array.prototype.sort` with other algorithms. The result is the same stable order whenever the comparator orders by a key, which is the case the ordering lemmas cover.
- `Calendar.ParseDate`: the fallback `new Date(dateStr)` for text other than a day literal is implementation-defined date parsing. It is modelled as no date.
- Time of day, time zones, and the today/past highlighting and tooltips of the calendar are left out. The current year enters `Calendar.DefaultYear` as a parameter.
- The year selector's `onChange` only sets the selected year. It is the `selected` parameter of `Calendar.DefaultYear` and the `year` parameter of `Calendar.YearGrid`.
- `Statistics.Summarize`: the average price is the exact quotient, a real. Its display rounds it with `Statistics.Round`. Floating-point error in the sums is not modelled.
- Cell values that are not strings (numbers and booleans in the feed) are not modelled. Every cell is text or absent.
- Colour tables, column widths, CSS classes, `Math.random` React keys and the `key` strings are rendering details with no effect on content. They are left out.
- The year list of the calendar counts untitled rows, but the date index does not. This asymmetry is modelled as written (`Calendar.RowYearsMembers`, `Calendar.RowEntries`).
