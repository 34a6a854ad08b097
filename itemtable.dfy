/**
 * The contract table: rows grouped by the year of their contract date, cells
 * rendered by column kind, and per-year sorting driven by header clicks.
 */
module ItemTable {
  import opened Wrappers
  import opened Text
  import opened DateLiterals
  import opened Sorting
  import opened Sequences
  import opened Sheet

  const ContractDateColumn := "계약일"

  /** Columns shown as full dates `YYYY-MM-DD`. */
  const DateColumns := ["계약일", "계약서 상 집필 완료일", "예판일", "하판 예정일(20일 기준)"]

  /** Columns shown as year and month `YYYY-MM`. */
  const MonthColumns := ["출간 예상월"]

  // ---------------------------------------------------------------- year of a date

  /** Four consecutive digits start at `i` in `s`. */
  predicate FourDigitsAt(s: string, i: int) {
    0 <= i && i + 4 <= |s| && AllDigits(s[i..i + 4])
  }

  /** The leftmost match of `/\d{4}/` at or after `from`. */
  function FirstFourDigits(s: string, from: nat): (r: Option<nat>)
    ensures r.Some? ==> from <= r.value && FourDigitsAt(s, r.value)
    ensures r.Some? ==> forall j :: from <= j < r.value ==> !FourDigitsAt(s, j)
    ensures r.None? ==> forall j :: from <= j ==> !FourDigitsAt(s, j)
    decreases |s| - from
  {
    if from + 4 > |s| then None
    else if FourDigitsAt(s, from) then Some(from)
    else FirstFourDigits(s, from + 1)
  }

  /**
   * `getYear`: the first run of four digits in the text, or nothing when the cell
   * is missing or empty or holds no such run.
   */
  function GetYear(dateStr: Option<string>): (r: Option<string>)
    ensures r.Some? <==> dateStr.Some? && exists i :: FourDigitsAt(dateStr.value, i)
    ensures r.Some? ==> YearNumeral(r.value)
    ensures r.Some? ==>
      exists i :: FourDigitsAt(dateStr.value, i) && dateStr.value[i..i + 4] == r.value &&
        forall j :: 0 <= j < i ==> !FourDigitsAt(dateStr.value, j)
  {
    if dateStr.None? || dateStr.value == "" then None
    else
      match FirstFourDigits(dateStr.value, 0)
      case None => None
      case Some(i) => Some(dateStr.value[i..i + 4])
  }

  /** A contract date written as a day literal is filed under the literal's year. */
  lemma YearOfDayLiteral(l: DayLiteral)
    requires WellFormedDay(l)
    ensures GetYear(Some(RenderDay(l))) == Some(l.year)
  {
    var s := RenderDay(l);
    assert s[..5] == "Date(" && s[5..9] == l.year;
    forall j | 0 <= j < 5
      ensures !FourDigitsAt(s, j)
    {
      if j == 0 {
        assert s[j..j + 4][0] == 'D';
      } else {
        assert s[j..j + 4][4 - j] == s[4] == '(';
      }
    }
    assert FourDigitsAt(s, 5);
  }

  // ---------------------------------------------------------------- date display

  /**
   * `formatDateString`: a day literal becomes `YYYY-MM-DD` (or `YYYY-MM` for a
   * month-only column) and a month literal `YYYY-MM`, with the zero-based month
   * raised by one and both fields padded to two digits; any other text is kept.
   */
  function FormatDateString(val: string, monthOnly: bool): (r: string)
    ensures r == val <==> ParseDay(val).None? && ParseMonth(val).None?
  {
    match ParseDay(val)
    case Some(l) =>
      assert val[0] == 'D';
      FormatDay(l, monthOnly)
    case None =>
      match ParseMonth(val)
      case Some(l) =>
        assert val[0] == 'D';
        FormatMonth(l)
      case None => val
  }

  /** `` `${y}-${mm}-${dd}` ``, or `` `${y}-${mm}` `` month-only: the display of a day literal. */
  function FormatDay(l: DayLiteral, monthOnly: bool): (r: string)
    requires WellFormedDay(l)
    ensures r != [] && IsDigit(r[0])
  {
    var month := TwoDigit(DigitsValue(l.month) + 1);
    if monthOnly then l.year + "-" + month
    else l.year + "-" + month + "-" + TwoDigit(DigitsValue(l.day))
  }

  /** `` `${y}-${mm}` ``: the display of a month literal. */
  function FormatMonth(l: MonthLiteral): (r: string)
    requires WellFormedMonth(l)
    ensures r != [] && IsDigit(r[0])
  {
    l.year + "-" + TwoDigit(DigitsValue(l.month) + 1)
  }

  /** The fields of a displayed date: year, month and, unless month-only, day. */
  datatype IsoDate = IsoDate(year: nat, month: nat, day: Option<nat>)

  /** Reads `YYYY-M…` or `YYYY-M…-D…` back into its numbers. */
  function ReadIso(s: string): Option<IsoDate> {
    if |s| < 5 || !AllDigits(s[..4]) || s[4] != '-' then None
    else ReadMonthDay(DigitsValue(s[..4]), s[5..])
  }

  /** Reads the `M…` or `M…-D…` after the year. */
  function ReadMonthDay(year: nat, t: string): Option<IsoDate> {
    var month := LeadingDigits(t);
    var rest := t[|month|..];
    if month == [] then None
    else if rest == [] then Some(IsoDate(year, DigitsValue(month), None))
    else if rest[0] == '-' && |rest| > 1 && AllDigits(rest[1..]) then
      Some(IsoDate(year, DigitsValue(month), Some(DigitsValue(rest[1..]))))
    else None
  }

  lemma ReadIsoYear(s: string, year: string, tail: string)
    requires YearNumeral(year) && s == year + "-" + tail
    ensures ReadIso(s) == ReadMonthDay(DigitsValue(year), tail)
  {
    assert s[..4] == year && s[4] == '-' && s[5..] == tail;
  }

  /** The digit run of `d + rest` is `d` when `rest` starts with something else. */
  lemma {:induction false} LeadingDigitsBeforeSeparator(d: string, rest: string)
    requires AllDigits(d) && rest != [] && !IsDigit(rest[0])
    ensures LeadingDigits(d + rest) == d
  {
    if d != [] {
      assert (d + rest)[1..] == d[1..] + rest;
      LeadingDigitsBeforeSeparator(d[1..], rest);
    }
  }


  /** Reading a displayed `year-month` gives back its numbers. */
  lemma ReadIsoOfMonth(s: string, year: string, month: string)
    requires YearNumeral(year) && AllDigits(month) && month != []
    requires s == year + "-" + month
    ensures ReadIso(s) == Some(IsoDate(DigitsValue(year), DigitsValue(month), None))
  {
    ReadIsoYear(s, year, month);
    AllDigitsAreLeading(month);
  }

  /** Reading a displayed `year-month-day` gives back its numbers. */
  lemma ReadIsoOfDay(s: string, year: string, month: string, day: string)
    requires YearNumeral(year) && AllDigits(month) && month != [] && AllDigits(day) && day != []
    requires s == year + "-" + month + "-" + day
    ensures ReadIso(s) == Some(IsoDate(DigitsValue(year), DigitsValue(month), Some(DigitsValue(day))))
  {
    var tail := month + ("-" + day);
    assert s == year + "-" + tail;
    ReadIsoYear(s, year, tail);
    ReadMonthAndDay(DigitsValue(year), month, "-" + day);
  }

  lemma ReadMonthAndDay(year: nat, month: string, rest: string)
    requires AllDigits(month) && month != []
    requires |rest| > 1 && rest[0] == '-' && AllDigits(rest[1..])
    ensures ReadMonthDay(year, month + rest) == Some(IsoDate(year, DigitsValue(month), Some(DigitsValue(rest[1..]))))
  {
    LeadingDigitsBeforeSeparator(month, rest);
    assert (month + rest)[|month|..] == rest;
  }

  /**
   * A day literal `Date(Y,M,D)` is displayed as year `Y`, month `M + 1` and day `D`,
   * the day dropped in a month-only column.
   */
  lemma FormatDayLiteral(l: DayLiteral, monthOnly: bool)
    requires WellFormedDay(l)
    ensures ReadIso(FormatDateString(RenderDay(l), monthOnly)) ==
      Some(IsoDate(DigitsValue(l.year), DigitsValue(l.month) + 1,
                   if monthOnly then None else Some(DigitsValue(l.day))))
  {
    ParseRenderedDay(l);
    FormatDayReads(l, monthOnly);
  }

  lemma FormatDayReads(l: DayLiteral, monthOnly: bool)
    requires WellFormedDay(l)
    ensures ReadIso(FormatDay(l, monthOnly)) ==
      Some(IsoDate(DigitsValue(l.year), DigitsValue(l.month) + 1,
                   if monthOnly then None else Some(DigitsValue(l.day))))
  {
    var month := TwoDigit(DigitsValue(l.month) + 1);
    if monthOnly {
      MonthOnlyReads(l, month);
    } else {
      FullDayReads(l, month, TwoDigit(DigitsValue(l.day)));
    }
  }

  lemma MonthOnlyReads(l: DayLiteral, month: string)
    requires WellFormedDay(l)
    requires month == TwoDigit(DigitsValue(l.month) + 1)
    ensures ReadIso(FormatDay(l, true)) == Some(IsoDate(DigitsValue(l.year), DigitsValue(l.month) + 1, None))
  {
    var r := FormatDay(l, true);
    assert r == l.year + "-" + month;
    ReadIsoOfMonth(r, l.year, month);
  }

  lemma FullDayReads(l: DayLiteral, month: string, day: string)
    requires WellFormedDay(l)
    requires month == TwoDigit(DigitsValue(l.month) + 1) && day == TwoDigit(DigitsValue(l.day))
    ensures ReadIso(FormatDay(l, false)) ==
      Some(IsoDate(DigitsValue(l.year), DigitsValue(l.month) + 1, Some(DigitsValue(l.day))))
  {
    var r := FormatDay(l, false);
    assert r == l.year + "-" + month + "-" + day;
    ReadIsoOfDay(r, l.year, month, day);
  }

  /**
   * Whenever `M + 1` has two digits, the display of a day literal is `YYYY-MM-DD`
   * (`YYYY-MM` month-only): the year, then month and day padded to two digits,
   * separated by dashes.
   */
  lemma FormatDayLiteralFields(l: DayLiteral, monthOnly: bool)
    requires WellFormedDay(l) && DigitsValue(l.month) < 99
    ensures var r := FormatDateString(RenderDay(l), monthOnly);
      |r| == (if monthOnly then 7 else 10) && r[..4] == l.year && r[4] == '-' &&
      AllDigits(r[5..7]) && DigitsValue(r[5..7]) == DigitsValue(l.month) + 1 &&
      (!monthOnly ==> r[7] == '-' && AllDigits(r[8..10]) && DigitsValue(r[8..10]) == DigitsValue(l.day))
  {
    ParseRenderedDay(l);
    assert FormatDateString(RenderDay(l), monthOnly) == FormatDay(l, monthOnly);
    FormatDayFields(l, monthOnly, TwoDigit(DigitsValue(l.month) + 1));
  }

  lemma FormatDayFields(l: DayLiteral, monthOnly: bool, month: string)
    requires WellFormedDay(l) && DigitsValue(l.month) < 99
    requires month == TwoDigit(DigitsValue(l.month) + 1)
    ensures var r := FormatDay(l, monthOnly);
      |r| == (if monthOnly then 7 else 10) && r[..4] == l.year && r[4] == '-' && r[5..7] == month &&
      (!monthOnly ==> r[7] == '-' && r[8..10] == TwoDigit(DigitsValue(l.day)))
  {
    ShortNumeralBelow100(l.day);
    var day := TwoDigit(DigitsValue(l.day));
    if monthOnly {
      DashedFields(l.year, month, []);
    } else {
      DashedFields(l.year, month, day);
    }
  }

  /** Where the fields of `` `${y}-${mm}` `` and `` `${y}-${mm}-${dd}` `` sit. */
  lemma DashedFields(year: string, month: string, day: string)
    requires |year| == 4 && |month| == 2 && (day == [] || |day| == 2)
    ensures var r := if day == [] then year + "-" + month else year + "-" + month + "-" + day;
      |r| == (if day == [] then 7 else 10) && r[..4] == year && r[4] == '-' && r[5..7] == month &&
      (day != [] ==> r[7] == '-' && r[8..10] == day)
  {
    var r := year + "-" + month;
    assert r[..4] == year && r[5..7] == month;
    if day != [] {
      var s := r + "-" + day;
      assert s == year + "-" + month + "-" + day;
      assert s[..7] == r && s[8..10] == day;
    }
  }

  /** A month literal `Date(Y,M)` is displayed as year `Y` and month `M + 1`, in any column. */
  lemma FormatMonthLiteral(l: MonthLiteral, monthOnly: bool)
    requires WellFormedMonth(l)
    ensures ReadIso(FormatDateString(RenderMonth(l), monthOnly)) ==
      Some(IsoDate(DigitsValue(l.year), DigitsValue(l.month) + 1, None))
    ensures var r := FormatDateString(RenderMonth(l), monthOnly);
      DigitsValue(l.month) < 99 ==>
        |r| == 7 && r[..4] == l.year && r[4] == '-' &&
        AllDigits(r[5..]) && DigitsValue(r[5..]) == DigitsValue(l.month) + 1
  {
    ParseRenderedMonth(l);
    LiteralsDisjoint(RenderMonth(l));
    MonthReads(l, TwoDigit(DigitsValue(l.month) + 1));
  }

  lemma {:induction false} MonthReads(l: MonthLiteral, month: string)
    requires WellFormedMonth(l)
    requires month == TwoDigit(DigitsValue(l.month) + 1)
    ensures ReadIso(FormatMonth(l)) == Some(IsoDate(DigitsValue(l.year), DigitsValue(l.month) + 1, None))
    ensures DigitsValue(l.month) < 99 ==>
      |FormatMonth(l)| == 7 && FormatMonth(l)[..4] == l.year && FormatMonth(l)[4] == '-' && FormatMonth(l)[5..] == month
  {
    var r := FormatMonth(l);
    assert r == l.year + "-" + month;
    assert ReadIso(r) == Some(IsoDate(DigitsValue(l.year), DigitsValue(l.month) + 1, None)) by {
      ReadIsoOfMonth(r, l.year, month);
    }
    assert r[..4] == l.year && r[5..] == month;
  }

  // ---------------------------------------------------------------- currency display

  /** `formatCurrency`: a cell that reads as a number is shown as `₩` and its ko-KR rendering. */
  function FormatCurrency(val: string): (r: string)
    ensures NumberValue(val).None? ==> r == val
  {
    match NumberValue(val)
    case Some(n) => "₩" + LocaleString(n)
    case None => val
  }

  /** The currency display of a number still reads as that number. */
  lemma FormatCurrencyReadsBack(val: string)
    requires NumberValue(val).Some?
    ensures FormatCurrency(val)[0] == '₩'
    ensures NumberValue(FormatCurrency(val)[1..]) == NumberValue(val)
  {
    var n := NumberValue(val).value;
    assert FormatCurrency(val)[1..] == LocaleString(n);
    LocaleStringRoundTrip(n);
  }

  /**
   * The text of one table cell. Date columns, then month columns, then currency
   * columns take precedence; in any other column only a day literal is rewritten.
   */
  function ProjectCell(row: Row, column: string, currencyColumns: seq<string>): (r: string)
    ensures var value := CellText(row, column);
      column in DateColumns ==> r == FormatDateString(value, false)
    ensures var value := CellText(row, column);
      column !in DateColumns && column in MonthColumns ==> r == FormatDateString(value, true)
    ensures var value := CellText(row, column);
      column !in DateColumns && column !in MonthColumns && column in currencyColumns ==> r == FormatCurrency(value)
    ensures var value := CellText(row, column);
      column !in DateColumns && column !in MonthColumns && column !in currencyColumns && ParseDay(value).Some? ==>
        r == FormatDateString(value, false)
    ensures var value := CellText(row, column);
      r != value ==> ParseDay(value).Some? || ParseMonth(value).Some? ||
                     (column in currencyColumns && NumberValue(value).Some?)
    ensures var value := CellText(row, column);
      (column !in DateColumns && column !in MonthColumns && column !in currencyColumns &&
       ParseDay(value).None?) ==> r == value
  {
    var value := CellText(row, column);
    if column in DateColumns then FormatDateString(value, false)
    else if column in MonthColumns then FormatDateString(value, true)
    else if column in currencyColumns then FormatCurrency(value)
    else if ParseDay(value).Some? then FormatDateString(value, false)
    else value
  }

  /**
   * In a currency column a date literal is not a number and so is shown as it is:
   * the currency rule takes precedence over the rewriting of day literals.
   */
  lemma CurrencyColumnKeepsLiteral(row: Row, column: string, currencyColumns: seq<string>)
    requires column !in DateColumns && column !in MonthColumns && column in currencyColumns
    requires ParseDay(CellText(row, column)).Some?
    ensures ProjectCell(row, column, currencyColumns) == CellText(row, column)
  {
    LiteralIsNotNumber(CellText(row, column));
  }

  /** A day literal starts with `D`, so it does not read as a number. */
  lemma LiteralIsNotNumber(value: string)
    requires ParseDay(value).Some?
    ensures NumberValue(value).None?
  {
    assert value[0] == 'D';
    LetterIsNotNumber(value);
  }

  // ---------------------------------------------------------------- grouping by year

  /** The year a row is filed under: that of its contract date. */
  function YearOf(row: Row): Option<string> {
    GetYear(Get(row, ContractDateColumn))
  }

  /** The row has a title and is filed under year `y`. */
  predicate InYear(row: Row, y: string) {
    HasTitle(row) && YearOf(row) == Some(y)
  }

  /** The rows of the table for year `y`, in data order. */
  function RowsOfYear(data: seq<Row>, y: string): seq<Row> {
    if data == [] then []
    else RowsOfYear(data[..|data| - 1], y) + (if InYear(data[|data| - 1], y) then [data[|data| - 1]] else [])
  }

  /** Each row appears in its year's table as often as in the data: duplicates are kept. */
  lemma {:induction false} RowsOfYearCount(data: seq<Row>, y: string, r: Row)
    ensures multiset(RowsOfYear(data, y))[r] == if InYear(r, y) then multiset(data)[r] else 0
  {
    if data != [] {
      var init := data[..|data| - 1];
      var last := data[|data| - 1];
      RowsOfYearCount(init, y, r);
      assert data == init + [last];
    }
  }

  /** A year's table holds exactly the titled rows of that year, in data order. */
  lemma {:induction false} RowsOfYearMembers(data: seq<Row>, y: string)
    ensures forall r :: r in RowsOfYear(data, y) <==> r in data && InYear(r, y)
    ensures IsSubsequence(RowsOfYear(data, y), data)
  {
    if data != [] {
      var init := data[..|data| - 1];
      var last := data[|data| - 1];
      var f := RowsOfYear(init, y);
      RowsOfYearMembers(init, y);
      assert data == init + [last];
      assert data[..|data| - 1] == init;
      if InYear(last, y) {
        assert RowsOfYear(data, y) == f + [last];
        assert (f + [last])[..|f|] == f;
      } else {
        assert RowsOfYear(data, y) == f;
      }
    }
  }

  /** `Number(y)` for a year key. */
  function YearValue(y: string): int {
    if AllDigits(y) then DigitsValue(y) else 0
  }

  /** The comparator `(a, b) => Number(b) - Number(a)` that orders the years. */
  function YearOrder(a: string, b: string): int {
    YearValue(b) - YearValue(a)
  }

  /**
   * The grouping step of the table: every titled row whose contract date holds a
   * year is appended to that year's list, and the years are sorted newest first.
   */
  method GroupByYear(data: seq<Row>) returns (yearMap: map<string, seq<Row>>, years: seq<string>)
    ensures forall y :: y in yearMap <==> RowsOfYear(data, y) != []
    ensures forall y :: y in yearMap ==> yearMap[y] == RowsOfYear(data, y)
    ensures forall y :: y in years <==> y in yearMap
    ensures forall i, j :: 0 <= i < j < |years| ==> YearValue(years[i]) > YearValue(years[j])
  {
    var keys;
    yearMap, keys := CollectYears(data);
    var a := new string[|keys|](k requires 0 <= k < |keys| => keys[k]);
    assert a[..] == keys;
    SortInPlace(a, YearOrder);
    years := a[..];
    YearsDescending(keys);
    forall y
      ensures y in years <==> y in keys
    {
      assert y in years <==> y in multiset(years);
      assert y in keys <==> y in multiset(keys);
    }
  }

  /** `yearMap` files the rows of `data` by year. */
  ghost predicate Files(yearMap: map<string, seq<Row>>, data: seq<Row>) {
    (forall y :: y in yearMap <==> RowsOfYear(data, y) != []) &&
    (forall y :: y in yearMap ==> yearMap[y] == RowsOfYear(data, y))
  }

  /** `keys` lists the years of `yearMap`, each once, and every one is a four-digit year. */
  ghost predicate Lists(keys: seq<string>, yearMap: map<string, seq<Row>>) {
    (forall y :: y in keys <==> y in yearMap) &&
    Distinct(keys) &&
    (forall k :: 0 <= k < |keys| ==> YearNumeral(keys[k]))
  }

  /**
   * `yearMap` files the rows of `data` by year and `keys` lists its years, each
   * once.
   */
  ghost predicate Grouped(yearMap: map<string, seq<Row>>, keys: seq<string>, data: seq<Row>) {
    Files(yearMap, data) && Lists(keys, yearMap)
  }

  /** The loop of the grouping step. */
  method CollectYears(data: seq<Row>) returns (yearMap: map<string, seq<Row>>, keys: seq<string>)
    ensures Grouped(yearMap, keys, data)
  {
    yearMap := map[];
    keys := [];
    for i := 0 to |data|
      invariant Grouped(yearMap, keys, data[..i])
    {
      assert data[..i + 1] == data[..i] + [data[i]];
      yearMap, keys := FileRow(yearMap, keys, data[..i], data[i]);
    }
    assert data[..|data|] == data;
  }

  /** The body of the `forEach`: a titled row with a year is pushed onto that year's list. */
  method FileRow(yearMap0: map<string, seq<Row>>, keys0: seq<string>, ghost done: seq<Row>, row: Row)
    returns (yearMap: map<string, seq<Row>>, keys: seq<string>)
    requires Grouped(yearMap0, keys0, done)
    ensures Grouped(yearMap, keys, done + [row])
  {
    yearMap, keys := yearMap0, keys0;
    var year := YearOf(row);
    if HasTitle(row) && year.Some? {
      var y := year.value;
      if y !in yearMap {
        keys := keys + [y];
      }
      var rowsSoFar := if y in yearMap then yearMap[y] else [];
      yearMap := yearMap[y := rowsSoFar + [row]];
      GroupedPush(yearMap0, keys0, done, row, y);
    } else {
      GroupedSkip(yearMap0, keys0, done, row);
    }
  }

  lemma GroupedSkip(yearMap: map<string, seq<Row>>, keys: seq<string>, done: seq<Row>, row: Row)
    requires Grouped(yearMap, keys, done)
    requires !HasTitle(row) || YearOf(row).None?
    ensures Grouped(yearMap, keys, done + [row])
  {
    RowsOfYearSnoc(done, row);
  }

  lemma GroupedPush(yearMap0: map<string, seq<Row>>, keys0: seq<string>, done: seq<Row>, row: Row, y: string)
    requires Grouped(yearMap0, keys0, done)
    requires HasTitle(row) && YearOf(row) == Some(y)
    ensures var rowsSoFar := if y in yearMap0 then yearMap0[y] else [];
      Grouped(yearMap0[y := rowsSoFar + [row]], if y in yearMap0 then keys0 else keys0 + [y], done + [row])
  {
    FilesPush(yearMap0, done, row, y);
    assert YearNumeral(y);
    ListsPush(keys0, yearMap0, y, (if y in yearMap0 then yearMap0[y] else []) + [row]);
  }

  lemma FilesPush(yearMap0: map<string, seq<Row>>, done: seq<Row>, row: Row, y: string)
    requires Files(yearMap0, done)
    requires InYear(row, y)
    ensures Files(yearMap0[y := (if y in yearMap0 then yearMap0[y] else []) + [row]], done + [row])
  {
    var yearMap := yearMap0[y := (if y in yearMap0 then yearMap0[y] else []) + [row]];
    var data := done + [row];
    RowsOfYearSnoc(done, row);
    forall y' | y' != y
      ensures RowsOfYear(data, y') == RowsOfYear(done, y')
    {
      assert !InYear(row, y');
    }
    assert RowsOfYear(data, y) == RowsOfYear(done, y) + [row];
    forall y'
      ensures y' in yearMap <==> RowsOfYear(data, y') != []
    {
    }
    forall y' | y' in yearMap
      ensures yearMap[y'] == RowsOfYear(data, y')
    {
    }
  }

  lemma ListsPush(keys0: seq<string>, yearMap0: map<string, seq<Row>>, y: string, rows: seq<Row>)
    requires Lists(keys0, yearMap0)
    requires YearNumeral(y)
    ensures Lists(if y in yearMap0 then keys0 else keys0 + [y], yearMap0[y := rows])
  {
    var keys := if y in yearMap0 then keys0 else keys0 + [y];
    if y !in yearMap0 {
      DistinctSnoc(keys0, y);
    }
    forall k | 0 <= k < |keys|
      ensures YearNumeral(keys[k])
    {
      if k < |keys0| {
        assert keys[k] == keys0[k];
      }
    }
  }

  lemma RowsOfYearSnoc(done: seq<Row>, row: Row)
    ensures forall y :: RowsOfYear(done + [row], y) == RowsOfYear(done, y) + (if InYear(row, y) then [row] else [])
  {
    assert (done + [row])[..|done|] == done;
  }

  /** Sorting distinct year keys with `YearOrder` puts them in strictly decreasing order. */
  lemma YearsDescending(keys: seq<string>)
    requires Distinct(keys)
    requires forall k :: 0 <= k < |keys| ==> YearNumeral(keys[k])
    ensures multiset(InsertionSort(keys, YearOrder)) == multiset(keys)
    ensures var years := InsertionSort(keys, YearOrder);
      forall i, j :: 0 <= i < j < |years| ==> YearValue(years[i]) > YearValue(years[j])
  {
    var years := InsertionSort(keys, YearOrder);
    InsertionSortPermutes(keys, YearOrder);
    var newestFirst := (y: string) => -YearValue(y);
    InsertionSortSorted(keys, YearOrder, newestFirst);
    DistinctPermutation(keys, years);
    forall i, j | 0 <= i < j < |years|
      ensures YearValue(years[i]) > YearValue(years[j])
    {
      assert years[i] in multiset(keys) && years[j] in multiset(keys);
      assert YearNumeral(years[i]) && YearNumeral(years[j]);
      if YearValue(years[i]) == YearValue(years[j]) {
        DigitsValueInjective(years[i], years[j]);
      }
    }
  }

  // ---------------------------------------------------------------- sort state

  datatype Direction = Asc | Desc

  /** How one year's table is sorted. */
  datatype ColumnSort = ColumnSort(column: string, direction: Direction)

  /** Year to its sort; a year without an entry shows its rows in data order. */
  type SortState = map<string, ColumnSort>

  function Toggle(d: Direction): (r: Direction)
    ensures r != d
  {
    if d == Asc then Desc else Asc
  }

  /**
   * `handleHeaderClick`: a click on the column the year is sorted by reverses the
   * direction; a click on any other column sorts by it ascending. Other years keep
   * their sort.
   */
  function HandleHeaderClick(prev: SortState, year: string, column: string): (next: SortState)
    ensures year in next && next[year].column == column
    ensures next[year].direction ==
      if year in prev && prev[year].column == column then Toggle(prev[year].direction) else Asc
    ensures forall y :: y != year ==> (y in next <==> y in prev)
    ensures forall y :: y != year && y in prev ==> next[y] == prev[y]
  {
    if year in prev && prev[year].column == column then
      prev[year := ColumnSort(column, Toggle(prev[year].direction))]
    else
      prev[year := ColumnSort(column, Asc)]
  }

  /** Two clicks on the sorted column give back the state before them. */
  lemma ClickTwiceRestores(prev: SortState, year: string, column: string)
    requires year in prev && prev[year].column == column
    ensures HandleHeaderClick(HandleHeaderClick(prev, year, column), year, column) == prev
  {
    var next := HandleHeaderClick(HandleHeaderClick(prev, year, column), year, column);
    assert next[year] == prev[year];
    assert next.Keys == prev.Keys;
  }

  /** Clicks on a new column sort ascending, then descending, then ascending again. */
  lemma ClickCycle(prev: SortState, year: string, column: string)
    requires year !in prev || prev[year].column != column
    ensures var s1 := HandleHeaderClick(prev, year, column);
      var s2 := HandleHeaderClick(s1, year, column);
      var s3 := HandleHeaderClick(s2, year, column);
      s1[year] == ColumnSort(column, Asc) && s2[year] == ColumnSort(column, Desc) &&
      s3[year] == ColumnSort(column, Asc)
  {
  }

  // ---------------------------------------------------------------- sorted rows

  /** The number a cell shows, or 0 when it does not read as one. */
  function CellNumber(row: Row, column: string): int {
    NumberValue(CellText(row, column)).GetOr(0)
  }

  /**
   * The comparator of `getSortedRows`: numeric when both cells read as numbers,
   * otherwise the locale comparison `collate` of the cell texts; `Desc` swaps the
   * operands.
   */
  function CompareRows(sort: ColumnSort, collate: (string, string) -> int, a: Row, b: Row): (r: int)
    ensures var x := NumberValue(CellText(a, sort.column));
      var y := NumberValue(CellText(b, sort.column));
      x.Some? && y.Some? ==>
        (r == 0 <==> x.value == y.value) &&
        (r < 0 <==> if sort.direction == Asc then x.value < y.value else y.value < x.value)
  {
    var av := CellText(a, sort.column);
    var bv := CellText(b, sort.column);
    match (NumberValue(av), NumberValue(bv))
    case (Some(x), Some(y)) => if sort.direction == Asc then x - y else y - x
    case _ => if sort.direction == Asc then collate(av, bv) else collate(bv, av)
  }

  function Comparator(sort: ColumnSort, collate: (string, string) -> int): (Row, Row) -> int {
    (a: Row, b: Row) => CompareRows(sort, collate, a, b)
  }

  /** The rows of a year's table as shown: in data order, or sorted by the year's sort. */
  function SortedRows(state: SortState, year: string, rows: seq<Row>, collate: (string, string) -> int): (r: seq<Row>)
    ensures multiset(r) == multiset(rows) && |r| == |rows|
    ensures year !in state ==> r == rows
  {
    if year !in state then rows
    else
      var cmp := Comparator(state[year], collate);
      InsertionSortPermutes(rows, cmp);
      var r := InsertionSort(rows, cmp);
      assert |r| == |multiset(r)| == |multiset(rows)| == |rows|;
      r
  }

  /** `getSortedRows`: sorts a copy of the rows in place; the rows passed in are left alone. */
  method GetSortedRows(state: SortState, year: string, rows: seq<Row>, collate: (string, string) -> int)
    returns (sorted: seq<Row>)
    ensures sorted == SortedRows(state, year, rows, collate)
  {
    if year !in state {
      return rows;
    }
    var a := new Row[|rows|](k requires 0 <= k < |rows| => rows[k]);
    assert a[..] == rows;
    SortInPlace(a, Comparator(state[year], collate));
    sorted := a[..];
  }

  /** Every row's cell in `column` reads as a number. */
  predicate AllNumeric(rows: seq<Row>, column: string) {
    forall r :: r in rows ==> NumberValue(CellText(r, column)).Some?
  }

  /** The key the comparator orders by when every cell is numeric. */
  function SortKey(sort: ColumnSort): Row -> int {
    (r: Row) => if sort.direction == Asc then CellNumber(r, sort.column) else -CellNumber(r, sort.column)
  }

  lemma NumericComparator(sort: ColumnSort, collate: (string, string) -> int, rows: seq<Row>)
    requires AllNumeric(rows, sort.column)
    ensures OrdersBy(Comparator(sort, collate), SortKey(sort), rows)
  {
  }

  /**
   * On a column whose cells are all numbers the rows come out ascending or
   * descending by value.
   */
  lemma SortedRowsOrdered(state: SortState, year: string, rows: seq<Row>, collate: (string, string) -> int)
    requires year in state && AllNumeric(rows, state[year].column)
    ensures var r := SortedRows(state, year, rows, collate);
      var column := state[year].column;
      forall i, j :: 0 <= i < j < |r| ==>
        if state[year].direction == Asc then CellNumber(r[i], column) <= CellNumber(r[j], column)
        else CellNumber(r[i], column) >= CellNumber(r[j], column)
  {
    var sort := state[year];
    var cmp := Comparator(sort, collate);
    var key := SortKey(sort);
    var r := InsertionSort(rows, cmp);
    NumericComparator(sort, collate, rows);
    InsertionSortSorted(rows, cmp, key);
    forall i, j | 0 <= i < j < |r|
      ensures if sort.direction == Asc then CellNumber(r[i], sort.column) <= CellNumber(r[j], sort.column)
        else CellNumber(r[i], sort.column) >= CellNumber(r[j], sort.column)
    {
      assert key(r[i]) <= key(r[j]);
    }
  }

  /**
   * Sorting by a numeric column is stable in both directions: the rows of any one
   * value keep their data order, so descending is not ascending reversed.
   */
  lemma SortedRowsStable(state: SortState, year: string, rows: seq<Row>, collate: (string, string) -> int, v: int)
    requires year in state && AllNumeric(rows, state[year].column)
    ensures var number := (row: Row) => CellNumber(row, state[year].column);
      WithKey(SortedRows(state, year, rows, collate), number, v) == WithKey(rows, number, v)
  {
    var sort := state[year];
    var cmp := Comparator(sort, collate);
    var key := SortKey(sort);
    var number := (row: Row) => CellNumber(row, sort.column);
    var r := InsertionSort(rows, cmp);
    var kv := if sort.direction == Asc then v else -v;
    NumericComparator(sort, collate, rows);
    InsertionSortStable(rows, cmp, key, kv);
    SameClass(sort, r, v);
    SameClass(sort, rows, v);
    WithKeySameClass(r, key, kv, number, v);
    WithKeySameClass(rows, key, kv, number, v);
  }

  /** A row has sort key `v` (or `-v` descending) exactly when its number is `v`. */
  lemma SameClass(sort: ColumnSort, s: seq<Row>, v: int)
    ensures var kv := if sort.direction == Asc then v else -v;
      var number := (row: Row) => CellNumber(row, sort.column);
      forall x :: x in s ==> (SortKey(sort)(x) == kv <==> number(x) == v)
  {
  }
}
