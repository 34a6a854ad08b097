/**
 * The release calendar: the pre-sale and print dates of every titled row are
 * indexed by month and day, the years that occur are listed newest first, and
 * each month of the chosen year is laid out as a grid of weeks.
 */
module Calendar {
  import opened Wrappers
  import opened Text
  import opened DateLiterals
  import opened Gregorian
  import opened Sorting
  import opened Sequences
  import opened Sheet

  const PreSaleColumn := "예판일"
  const PrintColumn := "하판 예정일(20일 기준)"

  /** The date columns the calendar reads, in the order it reads them. */
  const Kinds := [PreSaleColumn, PrintColumn]

  // ---------------------------------------------------------------- dates

  /**
   * `parseDate`, bracketed branch: a day literal `Date(Y,M,D)` becomes
   * `new Date(Y, M, D)`, month zero-based and out-of-range values rolled over;
   * a missing or empty cell, or any other text, gives nothing.
   */
  function ParseDate(dateStr: Option<string>): (r: Option<Date>)
    ensures r.Some? <==> dateStr.Some? && ParseDay(dateStr.value).Some?
    ensures r.Some? ==> ValidDate(r.value)
  {
    if dateStr.None? || dateStr.value == "" then None
    else
      match ParseDay(dateStr.value)
      case None => None
      case Some(l) => Some(MakeDate(DigitsValue(l.year), DigitsValue(l.month), DigitsValue(l.day)))
  }

  /**
   * A day literal `Date(Y,M,D)` is read as `new Date(Y, M, D)`: month `M` counts
   * from zero and out-of-range months and days roll over.
   */
  lemma ParseDateOfRendered(l: DayLiteral)
    requires WellFormedDay(l)
    ensures ParseDate(Some(RenderDay(l))) == Some(MakeDate(DigitsValue(l.year), DigitsValue(l.month), DigitsValue(l.day)))
  {
    ParseRenderedDay(l);
  }

  /** A literal naming a real day from year 100 on is read as exactly that day. */
  lemma ParseDateInRange(l: DayLiteral)
    requires WellFormedDay(l)
    requires var y := DigitsValue(l.year);
      var m := DigitsValue(l.month) + 1;
      y >= 100 && m <= 12 && 1 <= DigitsValue(l.day) <= DaysInMonth(y, m)
    ensures ParseDate(Some(RenderDay(l))) ==
      Some(Date(DigitsValue(l.year), DigitsValue(l.month) + 1, DigitsValue(l.day)))
  {
    ParseDateOfRendered(l);
    MakeDateInRange(DigitsValue(l.year), DigitsValue(l.month), DigitsValue(l.day));
  }

  // ---------------------------------------------------------------- the date index

  /** A mark on a calendar day: the column it came from and the row's title. */
  datatype Entry = Entry(kind: string, title: string)

  /** Where an entry goes: the month key, the day of the month, and the entry. */
  datatype Placement = Placement(key: string, day: int, entry: Entry)

  /** The month key `` `${year}-${month}` ``, month one-based and not padded. */
  function YearMonthKey(year: int, month: int): string {
    IntToString(year) + "-" + IntToString(month)
  }

  /** The entry a row's date column contributes, if the column holds a date. */
  function PlacementOf(row: Row, kind: string): Option<Placement> {
    match ParseDate(Get(row, kind))
    case None => None
    case Some(d) => Some(Placement(YearMonthKey(d.year, d.month), d.day, Entry(kind, CellText(row, TitleColumn))))
  }

  function OptionList<T>(o: Option<T>): seq<T> {
    if o.Some? then [o.value] else []
  }

  /** The entries of one row, column by column; none for an untitled row. */
  function RowPlacements(row: Row, kinds: seq<string>): seq<Placement> {
    if !HasTitle(row) || kinds == [] then []
    else RowPlacements(row, kinds[..|kinds| - 1]) + OptionList(PlacementOf(row, kinds[|kinds| - 1]))
  }

  /** The entries of all rows, in row order. */
  function Placements(data: seq<Row>): seq<Placement> {
    if data == [] then [] else Placements(data[..|data| - 1]) + RowPlacements(data[|data| - 1], Kinds)
  }

  /** The entries placed on `day` of month `key`, in the order they were placed. */
  function EntriesAt(ps: seq<Placement>, key: string, day: int): seq<Entry> {
    if ps == [] then []
    else
      var p := ps[|ps| - 1];
      EntriesAt(ps[..|ps| - 1], key, day) + if p.key == key && p.day == day then [p.entry] else []
  }

  lemma {:induction false} EntriesAtAppend(ps: seq<Placement>, qs: seq<Placement>, key: string, day: int)
    ensures EntriesAt(ps + qs, key, day) == EntriesAt(ps, key, day) + EntriesAt(qs, key, day)
    decreases |qs|
  {
    if qs == [] {
      assert ps + qs == ps;
    } else {
      assert (ps + qs)[..|ps + qs| - 1] == ps + qs[..|qs| - 1];
      EntriesAtAppend(ps, qs[..|qs| - 1], key, day);
    }
  }

  lemma {:induction false} PlacementsAppend(a: seq<Row>, b: seq<Row>)
    ensures Placements(a + b) == Placements(a) + Placements(b)
    decreases |b|
  {
    if b == [] {
      assert a + b == a;
    } else {
      var init := b[..|b| - 1];
      var last := b[|b| - 1];
      assert (a + b)[..|a + b| - 1] == a + init && (a + b)[|a + b| - 1] == last;
      assert Placements(a + b) == Placements(a + init) + RowPlacements(last, Kinds);
      PlacementsAppend(a, init);
      assert Placements(b) == Placements(init) + RowPlacements(last, Kinds);
    }
  }

  /** Within a day, the entries of earlier rows come before those of later rows. */
  lemma EntriesInRowOrder(a: seq<Row>, b: seq<Row>, key: string, day: int)
    ensures EntriesAt(Placements(a + b), key, day) ==
      EntriesAt(Placements(a), key, day) + EntriesAt(Placements(b), key, day)
  {
    PlacementsAppend(a, b);
    EntriesAtAppend(Placements(a), Placements(b), key, day);
  }

  /**
   * One row places, in this order, its pre-sale entry and then its print entry,
   * each exactly when the row has a title and the column holds a date.
   */
  lemma RowEntries(row: Row)
    ensures RowPlacements(row, Kinds) ==
      if HasTitle(row) then OptionList(PlacementOf(row, PreSaleColumn)) + OptionList(PlacementOf(row, PrintColumn))
      else []
  {
    if HasTitle(row) {
      assert Kinds[..|Kinds| - 1] == [PreSaleColumn];
      assert [PreSaleColumn][..0] == [];
      assert RowPlacements(row, [PreSaleColumn]) == OptionList(PlacementOf(row, PreSaleColumn));
    }
  }

  /** Every entry lands on a real day of the month its key names. */
  lemma {:induction false} PlacementsOnRealDays(data: seq<Row>)
    ensures forall p :: p in Placements(data) ==> 1 <= p.day <= 31
  {
    if data != [] {
      PlacementsOnRealDays(data[..|data| - 1]);
      var row := data[|data| - 1];
      RowEntries(row);
      forall p | p in RowPlacements(row, Kinds)
        ensures 1 <= p.day <= 31
      {
        var kind := if p in OptionList(PlacementOf(row, PreSaleColumn)) then PreSaleColumn else PrintColumn;
        assert PlacementOf(row, kind) == Some(p);
        var d := ParseDate(Get(row, kind)).value;
        assert ValidDate(d);
      }
    }
  }

  /** Month key to day to the entries of that day. */
  type MonthIndex = map<int, seq<Entry>>
  type DateIndex = map<string, MonthIndex>

  /** The entries shown on `day` of month `key`: none when either is missing. */
  function Lookup(m: DateIndex, key: string, day: int): seq<Entry> {
    if key in m && day in m[key] then m[key][day] else []
  }

  /** `map[ym][day].push(entry)`, creating the month and the day on first use. */
  function Add(m: DateIndex, p: Placement): DateIndex {
    var monthMap := if p.key in m then m[p.key] else map[];
    var entries := if p.day in monthMap then monthMap[p.day] else [];
    m[p.key := monthMap[p.day := entries + [p.entry]]]
  }

  /** The index the pushes build, one placement at a time. */
  function IndexOf(ps: seq<Placement>): DateIndex {
    if ps == [] then map[] else Add(IndexOf(ps[..|ps| - 1]), ps[|ps| - 1])
  }

  /**
   * The index lists under each month and day exactly the entries placed there, in
   * order, and it holds no empty days.
   */
  lemma {:induction false} IndexOfLookup(ps: seq<Placement>)
    ensures forall key, day :: Lookup(IndexOf(ps), key, day) == EntriesAt(ps, key, day)
    ensures forall key, day :: key in IndexOf(ps) && day in IndexOf(ps)[key] ==> IndexOf(ps)[key][day] != []
  {
    if ps != [] {
      IndexOfLookup(ps[..|ps| - 1]);
    }
  }

  /** The index has a month exactly when something is placed in it. */
  lemma {:induction false} IndexOfKeys(ps: seq<Placement>)
    ensures forall key :: key in IndexOf(ps) <==> exists i :: 0 <= i < |ps| && ps[i].key == key
  {
    if ps != [] {
      var init := ps[..|ps| - 1];
      IndexOfKeys(init);
      forall key
        ensures key in IndexOf(ps) <==> exists i :: 0 <= i < |ps| && ps[i].key == key
      {
        if key in IndexOf(init) {
          var i :| 0 <= i < |init| && init[i].key == key;
          assert ps[i] == init[i];
        }
        if exists i :: 0 <= i < |ps| && ps[i].key == key {
          var i :| 0 <= i < |ps| && ps[i].key == key;
          if i < |init| {
            assert init[i] == ps[i];
          }
        }
      }
    }
  }

  lemma IndexOfSnoc(ps: seq<Placement>, p: Placement)
    ensures IndexOf(ps + [p]) == Add(IndexOf(ps), p)
  {
    assert (ps + [p])[..|ps|] == ps;
  }

  /**
   * `getDateMap`: for every titled row and each date column in turn, a cell that
   * reads as a date pushes the entry under its month key and day.
   */
  method GetDateMap(data: seq<Row>) returns (m: DateIndex)
    ensures m == IndexOf(Placements(data))
  {
    m := map[];
    for i := 0 to |data|
      invariant m == IndexOf(Placements(data[..i]))
    {
      var row := data[i];
      assert data[..i + 1][..i] == data[..i];
      assert Placements(data[..i + 1]) == Placements(data[..i]) + RowPlacements(row, Kinds);
      if HasTitle(row) {
        m := AddRowEntries(m, Placements(data[..i]), row);
      } else {
        assert Placements(data[..i]) + RowPlacements(row, Kinds) == Placements(data[..i]);
      }
    }
    assert data[..|data|] == data;
  }

  /** The body of the outer `forEach` for a titled row: one push per date column that holds a date. */
  method AddRowEntries(m0: DateIndex, ghost done: seq<Placement>, row: Row) returns (m: DateIndex)
    requires m0 == IndexOf(done) && HasTitle(row)
    ensures m == IndexOf(done + RowPlacements(row, Kinds))
  {
    m := m0;
    assert done + RowPlacements(row, Kinds[..0]) == done;
    for k := 0 to |Kinds|
      invariant m == IndexOf(done + RowPlacements(row, Kinds[..k]))
    {
      var kind := Kinds[k];
      ghost var before := done + RowPlacements(row, Kinds[..k]);
      KindStep(row, k, done);
      var dateStr := Get(row, kind);
      if dateStr.Some? && dateStr.value != "" {
        var date := ParseDate(dateStr);
        if date.Some? {
          var d := date.value;
          var ym := YearMonthKey(d.year, d.month);
          var monthMap := if ym in m then m[ym] else map[];
          var entries := if d.day in monthMap then monthMap[d.day] else [];
          ghost var p := Placement(ym, d.day, Entry(kind, CellText(row, TitleColumn)));
          assert PlacementOf(row, kind) == Some(p);
          IndexOfSnoc(before, p);
          m := m[ym := monthMap[d.day := entries + [Entry(kind, CellText(row, TitleColumn))]]];
        } else {
          assert PlacementOf(row, kind) == None;
        }
      } else {
        assert PlacementOf(row, kind) == None;
      }
    }
    assert Kinds[..|Kinds|] == Kinds;
  }

  lemma {:induction false} KindStep(row: Row, k: nat, done: seq<Placement>)
    requires HasTitle(row) && k < |Kinds|
    ensures PlacementOf(row, Kinds[k]).None? ==>
      done + RowPlacements(row, Kinds[..k + 1]) == done + RowPlacements(row, Kinds[..k])
    ensures PlacementOf(row, Kinds[k]).Some? ==>
      done + RowPlacements(row, Kinds[..k + 1]) ==
        (done + RowPlacements(row, Kinds[..k])) + [PlacementOf(row, Kinds[k]).value]
  {
    var before := RowPlacements(row, Kinds[..k]);
    var added := OptionList(PlacementOf(row, Kinds[k]));
    assert RowPlacements(row, Kinds[..k + 1]) == before + added by {
      RowPlacementsStep(row, Kinds[..k + 1]);
      assert Kinds[..k + 1][..k] == Kinds[..k];
    }
    AppendAssoc(done, before, added);
  }

  lemma RowPlacementsStep(row: Row, kinds: seq<string>)
    requires HasTitle(row) && kinds != []
    ensures RowPlacements(row, kinds) ==
      RowPlacements(row, kinds[..|kinds| - 1]) + OptionList(PlacementOf(row, kinds[|kinds| - 1]))
  {
  }

  lemma AppendAssoc<T>(a: seq<T>, b: seq<T>, c: seq<T>)
    ensures a + (b + c) == (a + b) + c
    ensures c == [] ==> a + (b + c) == a + b
  {
  }

  // ---------------------------------------------------------------- years

  /** The year of the date a column holds, if it holds one. */
  function YearIn(row: Row, kind: string): Option<int> {
    match ParseDate(Get(row, kind))
    case None => None
    case Some(d) => Some(d.year)
  }

  /** The years of the dates one row holds, column by column; untitled rows count too. */
  function RowYears(row: Row, kinds: seq<string>): seq<int> {
    if kinds == [] then []
    else RowYears(row, kinds[..|kinds| - 1]) + OptionList(YearIn(row, kinds[|kinds| - 1]))
  }

  /** The years of all dates in the data, with repetitions, in reading order. */
  function DateYears(data: seq<Row>): seq<int> {
    if data == [] then [] else DateYears(data[..|data| - 1]) + RowYears(data[|data| - 1], Kinds)
  }

  /** One of the row's date columns, titled or not, holds a date in year `y`. */
  predicate RowHasYear(row: Row, y: int) {
    YearIn(row, PreSaleColumn) == Some(y) || YearIn(row, PrintColumn) == Some(y)
  }

  lemma RowYearsMembers(row: Row, y: int)
    ensures y in RowYears(row, Kinds) <==> RowHasYear(row, y)
  {
    var first := Kinds[..1];
    assert first[..0] == [] && first[0] == PreSaleColumn;
    assert Kinds[..|Kinds| - 1] == first && Kinds[|Kinds| - 1] == PrintColumn;
    assert RowYears(row, first) == OptionList(YearIn(row, PreSaleColumn));
    assert RowYears(row, Kinds) ==
      OptionList(YearIn(row, PreSaleColumn)) + OptionList(YearIn(row, PrintColumn));
  }

  /** Some row, titled or not, has a date column in year `y`. */
  predicate SomeRowHasYear(data: seq<Row>, y: int) {
    exists row :: row in data && RowHasYear(row, y)
  }

  lemma SomeRowHasYearSnoc(init: seq<Row>, last: Row, y: int)
    ensures SomeRowHasYear(init + [last], y) <==> SomeRowHasYear(init, y) || RowHasYear(last, y)
  {
    var data := init + [last];
    if SomeRowHasYear(init, y) {
      var row :| row in init && RowHasYear(row, y);
      assert row in data;
    }
    if RowHasYear(last, y) {
      assert last in data;
    }
    if SomeRowHasYear(data, y) {
      var row :| row in data && RowHasYear(row, y);
      assert row in init || row == last;
    }
  }

  /** A year is listed exactly when some row, titled or not, has a date column in that year. */
  lemma {:induction false} DateYearsMembers(data: seq<Row>, y: int)
    ensures y in DateYears(data) <==> SomeRowHasYear(data, y)
  {
    if data != [] {
      var init := data[..|data| - 1];
      var last := data[|data| - 1];
      DateYearsMembers(init, y);
      RowYearsMembers(last, y);
      assert data == init + [last];
      SomeRowHasYearSnoc(init, last, y);
      assert DateYears(data) == DateYears(init) + RowYears(last, Kinds);
    }
  }

  lemma YearStep(before: seq<int>, row: Row, k: nat)
    requires k < |Kinds|
    ensures before + RowYears(row, Kinds[..k + 1]) == (before + RowYears(row, Kinds[..k])) + OptionList(YearIn(row, Kinds[k]))
  {
    var kinds := Kinds[..k + 1];
    assert kinds[..|kinds| - 1] == Kinds[..k];
    assert kinds[|kinds| - 1] == Kinds[k];
  }


  /** The comparator `(a, b) => b - a`. */
  function Newer(a: int, b: int): int {
    b - a
  }

  /** Sorting distinct years with `Newer` lists them in strictly decreasing order. */
  lemma YearsNewestFirst(keys: seq<int>)
    requires Distinct(keys)
    ensures multiset(InsertionSort(keys, Newer)) == multiset(keys)
    ensures var years := InsertionSort(keys, Newer);
      forall i, j :: 0 <= i < j < |years| ==> years[i] > years[j]
  {
    var years := InsertionSort(keys, Newer);
    InsertionSortPermutes(keys, Newer);
    var negated := (y: int) => -y;
    assert OrdersBy(Newer, negated, keys);
    InsertionSortSorted(keys, Newer, negated);
    DistinctPermutation(keys, years);
    forall i, j | 0 <= i < j < |years|
      ensures years[i] > years[j]
    {
      assert negated(years[i]) <= negated(years[j]);
      assert years[i] != years[j];
    }
  }

  /**
   * `getYearsFromData`: every date in either column adds its year to a set, and
   * the set is listed newest first.
   */
  method GetYearsFromData(data: seq<Row>) returns (years: seq<int>)
    ensures forall y :: y in years <==> y in DateYears(data)
    ensures forall i, j :: 0 <= i < j < |years| ==> years[i] > years[j]
  {
    var seen: seq<int> := [];
    for i := 0 to |data|
      invariant Distinct(seen)
      invariant forall y :: y in seen <==> y in DateYears(data[..i])
    {
      assert data[..i + 1][..i] == data[..i];
      seen := AddRowYears(seen, DateYears(data[..i]), data[i]);
    }
    assert data[..|data|] == data;
    years := ListNewestFirst(seen);
  }

  /** The inner `forEach` over the two date columns of one row. */
  method AddRowYears(seen0: seq<int>, ghost before: seq<int>, row: Row) returns (seen: seq<int>)
    requires Distinct(seen0) && forall y :: y in seen0 <==> y in before
    ensures Distinct(seen) && forall y :: y in seen <==> y in before + RowYears(row, Kinds)
  {
    seen := seen0;
    assert Kinds[..0] == [];
    for k := 0 to |Kinds|
      invariant Distinct(seen)
      invariant forall y :: y in seen <==> y in before + RowYears(row, Kinds[..k])
    {
      YearStep(before, row, k);
      var date := ParseDate(Get(row, Kinds[k]));
      if date.Some? {
        seen := AddYear(seen, before + RowYears(row, Kinds[..k]), date.value.year);
      }
    }
    assert Kinds[..|Kinds|] == Kinds;
  }

  /** `years.add(year)` on the set kept as a list without repetitions. */
  method AddYear(seen0: seq<int>, ghost before: seq<int>, year: int) returns (seen: seq<int>)
    requires Distinct(seen0) && forall y :: y in seen0 <==> y in before
    ensures Distinct(seen) && forall y :: y in seen <==> y in before + [year]
  {
    seen := seen0;
    if year !in seen {
      DistinctSnoc(seen, year);
      seen := seen + [year];
    }
  }

  /** `Array.from(set).sort((a, b) => b - a)` on the collected years. */
  method ListNewestFirst(seen: seq<int>) returns (years: seq<int>)
    requires Distinct(seen)
    ensures forall y :: y in years <==> y in seen
    ensures forall i, j :: 0 <= i < j < |years| ==> years[i] > years[j]
  {
    var a := new int[|seen|](k requires 0 <= k < |seen| => seen[k]);
    assert a[..] == seen;
    SortInPlace(a, Newer);
    years := a[..];
    YearsNewestFirst(seen);
    forall y
      ensures y in years <==> y in seen
    {
      assert y in years <==> y in multiset(years);
      assert y in seen <==> y in multiset(seen);
    }
  }

  /**
   * The year the calendar shows once the data arrives: the current year if it has
   * dates, else the newest year with dates, else the selection stays as it was.
   */
  function DefaultYear(years: seq<int>, thisYear: int, selected: int): (r: int)
    ensures thisYear in years ==> r == thisYear
    ensures thisYear !in years && years != [] ==> r == years[0]
    ensures years == [] ==> r == selected
  {
    if thisYear in years then thisYear
    else if years != [] then years[0]
    else selected
  }

  /** Over the listed years, the fallback is the newest year that has dates. */
  lemma DefaultYearIsNewest(data: seq<Row>, years: seq<int>, thisYear: int, selected: int)
    requires forall y :: y in years <==> y in DateYears(data)
    requires forall i, j :: 0 <= i < j < |years| ==> years[i] > years[j]
    requires thisYear !in DateYears(data) && DateYears(data) != []
    ensures DefaultYear(years, thisYear, selected) in DateYears(data)
    ensures forall y :: y in DateYears(data) ==> y <= DefaultYear(years, thisYear, selected)
  {
    var y0 := DateYears(data)[0];
    assert y0 in DateYears(data);
    assert y0 in years;
    forall y | y in DateYears(data)
      ensures y <= years[0]
    {
      assert y in years;
      var j :| 0 <= j < |years| && years[j] == y;
      assert j == 0 || years[0] > years[j];
    }
  }

  // ---------------------------------------------------------------- the month grid

  /** A cell of the month grid: a blank before the 1st, or a day with its marks. */
  datatype Cell = Blank | DayCell(day: int, marks: seq<Entry>)

  /** `dateMap[ym] || {}`. */
  function MonthOf(dateMap: DateIndex, key: string): MonthIndex {
    if key in dateMap then dateMap[key] else map[]
  }

  /** `monthMap[d]`, none when the day has no entries. */
  function Marks(monthMap: MonthIndex, d: int): seq<Entry> {
    if d in monthMap then monthMap[d] else []
  }

  /**
   * The cells of month `i` (zero-based) of `year`: `new Date(year, i, 1).getDay()`
   * blanks, then days 1 to `new Date(year, i + 1, 0).getDate()`.
   */
  function MonthCells(year: int, i: int, dateMap: DateIndex): seq<Cell>
    requires 0 <= i < 12
  {
    var firstDay := Weekday(MakeDate(year, i, 1));
    var lastDate := MakeDate(year, i + 1, 0).day;
    var monthMap := MonthOf(dateMap, YearMonthKey(year, i + 1));
    seq(firstDay, _ => Blank) + seq(lastDate, j => DayCell(j + 1, Marks(monthMap, j + 1)))
  }

  /**
   * The grid starts with as many blanks as the weekday of the 1st (Sunday 0) and
   * then has each day of the month once, in order, up to the month's length in
   * the full year, leap years included.
   */
  lemma {:induction false} MonthCellsLayout(year: int, i: int, dateMap: DateIndex)
    requires 0 <= i < 12
    ensures var y := FullYear(year);
      var firstDay := Weekday(Date(y, i + 1, 1));
      var cells := MonthCells(year, i, dateMap);
      var monthMap := MonthOf(dateMap, YearMonthKey(year, i + 1));
      |cells| == firstDay + DaysInMonth(y, i + 1) &&
      (forall j :: 0 <= j < firstDay ==> cells[j] == Blank) &&
      (forall d :: 1 <= d <= DaysInMonth(y, i + 1) ==> cells[firstDay + d - 1] == DayCell(d, Marks(monthMap, d)))
  {
    var y := FullYear(year);
    var firstDay := Weekday(MakeDate(year, i, 1));
    var lastDate := MakeDate(year, i + 1, 0).day;
    var monthMap := MonthOf(dateMap, YearMonthKey(year, i + 1));
    var cells := MonthCells(year, i, dateMap);
    assert firstDay == Weekday(Date(y, i + 1, 1)) by {
      FirstOfMonth(year, i);
    }
    assert lastDate == DaysInMonth(y, i + 1) by {
      LastDayOfMonth(year, i + 1);
    }
    var blanks := seq(firstDay, _ => Blank);
    var days := seq(lastDate, j => DayCell(j + 1, Marks(monthMap, j + 1)));
    assert cells == blanks + days;
    forall d | 1 <= d <= lastDate
      ensures cells[firstDay + d - 1] == DayCell(d, Marks(monthMap, d))
    {
      assert cells[firstDay + d - 1] == days[d - 1];
    }
  }

  /** A month never needs more than six weeks: at most six blanks and 31 days. */
  lemma MonthFitsSixWeeks(year: int, i: int, dateMap: DateIndex)
    requires 0 <= i < 12
    ensures |MonthCells(year, i, dateMap)| <= 6 * 7
    ensures |Chunks(MonthCells(year, i, dateMap), 7)| <= 6
  {
    var cells := MonthCells(year, i, dateMap);
    MonthCellsLayout(year, i, dateMap);
    WeekCount(cells);
  }

  /** Cutting `n` cells into weeks gives fewer than `n / 7 + 1` weeks. */
  lemma {:induction false} WeekCount(cells: seq<Cell>)
    ensures 7 * |Chunks(cells, 7)| < |cells| + 7
    decreases |cells|
  {
    if |cells| > 7 {
      WeekCount(cells[7..]);
    }
  }

  /** The loops that push the blanks and the day cells. */
  method BuildMonthCells(year: int, i: int, dateMap: DateIndex) returns (cells: seq<Cell>)
    requires 0 <= i < 12
    ensures cells == MonthCells(year, i, dateMap)
  {
    var month := i + 1;
    var firstDay := Weekday(MakeDate(year, i, 1));
    var lastDate := MakeDate(year, month, 0).day;
    var monthMap := MonthOf(dateMap, YearMonthKey(year, month));
    cells := PushBlanks(firstDay);
    cells := PushDays(cells, lastDate, monthMap);
  }

  /** `for (let i = 0; i < firstDay; i++) cells.push(null)`. */
  method PushBlanks(firstDay: nat) returns (cells: seq<Cell>)
    ensures cells == seq(firstDay, _ => Blank)
  {
    cells := [];
    for j := 0 to firstDay
      invariant |cells| == j && forall k :: 0 <= k < j ==> cells[k] == Blank
    {
      cells := cells + [Blank];
    }
  }

  /** `for (let d = 1; d <= lastDate; d++)` pushing each day with its marks. */
  method PushDays(cells0: seq<Cell>, lastDate: nat, monthMap: MonthIndex) returns (cells: seq<Cell>)
    ensures cells == cells0 + seq(lastDate, j => DayCell(j + 1, Marks(monthMap, j + 1)))
  {
    cells := cells0;
    var d := 1;
    while d <= lastDate
      invariant 1 <= d <= lastDate + 1
      invariant cells == cells0 + seq(d - 1, j => DayCell(j + 1, Marks(monthMap, j + 1)))
    {
      cells := cells + [DayCell(d, Marks(monthMap, d))];
      d := d + 1;
    }
  }

  /** The loop that cuts the cells into weeks of seven. */
  method SplitWeeks(cells: seq<Cell>) returns (rows: seq<seq<Cell>>)
    ensures rows == Chunks(cells, 7)
  {
    rows := [];
    var k := 0;
    while k < |cells|
      invariant 0 <= k
      invariant rows + Chunks(cells[if k < |cells| then k else |cells|..], 7) == Chunks(cells, 7)
      decreases |cells| - k
    {
      var end := if k + 7 < |cells| then k + 7 else |cells|;
      var week := cells[k..end];
      WeekStep(cells, rows, k);
      rows := rows + [week];
      k := k + 7;
    }
  }

  /** One turn of the slicing loop keeps the rows built so far a prefix of the chunking. */
  lemma {:induction false} WeekStep(cells: seq<Cell>, rows: seq<seq<Cell>>, k: nat)
    requires k < |cells|
    requires rows + Chunks(cells[k..], 7) == Chunks(cells, 7)
    ensures var end := if k + 7 < |cells| then k + 7 else |cells|;
      (rows + [cells[k..end]]) + Chunks(cells[if k + 7 < |cells| then k + 7 else |cells|..], 7) == Chunks(cells, 7)
  {
    var end := if k + 7 < |cells| then k + 7 else |cells|;
    ChunksStep(cells, k, 7);
    var week := cells[k..end];
    assert (rows + [week]) + Chunks(cells[end..], 7) == rows + ([week] + Chunks(cells[end..], 7));
  }

  /** The grid of every month of `year`, January first. */
  function YearGrid(year: int, dateMap: DateIndex): (grid: seq<seq<seq<Cell>>>)
    ensures |grid| == 12
    ensures forall i :: 0 <= i < 12 ==> Flatten(grid[i]) == MonthCells(year, i, dateMap)
    ensures forall i :: 0 <= i < 12 ==> 1 <= |grid[i]| <= 6
    ensures forall i, w :: 0 <= i < 12 && 0 <= w < |grid[i]| - 1 ==> |grid[i][w]| == 7
    ensures forall i :: 0 <= i < 12 ==> 1 <= |grid[i][|grid[i]| - 1]| <= 7
  {
    var grid := seq(12, i requires 0 <= i < 12 => Chunks(MonthCells(year, i, dateMap), 7));
    forall i | 0 <= i < 12
      ensures Flatten(grid[i]) == MonthCells(year, i, dateMap)
      ensures 1 <= |grid[i]| <= 6
      ensures forall w :: 0 <= w < |grid[i]| - 1 ==> |grid[i][w]| == 7
      ensures 1 <= |grid[i][|grid[i]| - 1]| <= 7
    {
      MonthWeeks(year, i, dateMap);
    }
    grid
  }

  /** The weeks of one month: one to six of them, all full but the last. */
  lemma MonthWeeks(year: int, i: int, dateMap: DateIndex)
    requires 0 <= i < 12
    ensures var weeks := Chunks(MonthCells(year, i, dateMap), 7);
      Flatten(weeks) == MonthCells(year, i, dateMap) &&
      1 <= |weeks| <= 6 &&
      (forall w :: 0 <= w < |weeks| - 1 ==> |weeks[w]| == 7) &&
      1 <= |weeks[|weeks| - 1]| <= 7
  {
    var cells := MonthCells(year, i, dateMap);
    ChunksFlatten(cells, 7);
    ChunksShape(cells, 7);
    MonthFitsSixWeeks(year, i, dateMap);
    assert cells != [] by {
      MonthCellsLayout(year, i, dateMap);
    }
  }

  // ---------------------------------------------------------------- title lists

  /** The entries of `entries` of the given kind. */
  function OfKind(entries: seq<Entry>, kind: string): seq<Entry> {
    if entries == [] then []
    else OfKind(entries[..|entries| - 1], kind) + if entries[|entries| - 1].kind == kind then [entries[|entries| - 1]] else []
  }

  /** The marks of the given kind on days `d` to 31, days ascending. */
  function MarksFrom(monthMap: MonthIndex, kind: string, d: int): seq<Entry>
    decreases 32 - d
  {
    if d > 31 then [] else OfKind(Marks(monthMap, d), kind) + MarksFrom(monthMap, kind, d + 1)
  }

  /**
   * `Object.values(monthMap).flat().filter(mark => mark.type === kind)`, titles
   * only: the day keys are integers, which objects list in ascending order.
   */
  function MonthTitles(monthMap: MonthIndex, kind: string): seq<string> {
    var marks := MarksFrom(monthMap, kind, 1);
    seq(|marks|, j requires 0 <= j < |marks| => marks[j].title)
  }

  lemma {:induction false} OfKindMembers(entries: seq<Entry>, kind: string)
    ensures forall e :: e in OfKind(entries, kind) <==> e in entries && e.kind == kind
  {
    if entries != [] {
      OfKindMembers(entries[..|entries| - 1], kind);
      assert entries == entries[..|entries| - 1] + [entries[|entries| - 1]];
    }
  }

  /** Each mark of the kind is kept as often as it occurs: duplicates are kept. */
  lemma {:induction false} OfKindCount(entries: seq<Entry>, kind: string, e: Entry)
    ensures multiset(OfKind(entries, kind))[e] == if e.kind == kind then multiset(entries)[e] else 0
  {
    if entries != [] {
      var init := entries[..|entries| - 1];
      var last := entries[|entries| - 1];
      OfKindCount(init, kind, e);
      assert entries == init + [last];
    }
  }

  /** Filtering a concatenation filters each part. */
  lemma {:induction false} OfKindAppend(a: seq<Entry>, b: seq<Entry>, kind: string)
    ensures OfKind(a + b, kind) == OfKind(a, kind) + OfKind(b, kind)
    decreases |b|
  {
    if b == [] {
      assert a + b == a;
    } else {
      var init := b[..|b| - 1];
      var last := b[|b| - 1];
      OfKindAppend(a, init, kind);
      assert a + b == (a + init) + [last];
      assert (a + b)[..|a + b| - 1] == a + init;
    }
  }

  /** The marks of days `d` to 31, day by day. */
  function DaysFrom(monthMap: MonthIndex, d: int): seq<seq<Entry>>
    requires 1 <= d <= 32
  {
    seq(32 - d, j => Marks(monthMap, d + j))
  }

  /**
   * The list for a kind is the month's marks laid end to end, days ascending and
   * each day's marks in the order they were placed, then filtered by kind.
   */
  lemma {:induction false} MarksFromInDayOrder(monthMap: MonthIndex, kind: string, d: int)
    requires 1 <= d <= 32
    ensures MarksFrom(monthMap, kind, d) == OfKind(Flatten(DaysFrom(monthMap, d)), kind)
    decreases 32 - d
  {
    if d <= 31 {
      var here := Marks(monthMap, d);
      var later := Flatten(DaysFrom(monthMap, d + 1));
      MarksFromInDayOrder(monthMap, kind, d + 1);
      FlattenDaysFrom(monthMap, d);
      OfKindAppend(here, later, kind);
    } else {
      assert DaysFrom(monthMap, d) == [];
    }
  }

  lemma FlattenDaysFrom(monthMap: MonthIndex, d: int)
    requires 1 <= d <= 31
    ensures Flatten(DaysFrom(monthMap, d)) == Marks(monthMap, d) + Flatten(DaysFrom(monthMap, d + 1))
  {
    var days := DaysFrom(monthMap, d);
    assert days[1..] == DaysFrom(monthMap, d + 1);
  }

  /**
   * `Object.values(monthMap).flat().filter(mark => mark.type === kind)`: the titles
   * of the month's marks of the kind, from day 1 to day 31 in order.
   */
  lemma MonthTitlesInDayOrder(monthMap: MonthIndex, kind: string)
    ensures var marks := OfKind(Flatten(DaysFrom(monthMap, 1)), kind);
      MonthTitles(monthMap, kind) == seq(|marks|, j requires 0 <= j < |marks| => marks[j].title)
  {
    MarksFromInDayOrder(monthMap, kind, 1);
  }

  /** The list for a kind holds exactly the month's marks of that kind, on days from `d` on. */
  lemma {:induction false} MarksFromMembers(monthMap: MonthIndex, kind: string, d: int, e: Entry)
    ensures e in MarksFrom(monthMap, kind, d) <==>
      e.kind == kind && exists day :: d <= day <= 31 && e in Marks(monthMap, day)
    decreases 32 - d
  {
    if d <= 31 {
      MarksFromMembers(monthMap, kind, d + 1, e);
      OfKindMembers(Marks(monthMap, d), kind);
      if e.kind == kind && exists day :: d <= day <= 31 && e in Marks(monthMap, day) {
        var day :| d <= day <= 31 && e in Marks(monthMap, day);
        if day != d {
          assert d + 1 <= day;
        }
      }
    }
  }
}
