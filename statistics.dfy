/**
 * The per-year summary panel: the sales, price and sales-count columns are found
 * by name, their cells read as numbers (0 when missing or unreadable), and the
 * panel shows the row count, the total, the average and the extreme positive
 * values.
 */
module Statistics {
  import opened Wrappers
  import opened Text
  import opened Sheet

  const SalesLabel := "예상 매출"
  const PriceLabel := "예상 가격"
  const CountLabel := "연 판매 부수"

  /** `parseNumber`: 0 for a missing or empty cell and for one that does not read as a number. */
  function ParseNumber(val: Option<string>): (n: int)
    ensures val.None? || val.value == "" ==> n == 0
    ensures val.Some? && NumberValue(val.value).Some? ==> n == NumberValue(val.value).value
    ensures val.Some? && NumberValue(val.value).None? ==> n == 0
  {
    match val
    case None => 0
    case Some(s) =>
      if s == "" then 0
      else
        match NumberValue(s)
        case None => 0
        case Some(n) => n
  }

  /** A cell showing a ko-KR rendered number, commas and all, reads as that number. */
  lemma ParseNumberOfLocaleString(n: int)
    ensures ParseNumber(Some(LocaleString(n))) == n
  {
    LocaleStringRoundTrip(n);
  }

  /**
   * `columns.find(col => col.includes(name)) || name`: the first column whose
   * header contains `name`, or `name` itself when none does.
   */
  function FindColumn(columns: seq<string>, name: string): (c: string)
    ensures (forall i :: 0 <= i < |columns| ==> !Contains(columns[i], name)) ==> c == name
    ensures (exists i :: 0 <= i < |columns| && Contains(columns[i], name)) ==>
      exists i :: 0 <= i < |columns| && columns[i] == c && Contains(c, name) &&
        forall j :: 0 <= j < i ==> !Contains(columns[j], name)
  {
    if columns == [] then name
    else if Contains(columns[0], name) then columns[0]
    else
      var c := FindColumn(columns[1..], name);
      assert forall i :: 1 <= i < |columns| ==> columns[i] == columns[1..][i - 1];
      c
  }

  /** The sum of the column's numbers over the rows. */
  function ColumnTotal(rows: seq<Row>, column: string): int {
    if rows == [] then 0
    else ColumnTotal(rows[..|rows| - 1], column) + ParseNumber(Get(rows[|rows| - 1], column))
  }

  /** The column read as numbers, one per row. */
  function Numbers(rows: seq<Row>, column: string): (xs: seq<int>)
    ensures |xs| == |rows|
    ensures forall i :: 0 <= i < |rows| ==> xs[i] == ParseNumber(Get(rows[i], column))
  {
    seq(|rows|, i requires 0 <= i < |rows| => ParseNumber(Get(rows[i], column)))
  }

  /** `xs.filter(v => v > 0)`. */
  function Positives(xs: seq<int>): seq<int> {
    if xs == [] then []
    else Positives(xs[..|xs| - 1]) + if xs[|xs| - 1] > 0 then [xs[|xs| - 1]] else []
  }

  lemma {:induction false} PositivesMembers(xs: seq<int>)
    ensures forall x :: x in Positives(xs) <==> x > 0 && x in xs
  {
    if xs != [] {
      var init := xs[..|xs| - 1];
      PositivesMembers(init);
      assert xs == init + [xs[|xs| - 1]];
    }
  }

  /** The column's numbers that are greater than zero, in row order. */
  function PositiveValues(rows: seq<Row>, column: string): seq<int> {
    Positives(Numbers(rows, column))
  }

  /** A positive value is listed exactly when some row of the column holds it. */
  lemma PositiveValuesMembers(rows: seq<Row>, column: string)
    ensures forall x :: x in PositiveValues(rows, column) <==>
      x > 0 && exists r :: r in rows && ParseNumber(Get(r, column)) == x
  {
    var xs := Numbers(rows, column);
    PositivesMembers(xs);
    forall x
      ensures x in xs <==> exists r :: r in rows && ParseNumber(Get(r, column)) == x
    {
      if x in xs {
        var i :| 0 <= i < |xs| && xs[i] == x;
        assert rows[i] in rows;
      }
      if exists r :: r in rows && ParseNumber(Get(r, column)) == x {
        var r :| r in rows && ParseNumber(Get(r, column)) == x;
        var i :| 0 <= i < |rows| && rows[i] == r;
        assert xs[i] == x;
      }
    }
  }

  /** `Math.max(...xs)` of a non-empty list. */
  function Max(xs: seq<int>): (m: int)
    requires xs != []
    ensures m in xs && forall x :: x in xs ==> x <= m
  {
    if |xs| == 1 then xs[0]
    else
      var init := xs[..|xs| - 1];
      var m := Max(init);
      assert forall x :: x in xs ==> x in init || x == xs[|xs| - 1];
      if xs[|xs| - 1] > m then xs[|xs| - 1] else m
  }

  /** `Math.min(...xs)` of a non-empty list. */
  function Min(xs: seq<int>): (m: int)
    requires xs != []
    ensures m in xs && forall x :: x in xs ==> m <= x
  {
    if |xs| == 1 then xs[0]
    else
      var init := xs[..|xs| - 1];
      var m := Min(init);
      assert forall x :: x in xs ==> x in init || x == xs[|xs| - 1];
      if xs[|xs| - 1] < m then xs[|xs| - 1] else m
  }

  /** `xs.length ? Math.max(...xs) : 0`. */
  function MaxOrZero(xs: seq<int>): int {
    if xs == [] then 0 else Max(xs)
  }

  /** `xs.length ? Math.min(...xs) : 0`. */
  function MinOrZero(xs: seq<int>): int {
    if xs == [] then 0 else Min(xs)
  }

  /** What the panel shows for one year. */
  datatype Summary = Summary(
    salesColumn: string, priceColumn: string, countColumn: string,
    totalCount: nat, totalSales: int, averagePrice: real,
    maxSales: int, minSales: int, maxCount: int, minCount: int)

  /** The figures of `StatisticsItemTable` for the rows of one year. */
  function Summarize(rows: seq<Row>, columns: seq<string>): Summary {
    var salesColumn := FindColumn(columns, SalesLabel);
    var priceColumn := FindColumn(columns, PriceLabel);
    var countColumn := FindColumn(columns, CountLabel);
    var sales := PositiveValues(rows, salesColumn);
    var counts := PositiveValues(rows, countColumn);
    Summary(
      salesColumn, priceColumn, countColumn,
      |rows|,
      ColumnTotal(rows, salesColumn),
      Average(ColumnTotal(rows, priceColumn), |rows|),
      MaxOrZero(sales), MinOrZero(sales), MaxOrZero(counts), MinOrZero(counts))
  }

  /** The panel counts every row, and its extremes are ordered and never negative. */
  lemma SummarizeFigures(rows: seq<Row>, columns: seq<string>)
    ensures Summarize(rows, columns).totalCount == |rows|
    ensures var r := Summarize(rows, columns);
      0 <= r.minSales <= r.maxSales && 0 <= r.minCount <= r.maxCount
  {
    var r := Summarize(rows, columns);
    PositiveValuesPositive(rows, r.salesColumn);
    PositiveValuesPositive(rows, r.countColumn);
    ExtremesOrdered(PositiveValues(rows, r.salesColumn));
    ExtremesOrdered(PositiveValues(rows, r.countColumn));
  }

  /** `total / count`, or 0 for no rows: times the count, it gives the total back. */
  function Average(total: int, count: nat): (r: real)
    ensures count > 0 ==> r * (count as real) == total as real
    ensures count == 0 ==> r == 0.0
  {
    if count > 0 then (total as real) / (count as real) else 0.0
  }

  lemma ExtremesOrdered(xs: seq<int>)
    requires forall x :: x in xs ==> x > 0
    ensures 0 <= MinOrZero(xs) <= MaxOrZero(xs)
  {
    if xs != [] {
      var m := Max(xs);
      assert Min(xs) <= m;
    }
  }

  /** Every value in the list of positive values is positive. */
  lemma PositiveValuesPositive(rows: seq<Row>, column: string)
    ensures forall x :: x in PositiveValues(rows, column) ==> x > 0
  {
    PositiveValuesMembers(rows, column);
  }

  /** The extremes are 0 exactly when no row of the column holds a positive value. */
  lemma ExtremesZero(rows: seq<Row>, column: string)
    ensures var xs := PositiveValues(rows, column);
      (MaxOrZero(xs) == 0 <==> forall r :: r in rows ==> ParseNumber(Get(r, column)) <= 0) &&
      (MinOrZero(xs) == 0 <==> forall r :: r in rows ==> ParseNumber(Get(r, column)) <= 0)
  {
    var xs := PositiveValues(rows, column);
    PositiveValuesMembers(rows, column);
    PositiveValuesPositive(rows, column);
    if xs != [] {
      var x := Max(xs);
      assert x > 0;
      assert Min(xs) > 0;
      var r :| r in rows && ParseNumber(Get(r, column)) == x;
    } else {
      forall r | r in rows
        ensures ParseNumber(Get(r, column)) <= 0
      {
        var n := ParseNumber(Get(r, column));
        assert n > 0 ==> n in xs;
      }
    }
  }

  /** Otherwise they bound every positive value of the column and are themselves values of it. */
  lemma ExtremesBound(rows: seq<Row>, column: string)
    ensures var xs := PositiveValues(rows, column);
      forall r :: r in rows && ParseNumber(Get(r, column)) > 0 ==>
        0 < MinOrZero(xs) <= ParseNumber(Get(r, column)) <= MaxOrZero(xs)
    ensures var xs := PositiveValues(rows, column);
      MaxOrZero(xs) != 0 ==>
        (exists r :: r in rows && ParseNumber(Get(r, column)) == MaxOrZero(xs)) &&
        (exists r :: r in rows && ParseNumber(Get(r, column)) == MinOrZero(xs))
  {
    var xs := PositiveValues(rows, column);
    PositiveValuesMembers(rows, column);
    PositiveValuesPositive(rows, column);
    forall r | r in rows && ParseNumber(Get(r, column)) > 0
      ensures 0 < MinOrZero(xs) <= ParseNumber(Get(r, column)) <= MaxOrZero(xs)
    {
      assert ParseNumber(Get(r, column)) in xs;
    }
    if xs != [] {
      assert Max(xs) in xs && Min(xs) in xs;
    }
  }

  lemma {:induction false} ColumnTotalAppend(a: seq<Row>, b: seq<Row>, column: string)
    ensures ColumnTotal(a + b, column) == ColumnTotal(a, column) + ColumnTotal(b, column)
    decreases |b|
  {
    if b == [] {
      assert a + b == a;
    } else {
      var b' := b[..|b| - 1];
      assert (a + b)[..|a + b| - 1] == a + b';
      ColumnTotalAppend(a, b', column);
    }
  }

  /** Taking out the row at `k` takes its number out of the total and the row out of the multiset. */
  lemma RemoveRow(rows: seq<Row>, k: nat, column: string)
    requires k < |rows|
    ensures multiset(rows[..k] + rows[k + 1..]) == multiset(rows) - multiset{rows[k]}
    ensures ColumnTotal(rows, column) ==
      ColumnTotal(rows[..k] + rows[k + 1..], column) + ParseNumber(Get(rows[k], column))
  {
    var x := rows[k];
    assert rows == rows[..k] + [x] + rows[k + 1..];
    ColumnTotalAppend(rows[..k] + [x], rows[k + 1..], column);
    ColumnTotalAppend(rows[..k], [x], column);
    ColumnTotalAppend(rows[..k], rows[k + 1..], column);
    assert ColumnTotal([x], column) == ParseNumber(Get(x, column)) by {
      assert [x][..0] == [];
    }
  }

  /** The total does not depend on the order of the rows. */
  lemma {:induction false} ColumnTotalPermutation(rows: seq<Row>, other: seq<Row>, column: string)
    requires multiset(rows) == multiset(other)
    ensures ColumnTotal(rows, column) == ColumnTotal(other, column)
    decreases |rows|
  {
    if rows == [] {
      assert |other| == |multiset(other)| == 0;
    } else {
      var k := |rows| - 1;
      var last := rows[k];
      assert rows[..k] + rows[k + 1..] == rows[..k];
      RemoveRow(rows, k, column);
      assert last in multiset(other);
      var j :| 0 <= j < |other| && other[j] == last;
      RemoveRow(other, j, column);
      ColumnTotalPermutation(rows[..k], other[..j] + other[j + 1..], column);
    }
  }

  /** The extremes of a list depend only on which values it holds. */
  lemma MaxSameElements(xs: seq<int>, ys: seq<int>)
    requires xs != []
    requires forall x :: x in xs ==> x in ys
    requires forall y :: y in ys ==> y in xs
    ensures ys != [] && Max(xs) == Max(ys) && Min(xs) == Min(ys)
  {
    var x := xs[0];
    assert x in xs;
    assert x in ys;
    assert Max(xs) in ys && Max(ys) in xs;
    assert Min(xs) in ys && Min(ys) in xs;
  }

  /** The panel shows the same figures however the year's rows are ordered. */
  lemma SummarizePermutation(rows: seq<Row>, other: seq<Row>, columns: seq<string>)
    requires multiset(rows) == multiset(other)
    ensures Summarize(rows, columns) == Summarize(other, columns)
  {
    var salesColumn := FindColumn(columns, SalesLabel);
    var priceColumn := FindColumn(columns, PriceLabel);
    var countColumn := FindColumn(columns, CountLabel);
    assert |rows| == |multiset(rows)| == |other|;
    ColumnTotalPermutation(rows, other, salesColumn);
    ColumnTotalPermutation(rows, other, priceColumn);
    forall column | column in {salesColumn, countColumn}
      ensures MaxOrZero(PositiveValues(rows, column)) == MaxOrZero(PositiveValues(other, column))
      ensures MinOrZero(PositiveValues(rows, column)) == MinOrZero(PositiveValues(other, column))
    {
      PositiveValuesMembers(rows, column);
      PositiveValuesMembers(other, column);
      forall r
        ensures r in rows <==> r in other
      {
        assert r in rows <==> r in multiset(rows);
        assert r in other <==> r in multiset(other);
      }
      var xs := PositiveValues(rows, column);
      var ys := PositiveValues(other, column);
      if xs != [] {
        MaxSameElements(xs, ys);
      } else if ys != [] {
        MaxSameElements(ys, xs);
      }
    }
  }

  /** `Math.round`: the nearest integer, halves rounded up. */
  function Round(x: real): (r: int)
    ensures (r as real) - 0.5 <= x < (r as real) + 0.5
  {
    (x + 0.5).Floor
  }

  /** The panel's `formatCurrency`: `₩` and the ko-KR rendering, which reads back as the number. */
  function FormatWon(n: int): (r: string)
    ensures |r| > 1 && r[0] == '₩'
    ensures NumberValue(r[1..]) == Some(n)
  {
    LocaleStringRoundTrip(n);
    var r := "₩" + LocaleString(n);
    assert r[1..] == LocaleString(n);
    r
  }
}
