/**
 * The page that loads the sheet: the feed's `prefix(` ... `);` envelope is cut
 * off, each body row is zipped with the header labels into a row map, the
 * visible columns are picked from an allow-list, and only company accounts see
 * the dashboard.
 */
module Page {
  import opened Wrappers
  import opened Text
  import opened Sheet
  import opened Sequences

  // ---------------------------------------------------------------- the envelope

  /** The index of the first `c` in `s`, if any. */
  function FirstIndex(s: string, c: char): (r: Option<nat>)
    ensures r.Some? <==> c in s
    ensures r.Some? ==> r.value < |s| && s[r.value] == c && c !in s[..r.value]
  {
    if s == [] then None
    else if s[0] == c then Some(0)
    else
      match FirstIndex(s[1..], c)
      case None => None
      case Some(i) => assert s[..i + 1] == [s[0]] + s[1..][..i]; Some(i + 1)
  }

  /** The text after the first `(`; all of it when there is none. */
  function AfterOpen(text: string): (r: string)
    ensures |r| <= |text| && r == text[|text| - |r|..]
    ensures '(' !in text ==> r == text
    ensures '(' in text ==> |r| < |text| && text[|text| - |r| - 1] == '(' && '(' !in text[..|text| - |r| - 1]
  {
    match FirstIndex(text, '(')
    case None => text
    case Some(i) => text[i + 1..]
  }

  /** The text without a final `)` or `);`. */
  function DropClose(body: string): (r: string)
    ensures |r| <= |body| && r == body[..|r|]
    ensures |body| - |r| == if EndsWith(body, ");") then 2 else if EndsWith(body, ")") then 1 else 0
  {
    if EndsWith(body, ");") then body[..|body| - 2]
    else if EndsWith(body, ")") then body[..|body| - 1]
    else body
  }

  /**
   * `text.replace(/^[^\(]*\(|\);?$/g, "")`: everything up to and including the
   * first `(`, when there is one, and a final `)` or `);` are removed.
   */
  function StripEnvelope(text: string): (r: string)
    ensures '(' !in text && !EndsWith(text, ")") && !EndsWith(text, ");") ==> r == text
    ensures Contains(text, r)
  {
    var a := AfterOpen(text);
    var r := DropClose(a);
    PrefixOfSuffix(text, |text| - |a|, |r|);
    assert OccursAt(text, r, |text| - |a|);
    r
  }

  /** The first `n` characters of the suffix from `i` are the slice from `i` to `i + n`. */
  lemma PrefixOfSuffix(s: string, i: nat, n: nat)
    requires i + n <= |s|
    ensures s[i..][..n] == s[i..i + n]
  {
  }

  /** The text after the first `(` of `P(...` whose prefix `P` has no `(`. */
  lemma AfterPrefix(prefix: string, rest: string)
    requires '(' !in prefix
    ensures AfterOpen(prefix + "(" + rest) == rest
  {
    var text := prefix + "(" + rest;
    assert text[..|prefix|] == prefix && text[|prefix|] == '(';
    assert FirstIndex(text, '(') == Some(|prefix|);
    assert text[|prefix| + 1..] == rest;
  }

  /** A callback `P(B);` whose prefix has no `(` gives back exactly `B`. */
  lemma StripCallback(prefix: string, body: string)
    requires '(' !in prefix
    ensures StripEnvelope(prefix + "(" + body + ");") == body
  {
    var rest := body + ");";
    assert prefix + "(" + body + ");" == prefix + "(" + rest;
    AfterPrefix(prefix, rest);
    assert rest[|rest| - 2..] == ");";
    assert rest[..|rest| - 2] == body;
  }

  /** Without the semicolon, `P(B)` gives back `B` as well. */
  lemma StripCall(prefix: string, body: string)
    requires '(' !in prefix
    ensures StripEnvelope(prefix + "(" + body + ")") == body
  {
    var rest := body + ")";
    assert prefix + "(" + body + ")" == prefix + "(" + rest;
    AfterPrefix(prefix, rest);
    ClosingParen(body);
  }

  lemma ClosingParen(body: string)
    ensures DropClose(body + ")") == body
  {
    var rest := body + ")";
    assert rest[|rest| - 1..] == ")";
    if |rest| >= 2 {
      assert rest[|rest| - 2..][1] == ')';
    }
    assert rest[..|rest| - 1] == body;
  }

  // ---------------------------------------------------------------- rows

  /** A cell of the feed: `null`, or an object whose value `v` may be `null`. */
  datatype FeedCell = NullCell | FeedCell(v: Option<string>)

  /** `cell?.v ?? ""`. */
  function CellValue(cell: FeedCell): (r: string)
    ensures cell.NullCell? || cell.v.None? ==> r == ""
    ensures cell.FeedCell? && cell.v.Some? ==> r == cell.v.value
  {
    match cell
    case NullCell => ""
    case FeedCell(v) => v.GetOr("")
  }

  /** `cols[idx]` used as a key: past the last label it is `undefined`, which becomes the key "undefined". */
  function Label(cols: seq<string>, idx: nat): string {
    if idx < |cols| then cols[idx] else "undefined"
  }

  /** The row object after the first `|cells|` assignments `obj[cols[idx]] = cell?.v ?? ""`. */
  function RowOf(cols: seq<string>, cells: seq<FeedCell>): Row {
    if cells == [] then map[]
    else RowOf(cols, cells[..|cells| - 1])[Label(cols, |cells| - 1) := CellValue(cells[|cells| - 1])]
  }

  /** Every value of the row is the value of a cell whose label is its key. */
  lemma {:induction false} RowOfValues(cols: seq<string>, cells: seq<FeedCell>)
    ensures forall key :: key in RowOf(cols, cells) ==>
      exists i :: 0 <= i < |cells| && Label(cols, i) == key && RowOf(cols, cells)[key] == CellValue(cells[i])
  {
    if cells != [] {
      var n := |cells| - 1;
      var init := cells[..n];
      var row := RowOf(cols, cells);
      RowOfValues(cols, init);
      forall key | key in row
        ensures exists i :: 0 <= i < |cells| && Label(cols, i) == key && row[key] == CellValue(cells[i])
      {
        if key != Label(cols, n) {
          assert key in RowOf(cols, init);
          var i :| 0 <= i < n && Label(cols, i) == key && RowOf(cols, init)[key] == CellValue(init[i]);
          assert init[i] == cells[i];
        }
      }
    }
  }

  /** The `forEach` that fills the row object cell by cell. */
  method ZipRow(cols: seq<string>, cells: seq<FeedCell>) returns (row: Row)
    ensures row == RowOf(cols, cells)
  {
    row := map[];
    for idx := 0 to |cells|
      invariant row == RowOf(cols, cells[..idx])
    {
      assert cells[..idx + 1][..idx] == cells[..idx];
      row := row[Label(cols, idx) := CellValue(cells[idx])];
    }
    assert cells[..|cells|] == cells;
  }

  /** The row has a key exactly for the labels of its cells. */
  lemma {:induction false} RowOfKeys(cols: seq<string>, cells: seq<FeedCell>)
    ensures forall key :: key in RowOf(cols, cells) <==> exists i :: 0 <= i < |cells| && Label(cols, i) == key
  {
    if cells != [] {
      var n := |cells| - 1;
      var init := cells[..n];
      RowOfKeys(cols, init);
      forall key
        ensures key in RowOf(cols, cells) <==> exists i :: 0 <= i < |cells| && Label(cols, i) == key
      {
        if key in RowOf(cols, init) {
          var i :| 0 <= i < n && Label(cols, i) == key;
          assert i < |cells|;
        }
        if exists i :: 0 <= i < |cells| && Label(cols, i) == key {
          var i :| 0 <= i < |cells| && Label(cols, i) == key;
          assert i == n || (0 <= i < |init| && Label(cols, i) == key);
        }
      }
    }
  }

  /** Each key holds the value of the last cell with that label: later cells overwrite earlier ones. */
  lemma {:induction false} RowOfLastWriter(cols: seq<string>, cells: seq<FeedCell>, i: nat)
    requires i < |cells|
    requires forall j :: i < j < |cells| ==> Label(cols, j) != Label(cols, i)
    ensures Label(cols, i) in RowOf(cols, cells)
    ensures RowOf(cols, cells)[Label(cols, i)] == CellValue(cells[i])
  {
    var n := |cells| - 1;
    if i < n {
      var init := cells[..n];
      assert Label(cols, n) != Label(cols, i);
      assert init[i] == cells[i];
      RowOfLastWriter(cols, init, i);
    }
  }

  /** A label that only appears at or after the row's cell count has no key in the row. */
  lemma LabelsPastCellsAbsent(cols: seq<string>, cells: seq<FeedCell>, key: string)
    requires |cells| <= |cols| && key !in cols[..|cells|]
    ensures key !in RowOf(cols, cells)
  {
    RowOfKeys(cols, cells);
    forall i | 0 <= i < |cells|
      ensures Label(cols, i) != key
    {
      assert cols[..|cells|][i] == cols[i];
    }
  }

  /** `json.table.rows.map(...)`: one row map per body row, in order. */
  function BuildRows(cols: seq<string>, body: seq<seq<FeedCell>>): (rows: seq<Row>)
    ensures |rows| == |body|
    ensures forall i :: 0 <= i < |body| ==> rows[i] == RowOf(cols, body[i])
    ensures forall i, key :: 0 <= i < |body| ==>
      (key in rows[i] <==> exists j :: 0 <= j < |body[i]| && Label(cols, j) == key)
  {
    var rows := seq(|body|, i requires 0 <= i < |body| => RowOf(cols, body[i]));
    forall i | 0 <= i < |body|
      ensures forall key :: key in rows[i] <==> exists j :: 0 <= j < |body[i]| && Label(cols, j) == key
    {
      RowOfKeys(cols, body[i]);
    }
    rows
  }

  // ---------------------------------------------------------------- columns and access

  /** `columns.filter(col => allowed.includes(col))`. */
  function FilterColumns(columns: seq<string>, allowed: seq<string>): (r: seq<string>)
    ensures |r| <= |columns|
    ensures forall c :: c in r ==> c in allowed
  {
    if columns == [] then []
    else
      var last := columns[|columns| - 1];
      FilterColumns(columns[..|columns| - 1], allowed) + if last in allowed then [last] else []
  }

  /** The visible columns are the allowed ones, in the sheet's order. */
  lemma {:induction false} FilterColumnsSelects(columns: seq<string>, allowed: seq<string>)
    ensures IsSubsequence(FilterColumns(columns, allowed), columns)
    ensures forall c :: c in FilterColumns(columns, allowed) <==> c in columns && c in allowed
  {
    if columns != [] {
      var init := columns[..|columns| - 1];
      var last := columns[|columns| - 1];
      var kept := FilterColumns(init, allowed);
      FilterColumnsSelects(init, allowed);
      assert columns == init + [last];
      if last in allowed {
        var r := kept + [last];
        assert r[..|r| - 1] == kept;
      } else {
        assert FilterColumns(columns, allowed) == kept;
      }
    }
  }

  /** Each allowed label appears among the visible columns as often as in the sheet. */
  lemma {:induction false} FilterColumnsCount(columns: seq<string>, allowed: seq<string>, c: string)
    ensures multiset(FilterColumns(columns, allowed))[c] == if c in allowed then multiset(columns)[c] else 0
  {
    if columns != [] {
      var init := columns[..|columns| - 1];
      var last := columns[|columns| - 1];
      FilterColumnsCount(init, allowed, c);
      assert columns == init + [last];
    }
  }

  const AllowedSuffix := "@goldenrabbit.co.kr"

  /** `(session.user?.email || "").endsWith("@goldenrabbit.co.kr")`. */
  predicate HasAccess(email: Option<string>)
    ensures HasAccess(email) ==> email.Some? && |email.value| >= |AllowedSuffix|
  {
    EndsWith(email.GetOr(""), AllowedSuffix)
  }

  /** Access is granted exactly to an address ending in the company suffix; no address, no access. */
  lemma AccessExactly(email: Option<string>)
    ensures HasAccess(email) <==> email.Some? && EndsWith(email.value, AllowedSuffix)
    ensures HasAccess(email) <==> exists local :: email == Some(local + AllowedSuffix)
  {
    if HasAccess(email) {
      var s := email.value;
      var local := s[..|s| - |AllowedSuffix|];
      assert s == local + AllowedSuffix;
    }
    if exists local :: email == Some(local + AllowedSuffix) {
      var local :| email == Some(local + AllowedSuffix);
      var s := local + AllowedSuffix;
      assert s[|s| - |AllowedSuffix|..] == AllowedSuffix;
    }
  }
}
