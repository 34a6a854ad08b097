/**
 * The spreadsheet feed writes dates as the literals `Date(YYYY,M,D)` and
 * `Date(YYYY,M)` (month zero-based). Both the table and the calendar recognise
 * them with the anchored patterns `^Date\((\d{4}),(\d{1,2}),(\d{1,2})\)$` and
 * `^Date\((\d{4}),(\d{1,2})\)$`; this module is that recogniser, together with
 * the printer it inverts.
 */
module DateLiterals {
  import opened Wrappers
  import opened Text

  /** The three captured groups of a full date literal, as text. */
  datatype DayLiteral = DayLiteral(year: string, month: string, day: string)

  /** The two captured groups of a year-month literal, as text. */
  datatype MonthLiteral = MonthLiteral(year: string, month: string)

  /** What `\d{4}` captures. */
  predicate YearNumeral(s: string) {
    |s| == 4 && AllDigits(s)
  }

  /** What `\d{1,2}` captures. */
  predicate ShortNumeral(s: string) {
    1 <= |s| <= 2 && AllDigits(s)
  }

  lemma ShortNumeralBelow100(s: string)
    requires ShortNumeral(s)
    ensures DigitsValue(s) < 100
  {
    var init := s[..|s| - 1];
    assert init == [] || init == [s[0]];
    if init != [] {
      assert init[..0] == [];
      assert DigitsValue(init) == DigitValue(s[0]);
    }
  }

  predicate WellFormedDay(l: DayLiteral) {
    YearNumeral(l.year) && ShortNumeral(l.month) && ShortNumeral(l.day)
  }

  predicate WellFormedMonth(l: MonthLiteral) {
    YearNumeral(l.year) && ShortNumeral(l.month)
  }

  function RenderDay(l: DayLiteral): string {
    "Date(" + l.year + "," + l.month + "," + l.day + ")"
  }

  function RenderMonth(l: MonthLiteral): string {
    "Date(" + l.year + "," + l.month + ")"
  }

  /**
   * Matches `\d{1,2}` followed by the non-digit `sep` at the start of `s`, giving
   * the digits and what follows `sep`. The quantifier is greedy, and a third digit
   * where `sep` is due makes the match fail.
   */
  function ShortGroup(s: string, sep: char): (r: Option<(string, string)>)
    ensures r.Some? ==> ShortNumeral(r.value.0) && s == r.value.0 + [sep] + r.value.1
  {
    var k := if |s| >= 2 && IsDigit(s[0]) && IsDigit(s[1]) then 2
             else if |s| >= 1 && IsDigit(s[0]) then 1
             else 0;
    if 1 <= k < |s| && s[k] == sep then Some((s[..k], s[k + 1..])) else None
  }

  lemma ShortGroupOfRendered(digits: string, sep: char, rest: string)
    requires ShortNumeral(digits) && !IsDigit(sep)
    ensures ShortGroup(digits + [sep] + rest, sep) == Some((digits, rest))
  {
    var s := digits + [sep] + rest;
    assert s[..|digits|] == digits;
    assert s[|digits| + 1..] == rest;
  }

  /** Splits `s` as `Date(` + four digits + `,` + the rest. */
  function YearGroup(s: string): (r: Option<(string, string)>)
    ensures r.Some? ==> YearNumeral(r.value.0) && s == "Date(" + r.value.0 + "," + r.value.1
  {
    if |s| >= 10 && s[..5] == "Date(" && AllDigits(s[5..9]) && s[9] == ',' then
      Some((s[5..9], s[10..]))
    else
      None
  }

  lemma YearGroupOfRendered(year: string, rest: string)
    requires YearNumeral(year)
    ensures YearGroup("Date(" + year + "," + rest) == Some((year, rest))
  {
    var s := "Date(" + year + "," + rest;
    assert s[..5] == "Date(" && s[5..9] == year && s[10..] == rest;
  }

  /** `^Date\((\d{4}),(\d{1,2}),(\d{1,2})\)$`: `Some` exactly when `s` is a rendered well-formed day literal. */
  function ParseDay(s: string): (r: Option<DayLiteral>)
    ensures r.Some? ==> WellFormedDay(r.value) && s == RenderDay(r.value)
  {
    match YearGroup(s)
    case None => None
    case Some((year, rest)) =>
      match ShortGroup(rest, ',')
      case None => None
      case Some((month, rest')) =>
        match ShortGroup(rest', ')')
        case None => None
        case Some((day, tail)) =>
          if tail == [] then
            DayPieces(s, year, rest, month, rest', day);
            Some(DayLiteral(year, month, day))
          else None
  }

  /** The pieces `ParseDay` splits off put back together are the rendered literal. */
  lemma DayPieces(s: string, year: string, rest: string, month: string, rest': string, day: string)
    requires s == "Date(" + year + "," + rest
    requires rest == month + [','] + rest'
    requires rest' == day + [')'] + []
    ensures s == RenderDay(DayLiteral(year, month, day))
  {
  }

  /** `^Date\((\d{4}),(\d{1,2})\)$`: `Some` exactly when `s` is a rendered well-formed month literal. */
  function ParseMonth(s: string): (r: Option<MonthLiteral>)
    ensures r.Some? ==> WellFormedMonth(r.value) && s == RenderMonth(r.value)
  {
    match YearGroup(s)
    case None => None
    case Some((year, rest)) =>
      match ShortGroup(rest, ')')
      case None => None
      case Some((month, tail)) =>
        if tail == [] then
          MonthPieces(s, year, rest, month);
          Some(MonthLiteral(year, month))
        else None
  }

  /** The pieces `ParseMonth` splits off put back together are the rendered literal. */
  lemma MonthPieces(s: string, year: string, rest: string, month: string)
    requires s == "Date(" + year + "," + rest
    requires rest == month + [')'] + []
    ensures s == RenderMonth(MonthLiteral(year, month))
  {
  }

  /** Every well-formed day literal is recognised, with its own groups. */
  lemma ParseRenderedDay(l: DayLiteral)
    requires WellFormedDay(l)
    ensures ParseDay(RenderDay(l)) == Some(l)
  {
    var rest := l.month + "," + l.day + ")";
    assert RenderDay(l) == "Date(" + l.year + "," + rest;
    YearGroupOfRendered(l.year, rest);
    assert rest == l.month + [','] + (l.day + ")");
    ShortGroupOfRendered(l.month, ',', l.day + ")");
    assert l.day + ")" == l.day + [')'] + [];
    ShortGroupOfRendered(l.day, ')', []);
  }

  /** Every well-formed month literal is recognised, with its own groups. */
  lemma ParseRenderedMonth(l: MonthLiteral)
    requires WellFormedMonth(l)
    ensures ParseMonth(RenderMonth(l)) == Some(l)
  {
    var rest := l.month + ")";
    assert RenderMonth(l) == "Date(" + l.year + "," + rest;
    YearGroupOfRendered(l.year, rest);
    assert rest == l.month + [')'] + [];
    ShortGroupOfRendered(l.month, ')', []);
  }

  /** No string is both kinds of literal: after the month digits one has `,`, the other `)`. */
  lemma LiteralsDisjoint(s: string)
    ensures !(ParseDay(s).Some? && ParseMonth(s).Some?)
  {
  }
}
