/**
 * Character-level helpers shared by the table, statistics and calendar code:
 * ASCII digits and decimal numerals, substrings, and the integer abstraction of
 * "remove the commas, then `parseFloat`".
 */
module Text {
  import opened Wrappers

  predicate IsDigit(c: char) {
    '0' <= c <= '9'
  }

  predicate AllDigits(s: string) {
    forall i :: 0 <= i < |s| ==> IsDigit(s[i])
  }

  function DigitValue(c: char): nat
    requires IsDigit(c)
  {
    (c as int) - ('0' as int)
  }

  function DigitChar(d: nat): (c: char)
    requires d < 10
    ensures IsDigit(c) && DigitValue(c) == d
  {
    (('0' as int) + d) as char
  }

  /** The number a string of decimal digits denotes, as `Number(s)` reads it: leading zeros are allowed. */
  function DigitsValue(s: string): nat
    requires AllDigits(s)
  {
    if s == [] then 0 else 10 * DigitsValue(s[..|s| - 1]) + DigitValue(s[|s| - 1])
  }

  /** `String(n)` for a non-negative integer: the shortest decimal numeral, without leading zeros. */
  function NatToString(n: nat): (s: string)
    ensures AllDigits(s) && 1 <= |s|
    ensures |s| > 1 ==> s[0] != '0'
    ensures n < 10 <==> |s| == 1
  {
    if n < 10 then [DigitChar(n)] else NatToString(n / 10) + [DigitChar(n % 10)]
  }

  lemma {:induction false} NatToStringRoundTrip(n: nat)
    ensures DigitsValue(NatToString(n)) == n
  {
    if n >= 10 {
      var s := NatToString(n);
      assert s[..|s| - 1] == NatToString(n / 10);
      NatToStringRoundTrip(n / 10);
    }
  }

  /** Two digit strings of the same length denote the same number only when they are equal. */
  lemma {:induction false} DigitsValueInjective(s: string, t: string)
    requires AllDigits(s) && AllDigits(t) && |s| == |t|
    requires DigitsValue(s) == DigitsValue(t)
    ensures s == t
  {
    if s != [] {
      var n := |s|;
      TensAndUnits(DigitsValue(s[..n - 1]), DigitValue(s[n - 1]), DigitsValue(t[..n - 1]), DigitValue(t[n - 1]));
      DigitsValueInjective(s[..n - 1], t[..n - 1]);
      forall i | 0 <= i < n - 1
        ensures s[i] == t[i]
      {
        assert s[i] == s[..n - 1][i] && t[i] == t[..n - 1][i];
      }
    }
  }

  /** A number written as tens and a units digit determines both. */
  lemma TensAndUnits(a: int, d: int, b: int, e: int)
    requires 0 <= d < 10 && 0 <= e < 10
    requires 10 * a + d == 10 * b + e
    ensures a == b && d == e
  {
  }

  /** `String(i)` for any integer. */
  function IntToString(i: int): (s: string)
    ensures 1 <= |s|
    ensures i >= 0 ==> s == NatToString(i)
    ensures i < 0 ==> s == "-" + NatToString(-i)
  {
    if i < 0 then "-" + NatToString(-i) else NatToString(i)
  }

  /** `s.padStart(2, "0")`. */
  function PadStart2(s: string): (r: string)
    ensures |r| == if |s| >= 2 then |s| else 2
    ensures r[|r| - |s|..] == s
    ensures forall i :: 0 <= i < |r| - |s| ==> r[i] == '0'
  {
    if |s| >= 2 then s else seq(2 - |s|, _ => '0') + s
  }

  /** `String(n).padStart(2, "0")`: a numeral of at least two digits that still denotes `n`. */
  function TwoDigit(n: nat): (r: string)
    ensures AllDigits(r) && DigitsValue(r) == n
    ensures 2 <= |r|
    ensures n < 100 ==> |r| == 2
  {
    NatToStringRoundTrip(n);
    var s := NatToString(n);
    if n < 10 then
      var r := PadStart2(s);
      assert r == "0" + s;
      assert r[..1] == "0";
      r
    else
      assert n < 100 ==> |NatToString(n / 10)| == 1;
      PadStart2(s)
  }

  /** `sub` occurs in `s` starting at index `i`. */
  predicate OccursAt(s: string, sub: string, i: int) {
    0 <= i <= |s| - |sub| && s[i..i + |sub|] == sub
  }

  /** `s.includes(sub)`. */
  predicate Contains(s: string, sub: string) {
    exists i | 0 <= i <= |s| - |sub| :: OccursAt(s, sub, i)
  }

  /** `s.endsWith(suffix)`. */
  predicate EndsWith(s: string, suffix: string) {
    |suffix| <= |s| && s[|s| - |suffix|..] == suffix
  }

  /** `s.replace(/,/g, "")`. */
  function StripCommas(s: string): (r: string)
    ensures ',' !in r
    ensures |r| <= |s|
    ensures ',' !in s ==> r == s
  {
    if s == [] then []
    else if s[0] == ',' then StripCommas(s[1..])
    else [s[0]] + StripCommas(s[1..])
  }

  /**
   * The white space `parseFloat` skips before the numeral: tab, vertical tab,
   * form feed, the byte order mark, the space separators and the line terminators.
   */
  predicate IsSpace(c: char) {
    c == '\t' || c == '\U{B}' || c == '\U{C}' || c == ' ' || c == '\U{A0}' || c == '\U{FEFF}' ||
    c == '\n' || c == '\r' || c == '\U{2028}' || c == '\U{2029}' ||
    c == '\U{1680}' || ('\U{2000}' <= c <= '\U{200A}') || c == '\U{202F}' || c == '\U{205F}' || c == '\U{3000}'
  }

  function SkipSpaces(s: string): (r: string)
    ensures |r| <= |s| && r == s[|s| - |r|..]
    ensures r != [] ==> !IsSpace(r[0])
    ensures s != [] && !IsSpace(s[0]) ==> r == s
  {
    if s != [] && IsSpace(s[0]) then SkipSpaces(s[1..]) else s
  }

  /** The longest prefix of `s` made of digits. */
  function LeadingDigits(s: string): (r: string)
    ensures |r| <= |s| && r == s[..|r|]
    ensures AllDigits(r)
    ensures |r| < |s| ==> !IsDigit(s[|r|])
  {
    if s != [] && IsDigit(s[0]) then [s[0]] + LeadingDigits(s[1..]) else []
  }

  /**
   * The integer part of what `parseFloat` reads once the white space is skipped:
   * an optional sign and then the longest run of digits, or none when a point and
   * a digit follow (as in `.5`, whose integer part is 0); `None` (JavaScript's NaN)
   * when neither a digit nor a point and a digit follow.
   */
  function ParseNumeral(t: string): (r: Option<int>)
    ensures r.Some? <==>
      var body := if t != [] && (t[0] == '-' || t[0] == '+') then t[1..] else t;
      body != [] && (IsDigit(body[0]) || (|body| > 1 && body[0] == '.' && IsDigit(body[1])))
  {
    var negative := t != [] && t[0] == '-';
    var body := if t != [] && (t[0] == '-' || t[0] == '+') then t[1..] else t;
    var digits := LeadingDigits(body);
    if digits == [] then
      if |body| > 1 && body[0] == '.' && IsDigit(body[1]) then Some(0) else None
    else
      var v: int := DigitsValue(digits);
      Some(if negative then -v else v)
  }

  /** The integer part of what `parseFloat` reads: leading white space is skipped first. */
  function ParseLeadingInt(s: string): Option<int> {
    ParseNumeral(SkipSpaces(s))
  }

  /** Reading back what `String(i)` writes gives `i` again. */
  lemma ParseIntToString(i: int)
    ensures ParseLeadingInt(IntToString(i)) == Some(i)
  {
    var n: nat := if i < 0 then -i else i;
    NatToStringRoundTrip(n);
    if i < 0 {
      ParseNegative(NatToString(n));
    } else {
      ParseDigits(NatToString(n));
    }
  }

  /** Digits read as the number they denote. */
  lemma ParseDigits(digits: string)
    requires AllDigits(digits) && digits != []
    ensures ParseLeadingInt(digits) == Some(DigitsValue(digits))
  {
    AllDigitsAreLeading(digits);
    assert !IsSpace(digits[0]);
    var t := SkipSpaces(digits);
    assert t == digits && t[0] != '-' && t[0] != '+';
  }

  /** A minus sign followed by digits reads as the negated number. */
  lemma ParseNegative(digits: string)
    requires AllDigits(digits) && digits != []
    ensures ParseLeadingInt("-" + digits) == Some(-(DigitsValue(digits) as int))
  {
    AllDigitsAreLeading(digits);
    var s := "-" + digits;
    assert s[0] == '-' && !IsSpace('-');
    var t := SkipSpaces(s);
    assert t == s;
    assert t[1..] == digits;
    assert LeadingDigits(t[1..]) == digits;
  }

  lemma {:induction false} AllDigitsAreLeading(s: string)
    requires AllDigits(s)
    ensures LeadingDigits(s) == s
  {
    if s != [] {
      AllDigitsAreLeading(s[1..]);
    }
  }

  /** The value of the digits `d` after the sign `sign`. */
  function SignedValue(sign: string, d: string): int
    requires AllDigits(d)
  {
    if sign == "-" then -(DigitsValue(d) as int) else DigitsValue(d)
  }

  predicate AllSpaces(s: string) {
    forall i :: 0 <= i < |s| ==> IsSpace(s[i])
  }

  /** Leading white space is skipped up to the first other character. */
  lemma {:induction false} SkipSpacesPrefix(sp: string, t: string)
    requires AllSpaces(sp)
    requires t == [] || !IsSpace(t[0])
    ensures SkipSpaces(sp + t) == t
  {
    if sp == [] {
      assert sp + t == t;
    } else {
      assert (sp + t)[0] == sp[0];
      assert (sp + t)[1..] == sp[1..] + t;
      SkipSpacesPrefix(sp[1..], t);
    }
  }

  /** The digit run ends where the first non-digit stands. */
  lemma {:induction false} LeadingDigitsPrefix(d: string, rest: string)
    requires AllDigits(d)
    requires rest == [] || !IsDigit(rest[0])
    ensures LeadingDigits(d + rest) == d
  {
    if d == [] {
      assert d + rest == rest;
    } else {
      assert (d + rest)[0] == d[0];
      assert (d + rest)[1..] == d[1..] + rest;
      LeadingDigitsPrefix(d[1..], rest);
    }
  }

  /** A numeral with no sign, followed by anything that does not continue the digits. */
  lemma {:induction false} ParseUnsigned(d: string, rest: string)
    requires AllDigits(d) && d != []
    requires rest == [] || !IsDigit(rest[0])
    ensures ParseNumeral(d + rest) == Some(DigitsValue(d))
  {
    var t := d + rest;
    assert t[0] == d[0] && IsDigit(t[0]);
    LeadingDigitsPrefix(d, rest);
    assert LeadingDigits(t) == d;
  }

  /** A numeral after a sign, followed by anything that does not continue the digits. */
  lemma {:induction false} ParseSigned(sign: char, d: string, rest: string)
    requires sign == '-' || sign == '+'
    requires AllDigits(d) && d != []
    requires rest == [] || !IsDigit(rest[0])
    ensures ParseNumeral([sign] + (d + rest)) ==
      Some(if sign == '-' then -(DigitsValue(d) as int) else DigitsValue(d))
  {
    var t := [sign] + (d + rest);
    assert t[0] == sign;
    assert t[1..] == d + rest;
    LeadingDigitsPrefix(d, rest);
    assert LeadingDigits(t[1..]) == d;
  }

  /**
   * A numeral after white space, with an optional sign and followed by anything
   * that does not continue the digits, reads as its signed value.
   */
  lemma {:induction false} ParseLeadingNumeral(sp: string, sign: string, d: string, rest: string)
    requires AllSpaces(sp)
    requires sign == "" || sign == "-" || sign == "+"
    requires AllDigits(d) && d != []
    requires rest == [] || !IsDigit(rest[0])
    ensures ParseLeadingInt(sp + sign + d + rest) == Some(SignedValue(sign, d))
  {
    var t := sign + (d + rest);
    var v := SignedValue(sign, d);
    assert ParseNumeral(t) == Some(v) by {
      if sign == "" {
        assert t == d + rest;
        ParseUnsigned(d, rest);
      } else {
        assert t == [sign[0]] + (d + rest);
        ParseSigned(sign[0], d, rest);
      }
    }
    assert SkipSpaces(sp + t) == t by {
      assert !IsSpace(t[0]) by {
        if sign == "" {
          assert t[0] == d[0] && IsDigit(d[0]);
        } else {
          assert t[0] == sign[0];
        }
      }
      SkipSpacesPrefix(sp, t);
    }
    ConcatAssoc(sp, sign, d, rest);
  }

  lemma {:induction false} ConcatAssoc(a: string, b: string, c: string, e: string)
    ensures a + b + c + e == a + (b + (c + e))
  {
  }

  /** `parseFloat(s.replace(/,/g, ""))`, on the integer part: the number a cell shows, or `None` for NaN. */
  function NumberValue(s: string): (r: Option<int>)
    ensures AllDigits(s) && s != [] ==> r == Some(DigitsValue(s))
  {
    var r := ParseLeadingInt(StripCommas(s));
    assert AllDigits(s) && s != [] ==> r == Some(DigitsValue(s)) by {
      if AllDigits(s) && s != [] {
        DigitsHaveNoCommas(s);
        ParseDigits(s);
      }
    }
    r
  }

  /** A character of a comma-grouped numeral. */
  predicate IsDigitOrComma(c: char) {
    IsDigit(c) || c == ','
  }

  /** Digits that may be grouped by commas, starting with a digit. */
  predicate GroupedDigits(g: string) {
    g != [] && IsDigit(g[0]) && forall i :: 0 <= i < |g| ==> IsDigitOrComma(g[i])
  }

  lemma {:induction false} StripGroupedDigits(g: string)
    requires forall i :: 0 <= i < |g| ==> IsDigitOrComma(g[i])
    ensures AllDigits(StripCommas(g))
    ensures g != [] && IsDigit(g[0]) ==> StripCommas(g) != [] && StripCommas(g)[0] == g[0]
  {
    if g != [] {
      StripGroupedDigits(g[1..]);
    }
  }

  /** Removing commas keeps a first character that is not a comma. */
  lemma {:induction false} StripCommasKeepsHead(s: string)
    requires s == [] || !IsDigitOrComma(s[0])
    ensures StripCommas(s) == [] || !IsDigit(StripCommas(s)[0])
  {
    if s != [] {
      assert StripCommas(s) == [s[0]] + StripCommas(s[1..]);
    }
  }

  /** Only the numeral and what follows it lose commas. */
  lemma {:induction false} StripCommasOfNumeral(sp: string, sign: string, g: string, rest: string)
    requires AllSpaces(sp)
    requires sign == "" || sign == "-" || sign == "+"
    ensures StripCommas(sp + sign + g + rest) == sp + sign + StripCommas(g) + StripCommas(rest)
  {
    assert ',' !in sp by {
      forall i | 0 <= i < |sp|
        ensures sp[i] != ','
      {
        assert IsSpace(sp[i]);
      }
    }
    assert ',' !in sign by {
      if sign != "" {
        assert sign[0] != ',';
      }
    }
    StripCommasAppend(sp, sign);
    StripCommasAppend(sp + sign, g);
    StripCommasAppend(sp + sign + g, rest);
  }

  /**
   * The number a cell shows: after white space and an optional sign, the digits of
   * a numeral that may hold commas, up to the first character that is neither a
   * digit nor a comma (`"1,000원"` reads as 1000, `" -12abc"` as -12).
   */
  lemma {:induction false} NumberValueOfNumeral(s: string, sp: string, sign: string, g: string, rest: string)
    requires s == sp + sign + g + rest
    requires AllSpaces(sp)
    requires sign == "" || sign == "-" || sign == "+"
    requires GroupedDigits(g)
    requires rest == [] || !IsDigitOrComma(rest[0])
    ensures AllDigits(StripCommas(g))
    ensures StripCommas(g) != []
    ensures NumberValue(s) == Some(SignedValue(sign, StripCommas(g)))
  {
    assert AllDigits(StripCommas(g)) && StripCommas(g) != [] by {
      StripGroupedDigits(g);
    }
    assert StripCommas(rest) == [] || !IsDigit(StripCommas(rest)[0]) by {
      StripCommasKeepsHead(rest);
    }
    assert StripCommas(s) == sp + sign + StripCommas(g) + StripCommas(rest) by {
      StripCommasOfNumeral(sp, sign, g, rest);
    }
    NumberValueOfStripped(s, sp, sign, StripCommas(g), StripCommas(rest));
  }

  /** `NumberValue` once the commas are gone: the signed value of the leading numeral. */
  lemma {:induction false} NumberValueOfStripped(x: string, sp: string, sign: string, d: string, r: string)
    requires AllSpaces(sp)
    requires sign == "" || sign == "-" || sign == "+"
    requires AllDigits(d) && d != []
    requires r == [] || !IsDigit(r[0])
    requires StripCommas(x) == sp + sign + d + r
    ensures NumberValue(x) == Some(SignedValue(sign, d))
  {
    ParseLeadingNumeral(sp, sign, d, r);
  }

  /** A text whose first character is a letter does not read as a number. */
  lemma LetterIsNotNumber(s: string)
    requires s != [] && 'A' <= s[0] <= 'Z'
    ensures NumberValue(s).None?
  {
    var c := StripCommas(s);
    assert c == [s[0]] + StripCommas(s[1..]);
    assert c[0] == s[0] && !IsSpace(c[0]) && !IsDigit(c[0]);
    assert SkipSpaces(c) == c;
  }

  lemma {:induction false} StripCommasAppend(a: string, b: string)
    ensures StripCommas(a + b) == StripCommas(a) + StripCommas(b)
  {
    if a == [] {
      assert a + b == b;
    } else {
      assert (a + b)[0] == a[0];
      assert (a + b)[1..] == a[1..] + b;
      StripCommasAppend(a[1..], b);
    }
  }

  function Pow10(k: nat): (p: nat)
    ensures p >= 1
  {
    if k == 0 then 1 else 10 * Pow10(k - 1)
  }

  lemma AllDigitsAppend(a: string, b: string)
    requires AllDigits(a) && AllDigits(b)
    ensures AllDigits(a + b)
  {
    forall i | 0 <= i < |a + b|
      ensures IsDigit((a + b)[i])
    {
      if i < |a| {
        assert (a + b)[i] == a[i];
      } else {
        assert (a + b)[i] == b[i - |a|];
      }
    }
  }

  /** Appending digits shifts the value of the first numeral left by their count. */
  lemma {:induction false} DigitsValueAppend(a: string, b: string)
    requires AllDigits(a) && AllDigits(b)
    ensures AllDigits(a + b)
    ensures DigitsValue(a + b) == DigitsValue(a) * Pow10(|b|) + DigitsValue(b)
    decreases |b|
  {
    AllDigitsAppend(a, b);
    if b == [] {
      assert a + b == a;
    } else {
      var c := a + b;
      var b' := b[..|b| - 1];
      assert c[..|c| - 1] == a + b';
      assert c[|c| - 1] == b[|b| - 1];
      DigitsValueAppend(a, b');
      Shift(DigitsValue(a), Pow10(|b'|), DigitsValue(b'), DigitValue(b[|b| - 1]));
    }
  }

  lemma Shift(x: int, p: int, y: int, d: int)
    ensures 10 * (x * p + y) + d == x * (10 * p) + (10 * y + d)
  {
  }

  /** Three digits with leading zeros: one group of a grouped numeral. */
  function Pad3(n: nat): (r: string)
    requires n < 1000
    ensures |r| == 3 && AllDigits(r) && DigitsValue(r) == n
  {
    ThreeDigits(n);
    var h, t, u := n / 100, n / 10 % 10, n % 10;
    var r := [DigitChar(h), DigitChar(t), DigitChar(u)];
    assert r[..2][..1] == [r[0]] && r[..2][..1][..0] == [];
    assert DigitsValue(r[..2][..1]) == h;
    assert DigitsValue(r[..2]) == 10 * h + t;
    r
  }

  /** The hundreds, tens and units of a number below a thousand. */
  lemma ThreeDigits(n: nat)
    requires n < 1000
    ensures n / 100 < 10 && n / 10 % 10 < 10 && n % 10 < 10
    ensures n == 100 * (n / 100) + 10 * (n / 10 % 10) + n % 10
  {
    var q, u := n / 10, n % 10;
    assert n == 10 * q + u;
    var h, t := q / 10, q % 10;
    assert q == 10 * h + t;
    assert n == 100 * h + 10 * t + u;
    assert n / 100 == h;
  }

  /** `n.toLocaleString("ko-KR")` for a non-negative integer: digits in groups of three, separated by commas. */
  function GroupedNat(n: nat): (s: string)
    ensures s != [] && IsDigit(s[0])
  {
    if n < 1000 then NatToString(n) else GroupedNat(n / 1000) + "," + Pad3(n % 1000)
  }

  /** `i.toLocaleString("ko-KR")` for an integer. */
  function LocaleString(i: int): (s: string)
    ensures s != []
  {
    if i < 0 then "-" + GroupedNat(-i) else GroupedNat(i)
  }

  lemma DigitsHaveNoCommas(s: string)
    requires AllDigits(s)
    ensures StripCommas(s) == s
  {
    assert ',' !in s by {
      forall i | 0 <= i < |s|
        ensures s[i] != ','
      {
        assert IsDigit(s[i]);
      }
    }
  }

  /** Without its commas, a grouped numeral is a plain numeral of the same number. */
  lemma {:induction false} GroupedNatDigits(n: nat)
    ensures AllDigits(StripCommas(GroupedNat(n)))
    ensures DigitsValue(StripCommas(GroupedNat(n))) == n
    ensures StripCommas(GroupedNat(n)) != []
  {
    if n < 1000 {
      NatToStringRoundTrip(n);
      DigitsHaveNoCommas(NatToString(n));
    } else {
      var head := GroupedNat(n / 1000);
      var tail := Pad3(n % 1000);
      GroupedNatDigits(n / 1000);
      var stripped := StripCommas(head);
      DigitsHaveNoCommas(tail);
      assert StripCommas(head + ",") == stripped by {
        StripCommasAppend(head, ",");
      }
      StripCommasAppend(head + ",", tail);
      assert StripCommas(GroupedNat(n)) == stripped + tail;
      DigitsValueAppend(stripped, tail);
      assert Pow10(3) == 1000;
      assert DigitsValue(stripped + tail) == (n / 1000) * 1000 + n % 1000;
    }
  }

  /** Reading back what the ko-KR rendering writes gives the number again. */
  lemma LocaleStringRoundTrip(i: int)
    ensures NumberValue(LocaleString(i)) == Some(i)
  {
    var n: nat := if i < 0 then -i else i;
    GroupedNatDigits(n);
    var digits := StripCommas(GroupedNat(n));
    if i < 0 {
      StripCommasAppend("-", GroupedNat(n));
      assert StripCommas("-") == "-";
      ParseNegative(digits);
    } else {
      ParseDigits(digits);
    }
  }

}
