/** A spreadsheet row as the dashboard holds it: column label to cell text. */
module Sheet {
  import opened Wrappers

  type Row = map<string, string>

  /** The title column; a row without a title is left out of the table and the calendar. */
  const TitleColumn := "제목(공유 폴더 링크)"

  /** `row[column]`, which is `undefined` when the row has no such cell. */
  function Get(row: Row, column: string): Option<string> {
    if column in row then Some(row[column]) else None
  }

  /** `row[column] || ""`. */
  function CellText(row: Row, column: string): string {
    Get(row, column).GetOr("")
  }

  /** `Boolean(row[column])`: the cell exists and is not empty. */
  predicate Filled(row: Row, column: string) {
    CellText(row, column) != ""
  }

  predicate HasTitle(row: Row) {
    Filled(row, TitleColumn)
  }
}

/** Order-preserving selections from a sequence. */
module Sequences {

  /** `a` can be obtained from `b` by deleting elements, without reordering what is left. */
  predicate IsSubsequence<T(==)>(a: seq<T>, b: seq<T>)
    decreases |b|
  {
    if b == [] then a == []
    else
      IsSubsequence(a, b[..|b| - 1]) ||
      (a != [] && a[|a| - 1] == b[|b| - 1] && IsSubsequence(a[..|a| - 1], b[..|b| - 1]))
  }

  /** The concatenation of the rows of a grid. */
  function Flatten<T>(rows: seq<seq<T>>): seq<T> {
    if rows == [] then [] else rows[0] + Flatten(rows[1..])
  }

  /** `for (k = 0; k < s.length; k += n) rows.push(s.slice(k, k + n))`. */
  function Chunks<T>(s: seq<T>, n: nat): seq<seq<T>>
    requires n > 0
    decreases |s|
  {
    if s == [] then []
    else if |s| <= n then [s]
    else [s[..n]] + Chunks(s[n..], n)
  }

  /** The first row of the chunking of `s[k..]`, and what is left after it. */
  lemma ChunksStep<T>(s: seq<T>, k: nat, n: nat)
    requires k < |s| && n > 0
    ensures var end := if k + n < |s| then k + n else |s|;
      Chunks(s[k..], n) == [s[k..end]] + Chunks(s[end..], n)
  {
    var rest := s[k..];
    if k + n < |s| {
      assert rest[..n] == s[k..k + n] && rest[n..] == s[k + n..];
    } else {
      assert s[|s|..] == [];
      assert rest == s[k..|s|];
    }
  }

  /** The rows of a chunking put back together are the sequence chunked. */
  lemma {:induction false} ChunksFlatten<T>(s: seq<T>, n: nat)
    requires n > 0
    ensures Flatten(Chunks(s, n)) == s
    decreases |s|
  {
    if |s| > n {
      var c := Chunks(s, n);
      assert c[1..] == Chunks(s[n..], n);
      ChunksFlatten(s[n..], n);
      assert s == s[..n] + s[n..];
    } else if s != [] {
      assert Flatten(Chunks(s, n)) == s + Flatten([]);
    }
  }

  /** Every row but the last has `n` elements, the last between 1 and `n`. */
  lemma {:induction false} ChunksShape<T>(s: seq<T>, n: nat)
    requires n > 0
    ensures forall r :: 0 <= r < |Chunks(s, n)| - 1 ==> |Chunks(s, n)[r]| == n
    ensures Chunks(s, n) != [] ==> 1 <= |Chunks(s, n)[|Chunks(s, n)| - 1]| <= n
    decreases |s|
  {
    if |s| > n {
      var c := Chunks(s, n);
      var rest := Chunks(s[n..], n);
      ChunksShape(s[n..], n);
      assert c == [s[..n]] + rest;
      forall r | 0 <= r < |c| - 1
        ensures |c[r]| == n
      {
        if r > 0 {
          assert c[r] == rest[r - 1];
        }
      }
    }
  }

  predicate Distinct<T(==)>(s: seq<T>) {
    forall i, j :: 0 <= i < j < |s| ==> s[i] != s[j]
  }

  lemma DistinctSnoc<T>(s: seq<T>, x: T)
    requires Distinct(s) && x !in s
    ensures Distinct(s + [x])
  {
    var t := s + [x];
    forall i, j | 0 <= i < j < |t|
      ensures t[i] != t[j]
    {
      if j == |s| {
        assert t[i] == s[i];
      } else {
        assert t[i] == s[i] && t[j] == s[j];
      }
    }
  }

  lemma {:induction false} DistinctCount<T>(s: seq<T>, x: T)
    requires Distinct(s)
    ensures multiset(s)[x] <= 1
  {
    if s != [] {
      var init := s[..|s| - 1];
      assert s == init + [s[|s| - 1]];
      DistinctCount(init, x);
      if x == s[|s| - 1] {
        assert x !in init;
      }
    }
  }

  /** Rearranging a sequence without repetitions gives one without repetitions. */
  lemma DistinctPermutation<T>(s: seq<T>, t: seq<T>)
    requires multiset(s) == multiset(t) && Distinct(s)
    ensures Distinct(t)
  {
    forall i, j | 0 <= i < j < |t|
      ensures t[i] != t[j]
    {
      if t[i] == t[j] {
        var x := t[i];
        assert t == t[..j] + t[j..];
        assert x in multiset(t[..j]) && x in multiset(t[j..]);
        assert multiset(t)[x] == multiset(t[..j])[x] + multiset(t[j..])[x];
        DistinctCount(s, x);
        assert false;
      }
    }
  }
}
