/** `get_top_records`: sort the observation table by one column, largest
    first with missing values last, and keep the first `n` rows. */
module TopRecords {
  import opened Values
  import opened Observations

  function Min(a: int, b: int): int { if a <= b then a else b }
  function Max(a: int, b: int): int { if a >= b then a else b }

  /** A row with cell `a` may stand before a row with cell `b` in a descending
      sort that puts missing values last. */
  predicate Precedes(a: Option<real>, b: Option<real>) {
    b.None? || (a.Some? && a.value >= b.value)
  }

  predicate SortedDesc(rows: seq<Row>, c: Column) {
    forall i, j :: 0 <= i < j < |rows| ==> Precedes(rows[i].Get(c), rows[j].Get(c))
  }

  /** Puts `x` into a sorted table, before the first row it may precede. */
  function Insert(x: Row, rows: seq<Row>, c: Column): (r: seq<Row>)
    ensures multiset(r) == multiset(rows) + multiset{x}
  {
    if rows == [] || Precedes(x.Get(c), rows[0].Get(c)) then
      [x] + rows
    else
      assert rows == [rows[0]] + rows[1..];
      [rows[0]] + Insert(x, rows[1..], c)
  }

  lemma {:induction false} InsertSorted(x: Row, rows: seq<Row>, c: Column)
    requires SortedDesc(rows, c)
    ensures SortedDesc(Insert(x, rows, c), c)
  {
    var r := Insert(x, rows, c);
    if rows == [] {
    } else if Precedes(x.Get(c), rows[0].Get(c)) {
      forall j | 1 <= j < |r| ensures Precedes(r[0].Get(c), r[j].Get(c)) {
        assert r[j] == rows[j - 1];
        assert Precedes(rows[0].Get(c), rows[j - 1].Get(c)) || j == 1;
      }
    } else {
      var rest := Insert(x, rows[1..], c);
      InsertSorted(x, rows[1..], c);
      assert r == [rows[0]] + rest;
      forall j | 0 <= j < |rest| ensures Precedes(rows[0].Get(c), rest[j].Get(c)) {
        var y := rest[j];
        assert y in multiset(rest);
        if y != x {
          assert y in multiset(rows[1..]);
          var i :| 0 <= i < |rows[1..]| && rows[1..][i] == y;
          assert rows[i + 1] == y;
        }
      }
    }
  }

  /** The table sorted by column `c`, descending, missing values last. Ties
      keep their input order here; that is one of the orders the library's
      unstable sort may produce, and nothing below depends on it. */
  function SortDescending(rows: seq<Row>, c: Column): (r: seq<Row>)
    ensures |r| == |rows|
    ensures SortedDesc(r, c)
    ensures multiset(r) == multiset(rows)
  {
    if rows == [] then []
    else
      assert rows == [rows[0]] + rows[1..];
      var sorted := Insert(rows[0], SortDescending(rows[1..], c), c);
      InsertSorted(rows[0], SortDescending(rows[1..], c), c);
      assert |sorted| == |multiset(sorted)| == |multiset(rows)|;
      sorted
  }

  /** The first `n` rows; a negative `n` keeps all but the last `-n` rows. */
  function Head(rows: seq<Row>, n: int): seq<Row> {
    if n >= 0 then rows[..Min(n, |rows|)] else rows[..Max(0, |rows| + n)]
  }

  /** The `n` rows with the largest values in column `c`, largest first. */
  function TopRecords(df: seq<Row>, c: Column, n: int): (r: seq<Row>)
    ensures |r| == if n >= 0 then Min(n, |df|) else Max(0, |df| + n)
    ensures multiset(r) <= multiset(df)
    ensures forall i, j :: 0 <= i < j < |r| && r[i].Get(c).Some? && r[j].Get(c).Some? ==>
      r[i].Get(c).value >= r[j].Get(c).value
    ensures forall i, j :: 0 <= i < j < |r| && r[i].Get(c).None? ==> r[j].Get(c).None?
  {
    var s := SortDescending(df, c);
    var r := Head(s, n);
    assert r == s[..|r|] && s == r + s[|r|..];
    assert forall i :: 0 <= i < |r| ==> r[i] == s[i];
    r
  }

  /** Every row left out ranks no higher than every row returned: a present
      value left out is at most every present value returned, and a missing
      value is returned only when every row left out is missing too. */
  lemma TopRecordsDominate(df: seq<Row>, c: Column, n: int)
    ensures var r := TopRecords(df, c, n);
      forall t, x :: t in r && x in multiset(df) - multiset(r) ==> Precedes(t.Get(c), x.Get(c))
  {
    var s := SortDescending(df, c);
    var r := TopRecords(df, c, n);
    var k := |r|;
    assert r == s[..k];
    var rest := s[k..];
    assert s == r + rest;
    assert multiset(s) == multiset(r) + multiset(rest);
    assert multiset(df) - multiset(r) == multiset(rest);
    forall t, x | t in r && x in multiset(rest)
      ensures Precedes(t.Get(c), x.Get(c))
    {
      SplitPrecedes(s, c, k, t, x);
    }
  }

  /** In a sorted table, a row before position `k` may precede a row after it. */
  lemma SplitPrecedes(s: seq<Row>, c: Column, k: int, t: Row, x: Row)
    requires SortedDesc(s, c) && 0 <= k <= |s|
    requires t in s[..k] && x in multiset(s[k..])
    ensures Precedes(t.Get(c), x.Get(c))
  {
  }

  /** The number of present values among the returned rows is as large as it
      can be: `|r|` if the input has that many, otherwise all of them. */
  lemma TopRecordsPresentCount(df: seq<Row>, c: Column, n: int)
    ensures var r := TopRecords(df, c, n);
      CountPresent(ColumnValues(r, c)) == Min(|r|, CountPresent(ColumnValues(df, c)))
  {
    var s := SortDescending(df, c);
    var r := TopRecords(df, c, n);
    assert r == s[..|r|];
    SortPreservesPresentCount(df, c);
    SortedPrefixPresentCount(s, c, |r|);
  }

  /** A missing value reaches the result only when the input holds fewer
      present values than rows returned. */
  lemma TopRecordsMissingOnlyWhenShort(df: seq<Row>, c: Column, n: int, i: int)
    requires var r := TopRecords(df, c, n); 0 <= i < |r| && r[i].Get(c).None?
    ensures CountPresent(ColumnValues(df, c)) < |TopRecords(df, c, n)|
  {
    var r := TopRecords(df, c, n);
    TopRecordsPresentCount(df, c, n);
    PresentBelowLength(ColumnValues(r, c), i);
  }

  lemma {:induction false} PresentBelowLength(xs: seq<Option<real>>, i: int)
    requires 0 <= i < |xs| && xs[i].None?
    ensures CountPresent(xs) < |xs|
  {
    if i > 0 {
      PresentBelowLength(xs[1..], i - 1);
    } else {
      PresentAtMostLength(xs[1..]);
    }
  }

  lemma {:induction false} PresentAtMostLength(xs: seq<Option<real>>)
    ensures CountPresent(xs) <= |xs|
  {
    if xs != [] {
      PresentAtMostLength(xs[1..]);
    }
  }

  lemma {:induction false} InsertPresentCount(x: Row, rows: seq<Row>, c: Column)
    ensures CountPresent(ColumnValues(Insert(x, rows, c), c)) ==
      CountPresent(ColumnValues(rows, c)) + (if x.Get(c).Some? then 1 else 0)
  {
    var r := Insert(x, rows, c);
    ColumnValuesTail(r, c);
    if rows == [] || Precedes(x.Get(c), rows[0].Get(c)) {
      assert r[1..] == rows;
    } else {
      InsertPresentCount(x, rows[1..], c);
      assert r[1..] == Insert(x, rows[1..], c);
      ColumnValuesTail(rows, c);
    }
  }

  lemma {:induction false} SortPreservesPresentCount(rows: seq<Row>, c: Column)
    ensures CountPresent(ColumnValues(SortDescending(rows, c), c)) == CountPresent(ColumnValues(rows, c))
  {
    if rows != [] {
      SortPreservesPresentCount(rows[1..], c);
      InsertPresentCount(rows[0], SortDescending(rows[1..], c), c);
      ColumnValuesTail(rows, c);
    }
  }

  /** In a sorted table the present values come first, so a prefix of length
      `k` holds `min(k, p)` of the `p` present values. */
  lemma {:induction false} SortedPrefixPresentCount(s: seq<Row>, c: Column, k: int)
    requires SortedDesc(s, c) && 0 <= k <= |s|
    ensures CountPresent(ColumnValues(s[..k], c)) == Min(k, CountPresent(ColumnValues(s, c)))
  {
    if k == 0 {
      assert ColumnValues(s[..k], c) == [];
    } else if s[0].Get(c).None? {
      assert forall i :: 0 <= i < |s| ==> ColumnValues(s, c)[i].None?;
      NoneCountedIffAllMissing(ColumnValues(s, c));
      assert forall i :: 0 <= i < k ==> ColumnValues(s[..k], c)[i].None?;
      NoneCountedIffAllMissing(ColumnValues(s[..k], c));
    } else {
      var t := s[1..];
      SortedPrefixPresentCount(t, c, k - 1);
      ColumnValuesTail(s, c);
      assert s[..k][1..] == t[..k - 1];
      ColumnValuesTail(s[..k], c);
    }
  }
}
