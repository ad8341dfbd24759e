/** The monthly observation table of one weather station, as the loader
    hands it over: one row per (year, month), every column numeric and
    possibly missing. */
module Observations {
  import opened Values

  /** The seven columns, in file order. */
  datatype Column = Yyyy | Mm | Tmax | Tmin | Af | Rain | Sun

  /** One monthly observation: year, month, maximum and minimum temperature,
      air-frost days, rainfall and sunshine hours. */
  datatype Row = Row(
    yyyy: Option<real>,
    mm: Option<real>,
    tmax: Option<real>,
    tmin: Option<real>,
    af: Option<real>,
    rain: Option<real>,
    sun: Option<real>)
  {
    function Get(c: Column): Option<real> {
      match c
      case Yyyy => yyyy
      case Mm => mm
      case Tmax => tmax
      case Tmin => tmin
      case Af => af
      case Rain => rain
      case Sun => sun
    }
  }

  /** The cells of column `c`, row by row. */
  function ColumnValues(rows: seq<Row>, c: Column): seq<Option<real>> {
    seq(|rows|, i requires 0 <= i < |rows| => rows[i].Get(c))
  }

  /** The cells of a table without its first row are the column's cells
      without the first one. */
  lemma ColumnValuesTail(rows: seq<Row>, c: Column)
    requires rows != []
    ensures ColumnValues(rows, c)[0] == rows[0].Get(c)
    ensures ColumnValues(rows, c)[1..] == ColumnValues(rows[1..], c)
  {
  }

  /** The dashboard's year-range test: the year is present and lies in
      `lo..hi`, both ends included (a comparison with a missing year is false). */
  predicate InYearRange(r: Row, lo: int, hi: int) {
    r.yyyy.Some? && lo as real <= r.yyyy.value <= hi as real
  }

  /** The rows whose year lies in `lo..hi`, in their original order. */
  function FilterYears(df: seq<Row>, lo: int, hi: int): (r: seq<Row>)
    ensures forall i :: 0 <= i < |r| ==> InYearRange(r[i], lo, hi)
  {
    if df == [] then []
    else (if InYearRange(df[0], lo, hi) then [df[0]] else []) + FilterYears(df[1..], lo, hi)
  }

  /** The filter keeps every row whose year is in range, as often as the
      input holds it, and no other row. */
  lemma {:induction false} FilterYearsCounts(df: seq<Row>, lo: int, hi: int)
    ensures forall x ::
      multiset(FilterYears(df, lo, hi))[x] == (if InYearRange(x, lo, hi) then multiset(df)[x] else 0)
  {
    if df != [] {
      assert df == [df[0]] + df[1..];
      FilterYearsCounts(df[1..], lo, hi);
    }
  }

  /** Filtering a table is filtering each of its rows in turn: a row is kept
      when its year is in range and dropped otherwise, ahead of whatever is
      kept of the rows after it. */
  lemma FilterYearsCons(x: Row, t: seq<Row>, lo: int, hi: int)
    ensures FilterYears([x] + t, lo, hi) == (if InYearRange(x, lo, hi) then [x] else []) + FilterYears(t, lo, hi)
  {
    var s := [x] + t;
    assert s[0] == x && s[1..] == t;
  }

  /** Filtering distributes over concatenation, so the rows kept appear in the
      order they have in the input. */
  lemma {:induction false} FilterYearsConcat(a: seq<Row>, b: seq<Row>, lo: int, hi: int)
    ensures FilterYears(a + b, lo, hi) == FilterYears(a, lo, hi) + FilterYears(b, lo, hi)
  {
    if a == [] {
      assert a + b == b;
    } else {
      var x, t := a[0], a[1..];
      assert a == [x] + t;
      assert a + b == [x] + (t + b);
      FilterYearsCons(x, t, lo, hi);
      FilterYearsCons(x, t + b, lo, hi);
      FilterYearsConcat(t, b, lo, hi);
    }
  }
}
