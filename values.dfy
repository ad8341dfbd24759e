/** Cells that may be missing, and the missing-aware mean that pandas uses
    for `mean()` (missing values are skipped; a mean over no present value
    is itself missing). */
module Values {

  /** A table cell: `None` stands for a missing measurement (NaN). */
  datatype Option<T> = None | Some(value: T)

  /** Running totals over the present values seen so far: their sum and how many there were. */
  datatype Stat = Stat(sum: real, count: int)

  const NoValues := Stat(0.0, 0)

  /** The value of a cell, counting a missing one as contributing nothing to a sum. */
  function OrZero(x: Option<real>): real {
    match x
    case Some(v) => v
    case None => 0.0
  }

  /** Sum of the present values of `xs`. */
  function SumPresent(xs: seq<Option<real>>): real {
    if xs == [] then 0.0 else OrZero(xs[0]) + SumPresent(xs[1..])
  }

  /** Number of present values of `xs`. */
  function CountPresent(xs: seq<Option<real>>): nat {
    if xs == [] then 0 else (if xs[0].Some? then 1 else 0) + CountPresent(xs[1..])
  }

  function StatOf(xs: seq<Option<real>>): Stat {
    Stat(SumPresent(xs), CountPresent(xs))
  }

  /** Takes one more cell into the totals; a missing cell leaves them unchanged. */
  function Add(s: Stat, x: Option<real>): Stat {
    match x
    case Some(v) => Stat(s.sum + v, s.count + 1)
    case None => s
  }

  /** Takes a cell that leaves a sliding window out of the totals. */
  function Remove(s: Stat, x: Option<real>): Stat {
    match x
    case Some(v) => Stat(s.sum - v, s.count - 1)
    case None => s
  }

  function Combine(a: Stat, b: Stat): Stat {
    Stat(a.sum + b.sum, a.count + b.count)
  }

  /** The mean of the totals, or missing when fewer than one value was counted
      (the `min_periods = 1` rule shared by grouped and rolling means). */
  function Average(s: Stat): Option<real> {
    if s.count >= 1 then Some(s.sum / s.count as real) else None
  }

  /** The mean of the present values of `xs`; missing exactly when every value is. */
  function MeanOf(xs: seq<Option<real>>): (r: Option<real>)
    ensures r.None? <==> forall i :: 0 <= i < |xs| ==> xs[i].None?
  {
    NoneCountedIffAllMissing(xs);
    Average(StatOf(xs))
  }

  lemma {:induction false} NoneCountedIffAllMissing(xs: seq<Option<real>>)
    ensures CountPresent(xs) == 0 <==> forall i :: 0 <= i < |xs| ==> xs[i].None?
  {
    if xs != [] {
      NoneCountedIffAllMissing(xs[1..]);
      assert forall i :: 1 <= i < |xs| ==> xs[i] == xs[1..][i - 1];
    }
  }

  /** Totals are additive over concatenation. */
  lemma {:induction false} StatOfConcat(a: seq<Option<real>>, b: seq<Option<real>>)
    ensures StatOf(a + b) == Combine(StatOf(a), StatOf(b))
  {
    if a == [] {
      assert a + b == b;
    } else {
      StatOfConcat(a[1..], b);
      assert (a + b)[1..] == a[1..] + b;
    }
  }

  /** Appending a cell updates the totals as `Add` does. */
  lemma StatOfSnoc(a: seq<Option<real>>, x: Option<real>)
    ensures StatOf(a + [x]) == Add(StatOf(a), x)
  {
    StatOfConcat(a, [x]);
    assert [x][1..] == [];
    SingleStat(x);
  }

  lemma SingleStat(x: Option<real>)
    ensures StatOf([x]) == Stat(OrZero(x), if x.Some? then 1 else 0)
  {
    var xs := [x];
    assert xs[1..] == [];
    assert SumPresent(xs) == OrZero(xs[0]) + SumPresent(xs[1..]);
    assert CountPresent(xs) == (if xs[0].Some? then 1 else 0) + CountPresent(xs[1..]);
  }

  /** Dropping the first cell updates the totals as `Remove` does. */
  lemma StatOfTail(a: seq<Option<real>>)
    requires a != []
    ensures StatOf(a[1..]) == Remove(StatOf(a), a[0])
  {
  }

  /** A mean lies between the smallest and the largest present value. */
  lemma MeanBetween(xs: seq<Option<real>>, lo: real, hi: real)
    requires forall i :: 0 <= i < |xs| && xs[i].Some? ==> lo <= xs[i].value <= hi
    ensures MeanOf(xs).Some? ==> lo <= MeanOf(xs).value <= hi
  {
    SumBetween(xs, lo, hi);
    var s := StatOf(xs);
    if s.count >= 1 {
      var c := s.count as real;
      QuotientAtLeast(s.sum, c, lo);
      QuotientAtLeast(-s.sum, c, -hi);
      assert -s.sum / c == -(s.sum / c);
    }
  }

  lemma QuotientAtLeast(x: real, c: real, lo: real)
    requires c > 0.0 && lo * c <= x
    ensures lo <= x / c
  {
  }

  lemma {:induction false} SumBetween(xs: seq<Option<real>>, lo: real, hi: real)
    requires forall i :: 0 <= i < |xs| && xs[i].Some? ==> lo <= xs[i].value <= hi
    ensures lo * CountPresent(xs) as real <= SumPresent(xs) <= hi * CountPresent(xs) as real
  {
    if xs != [] {
      assert forall i :: 0 <= i < |xs[1..]| ==> xs[1..][i] == xs[i + 1];
      SumBetween(xs[1..], lo, hi);
    }
  }

  /** The mean of a single cell is that cell. */
  lemma MeanOfSingle(x: Option<real>)
    ensures MeanOf([x]) == x
  {
    assert [x][1..] == [];
    SingleStat(x);
  }
}
