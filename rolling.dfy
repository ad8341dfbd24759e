/** `calculate_rolling_trends`: the yearly table with a trailing rolling
    mean of the yearly mean temperature attached (`min_periods = 1`, not
    centred). The window counts entries of the yearly table, that is years
    present in the data, not calendar years. */
module Rolling {
  import opened Values
  import Observations
  import opened Annual

  /** A row of the trend table: a yearly entry with its smoothed mean temperature. */
  datatype TrendEntry = TrendEntry(year: real, avg: AnnualRow, tmeanTrend: Option<real>)

  /** First position of the window that ends at `k`: `max(0, k - w + 1)`. */
  function WindowStart(k: nat, w: nat): nat
    requires w >= 1
  {
    if k + 1 >= w then k + 1 - w else 0
  }

  /** The sliding pass: the totals of each window, each obtained from the
      previous one by adding the value that enters and, once the window is
      full, removing the value that leaves. */
  function SlidingTotals(xs: seq<Option<real>>, w: nat): (r: seq<Stat>)
    requires w >= 1
    ensures |r| == |xs|
  {
    if xs == [] then []
    else
      var k := |xs| - 1;
      var prev := SlidingTotals(xs[..k], w);
      var entered := Add(if k == 0 then NoValues else prev[k - 1], xs[k]);
      prev + [if k >= w then Remove(entered, xs[k - w]) else entered]
  }

  /** The sliding pass keeps, at every position, the totals of exactly the
      window that ends there. */
  lemma {:induction false} SlidingTotalsAreWindowTotals(xs: seq<Option<real>>, w: nat, k: nat)
    requires w >= 1 && k < |xs|
    ensures SlidingTotals(xs, w)[k] == StatOf(xs[WindowStart(k, w)..k + 1])
  {
    var last := |xs| - 1;
    var init := xs[..last];
    if k < last {
      SlidingTotalsAreWindowTotals(init, w, k);
      assert init[WindowStart(k, w)..k + 1] == xs[WindowStart(k, w)..k + 1];
    } else {
      var before := if k == 0 then NoValues else SlidingTotals(init, w)[k - 1];
      var lo := if k == 0 then 0 else WindowStart(k - 1, w);
      if k > 0 {
        SlidingTotalsAreWindowTotals(init, w, k - 1);
        assert init[lo..k] == xs[lo..k];
      } else {
        assert xs[lo..k] == [];
      }
      assert before == StatOf(xs[lo..k]);
      StatOfSnoc(xs[lo..k], xs[k]);
      assert xs[lo..k] + [xs[k]] == xs[lo..k + 1];
      if k >= w {
        assert lo == k - w && WindowStart(k, w) == k - w + 1;
        StatOfTail(xs[lo..k + 1]);
        assert xs[lo..k + 1][1..] == xs[k - w + 1..k + 1];
      }
    }
  }

  /** The rolling mean: at every position, the mean of the present values in
      the window that ends there, missing only when all of them are missing. */
  function RollingMean(xs: seq<Option<real>>, w: nat): (r: seq<Option<real>>)
    requires w >= 1
    ensures |r| == |xs|
    ensures forall k :: 0 <= k < |xs| ==> r[k] == MeanOf(xs[WindowStart(k, w)..k + 1])
  {
    var totals := SlidingTotals(xs, w);
    AllWindowTotals(xs, w);
    seq(|xs|, k requires 0 <= k < |xs| => Average(totals[k]))
  }

  lemma AllWindowTotals(xs: seq<Option<real>>, w: nat)
    requires w >= 1
    ensures forall k :: 0 <= k < |xs| ==> SlidingTotals(xs, w)[k] == StatOf(xs[WindowStart(k, w)..k + 1])
  {
    forall k | 0 <= k < |xs| ensures SlidingTotals(xs, w)[k] == StatOf(xs[WindowStart(k, w)..k + 1]) {
      SlidingTotalsAreWindowTotals(xs, w, k);
    }
  }

  /** The yearly mean temperatures, in table order. */
  function Tmeans(annual: seq<AnnualEntry>): seq<Option<real>> {
    seq(|annual|, k requires 0 <= k < |annual| => annual[k].avg.tmean)
  }

  /** `calculate_rolling_trends`: the yearly table, order and columns unchanged,
      with the trailing mean of the yearly mean temperature over `w` entries. */
  function RollingTrends(df: seq<Observations.Row>, w: nat): (r: seq<TrendEntry>)
    requires w >= 1
    ensures var annual := AnnualAverages(df);
      && |r| == |annual|
      && (forall k :: 0 <= k < |r| ==> r[k].year == annual[k].year && r[k].avg == annual[k].avg)
      && (forall k :: 0 <= k < |r| ==> r[k].tmeanTrend == MeanOf(Tmeans(annual)[WindowStart(k, w)..k + 1]))
  {
    var annual := AnnualAverages(df);
    var trend := RollingMean(Tmeans(annual), w);
    seq(|annual|, k requires 0 <= k < |annual| => TrendEntry(annual[k].year, annual[k].avg, trend[k]))
  }

  /** The first rolling mean is the first value itself. */
  lemma RollingMeanFirst(xs: seq<Option<real>>, w: nat)
    requires w >= 1 && xs != []
    ensures RollingMean(xs, w)[0] == xs[0]
  {
    assert xs[WindowStart(0, w)..1] == [xs[0]];
    MeanOfSingle(xs[0]);
  }

  /** While the window is not yet full, the rolling mean averages every value so far. */
  lemma RollingMeanWarmUp(xs: seq<Option<real>>, w: nat, k: nat)
    requires w >= 1 && k < w && k < |xs|
    ensures RollingMean(xs, w)[k] == MeanOf(xs[..k + 1])
  {
  }

  /** A rolling mean is missing exactly when every value in its window is
      missing, and otherwise lies between the smallest and the largest of them. */
  lemma RollingMeanWithinWindow(xs: seq<Option<real>>, w: nat, k: nat, lo: real, hi: real)
    requires w >= 1 && k < |xs|
    requires forall j :: WindowStart(k, w) <= j <= k && xs[j].Some? ==> lo <= xs[j].value <= hi
    ensures var t := RollingMean(xs, w)[k];
      && (t.None? <==> forall j :: WindowStart(k, w) <= j <= k ==> xs[j].None?)
      && (t.Some? ==> lo <= t.value <= hi)
  {
    var a := WindowStart(k, w);
    var window := xs[a..k + 1];
    assert forall i :: 0 <= i < |window| ==> window[i] == xs[a + i];
    MeanBetween(window, lo, hi);
    if !forall j :: a <= j <= k ==> xs[j].None? {
      var j :| a <= j <= k && xs[j].Some?;
      assert window[j - a].Some?;
    }
  }

  /** The trend of the first year is that year's own mean temperature, and
      while the window is not yet full the trend averages every year so far. */
  lemma TrendWarmUp(df: seq<Observations.Row>, w: nat)
    requires w >= 1
    ensures var r := RollingTrends(df, w);
      && (r != [] ==> r[0].tmeanTrend == r[0].avg.tmean)
      && forall k :: 0 <= k < |r| && k < w ==> r[k].tmeanTrend == MeanOf(Tmeans(AnnualAverages(df))[..k + 1])
  {
    var r := RollingTrends(df, w);
    var xs := Tmeans(AnnualAverages(df));
    var trend := RollingMean(xs, w);
    assert forall k :: 0 <= k < |r| ==> r[k].tmeanTrend == trend[k];
    if r != [] {
      RollingMeanFirst(xs, w);
    }
    forall k | 0 <= k < |r| && k < w ensures r[k].tmeanTrend == MeanOf(xs[..k + 1]) {
      RollingMeanWarmUp(xs, w, k);
    }
  }
}
