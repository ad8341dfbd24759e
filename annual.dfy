/** `calculate_annual_averages`: derive the mean temperature of every
    monthly row, then average every numeric column per year, years
    ascending. */
module Annual {
  import opened Values
  import Observations

  /** The columns averaged per year: every observed column but the year,
      and the derived mean temperature. */
  datatype Field = Mm | Tmax | Tmin | Af | Rain | Sun | Tmean

  /** A row of the working copy: the observation, unchanged, with its mean
      temperature attached. */
  datatype MeanRow = MeanRow(obs: Observations.Row, tmean: Option<real>) {
    function Value(f: Field): Option<real> {
      match f
      case Mm => obs.mm
      case Tmax => obs.tmax
      case Tmin => obs.tmin
      case Af => obs.af
      case Rain => obs.rain
      case Sun => obs.sun
      case Tmean => tmean
    }
  }

  /** `(a + b) / 2`, missing when either operand is: the value halfway between
      both temperatures. */
  function Midpoint(a: Option<real>, b: Option<real>): (r: Option<real>)
    ensures r.Some? <==> a.Some? && b.Some?
    ensures r.Some? ==> r.value - a.value == b.value - r.value
  {
    if a.Some? && b.Some? then Some((a.value + b.value) / 2.0) else None
  }

  /** The working copy: every input row kept as it is, with its mean temperature. */
  function WithTmean(df: seq<Observations.Row>): (r: seq<MeanRow>)
    ensures |r| == |df|
    ensures forall i :: 0 <= i < |df| ==> r[i].obs == df[i]
  {
    seq(|df|, i requires 0 <= i < |df| => MeanRow(df[i], Midpoint(df[i].tmax, df[i].tmin)))
  }

  /** Per-field totals of one year's rows. */
  datatype Sums = Sums(mm: Stat, tmax: Stat, tmin: Stat, af: Stat, rain: Stat, sun: Stat, tmean: Stat) {
    function Get(f: Field): Stat {
      match f
      case Mm => mm
      case Tmax => tmax
      case Tmin => tmin
      case Af => af
      case Rain => rain
      case Sun => sun
      case Tmean => tmean
    }

    /** Takes every present cell of `d` into the totals of its field. */
    function AddRow(d: MeanRow): Sums {
      Sums(Add(mm, d.Value(Mm)), Add(tmax, d.Value(Tmax)), Add(tmin, d.Value(Tmin)),
           Add(af, d.Value(Af)), Add(rain, d.Value(Rain)), Add(sun, d.Value(Sun)),
           Add(tmean, d.Value(Tmean)))
    }
  }

  const NoSums := Sums(NoValues, NoValues, NoValues, NoValues, NoValues, NoValues, NoValues)

  /** One row of the yearly table: the mean of each field. */
  datatype AnnualRow = AnnualRow(
    mm: Option<real>,
    tmax: Option<real>,
    tmin: Option<real>,
    af: Option<real>,
    rain: Option<real>,
    sun: Option<real>,
    tmean: Option<real>)
  {
    function Get(f: Field): Option<real> {
      match f
      case Mm => mm
      case Tmax => tmax
      case Tmin => tmin
      case Af => af
      case Rain => rain
      case Sun => sun
      case Tmean => tmean
    }
  }

  /** The yearly table is keyed by year. */
  datatype AnnualEntry = AnnualEntry(year: real, avg: AnnualRow)

  function Averages(s: Sums): AnnualRow {
    AnnualRow(Average(s.mm), Average(s.tmax), Average(s.tmin), Average(s.af),
              Average(s.rain), Average(s.sun), Average(s.tmean))
  }

  /** The grouping pass: one walk over the rows that adds each row to the
      totals of its year; a row whose year is missing joins no group. */
  function GroupTotals(rows: seq<MeanRow>): map<real, Sums> {
    if rows == [] then map[]
    else
      var totals := GroupTotals(rows[..|rows| - 1]);
      var d := rows[|rows| - 1];
      match d.obs.yyyy
      case None => totals
      case Some(y) => totals[y := (if y in totals then totals[y] else NoSums).AddRow(d)]
  }

  /** Puts `y` into a strictly ascending sequence of years, unless it is there. */
  function InsertYear(ys: seq<real>, y: real): seq<real> {
    if ys == [] then [y]
    else if y < ys[0] then [y] + ys
    else if y == ys[0] then ys
    else [ys[0]] + InsertYear(ys[1..], y)
  }

  /** The group keys in the order the groups are listed: ascending. */
  function GroupYears(rows: seq<MeanRow>): seq<real> {
    if rows == [] then []
    else
      var ys := GroupYears(rows[..|rows| - 1]);
      match rows[|rows| - 1].obs.yyyy
      case None => ys
      case Some(y) => InsertYear(ys, y)
  }

  /** `calculate_annual_averages`: one entry per year, in year order, holding
      the mean of each field over that year's rows. `AnnualYears` adds that
      the years listed are exactly the input's present years. */
  function AnnualAverages(df: seq<Observations.Row>): (r: seq<AnnualEntry>)
    ensures forall i, j :: 0 <= i < j < |r| ==> r[i].year < r[j].year
    ensures forall k, f :: 0 <= k < |r| ==>
      r[k].avg.Get(f) == MeanOf(FieldValues(YearRows(WithTmean(df), r[k].year), f))
  {
    var rows := WithTmean(df);
    var totals := GroupTotals(rows);
    var years := GroupYears(rows);
    GroupYearsAreKeys(rows);
    AllYearTotals(rows);
    seq(|years|, k requires 0 <= k < |years| => AnnualEntry(years[k], Averages(totals[years[k]])))
  }

  // Reference definitions: what the yearly table is meant to hold.

  /** The distinct present years of the table. */
  ghost function PresentYears(df: seq<Observations.Row>): set<real> {
    set i | 0 <= i < |df| && df[i].yyyy.Some? :: df[i].yyyy.value
  }

  /** The rows of year `y`, in table order. */
  function YearRows(rows: seq<MeanRow>, y: real): seq<MeanRow> {
    if rows == [] then []
    else
      var last := rows[|rows| - 1];
      YearRows(rows[..|rows| - 1], y) + (if last.obs.yyyy == Some(y) then [last] else [])
  }

  /** The cells of field `f`, row by row. */
  function FieldValues(rows: seq<MeanRow>, f: Field): seq<Option<real>> {
    seq(|rows|, i requires 0 <= i < |rows| => rows[i].Value(f))
  }

  predicate StrictlyAscending(ys: seq<real>) {
    forall i, j :: 0 <= i < j < |ys| ==> ys[i] < ys[j]
  }

  // The properties of the yearly table.

  /** Every input row's mean temperature is halfway between its maximum and
      minimum, and missing when either of them is. */
  lemma TmeanOfRow(df: seq<Observations.Row>, i: int)
    requires 0 <= i < |df|
    ensures var d := WithTmean(df)[i];
      && (d.tmean.Some? <==> df[i].tmax.Some? && df[i].tmin.Some?)
      && (d.tmean.Some? ==> d.tmean.value == (df[i].tmax.value + df[i].tmin.value) / 2.0)
  {
  }

  /** The yearly table lists each present year of the input exactly once,
      in strictly ascending order; an empty input gives an empty table. */
  lemma AnnualYears(df: seq<Observations.Row>)
    ensures var r := AnnualAverages(df);
      && (forall i, j :: 0 <= i < j < |r| ==> r[i].year < r[j].year)
      && (set e | e in r :: e.year) == PresentYears(df)
      && |r| == |PresentYears(df)|
      && (df == [] ==> r == [])
  {
    var rows := WithTmean(df);
    var years := GroupYears(rows);
    var r := AnnualAverages(df);
    GroupYearsAreKeys(rows);
    PresentYearsOfRows(df);
    assert forall k :: 0 <= k < |r| ==> r[k].year == years[k];
    var ys := set y | y in years;
    forall y ensures y in ys <==> y in GroupTotals(rows).Keys {
      assert y in ys <==> y in years;
    }
    assert ys == GroupTotals(rows).Keys;
    assert GroupTotals(rows).Keys == PresentYears(df);
    assert (set e | e in r :: e.year) == ys by {
      forall y | y in ys ensures y in (set e | e in r :: e.year) {
        var k :| 0 <= k < |years| && years[k] == y;
        assert r[k] in r;
      }
    }
    AscendingCard(years);
  }

  /** Each field of a year's entry is the mean of that field's present values
      over the year's rows, and missing exactly when all of them are missing. */
  lemma AnnualMeans(df: seq<Observations.Row>, k: int, f: Field)
    requires 0 <= k < |AnnualAverages(df)|
    ensures var e := AnnualAverages(df)[k];
      var values := FieldValues(YearRows(WithTmean(df), e.year), f);
      && e.avg.Get(f) == MeanOf(values)
      && (e.avg.Get(f).None? <==> forall i :: 0 <= i < |values| ==> values[i].None?)
  {
  }

  // Lemmas behind them.

  lemma AllYearTotals(rows: seq<MeanRow>)
    ensures forall y, f :: y in GroupTotals(rows) ==>
      GroupTotals(rows)[y].Get(f) == StatOf(FieldValues(YearRows(rows, y), f))
  {
    forall y, f | y in GroupTotals(rows)
      ensures GroupTotals(rows)[y].Get(f) == StatOf(FieldValues(YearRows(rows, y), f))
    {
      GroupTotalsAreYearTotals(rows, y, f);
    }
  }

  /** The totals the grouping pass keeps for year `y` are those of the year's rows. */
  lemma {:induction false} GroupTotalsAreYearTotals(rows: seq<MeanRow>, y: real, f: Field)
    ensures var totals := GroupTotals(rows);
      (if y in totals then totals[y] else NoSums).Get(f) == StatOf(FieldValues(YearRows(rows, y), f))
  {
    if rows == [] {
      assert FieldValues([], f) == [];
    } else {
      var init := rows[..|rows| - 1];
      var d := rows[|rows| - 1];
      GroupTotalsAreYearTotals(init, y, f);
      if d.obs.yyyy == Some(y) {
        assert FieldValues(YearRows(rows, y), f) == FieldValues(YearRows(init, y), f) + [d.Value(f)];
        StatOfSnoc(FieldValues(YearRows(init, y), f), d.Value(f));
      } else {
        assert YearRows(rows, y) == YearRows(init, y);
      }
    }
  }

  lemma {:induction false} InsertYearSorted(ys: seq<real>, y: real)
    requires StrictlyAscending(ys)
    ensures StrictlyAscending(InsertYear(ys, y))
  {
    var r := InsertYear(ys, y);
    if ys == [] {
    } else if y < ys[0] {
      assert r == [y] + ys;
      forall i, j | 0 <= i < j < |r| ensures r[i] < r[j] {
        if i > 0 {
          assert r[i] == ys[i - 1] && r[j] == ys[j - 1];
        } else {
          assert r[j] == ys[j - 1] && ys[0] <= ys[j - 1];
        }
      }
    } else if y > ys[0] {
      var t := ys[1..];
      var rt := InsertYear(t, y);
      InsertYearSorted(t, y);
      InsertYearAbove(t, y, ys[0]);
      assert r == [ys[0]] + rt;
      forall i, j | 0 <= i < j < |r| ensures r[i] < r[j] {
        if i > 0 {
          assert r[i] == rt[i - 1] && r[j] == rt[j - 1];
        } else {
          assert r[j] == rt[j - 1];
        }
      }
    }
  }

  lemma {:induction false} InsertYearElems(ys: seq<real>, y: real)
    ensures forall z :: z in InsertYear(ys, y) <==> z in ys || z == y
  {
    if ys == [] {
    } else if y < ys[0] {
    } else if y == ys[0] {
      assert y in ys;
    } else {
      var t := ys[1..];
      InsertYearElems(t, y);
      assert ys == [ys[0]] + t;
      assert InsertYear(ys, y) == [ys[0]] + InsertYear(t, y);
    }
  }

  lemma {:induction false} InsertYearAbove(ys: seq<real>, y: real, lo: real)
    requires forall i :: 0 <= i < |ys| ==> lo < ys[i]
    requires lo < y
    ensures forall i :: 0 <= i < |InsertYear(ys, y)| ==> lo < InsertYear(ys, y)[i]
  {
    if ys != [] && y > ys[0] {
      InsertYearAbove(ys[1..], y, lo);
    }
  }

  /** The group years ascend strictly and are exactly the keys the grouping pass builds. */
  lemma {:induction false} GroupYearsAreKeys(rows: seq<MeanRow>)
    ensures StrictlyAscending(GroupYears(rows))
    ensures forall y :: y in GroupYears(rows) <==> y in GroupTotals(rows)
    ensures forall k :: 0 <= k < |GroupYears(rows)| ==> GroupYears(rows)[k] in GroupTotals(rows)
  {
    if rows != [] {
      var init := rows[..|rows| - 1];
      GroupYearsAreKeys(init);
      match rows[|rows| - 1].obs.yyyy
      case None =>
      case Some(y) =>
        InsertYearSorted(GroupYears(init), y);
        InsertYearElems(GroupYears(init), y);
    }
  }

  lemma {:induction false} PresentYearsOfRows(df: seq<Observations.Row>)
    ensures GroupTotals(WithTmean(df)).Keys == PresentYears(df)
  {
    if df != [] {
      var init := df[..|df| - 1];
      PresentYearsOfRows(init);
      assert WithTmean(df)[..|df| - 1] == WithTmean(init);
      assert PresentYears(df) == PresentYears(init) +
        (if df[|df| - 1].yyyy.Some? then {df[|df| - 1].yyyy.value} else {}) by {
        forall y | y in PresentYears(df)
          ensures y in PresentYears(init) || (df[|df| - 1].yyyy.Some? && y == df[|df| - 1].yyyy.value)
        {
          var i :| 0 <= i < |df| && df[i].yyyy.Some? && df[i].yyyy.value == y;
          if i < |df| - 1 {
            assert init[i] == df[i];
          }
        }
        forall y | y in PresentYears(init) ensures y in PresentYears(df) {
          var i :| 0 <= i < |init| && init[i].yyyy.Some? && init[i].yyyy.value == y;
          assert df[i] == init[i];
        }
      }
    }
  }

  /** A strictly ascending sequence has as many distinct elements as entries. */
  lemma {:induction false} AscendingCard(ys: seq<real>)
    requires StrictlyAscending(ys)
    ensures |set y | y in ys| == |ys|
  {
    if ys != [] {
      var t := ys[1..];
      AscendingCard(t);
      assert (set y | y in ys) == (set y | y in t) + {ys[0]};
      assert ys[0] !in (set y | y in t);
    }
  }
}
