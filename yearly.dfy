/**
 * Yearly totals of the monthly series and the wettest and driest years.
 *
 * `plot_yearly_precip` of the Bravura script groups the sorted pairs by the
 * calendar year of their label with pandas and sums each group; the IPMA
 * script fills a dictionary keyed by year text in a loop over the set of
 * years and sorts its items by the integer year. Both then take the first
 * year with the largest and with the smallest total.
 */
module Yearly {
  import opened Wrappers
  import opened Text
  import opened Labels
  import opened StableSort
  import opened Extremes
  import opened Extraction

  /** A row of the pandas frame once its `Year` column is filled in: a year and a value. */
  datatype Dated = Dated(year: int, value: real)

  /**
   * `pd.to_datetime(df['Date'], format='%Y-%m').dt.year`, row by row, for
   * labels within pandas' timestamp range; the `OutOfBoundsDatetime` it
   * raises outside that range is not modelled.
   */
  function YearColumn(series: seq<Obs>): (rows: seq<Dated>)
    ensures |rows| == |series|
    ensures forall i :: 0 <= i < |series| ==> rows[i] == Dated(LabelYear(series[i].period), series[i].value)
  {
    seq(|series|, i requires 0 <= i < |series| => Dated(LabelYear(series[i].period), series[i].value))
  }

  /** The sum of all values. */
  function TotalOf(series: seq<Dated>): real
    decreases |series|
  {
    if |series| == 0 then 0.0
    else TotalOf(series[..|series| - 1]) + series[|series| - 1].value
  }

  /** The sum of the values of year `y`. */
  function YearTotal(series: seq<Dated>, y: int): real
    decreases |series|
  {
    if |series| == 0 then 0.0
    else
      var last := series[|series| - 1];
      YearTotal(series[..|series| - 1], y) + (if last.year == y then last.value else 0.0)
  }

  /** The distinct years. */
  function YearsOf(series: seq<Dated>): set<int>
  {
    set o | o in series :: o.year
  }

  predicate Ascending(ys: seq<int>)
  {
    forall i, j :: 0 <= i < j < |ys| ==> ys[i] < ys[j]
  }

  /** The earliest year of a non-empty series. */
  function MinYear(series: seq<Dated>): (m: int)
    requires |series| > 0
    ensures m in YearsOf(series)
    ensures forall o :: o in series ==> m <= o.year
    decreases |series|
  {
    if |series| == 1 then
      assert series[0] in series;
      series[0].year
    else
      var rest := MinYear(series[1..]);
      assert forall o :: o in series[1..] ==> o in series;
      assert forall o :: o in series ==> o == series[0] || o in series[1..];
      if series[0].year <= rest then
        assert series[0] in series;
        series[0].year
      else rest
  }

  /** The pairs of a series outside year `y`, in order. */
  function WithoutYear(series: seq<Dated>, y: int): (r: seq<Dated>)
    ensures forall o :: o in r <==> o in series && o.year != y
    ensures |r| <= |series|
    ensures y in YearsOf(series) ==> |r| < |series|
    decreases |series|
  {
    if |series| == 0 then []
    else
      var rest := WithoutYear(series[1..], y);
      assert forall o :: o in series <==> o == series[0] || o in series[1..];
      if series[0].year == y then rest
      else
        assert y in YearsOf(series) ==> y in YearsOf(series[1..]);
        [series[0]] + rest
  }

  /** The distinct years of a series, in ascending order. */
  function AscendingYears(series: seq<Dated>): (ys: seq<int>)
    ensures Ascending(ys)
    ensures forall y :: y in YearsOf(series) <==> y in ys
    decreases |series|
  {
    if |series| == 0 then []
    else
      var m := MinYear(series);
      var rest := WithoutYear(series, m);
      var tail := AscendingYears(rest);
      AscendingCons(m, tail);
      assert forall y :: y in YearsOf(series) <==> y == m || y in YearsOf(rest);
      [m] + tail
  }

  lemma AscendingCons(m: int, tail: seq<int>)
    requires Ascending(tail) && forall y :: y in tail ==> m < y
    ensures Ascending([m] + tail)
    ensures forall y :: y in [m] + tail <==> y == m || y in tail
  {
    var ys := [m] + tail;
    forall i, j | 0 <= i < j < |ys| ensures ys[i] < ys[j] {
      if i == 0 {
        assert ys[j] == tail[j - 1] && tail[j - 1] in tail;
      } else {
        assert ys[i] == tail[i - 1] && ys[j] == tail[j - 1];
      }
    }
  }

  /** One row of the yearly table: a year and its accumulated precipitation. */
  datatype YearRow = YearRow(year: int, total: real)

  function RowsFor(ys: seq<int>, series: seq<Dated>): (rows: seq<YearRow>)
    ensures |rows| == |ys|
    ensures forall i :: 0 <= i < |ys| ==> rows[i].year == ys[i]
    decreases |ys|
  {
    if |ys| == 0 then []
    else RowsFor(ys[..|ys| - 1], series) + [YearRow(ys[|ys| - 1], YearTotal(series, ys[|ys| - 1]))]
  }

  lemma {:induction false} RowsForTotals(ys: seq<int>, series: seq<Dated>)
    ensures forall i :: 0 <= i < |ys| ==> RowsFor(ys, series)[i].total == YearTotal(series, ys[i])
    decreases |ys|
  {
    if |ys| > 0 {
      RowsForTotals(ys[..|ys| - 1], series);
    }
  }

  /**
   * `groupby('Year')['Precipitation'].sum().reset_index()`: one row per
   * distinct year, ascending, holding the sum of that year's values.
   */
  function GroupByYear(series: seq<Dated>): (rows: seq<YearRow>)
  {
    RowsFor(AscendingYears(series), series)
  }

  function Totals(rows: seq<YearRow>): (ts: seq<real>)
    ensures |ts| == |rows| && forall i :: 0 <= i < |rows| ==> ts[i] == rows[i].total
  {
    seq(|rows|, i requires 0 <= i < |rows| => rows[i].total)
  }

  lemma GroupByYearRows(series: seq<Dated>)
    ensures var rows := GroupByYear(series);
            && (forall i, j :: 0 <= i < j < |rows| ==> rows[i].year < rows[j].year)
            && (forall y :: y in YearsOf(series) <==> exists i :: 0 <= i < |rows| && rows[i].year == y)
            && (forall i :: 0 <= i < |rows| ==> rows[i].total == YearTotal(series, rows[i].year))
  {
    var ys := AscendingYears(series);
    RowsForTotals(ys, series);
    var rows := GroupByYear(series);
    forall y | y in YearsOf(series) ensures exists i :: 0 <= i < |rows| && rows[i].year == y {
      var i :| 0 <= i < |ys| && ys[i] == y;
      assert rows[i].year == y;
    }
  }

  function RowsTotal(rows: seq<YearRow>): real
    decreases |rows|
  {
    if |rows| == 0 then 0.0 else RowsTotal(rows[..|rows| - 1]) + rows[|rows| - 1].total
  }

  /** A year outside the series has a zero total. */
  lemma {:induction false} AbsentYearTotal(series: seq<Dated>, y: int)
    requires y !in YearsOf(series)
    ensures YearTotal(series, y) == 0.0
    decreases |series|
  {
    if |series| > 0 {
      var init := series[..|series| - 1];
      assert YearsOf(init) <= YearsOf(series) by {
        forall o | o in init ensures o in series { }
      }
      AbsentYearTotal(init, y);
      assert series[|series| - 1] in series;
    }
  }

  lemma RowsTotalUnfold(ys: seq<int>, series: seq<Dated>)
    requires |ys| > 0
    ensures RowsTotal(RowsFor(ys, series)) ==
            RowsTotal(RowsFor(ys[..|ys| - 1], series)) + YearTotal(series, ys[|ys| - 1])
  {
    var rows := RowsFor(ys, series);
    assert rows[..|rows| - 1] == RowsFor(ys[..|ys| - 1], series);
  }

  lemma YearTotalAppend(series: seq<Dated>, o: Dated, y: int)
    ensures YearTotal(series + [o], y) == YearTotal(series, y) + (if o.year == y then o.value else 0.0)
  {
    var s2 := series + [o];
    assert s2[..|s2| - 1] == series && s2[|s2| - 1] == o;
  }

  /** Adding one pair adds its value to the one row of its year, if that year has a row. */
  lemma {:induction false} RowsForAppend(ys: seq<int>, series: seq<Dated>, o: Dated)
    requires Ascending(ys)
    ensures RowsTotal(RowsFor(ys, series + [o])) ==
            RowsTotal(RowsFor(ys, series)) + (if o.year in ys then o.value else 0.0)
    decreases |ys|
  {
    if |ys| > 0 {
      var init, y := ys[..|ys| - 1], ys[|ys| - 1];
      AscendingSplit(ys);
      RowsForAppend(init, series, o);
      RowsTotalUnfold(ys, series);
      RowsTotalUnfold(ys, series + [o]);
      YearTotalAppend(series, o, y);
    }
  }

  /** Dropping the last year keeps the order, and the last year is not among the others. */
  lemma AscendingSplit(ys: seq<int>)
    requires Ascending(ys) && |ys| > 0
    ensures Ascending(ys[..|ys| - 1])
    ensures ys[|ys| - 1] !in ys[..|ys| - 1]
    ensures forall x :: x in ys <==> x in ys[..|ys| - 1] || x == ys[|ys| - 1]
  {
    assert ys == ys[..|ys| - 1] + [ys[|ys| - 1]];
  }

  lemma {:induction false} RowsForCoverAll(ys: seq<int>, series: seq<Dated>)
    requires Ascending(ys)
    requires forall y :: y in YearsOf(series) ==> y in ys
    ensures RowsTotal(RowsFor(ys, series)) == TotalOf(series)
    decreases |series|
  {
    if |series| == 0 {
      RowsForOfEmpty(ys, series);
    } else {
      var init, last := series[..|series| - 1], series[|series| - 1];
      assert forall o :: o in init ==> o in series;
      RowsForCoverAll(ys, init);
      assert init + [last] == series;
      RowsForAppend(ys, init, last);
      assert last.year in YearsOf(series);
    }
  }

  lemma {:induction false} RowsForOfEmpty(ys: seq<int>, series: seq<Dated>)
    requires |series| == 0
    ensures RowsTotal(RowsFor(ys, series)) == 0.0
    decreases |ys|
  {
    if |ys| > 0 {
      RowsForOfEmpty(ys[..|ys| - 1], series);
    }
  }

  /** Every pair is counted in exactly one year: the yearly totals add up to the total of the series. */
  lemma YearlyTotalsAddUp(series: seq<Dated>)
    ensures RowsTotal(GroupByYear(series)) == TotalOf(series)
  {
    RowsForCoverAll(AscendingYears(series), series);
  }

  /** The years the plot marks: the wettest and the driest. */
  datatype YearPick = YearPick(wettest: int, driest: int)

  /**
   * `idxmax` and `idxmin` over the totals, each looked up in the year
   * column; `None` is the error both raise on an empty table.
   */
  function ExtremeYears(rows: seq<YearRow>): (r: Option<YearPick>)
    ensures r.None? <==> |rows| == 0
    ensures r.Some? ==>
              (exists i :: IsFirstMax(Totals(rows), i) && r.value.wettest == rows[i].year) &&
              (exists i :: IsFirstMin(Totals(rows), i) && r.value.driest == rows[i].year)
  {
    if |rows| == 0 then None
    else
      var ts := Totals(rows);
      var hi, lo := ArgMax(ts), ArgMin(ts);
      Some(YearPick(rows[hi].year, rows[lo].year))
  }

  /** On a table in ascending year order, the wettest row beats every earlier row and no row beats it. */
  lemma WettestRow(rows: seq<YearRow>)
    requires |rows| > 0
    requires forall i, j :: 0 <= i < j < |rows| ==> rows[i].year < rows[j].year
    ensures var k := ArgMax(Totals(rows));
            && rows[k].year == ExtremeYears(rows).value.wettest
            && (forall i :: 0 <= i < |rows| ==> rows[i].total <= rows[k].total)
            && (forall i :: 0 <= i < |rows| && rows[i].year < rows[k].year ==> rows[i].total < rows[k].total)
  {
    var ts := Totals(rows);
    var k := ArgMax(ts);
    assert forall i :: 0 <= i < |rows| ==> ts[i] == rows[i].total;
    forall i | 0 <= i < |rows| && rows[i].year < rows[k].year ensures rows[i].total < rows[k].total {
      assert i < k;
    }
  }

  lemma DriestRow(rows: seq<YearRow>)
    requires |rows| > 0
    requires forall i, j :: 0 <= i < j < |rows| ==> rows[i].year < rows[j].year
    ensures var k := ArgMin(Totals(rows));
            && rows[k].year == ExtremeYears(rows).value.driest
            && (forall i :: 0 <= i < |rows| ==> rows[i].total >= rows[k].total)
            && (forall i :: 0 <= i < |rows| && rows[i].year < rows[k].year ==> rows[i].total > rows[k].total)
  {
    var ts := Totals(rows);
    var k := ArgMin(ts);
    assert forall i :: 0 <= i < |rows| ==> ts[i] == rows[i].total;
    forall i | 0 <= i < |rows| && rows[i].year < rows[k].year ensures rows[i].total > rows[k].total {
      assert i < k;
    }
  }

  lemma TableIsAscending(series: seq<Dated>)
    requires |series| > 0
    ensures var rows := GroupByYear(series);
            |rows| > 0 && forall i, j :: 0 <= i < j < |rows| ==> rows[i].year < rows[j].year
  {
    assert series[0].year in YearsOf(series);
  }

  /** The row facts of a table, as `GroupByYearRows` states them for `GroupByYear(series)`. */
  ghost predicate TableOf(series: seq<Dated>, rows: seq<YearRow>)
  {
    && (forall i, j :: 0 <= i < j < |rows| ==> rows[i].year < rows[j].year)
    && (forall y :: y in YearsOf(series) <==> exists i :: 0 <= i < |rows| && rows[i].year == y)
    && (forall i :: 0 <= i < |rows| ==> rows[i].total == YearTotal(series, rows[i].year))
  }

  /** On such a table, the wettest row's year has the highest year total and beats every earlier year. */
  lemma WettestOfTable(series: seq<Dated>, rows: seq<YearRow>)
    requires |rows| > 0 && TableOf(series, rows)
    ensures var r := ExtremeYears(rows);
            && r.Some?
            && r.value.wettest in YearsOf(series)
            && (forall y :: y in YearsOf(series) ==> YearTotal(series, y) <= YearTotal(series, r.value.wettest))
            && (forall y :: y in YearsOf(series) && y < r.value.wettest ==>
                  YearTotal(series, y) < YearTotal(series, r.value.wettest))
  {
    WettestRow(rows);
    var k := ArgMax(Totals(rows));
    var w := rows[k].year;
    assert 0 <= k < |rows| && rows[k].year == w;
    forall y | y in YearsOf(series) ensures YearTotal(series, y) <= YearTotal(series, w) {
      var i :| 0 <= i < |rows| && rows[i].year == y;
    }
    forall y | y in YearsOf(series) && y < w ensures YearTotal(series, y) < YearTotal(series, w) {
      var i :| 0 <= i < |rows| && rows[i].year == y;
    }
  }

  /** On such a table, the driest row's year has the lowest year total and every earlier year exceeds it. */
  lemma DriestOfTable(series: seq<Dated>, rows: seq<YearRow>)
    requires |rows| > 0 && TableOf(series, rows)
    ensures var r := ExtremeYears(rows);
            && r.Some?
            && r.value.driest in YearsOf(series)
            && (forall y :: y in YearsOf(series) ==> YearTotal(series, y) >= YearTotal(series, r.value.driest))
            && (forall y :: y in YearsOf(series) && y < r.value.driest ==>
                  YearTotal(series, y) > YearTotal(series, r.value.driest))
  {
    DriestRow(rows);
    var k := ArgMin(Totals(rows));
    var w := rows[k].year;
    assert 0 <= k < |rows| && rows[k].year == w;
    forall y | y in YearsOf(series) ensures YearTotal(series, y) >= YearTotal(series, w) {
      var i :| 0 <= i < |rows| && rows[i].year == y;
    }
    forall y | y in YearsOf(series) && y < w ensures YearTotal(series, y) > YearTotal(series, w) {
      var i :| 0 <= i < |rows| && rows[i].year == y;
    }
  }

  /**
   * The wettest year is a year of the series whose total no year exceeds,
   * and every earlier year falls short of it.
   */
  lemma WettestYearOfSeries(series: seq<Dated>)
    requires |series| > 0
    ensures var r := ExtremeYears(GroupByYear(series));
            && r.Some?
            && r.value.wettest in YearsOf(series)
            && (forall y :: y in YearsOf(series) ==> YearTotal(series, y) <= YearTotal(series, r.value.wettest))
            && (forall y :: y in YearsOf(series) && y < r.value.wettest ==>
                  YearTotal(series, y) < YearTotal(series, r.value.wettest))
  {
    TableIsAscending(series);
    GroupByYearRows(series);
    WettestOfTable(series, GroupByYear(series));
  }

  /**
   * The driest year is a year of the series whose total no year goes
   * below, and every earlier year exceeds it.
   */
  lemma DriestYearOfSeries(series: seq<Dated>)
    requires |series| > 0
    ensures var r := ExtremeYears(GroupByYear(series));
            && r.Some?
            && r.value.driest in YearsOf(series)
            && (forall y :: y in YearsOf(series) ==> YearTotal(series, y) >= YearTotal(series, r.value.driest))
            && (forall y :: y in YearsOf(series) && y < r.value.driest ==>
                  YearTotal(series, y) > YearTotal(series, r.value.driest))
  {
    TableIsAscending(series);
    GroupByYearRows(series);
    DriestOfTable(series, GroupByYear(series));
  }
}
