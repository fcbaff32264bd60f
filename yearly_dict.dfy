/**
 * The IPMA script's `plot_yearly_precip`: a dictionary keyed by year text
 * is filled in a loop over the set of years, its items are sorted by the
 * integer year, and the wettest and driest year texts are picked with
 * `np.argmax` / `np.argmin`. The results agree with the pandas grouping of
 * the Bravura script (module `Yearly`).
 */
module YearlyDict {
  import opened Wrappers
  import opened Text
  import opened Labels
  import opened Extremes
  import opened Extraction
  import opened Yearly

  /** The text of a year as `label.split('-')[0]` gives it: four digits, no leading zero. */
  type YearText = s: string | |s| == 4 && AllDigits(s) && s[0] != '0' witness "1000"

  /** `int(text)`. */
  function YearOfText(t: YearText): int
  {
    DigitsValue(t)
  }

  /** `label.split('-')[0]`. */
  function YearTextOf(l: Label): (t: YearText)
    ensures t == BeforeDash(l) && YearOfText(t) == LabelYear(l)
  {
    YearTextOfLabel(l);
    BeforeDash(l)
  }

  /** `set(date.split('-')[0] for date in all_time_data)`. */
  function YearTexts(series: seq<Obs>): set<YearText>
  {
    set o | o in series :: YearTextOf(o.period)
  }

  /**
   * `sum(all_precip_data[i] for i in year_indices)`, where `year_indices`
   * are the positions whose label starts with `t`.
   */
  function StartsWithSum(series: seq<Obs>, t: string): real
    decreases |series|
  {
    if |series| == 0 then 0.0
    else
      var last := series[|series| - 1];
      StartsWithSum(series[..|series| - 1], t) + (if StartsWith(last.period, t) then last.value else 0.0)
  }

  /** A label starts with a year text exactly when the label belongs to that year. */
  lemma StartsWithYear(l: Label, t: YearText)
    ensures StartsWith(l, t) <==> LabelYear(l) == YearOfText(t)
  {
    if LabelYear(l) == YearOfText(t) {
      DigitsInjective(l[..4], t);
    }
  }

  /** The prefix sum of the IPMA script is the yearly total of the Bravura script. */
  lemma {:induction false} StartsWithSumIsYearTotal(series: seq<Obs>, t: YearText)
    ensures StartsWithSum(series, t) == YearTotal(YearColumn(series), YearOfText(t))
    decreases |series|
  {
    if |series| > 0 {
      var n := |series| - 1;
      StartsWithSumIsYearTotal(series[..n], t);
      StartsWithYear(series[n].period, t);
      assert YearColumn(series)[..n] == YearColumn(series[..n]);
    }
  }

  /** The year texts name exactly the years of the year column. */
  lemma YearTextsAreYears(series: seq<Obs>)
    ensures forall t :: t in YearTexts(series) ==> YearOfText(t) in YearsOf(YearColumn(series))
    ensures forall y :: y in YearsOf(YearColumn(series)) ==> exists t :: t in YearTexts(series) && YearOfText(t) == y
  {
    var col := YearColumn(series);
    forall t | t in YearTexts(series) ensures YearOfText(t) in YearsOf(col) {
      var o :| o in series && YearTextOf(o.period) == t;
      var i :| 0 <= i < |series| && series[i] == o;
      assert col[i] in col;
    }
    forall y | y in YearsOf(col) ensures exists t :: t in YearTexts(series) && YearOfText(t) == y {
      var d :| d in col && d.year == y;
      var i :| 0 <= i < |col| && col[i] == d;
      assert series[i] in series;
      assert YearTextOf(series[i].period) in YearTexts(series);
    }
  }

  /** Distinct year texts name distinct years. */
  lemma YearOfTextInjective(a: YearText, b: YearText)
    ensures YearOfText(a) == YearOfText(b) <==> a == b
  {
    if YearOfText(a) == YearOfText(b) {
      DigitsInjective(a, b);
    }
  }

  predicate Distinct<T(==)>(s: seq<T>)
  {
    forall i, j :: 0 <= i < j < |s| ==> s[i] != s[j]
  }

  /**
   * The loop that fills `accumulated_rain_per_year`: each year of the set,
   * taken in whatever order the set yields it, gets the sum of the values
   * whose label starts with it. `order` is the dictionary's insertion order.
   */
  method AccumulateRainPerYear(series: seq<Obs>) returns (acc: map<YearText, real>, order: seq<YearText>)
    ensures acc.Keys == YearTexts(series)
    ensures forall t :: t in acc ==> acc[t] == StartsWithSum(series, t)
    ensures Distinct(order) && forall t :: t in order <==> t in acc
  {
    var years := YearTexts(series);
    acc := map[];
    order := [];
    var remaining := years;
    while remaining != {}
      invariant remaining <= years
      invariant acc.Keys == years - remaining
      invariant forall t :: t in acc ==> acc[t] == StartsWithSum(series, t)
      invariant Distinct(order) && forall t :: t in order <==> t in acc
      decreases |remaining|
    {
      var year :| year in remaining;
      var yearRainfall := StartsWithSum(series, year);
      DistinctAppend(order, year);
      AddYear(acc, year, yearRainfall, years, remaining);
      acc := acc[year := yearRainfall];
      order := order + [year];
      remaining := remaining - {year};
    }
  }

  lemma AddYear(acc: map<YearText, real>, year: YearText, v: real, years: set<YearText>, remaining: set<YearText>)
    requires acc.Keys == years - remaining && year in remaining && remaining <= years
    ensures acc[year := v].Keys == years - (remaining - {year})
    ensures year !in acc
  {
  }

  lemma DistinctAppend<T>(s: seq<T>, x: T)
    requires Distinct(s) && x !in s
    ensures Distinct(s + [x])
    ensures forall t :: t in s + [x] <==> t in s || t == x
  {
  }

  /** One item of `accumulated_rain_per_year.items()`. */
  datatype YearItem = YearItem(text: YearText, total: real)

  function ItemYear(it: YearItem): int
  {
    YearOfText(it.text)
  }

  /** `list(accumulated_rain_per_year.items())`, in insertion order. */
  function Items(acc: map<YearText, real>, order: seq<YearText>): (items: seq<YearItem>)
    requires forall t :: t in order ==> t in acc
    ensures |items| == |order|
    ensures forall i :: 0 <= i < |order| ==> items[i] == YearItem(order[i], acc[order[i]])
  {
    seq(|order|, i requires 0 <= i < |order| => YearItem(order[i], acc[order[i]]))
  }

  ghost predicate SortedByYear(s: seq<YearItem>)
  {
    forall i, j :: 0 <= i < j < |s| ==> ItemYear(s[i]) <= ItemYear(s[j])
  }

  ghost predicate YearsDistinct(s: seq<YearItem>)
  {
    forall i, j :: 0 <= i < j < |s| ==> ItemYear(s[i]) != ItemYear(s[j])
  }

  /** Places `x` before the first item whose year is not below `x`'s. */
  function InsertByYear(x: YearItem, s: seq<YearItem>): (r: seq<YearItem>)
    ensures |r| == |s| + 1
    ensures forall e :: e in r <==> e == x || e in s
    ensures multiset(r) == multiset(s) + multiset{x}
    decreases |s|
  {
    if |s| == 0 then [x]
    else if ItemYear(x) <= ItemYear(s[0]) then [x] + s
    else
      HeadTail(s);
      [s[0]] + InsertByYear(x, s[1..])
  }

  lemma {:induction false} InsertByYearSorted(x: YearItem, s: seq<YearItem>)
    requires SortedByYear(s)
    ensures SortedByYear(InsertByYear(x, s))
    decreases |s|
  {
    if |s| > 0 && ItemYear(x) > ItemYear(s[0]) {
      var rest := InsertByYear(x, s[1..]);
      InsertByYearSorted(x, s[1..]);
      var r := [s[0]] + rest;
      forall i, j | 0 <= i < j < |r| ensures ItemYear(r[i]) <= ItemYear(r[j]) {
        if i == 0 {
          assert r[j] in rest;
          if r[j] != x {
            var k :| 0 <= k < |s[1..]| && s[1..][k] == r[j];
            assert s[k + 1] == r[j];
          }
        } else {
          assert r[i] == rest[i - 1] && r[j] == rest[j - 1];
        }
      }
    }
  }

  lemma {:induction false} InsertByYearDistinct(x: YearItem, s: seq<YearItem>)
    requires YearsDistinct(s)
    requires forall e :: e in s ==> ItemYear(e) != ItemYear(x)
    ensures YearsDistinct(InsertByYear(x, s))
    decreases |s|, 1
  {
    if |s| > 0 {
      if ItemYear(x) <= ItemYear(s[0]) {
        var r := [x] + s;
        forall i, j | 0 <= i < j < |r| ensures ItemYear(r[i]) != ItemYear(r[j]) {
          if i == 0 {
            assert r[j] == s[j - 1] && s[j - 1] in s;
          } else {
            assert r[i] == s[i - 1] && r[j] == s[j - 1];
          }
        }
      } else {
        InsertByYearDistinctPast(x, s);
      }
    }
  }

  /** The case where `x` goes past the first item of `s`. */
  lemma {:induction false} InsertByYearDistinctPast(x: YearItem, s: seq<YearItem>)
    requires YearsDistinct(s)
    requires forall e :: e in s ==> ItemYear(e) != ItemYear(x)
    requires |s| > 0 && ItemYear(x) > ItemYear(s[0])
    ensures YearsDistinct(InsertByYear(x, s))
    decreases |s|, 0
  {
    var rest := InsertByYear(x, s[1..]);
    InsertByYearDistinct(x, s[1..]);
    var r := [s[0]] + rest;
    assert s[0] in s;
    forall i, j | 0 <= i < j < |r| ensures ItemYear(r[i]) != ItemYear(r[j]) {
      if i == 0 {
        assert r[j] in rest;
        if r[j] != x {
          var k :| 0 <= k < |s[1..]| && s[1..][k] == r[j];
          assert s[k + 1] == r[j];
        }
      } else {
        assert r[i] == rest[i - 1] && r[j] == rest[j - 1];
      }
    }
  }

  /** `sorted(items, key=lambda x: int(x[0]))`: a permutation of the items, ascending by year. */
  function SortByYear(s: seq<YearItem>): (r: seq<YearItem>)
    ensures |r| == |s|
    ensures forall e :: e in r <==> e in s
    ensures multiset(r) == multiset(s)
    ensures SortedByYear(r)
    decreases |s|
  {
    if |s| == 0 then []
    else
      var tail := SortByYear(s[1..]);
      InsertByYearSorted(s[0], tail);
      HeadTail(s);
      InsertByYear(s[0], tail)
  }

  /** Items with pairwise different years stay so once sorted. */
  lemma {:induction false} SortByYearDistinct(s: seq<YearItem>)
    requires YearsDistinct(s)
    ensures YearsDistinct(SortByYear(s))
    decreases |s|
  {
    if |s| > 0 {
      var tail := SortByYear(s[1..]);
      SortByYearDistinct(s[1..]);
      forall e | e in tail ensures ItemYear(e) != ItemYear(s[0]) {
        var k :| 0 <= k < |s[1..]| && s[1..][k] == e;
        assert s[k + 1] == e;
      }
      InsertByYearDistinct(s[0], tail);
    }
  }

  /** The table the script plots: each sorted item with its year as a number. */
  function ItemRows(items: seq<YearItem>): (rows: seq<YearRow>)
    ensures |rows| == |items|
    ensures forall i :: 0 <= i < |items| ==> rows[i] == YearRow(ItemYear(items[i]), items[i].total)
  {
    seq(|items|, i requires 0 <= i < |items| => YearRow(ItemYear(items[i]), items[i].total))
  }

  /** The years of the sorted table read as integers: `years_list`. */
  function RowYears(rows: seq<YearRow>): (ys: seq<int>)
    ensures |ys| == |rows|
    ensures forall i :: 0 <= i < |rows| ==> ys[i] == rows[i].year
  {
    seq(|rows|, i requires 0 <= i < |rows| => rows[i].year)
  }

  lemma AscendingTail(a: seq<int>)
    requires Ascending(a) && |a| > 0
    ensures Ascending(a[1..])
    ensures forall y :: y in a[1..] <==> y in a && y != a[0]
  {
    forall y | y in a && y != a[0] ensures y in a[1..] {
      var i :| 0 <= i < |a| && a[i] == y;
      assert a[1..][i - 1] == y;
    }
  }

  /** Two ascending sequences with the same members are the same sequence. */
  lemma {:induction false} AscendingUnique(a: seq<int>, b: seq<int>)
    requires Ascending(a) && Ascending(b)
    requires forall y :: y in a <==> y in b
    ensures a == b
    decreases |a|
  {
    if |a| > 0 { assert a[0] in a; }
    if |b| > 0 { assert b[0] in b; }
    if |a| > 0 && |b| > 0 {
      var j :| 0 <= j < |b| && b[j] == a[0];
      var i :| 0 <= i < |a| && a[i] == b[0];
      assert b[0] <= b[j];
      assert a[0] <= a[i];
      AscendingTail(a);
      AscendingTail(b);
      AscendingUnique(a[1..], b[1..]);
      assert a == [a[0]] + a[1..] && b == [b[0]] + b[1..];
    }
  }

  /** The sorted dictionary items, as a table of years and totals. */
  function DictTable(acc: map<YearText, real>, order: seq<YearText>): seq<YearRow>
    requires forall t :: t in order ==> t in acc
  {
    ItemRows(SortByYear(Items(acc, order)))
  }

  /** The years the items name. */
  function YearSet(items: seq<YearItem>): set<int>
  {
    set e | e in items :: ItemYear(e)
  }

  /** Items with pairwise different years make a table in strictly ascending year order. */
  lemma SortedYearsAscending(items: seq<YearItem>)
    requires YearsDistinct(items)
    ensures Ascending(RowYears(ItemRows(SortByYear(items))))
  {
    SortByYearDistinct(items);
  }

  lemma SortedYearsMembers(items: seq<YearItem>)
    ensures forall y :: y in RowYears(ItemRows(SortByYear(items))) <==> y in YearSet(items)
  {
    var sorted := SortByYear(items);
    var ys := RowYears(ItemRows(sorted));
    forall y ensures y in ys <==> y in YearSet(items) {
      if y in ys {
        var i :| 0 <= i < |ys| && ys[i] == y;
        assert sorted[i] in sorted;
      }
      if y in YearSet(items) {
        var e :| e in items && ItemYear(e) == y;
        assert e in sorted;
        var i :| 0 <= i < |sorted| && sorted[i] == e;
        assert ys[i] == y;
      }
    }
  }

  lemma ItemsYearSet(acc: map<YearText, real>, order: seq<YearText>)
    requires forall t :: t in order <==> t in acc
    ensures YearSet(Items(acc, order)) == set t | t in acc.Keys :: YearOfText(t)
  {
    var items := Items(acc, order);
    forall y | y in YearSet(items) ensures y in set t | t in acc.Keys :: YearOfText(t) {
      var e :| e in items && ItemYear(e) == y;
      var k :| 0 <= k < |items| && items[k] == e;
      assert order[k] in order;
    }
    forall y | y in (set t | t in acc.Keys :: YearOfText(t)) ensures y in YearSet(items) {
      var t :| t in acc.Keys && YearOfText(t) == y;
      var k :| 0 <= k < |order| && order[k] == t;
      assert items[k] in items;
    }
  }

  lemma TextYearsAreYears(series: seq<Obs>)
    ensures (set t | t in YearTexts(series) :: YearOfText(t)) == YearsOf(YearColumn(series))
  {
    YearTextsAreYears(series);
  }

  lemma GroupedYears(col: seq<Dated>)
    ensures Ascending(RowYears(GroupByYear(col)))
    ensures forall y :: y in RowYears(GroupByYear(col)) <==> y in YearsOf(col)
  {
    GroupByYearRows(col);
    var gs := RowYears(GroupByYear(col));
    forall y ensures y in gs <==> y in YearsOf(col) {
      if y in gs {
        var i :| 0 <= i < |gs| && gs[i] == y;
      }
    }
  }

  /** Every item is an entry of the dictionary. */
  lemma ItemsAreYears(acc: map<YearText, real>, order: seq<YearText>)
    requires forall t :: t in order ==> t in acc
    ensures forall e :: e in Items(acc, order) ==> e.text in acc && e.total == acc[e.text]
  {
    var items := Items(acc, order);
    forall e | e in items ensures e.text in acc && e.total == acc[e.text] {
      var i :| 0 <= i < |items| && items[i] == e;
      assert order[i] in order;
    }
  }

  /** Dictionary keys are distinct year texts, so the items name pairwise different years. */
  lemma ItemsYearsDistinct(acc: map<YearText, real>, order: seq<YearText>)
    requires Distinct(order) && forall t :: t in order ==> t in acc
    ensures YearsDistinct(Items(acc, order))
  {
    var items := Items(acc, order);
    forall i, j | 0 <= i < j < |items| ensures ItemYear(items[i]) != ItemYear(items[j]) {
      YearOfTextInjective(order[i], order[j]);
    }
  }

  /** The sorted table lists the same years, in the same order, as the pandas table. */
  lemma DictTableYears(series: seq<Obs>, acc: map<YearText, real>, order: seq<YearText>)
    requires acc.Keys == YearTexts(series)
    requires Distinct(order) && forall t :: t in order <==> t in acc
    ensures RowYears(DictTable(acc, order)) == RowYears(GroupByYear(YearColumn(series)))
  {
    var items := Items(acc, order);
    ItemsYearsDistinct(acc, order);
    SortedYearsAscending(items);
    SortedYearsMembers(items);
    ItemsYearSet(acc, order);
    TextYearsAreYears(series);
    GroupedYears(YearColumn(series));
    AscendingUnique(RowYears(DictTable(acc, order)), RowYears(GroupByYear(YearColumn(series))));
  }

  /** Two tables with the same years whose totals are the yearly totals of one series are equal. */
  lemma SameYearsSameTable(rows: seq<YearRow>, grouped: seq<YearRow>, col: seq<Dated>)
    requires RowYears(rows) == RowYears(grouped)
    requires forall i :: 0 <= i < |rows| ==> rows[i].total == YearTotal(col, rows[i].year)
    requires forall i :: 0 <= i < |grouped| ==> grouped[i].total == YearTotal(col, grouped[i].year)
    ensures rows == grouped
  {
    var ys, gs := RowYears(rows), RowYears(grouped);
    assert |rows| == |ys| == |gs| == |grouped|;
    forall i | 0 <= i < |rows| ensures rows[i] == grouped[i] {
      assert ys[i] == gs[i];
    }
  }

  /** The totals of the sorted table are the yearly totals of the series. */
  lemma DictTableTotals(series: seq<Obs>, acc: map<YearText, real>, order: seq<YearText>)
    requires forall t :: t in acc ==> acc[t] == StartsWithSum(series, t)
    requires forall t :: t in order ==> t in acc
    ensures var rows := DictTable(acc, order);
            forall i :: 0 <= i < |rows| ==> rows[i].total == YearTotal(YearColumn(series), rows[i].year)
  {
    var items := Items(acc, order);
    var sorted := SortByYear(items);
    var rows := ItemRows(sorted);
    ItemsAreYears(acc, order);
    forall i | 0 <= i < |rows| ensures rows[i].total == YearTotal(YearColumn(series), rows[i].year) {
      assert sorted[i] in items;
      StartsWithSumIsYearTotal(series, sorted[i].text);
      assert rows[i] == YearRow(ItemYear(sorted[i]), sorted[i].total);
    }
  }

  /** Whatever order the set of years was visited in, the sorted table is the pandas table of the Bravura script. */
  lemma DictTableIsGroupByYear(series: seq<Obs>, acc: map<YearText, real>, order: seq<YearText>)
    requires acc.Keys == YearTexts(series)
    requires forall t :: t in acc ==> acc[t] == StartsWithSum(series, t)
    requires Distinct(order) && forall t :: t in order <==> t in acc
    ensures DictTable(acc, order) == GroupByYear(YearColumn(series))
  {
    var col := YearColumn(series);
    DictTableYears(series, acc, order);
    DictTableTotals(series, acc, order);
    GroupByYearRows(col);
    SameYearsSameTable(DictTable(acc, order), GroupByYear(col), col);
  }

  /** The year texts the plot marks: the wettest and the driest. */
  datatype TextPick = TextPick(wettest: YearText, driest: YearText)

  /**
   * `years_list, rainfall_list = zip(*yearly_data)`, then
   * `years_list[np.argmax(rainfall_list)]` and `years_list[np.argmin(rainfall_list)]`,
   * where `rainfall_list` is the totals column of the items read as rows;
   * `None` is the unpacking error an empty `yearly_data` raises.
   */
  function PickYearTexts(yearlyData: seq<YearItem>): (r: Option<TextPick>)
    ensures r.None? <==> |yearlyData| == 0
    ensures r.Some? ==>
              (exists i :: IsFirstMax(Totals(ItemRows(yearlyData)), i) && r.value.wettest == yearlyData[i].text) &&
              (exists i :: IsFirstMin(Totals(ItemRows(yearlyData)), i) && r.value.driest == yearlyData[i].text)
  {
    if |yearlyData| == 0 then None
    else
      var ts := Totals(ItemRows(yearlyData));
      var hi, lo := ArgMax(ts), ArgMin(ts);
      Some(TextPick(yearlyData[hi].text, yearlyData[lo].text))
  }

  /** A series has a year exactly when it is not empty. */
  lemma YearTextsEmpty(series: seq<Obs>)
    ensures YearTexts(series) == {} <==> |series| == 0
  {
    if |series| > 0 {
      assert series[0] in series;
      assert YearTextOf(series[0].period) in YearTexts(series);
    }
  }

  /**
   * `plot_yearly_precip` of the IPMA script up to the two marked years: it
   * fails on an empty series, and otherwise marks the same wettest and
   * driest years as the pandas grouping of the Bravura script (which in
   * addition raises for labels outside pandas' timestamp range).
   */
  method PlotYearlyPrecip(series: seq<Obs>) returns (r: Option<TextPick>)
    ensures r.None? <==> |series| == 0
    ensures r.Some? ==>
              ExtremeYears(GroupByYear(YearColumn(series))) ==
              Some(YearPick(YearOfText(r.value.wettest), YearOfText(r.value.driest)))
  {
    var acc, order := AccumulateRainPerYear(series);
    var yearlyData := SortByYear(Items(acc, order));
    r := PickYearTexts(yearlyData);
    YearTextsEmpty(series);
    DictTableIsGroupByYear(series, acc, order);
  }

  /**
   * `yearly_data` holds one item per year of the series, in strictly
   * ascending year order, and each item carries that year's sum.
   */
  lemma YearlyDataOnePerYear(series: seq<Obs>, acc: map<YearText, real>, order: seq<YearText>)
    requires acc.Keys == YearTexts(series)
    requires forall t :: t in acc ==> acc[t] == StartsWithSum(series, t)
    requires Distinct(order) && forall t :: t in order <==> t in acc
    ensures var data := SortByYear(Items(acc, order));
            && (forall i, j :: 0 <= i < j < |data| ==> ItemYear(data[i]) < ItemYear(data[j]))
            && (forall e :: e in data <==> e.text in YearTexts(series) && e.total == StartsWithSum(series, e.text))
  {
    var items := Items(acc, order);
    var data := SortByYear(items);
    ItemsYearsDistinct(acc, order);
    SortByYearDistinct(items);
    ItemsAreYears(acc, order);
    forall e: YearItem | e.text in acc && e.total == acc[e.text] ensures e in items {
      var k :| 0 <= k < |order| && order[k] == e.text;
      assert items[k] == e;
    }
  }

  /** Every pair is counted in exactly one year: the dictionary's values add up to the whole series. */
  lemma DictTotalsAddUp(series: seq<Obs>, acc: map<YearText, real>, order: seq<YearText>)
    requires acc.Keys == YearTexts(series)
    requires forall t :: t in acc ==> acc[t] == StartsWithSum(series, t)
    requires Distinct(order) && forall t :: t in order <==> t in acc
    ensures RowsTotal(DictTable(acc, order)) == TotalOf(YearColumn(series))
  {
    DictTableIsGroupByYear(series, acc, order);
    YearlyTotalsAddUp(YearColumn(series));
  }
}
