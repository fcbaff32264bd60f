/**
 * The two monthly plots: `plot_monthly_precip` stacks the months of each
 * twelve-pair batch of the sorted series into one bar per year, and
 * `plot_monthly_precip_histogram` draws a marker at the January label of
 * every year.
 */
module Monthly {
  import opened Wrappers
  import opened Text
  import opened Labels
  import opened Extraction
  import opened YearlyDict

  /** A legend entry of `month_colors`: the month's name and its colour. */
  datatype MonthColor = MonthColor(name: string, hex: string)

  /** `month_colors[m + 1]` is `MonthColors[m]`. */
  const MonthColors: seq<MonthColor> := [
    MonthColor("January", "#0000FF"),
    MonthColor("February", "#3399FF"),
    MonthColor("March", "#228B22"),
    MonthColor("April", "#32CD32"),
    MonthColor("May", "#3CB371"),
    MonthColor("June", "#FF6347"),
    MonthColor("July", "#FF4500"),
    MonthColor("August", "#FF0000"),
    MonthColor("September", "#FFA500"),
    MonthColor("October", "#D2691E"),
    MonthColor("November", "#8B4513"),
    MonthColor("December", "#000080")
  ]

  function Min(a: int, b: int): int
  {
    if a <= b then a else b
  }

  /** `[s[i:i+12] for i in range(0, len(s), 12)]`. */
  function Batches<T>(s: seq<T>): (bs: seq<seq<T>>)
    ensures |s| == 0 ==> |bs| == 0
    ensures |s| > 0 ==> 12 * (|bs| - 1) < |s| <= 12 * |bs|
    ensures forall b :: 0 <= b < |bs| ==> bs[b] == s[12 * b .. Min(12 * b + 12, |s|)]
    decreases |s|
  {
    if |s| == 0 then []
    else if |s| <= 12 then [s]
    else
      var rest := Batches(s[12..]);
      ConsBatch(s, rest);
      [s[..12]] + rest
  }

  /** The first twelve pairs followed by the batches of the rest are the batches of the whole. */
  lemma ConsBatch<T>(s: seq<T>, rest: seq<seq<T>>)
    requires |s| > 12
    requires 12 * (|rest| - 1) < |s| - 12 <= 12 * |rest|
    requires forall b :: 0 <= b < |rest| ==> rest[b] == s[12..][12 * b .. Min(12 * b + 12, |s| - 12)]
    ensures var bs := [s[..12]] + rest;
            && 12 * (|bs| - 1) < |s| <= 12 * |bs|
            && forall b :: 0 <= b < |bs| ==> bs[b] == s[12 * b .. Min(12 * b + 12, |s|)]
  {
    var bs := [s[..12]] + rest;
    forall b | 0 <= b < |bs| ensures bs[b] == s[12 * b .. Min(12 * b + 12, |s|)] {
      if b > 0 {
        assert bs[b] == rest[b - 1];
        assert s[12..][12 * (b - 1) .. Min(12 * (b - 1) + 12, |s| - 12)] == s[12 * b .. Min(12 * b + 12, |s|)];
      }
    }
  }

  function Flatten<T>(bs: seq<seq<T>>): seq<T>
    decreases |bs|
  {
    if |bs| == 0 then [] else bs[0] + Flatten(bs[1..])
  }

  /** The batches put back together are the series: nothing is dropped, repeated or reordered. */
  lemma {:induction false} FlattenBatches<T>(s: seq<T>)
    ensures Flatten(Batches(s)) == s
    decreases |s|
  {
    if |s| > 12 {
      FlattenBatches(s[12..]);
      assert Batches(s)[1..] == Batches(s[12..]);
      assert s == s[..12] + s[12..];
    } else if |s| > 0 {
      assert Batches(s)[1..] == [];
      assert s + [] == s;
    }
  }

  /** Every batch but the last holds twelve pairs; the last holds the rest. */
  lemma BatchSizes<T>(s: seq<T>)
    ensures var bs := Batches(s);
            && (forall b :: 0 <= b < |bs| - 1 ==> |bs[b]| == 12)
            && (|bs| > 0 ==> |bs[|bs| - 1]| == |s| - 12 * (|bs| - 1) && 0 < |bs[|bs| - 1]| <= 12)
  {
  }

  /** The sum of the values, as the running `bottom` accumulates it. */
  function SumValues(s: seq<Obs>): real
    decreases |s|
  {
    if |s| == 0 then 0.0 else SumValues(s[..|s| - 1]) + s[|s| - 1].value
  }

  /** One `plt.bar(year, precip_value, color=color, bottom=bottom)` call. */
  datatype Bar = Bar(x: int, height: real, bottom: real, color: string)

  /**
   * The bar drawn for the pair at position `k` of the series: at the
   * pair's year, as high as its value, stacked on the values before it in
   * its batch, and coloured by its position in the batch whatever its label.
   */
  function BarAt(series: seq<Obs>, k: nat): Bar
    requires k < |series|
  {
    var m := k % 12;
    Bar(LabelYear(series[k].period), series[k].value, SumValues(series[k - m .. k]), MonthColors[m].hex)
  }

  /** The bar at month `m` of batch `y` stacks on the values before it in that batch. */
  lemma BarInBatch(series: seq<Obs>, y: nat, m: nat)
    requires m < 12 && 12 * y + m < |series|
    ensures BarAt(series, 12 * y + m) ==
            Bar(LabelYear(series[12 * y + m].period), series[12 * y + m].value,
                SumValues(series[12 * y .. 12 * y + m]), MonthColors[m].hex)
  {
    Remainder(y, m);
  }

  /** Month `m` of batch `y` is the pair at position `12 * y + m`. */
  lemma BatchElement(series: seq<Obs>, y: nat, m: nat)
    requires y < |Batches(series)| && m < |Batches(series)[y]|
    ensures 12 * y + m < |series| && Batches(series)[y][m] == series[12 * y + m]
  {
  }

  /** A batch shorter than twelve is the last one, and the series length is then no multiple of twelve. */
  lemma ShortBatch(series: seq<Obs>, y: nat)
    requires y < |Batches(series)| && |Batches(series)[y]| < 12
    ensures 12 * y + |Batches(series)[y]| == |series|
    ensures |series| % 12 != 0
  {
    var bs := Batches(series);
    var n := |series|;
    assert 12 * y <= 12 * (|bs| - 1) < n;
    assert bs[y] == series[12 * y .. Min(12 * y + 12, n)];
    assert 12 * y < n < 12 * y + 12;
    NoMultiple(n, y);
  }

  lemma NoMultiple(n: int, q: int)
    requires 12 * q < n < 12 * q + 12
    ensures n % 12 != 0
  {
    Remainder(q, n - 12 * q);
  }

  lemma Remainder(q: int, r: int)
    requires 0 <= r < 12
    ensures (12 * q + r) % 12 == r
  {
  }

  /** If every batch was full, the series length is a multiple of twelve. */
  lemma AllBatchesFull(series: seq<Obs>, y: nat)
    requires y == |Batches(series)| && 12 * y <= |series|
    ensures 12 * y == |series| && |series| % 12 == 0
  {
  }

  /** One step of the inner loop: the bar drawn for month `m` of batch `y` is the bar at its position. */
  lemma StackStep(series: seq<Obs>, y: nat, m: nat, k: nat, bottom: real)
    requires y < |Batches(series)| && m < 12 && m < |Batches(series)[y]| && k == 12 * y + m
    requires bottom == SumValues(series[12 * y .. k])
    ensures k < |series| && Batches(series)[y][m] == series[k]
    ensures Bar(YearOfText(YearTextOf(series[k].period)), series[k].value, bottom, MonthColors[m].hex) == BarAt(series, k)
    ensures bottom + series[k].value == SumValues(series[12 * y .. k + 1])
  {
    BatchElement(series, y, m);
    BarInBatch(series, y, m);
    SumValuesSnoc(series, 12 * y, k);
  }

  lemma SumValuesSnoc(s: seq<Obs>, i: nat, j: nat)
    requires i <= j < |s|
    ensures SumValues(s[i .. j + 1]) == SumValues(s[i .. j]) + s[j].value
  {
    assert s[i .. j + 1][..j - i] == s[i .. j];
  }

  /**
   * The nested loops of `plot_monthly_precip`. Every batch draws its months
   * in order, resetting `bottom` at the start of each batch; in a final
   * batch of fewer than twelve pairs, `year_batches[y][m]` raises
   * `IndexError` once `m` passes its end, after its bars were drawn.
   */
  method StackMonthlyBars(series: seq<Obs>) returns (bars: seq<Bar>, raised: bool)
    ensures |bars| == |series|
    ensures forall k :: 0 <= k < |series| ==> bars[k] == BarAt(series, k)
    ensures raised <==> |series| % 12 != 0
  {
    var yearBatches := Batches(series);
    bars := [];
    raised := false;
    var y := 0;
    while y < |yearBatches|
      invariant 0 <= y <= |yearBatches|
      invariant |bars| == 12 * y
      invariant BarsSoFar(series, bars)
    {
      bars, raised := StackBatch(series, yearBatches[y], y, bars);
      if raised {
        return;
      }
      y := y + 1;
    }
    AllBatchesFull(series, y);
  }

  /**
   * The inner loop of `plot_monthly_precip` for batch `y`: `bottom` starts
   * at zero and each month's bar is stacked on it. A batch of fewer than
   * twelve pairs raises `IndexError` after its bars were drawn, which only
   * the last batch can be.
   */
  method StackBatch(series: seq<Obs>, batch: seq<Obs>, y: nat, before: seq<Bar>) returns (bars: seq<Bar>, raised: bool)
    requires y < |Batches(series)| && batch == Batches(series)[y]
    requires |before| == 12 * y && BarsSoFar(series, before)
    ensures BarsSoFar(series, bars)
    ensures raised <==> |batch| < 12
    ensures !raised ==> |bars| == 12 * y + 12
    ensures raised ==> |bars| == |series| && |series| % 12 != 0
  {
    bars := before;
    var bottom := 0.0;
    var m := 0;
    ghost var k := 12 * y;
    while m < 12
      invariant 0 <= m <= 12 && m <= |batch|
      invariant k == 12 * y + m && |bars| == k
      invariant BarsSoFar(series, bars)
      invariant bottom == SumValues(series[12 * y .. k])
    {
      if m >= |batch| {
        ShortBatch(series, y);
        return bars, true;
      }
      StackStep(series, y, m, k, bottom);
      var precipValue := batch[m].value;
      var year := YearOfText(YearTextOf(batch[m].period));
      var color := MonthColors[m].hex;
      BarsSoFarSnoc(series, bars, Bar(year, precipValue, bottom, color));
      bars := bars + [Bar(year, precipValue, bottom, color)];
      bottom := bottom + precipValue;
      m := m + 1;
      k := k + 1;
    }
    raised := false;
  }

  /** The bars drawn so far are the first bars of the series. */
  predicate BarsSoFar(series: seq<Obs>, bars: seq<Bar>)
  {
    |bars| <= |series| && forall k :: 0 <= k < |bars| ==> bars[k] == BarAt(series, k)
  }

  lemma BarsSoFarSnoc(series: seq<Obs>, bars: seq<Bar>, bar: Bar)
    requires BarsSoFar(series, bars) && |bars| < |series| && bar == BarAt(series, |bars|)
    ensures BarsSoFar(series, bars + [bar])
  {
    var more := bars + [bar];
    forall k | 0 <= k < |more| ensures more[k] == BarAt(series, k) {
      if k < |bars| {
        assert more[k] == bars[k];
      }
    }
  }

  /**
   * In every full batch, the last bar tops out at the batch's total: the
   * stack for a year is as high as the twelve values it holds.
   */
  lemma StackTopIsBatchTotal(series: seq<Obs>, b: nat)
    requires 12 * b + 12 <= |series|
    ensures var top := BarAt(series, 12 * b + 11);
            && b < |Batches(series)|
            && top.bottom + top.height == SumValues(Batches(series)[b])
  {
    var bs := Batches(series);
    assert b < |bs|;
    assert bs[b] == series[12 * b .. 12 * b + 12];
    StackStep(series, b, 11, 12 * b + 11, SumValues(series[12 * b .. 12 * b + 11]));
  }

  /** Every label of the series has month `k % 12 + 1`: the series starts in January and skips no month. */
  predicate CalendarAligned(series: seq<Obs>)
  {
    forall k :: 0 <= k < |series| ==> LabelMonth(series[k].period) == k % 12 + 1
  }

  /** On a calendar-aligned series each bar gets the colour of its own month. */
  lemma AlignedBarsHaveTheirMonthColour(series: seq<Obs>, k: nat)
    requires CalendarAligned(series) && k < |series|
    ensures BarAt(series, k).color == MonthColors[LabelMonth(series[k].period) - 1].hex
  {
  }

  /** Otherwise the colour follows the position: a series that starts in February colours it as January. */
  lemma FirstBarIsColouredJanuary(series: seq<Obs>)
    requires |series| > 0 && LabelMonth(series[0].period) == 2
    ensures BarAt(series, 0).color == MonthColors[0].hex != MonthColors[LabelMonth(series[0].period) - 1].hex
  {
  }

  /** `s.index(x)`: the first position holding `x`; `None` is the `ValueError` raised when there is none. */
  function IndexOf(s: seq<string>, x: string): (r: Option<nat>)
    ensures r.None? <==> x !in s
    ensures r.Some? ==> r.value < |s| && s[r.value] == x && forall j :: 0 <= j < r.value ==> s[j] != x
    decreases |s|
  {
    if |s| == 0 then None
    else if s[0] == x then Some(0)
    else
      var rest := IndexOf(s[1..], x);
      assert forall y :: y in s <==> y == s[0] || y in s[1..];
      if rest.None? then None
      else
        assert forall j :: 1 <= j < rest.value + 1 ==> s[j] == s[1..][j - 1];
        Some(rest.value + 1)
  }

  /** `set(date.split('-')[0] for date in all_time_data)` over a list of labels. */
  function LabelYearTexts(times: seq<Label>): set<YearText>
  {
    set l | l in times :: YearTextOf(l)
  }

  /** The marker position of a year: the first index of its January label. */
  ghost predicate IsYearStart(times: seq<Label>, t: YearText, i: int)
  {
    0 <= i < |times| && times[i] == JanuaryLabel(t) && forall j :: 0 <= j < i ==> times[j] != JanuaryLabel(t)
  }

  /**
   * The loop of `plot_monthly_precip_histogram` that draws a vertical line
   * at `all_time_data.index(f"{year}-01")` for every year of the set, in
   * whatever order the set yields them. It raises as soon as it meets a
   * year without a January label; the lines drawn until then are kept.
   */
  method YearStartMarkers(times: seq<Label>) returns (markers: map<YearText, nat>, raised: bool)
    ensures markers.Keys <= LabelYearTexts(times)
    ensures forall t :: t in markers ==> IsYearStart(times, t, markers[t])
    ensures !raised ==> markers.Keys == LabelYearTexts(times)
    ensures raised <==> exists t :: t in LabelYearTexts(times) && JanuaryLabel(t) !in times
  {
    var years := LabelYearTexts(times);
    markers := map[];
    raised := false;
    var remaining := years;
    while remaining != {}
      invariant remaining <= years
      invariant markers.Keys == years - remaining
      invariant forall t :: t in markers ==> IsYearStart(times, t, markers[t])
      invariant forall t :: t in markers ==> JanuaryLabel(t) in times
      decreases |remaining|
    {
      var year :| year in remaining;
      var yearStart := IndexOf(times, JanuaryLabel(year));
      if yearStart.None? {
        raised := true;
        return;
      }
      markers := markers[year := yearStart.value];
      remaining := remaining - {year};
    }
  }

  /** A label is determined by its year and its month. */
  lemma LabelOfYearAndMonth(a: Label, b: Label)
    requires LabelYear(a) == LabelYear(b) && LabelMonth(a) == LabelMonth(b)
    ensures a == b
  {
    DigitsInjective(a[..4], b[..4]);
    DigitsInjective(a[5..], b[5..]);
    assert a == a[..4] + [a[4]] + a[5..];
    assert b == b[..4] + [b[4]] + b[5..];
  }

  /** The January label of a year text names that year and month 1. */
  lemma JanuaryLabelParts(l: Label, t: YearText)
    requires l == JanuaryLabel(t)
    ensures LabelYear(l) == YearOfText(t) && LabelMonth(l) == 1
  {
    assert l[..4] == t;
    assert l[5..] == "01";
    assert "01"[1..] == "1" && "1"[1..] == "";
    assert DigitsValue("01") == 1;
  }

  /**
   * On a label-sorted series, as `read_inputs` returns it, a year's marker
   * sits exactly where that year begins: every earlier label belongs to an
   * earlier year, and no later label to an earlier one.
   */
  lemma MarkerStartsTheYear(times: seq<Label>, t: YearText, i: int)
    requires forall a, b :: 0 <= a < b < |times| ==> LexLe(times[a], times[b])
    requires IsYearStart(times, t, i)
    ensures forall j :: 0 <= j < i ==> LabelYear(times[j]) < YearOfText(t)
    ensures forall j :: i <= j < |times| ==> LabelYear(times[j]) >= YearOfText(t)
  {
    JanuaryLabelParts(times[i], t);
    forall j | 0 <= j < i ensures LabelYear(times[j]) < YearOfText(t) {
      LabelOrderIsChronological(times[j], times[i]);
      if LabelYear(times[j]) == YearOfText(t) {
        LabelOfYearAndMonth(times[j], times[i]);
      }
    }
    forall j | i < j < |times| ensures LabelYear(times[j]) >= YearOfText(t) {
      LabelOrderIsChronological(times[i], times[j]);
    }
  }
}
