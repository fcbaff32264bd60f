/**
 * `read_inputs`: scan a directory for monthly precipitation files, take the
 * grid cell nearest a target latitude/longitude in each, label each time
 * step `"YYYY-MM"`, and return all (label, value) pairs sorted by label.
 *
 * The directory is given as its listing: each entry's name and, when the
 * file can be opened and its `time`, `lat`, `lon` and `var228` variables
 * read, their contents; `None` stands for any exception raised while
 * opening or reading it.
 */
module Extraction {
  import opened Wrappers
  import opened Text
  import opened Labels
  import opened StableSort
  import opened Extremes

  const FilePrefix: string := "PRECIP_PT_mensal"
  const FileSuffix: string := ".nc"

  /** The name test of the scan. */
  predicate IsPrecipFile(name: string)
  {
    StartsWith(name, FilePrefix) && EndsWith(name, FileSuffix)
  }

  /** A time x lat x lon array as read from `var228`, with its lat and lon extents. */
  datatype Field = Field(latCount: nat, lonCount: nat, steps: seq<seq<seq<real>>>)

  /** Every time step holds `latCount` rows of `lonCount` values, as a numpy array does. */
  predicate IsRectangular(f: Field)
  {
    forall t :: 0 <= t < |f.steps| ==>
      |f.steps[t]| == f.latCount && forall a :: 0 <= a < f.latCount ==> |f.steps[t][a]| == f.lonCount
  }

  type Grid = f: Field | IsRectangular(f) witness Field(0, 0, [])

  /** The variables of one file that the scan reads. */
  datatype FileData = FileData(time: seq<Code8>, lat: seq<real>, lon: seq<real>, precip: Grid)

  /** One directory entry; `contents` is `None` when opening or reading the file raises. */
  datatype Entry = Entry(name: string, contents: Option<FileData>)

  /** One (label, value) pair of the series. */
  datatype Obs = Obs(period: Label, value: real)

  /** What one step of the scan appends to `all_time_data` and `all_precip_data`. */
  datatype Chunk = Chunk(labels: seq<Label>, values: seq<real>)

  /** `read_inputs` raises when no pair survives: `zip(*[])` has nothing to unpack. */
  datatype ExtractError = NothingToUnpack

  function Name(e: Entry): string { e.name }

  function Period(o: Obs): string { o.period }

  function Abs(x: real): real { if x < 0.0 then -x else x }

  /** `i` is the first index of `axis` at the least distance from `target`. */
  ghost predicate IsNearest(axis: seq<real>, target: real, i: int)
  {
    && 0 <= i < |axis|
    && (forall j :: 0 <= j < |axis| ==> Abs(axis[i] - target) <= Abs(axis[j] - target))
    && (forall j :: 0 <= j < i ==> Abs(axis[j] - target) > Abs(axis[i] - target))
  }

  /** `np.abs(axis[:] - target).argmin()`; `None` is numpy's error on an empty axis. */
  function NearestIndex(axis: seq<real>, target: real): (r: Option<nat>)
    ensures r.None? <==> |axis| == 0
    ensures r.Some? ==> IsNearest(axis, target, r.value)
  {
    if |axis| == 0 then None
    else
      var d := seq(|axis|, i requires 0 <= i < |axis| => Abs(axis[i] - target));
      var k := ArgMin(d);
      assert forall j :: 0 <= j < |axis| ==> d[j] == Abs(axis[j] - target);
      assert IsFirstMin(d, k);
      Some(k)
  }

  /** `precip[:, i, j]`: the values of one cell over time; `None` is numpy's IndexError. */
  function CellSeries(g: Grid, i: nat, j: nat): (r: Option<seq<real>>)
    ensures r.Some? <==> i < g.latCount && j < g.lonCount
    ensures r.Some? ==> |r.value| == |g.steps| &&
                        forall t :: 0 <= t < |g.steps| ==> r.value[t] == g.steps[t][i][j]
  {
    if i < g.latCount && j < g.lonCount then
      Some(seq(|g.steps|, t requires 0 <= t < |g.steps| => g.steps[t][i][j]))
    else None
  }

  /** Processing a file reaches the `extend` of its labels: both axes are non-empty and every code is a date. */
  predicate ReachesExtend(f: FileData)
  {
    |f.lat| > 0 && |f.lon| > 0 && LabelsOfCodes(f.time).Some?
  }

  /**
   * What one readable matching file appends. The labels are appended before
   * the cell's values are read, so when that read raises the labels stay and
   * no values follow them.
   */
  function FileChunk(f: FileData, targetLat: real, targetLon: real): (c: Chunk)
    ensures !ReachesExtend(f) ==> c == Chunk([], [])
    ensures ReachesExtend(f) ==>
              (|c.labels| == |f.time| &&
               forall t :: 0 <= t < |f.time| ==> Some(c.labels[t]) == LabelOfCode(f.time[t]))
    ensures |c.values| > 0 ==> ReachesExtend(f)
  {
    match (NearestIndex(f.lat, targetLat), NearestIndex(f.lon, targetLon), LabelsOfCodes(f.time))
    case (Some(i), Some(j), Some(labels)) =>
      (match CellSeries(f.precip, i, j)
       case Some(column) => Chunk(labels, column)
       case None => Chunk(labels, []))
    case _ => Chunk([], [])
  }

  /**
   * The values a file appends are its grid's values at the cell nearest the
   * target, one per time step; none when that cell lies outside the grid.
   */
  lemma FileChunkReadsNearestCell(f: FileData, targetLat: real, targetLon: real)
    requires ReachesExtend(f)
    ensures var c := FileChunk(f, targetLat, targetLon);
            var i, j := NearestIndex(f.lat, targetLat).value, NearestIndex(f.lon, targetLon).value;
            && IsNearest(f.lat, targetLat, i) && IsNearest(f.lon, targetLon, j)
            && (i < f.precip.latCount && j < f.precip.lonCount ==>
                  |c.values| == |f.precip.steps| &&
                  forall t :: 0 <= t < |c.values| ==> c.values[t] == f.precip.steps[t][i][j])
            && (!(i < f.precip.latCount && j < f.precip.lonCount) ==> c.values == [])
  {
  }

  /** What one directory entry appends: nothing unless its name matches and it can be read. */
  function EntryChunk(e: Entry, targetLat: real, targetLon: real): (c: Chunk)
    ensures !IsPrecipFile(e.name) || e.contents.None? ==> c == Chunk([], [])
  {
    if IsPrecipFile(e.name) && e.contents.Some? then FileChunk(e.contents.value, targetLat, targetLon)
    else Chunk([], [])
  }

  function Join(a: Chunk, b: Chunk): Chunk
  {
    Chunk(a.labels + b.labels, a.values + b.values)
  }

  /** The two running lists after visiting the entries `es` in order. */
  function Accumulate(es: seq<Entry>, targetLat: real, targetLon: real): Chunk
    decreases |es|
  {
    if |es| == 0 then Chunk([], [])
    else Join(Accumulate(es[..|es| - 1], targetLat, targetLon), EntryChunk(es[|es| - 1], targetLat, targetLon))
  }

  /** Python's `zip`: pairs up to the shorter of the two lists. */
  function Zip(labels: seq<Label>, values: seq<real>): (r: seq<Obs>)
    ensures |r| == if |labels| <= |values| then |labels| else |values|
    ensures forall i :: 0 <= i < |r| ==> r[i] == Obs(labels[i], values[i])
  {
    var n := if |labels| <= |values| then |labels| else |values|;
    seq(n, i requires 0 <= i < n => Obs(labels[i], values[i]))
  }

  /** The pairs the scan accumulates, in visiting order, before the final sort. */
  function ScannedPairs(listing: seq<Entry>, targetLat: real, targetLon: real): seq<Obs>
  {
    var acc := Accumulate(SortBy(listing, Name), targetLat, targetLon);
    Zip(acc.labels, acc.values)
  }

  /**
   * The result of `read_inputs`: the scanned pairs sorted by label, or the
   * error raised when there are none.
   */
  function Extract(listing: seq<Entry>, targetLat: real, targetLon: real): (r: Result<seq<Obs>, ExtractError>)
    ensures var pairs := ScannedPairs(listing, targetLat, targetLon);
            && (r.Err? <==> |pairs| == 0)
            && (r.Ok? ==> && SortedBy(r.value, Period)
                          && multiset(r.value) == multiset(pairs)
                          && forall l :: WithKey(r.value, Period, l) == WithKey(pairs, Period, l))
  {
    var series := SortBy(ScannedPairs(listing, targetLat, targetLon), Period);
    if |series| == 0 then Err(NothingToUnpack) else Ok(series)
  }

  /**
   * One pass of the `try` block: what a directory entry adds to the labels
   * and to the values. The labels are added as soon as they are formed; when
   * the cell read then raises, no values follow them.
   */
  method ScanEntry(entry: Entry, targetLat: real, targetLon: real) returns (labels: seq<Label>, values: seq<real>)
    ensures Chunk(labels, values) == EntryChunk(entry, targetLat, targetLon)
  {
    labels, values := [], [];
    if StartsWith(entry.name, FilePrefix) && EndsWith(entry.name, FileSuffix) && entry.contents.Some? {
      var data := entry.contents.value;
      var latIdx := NearestIndex(data.lat, targetLat);
      var lonIdx := NearestIndex(data.lon, targetLon);
      var timeStrings := LabelsOfCodes(data.time);
      if latIdx.Some? && lonIdx.Some? && timeStrings.Some? {
        labels := timeStrings.value;
        var column := CellSeries(data.precip, latIdx.value, lonIdx.value);
        if column.Some? {
          values := column.value;
        }
      }
    }
  }

  /**
   * The scan loop itself: visit the entries in name order, append each
   * file's labels, then its cell's values, skipping a file whose processing
   * raises; finally zip the two lists and sort the pairs by label.
   */
  method ReadInputs(listing: seq<Entry>, targetLat: real, targetLon: real)
    returns (r: Result<seq<Obs>, ExtractError>)
    ensures r == Extract(listing, targetLat, targetLon)
  {
    var allTimeData: seq<Label> := [];
    var allPrecipData: seq<real> := [];
    var files := SortBy(listing, Name);
    var k := 0;
    while k < |files|
      invariant 0 <= k <= |files|
      invariant Chunk(allTimeData, allPrecipData) == Accumulate(files[..k], targetLat, targetLon)
    {
      var labels, values := ScanEntry(files[k], targetLat, targetLon);
      AccumulateStep(files, k, allTimeData, allPrecipData, labels, values, targetLat, targetLon);
      allTimeData := allTimeData + labels;
      allPrecipData := allPrecipData + values;
      k := k + 1;
    }
    assert files[..k] == files;
    assert Zip(allTimeData, allPrecipData) == ScannedPairs(listing, targetLat, targetLon);
    var sortedData := SortBy(Zip(allTimeData, allPrecipData), Period);
    if |sortedData| == 0 {
      r := Err(NothingToUnpack);
    } else {
      r := Ok(sortedData);
    }
  }

  /** A name is matched exactly when it is the prefix, any middle part, then the suffix. */
  lemma MatchedNameShape(name: string)
    ensures IsPrecipFile(name) <==>
            |name| >= |FilePrefix| + |FileSuffix| &&
            name == FilePrefix + name[|FilePrefix|..|name| - |FileSuffix|] + FileSuffix
  {
    if IsPrecipFile(name) {
      // the dot of the suffix cannot fall inside the prefix, which has none
      assert name[|name| - |FileSuffix|] == '.';
      assert forall i | 0 <= i < |FilePrefix| :: name[i] == FilePrefix[i] != '.';
      var mid := name[|FilePrefix|..|name| - |FileSuffix|];
      assert name == name[..|FilePrefix|] + mid + name[|name| - |FileSuffix|..];
    }
    if |name| >= |FilePrefix| + |FileSuffix| &&
       name == FilePrefix + name[|FilePrefix|..|name| - |FileSuffix|] + FileSuffix {
      var mid := name[|FilePrefix|..|name| - |FileSuffix|];
      assert (FilePrefix + mid + FileSuffix)[..|FilePrefix|] == FilePrefix;
      assert (FilePrefix + mid + FileSuffix)[|name| - |FileSuffix|..] == FileSuffix;
    }
  }

  /** The nearest-index rule on a worked example: target 3 on axis [-10, -5, 0, 5, 10] is index 3. */
  lemma NearestIndexExample()
    ensures NearestIndex([-10.0, -5.0, 0.0, 5.0, 10.0], 3.0) == Some(3)
  {
    var axis := [-10.0, -5.0, 0.0, 5.0, 10.0];
    var r := NearestIndex(axis, 3.0);
    assert IsNearest(axis, 3.0, r.value);
    assert Abs(axis[3] - 3.0) == 2.0;
  }

  lemma {:induction false} AccumulateConcat(a: seq<Entry>, b: seq<Entry>, targetLat: real, targetLon: real)
    ensures Accumulate(a + b, targetLat, targetLon) ==
            Join(Accumulate(a, targetLat, targetLon), Accumulate(b, targetLat, targetLon))
    decreases |b|
  {
    if |b| == 0 {
      assert a + b == a;
    } else {
      var init, last := b[..|b| - 1], b[|b| - 1];
      var ab := a + b;
      assert ab[..|ab| - 1] == a + init && ab[|ab| - 1] == last;
      AccumulateUnfold(ab, targetLat, targetLon);
      AccumulateUnfold(b, targetLat, targetLon);
      AccumulateConcat(a, init, targetLat, targetLon);
      JoinAssociative(Accumulate(a, targetLat, targetLon), Accumulate(init, targetLat, targetLon),
                      EntryChunk(last, targetLat, targetLon));
    }
  }

  /** One more entry scanned extends the running lists by what that entry adds. */
  lemma AccumulateStep(files: seq<Entry>, k: nat, labels: seq<Label>, values: seq<real>,
                       moreLabels: seq<Label>, moreValues: seq<real>, targetLat: real, targetLon: real)
    requires k < |files|
    requires Chunk(labels, values) == Accumulate(files[..k], targetLat, targetLon)
    requires Chunk(moreLabels, moreValues) == EntryChunk(files[k], targetLat, targetLon)
    ensures Chunk(labels + moreLabels, values + moreValues) == Accumulate(files[..k + 1], targetLat, targetLon)
  {
    assert files[..k + 1][..k] == files[..k];
    AccumulateUnfold(files[..k + 1], targetLat, targetLon);
  }

  lemma AccumulateUnfold(es: seq<Entry>, targetLat: real, targetLon: real)
    requires |es| > 0
    ensures Accumulate(es, targetLat, targetLon) ==
            Join(Accumulate(es[..|es| - 1], targetLat, targetLon), EntryChunk(es[|es| - 1], targetLat, targetLon))
  {
  }

  lemma JoinAssociative(x: Chunk, y: Chunk, z: Chunk)
    ensures Join(Join(x, y), z) == Join(x, Join(y, z))
  {
    assert x.labels + y.labels + z.labels == x.labels + (y.labels + z.labels);
    assert x.values + y.values + z.values == x.values + (y.values + z.values);
  }

  /** An entry appends something to at least one of the two lists. */
  predicate Contributes(e: Entry, targetLat: real, targetLon: real)
  {
    EntryChunk(e, targetLat, targetLon) != Chunk([], [])
  }

  function ContributesAt(targetLat: real, targetLon: real): Entry -> bool
  {
    e => Contributes(e, targetLat, targetLon)
  }

  /** The entries of a listing that add anything: matched, readable, and processed up to the label `extend`. */
  function Surviving(listing: seq<Entry>, targetLat: real, targetLon: real): seq<Entry>
  {
    Filter(listing, ContributesAt(targetLat, targetLon))
  }

  lemma {:induction false} AccumulateSkipsIdleEntries(es: seq<Entry>, targetLat: real, targetLon: real)
    ensures Accumulate(es, targetLat, targetLon) ==
            Accumulate(Filter(es, ContributesAt(targetLat, targetLon)), targetLat, targetLon)
    decreases |es|
  {
    if |es| > 0 {
      var p := ContributesAt(targetLat, targetLon);
      var init, last := es[..|es| - 1], es[|es| - 1];
      assert es == init + [last];
      FilterAppend(init, [last], p);
      AccumulateSkipsIdleEntries(init, targetLat, targetLon);
      assert [last][1..] == [];
      var kept := Filter([last], p);
      AccumulateConcat(Filter(init, p), kept, targetLat, targetLon);
      if p(last) {
        assert kept == [last];
        assert Accumulate(kept, targetLat, targetLon) == Join(Chunk([], []), EntryChunk(last, targetLat, targetLon));
      } else {
        assert kept == [];
      }
    }
  }

  /**
   * `os.listdir` names are distinct, so the sorted listing visits them in
   * strictly ascending name order: the visiting order has no ties to break.
   */
  lemma ListingVisitedStrictlyAscending(listing: seq<Entry>)
    requires DistinctKeys(listing, Name)
    ensures var files := SortBy(listing, Name);
            && |files| == |listing|
            && forall i, j :: 0 <= i < j < |files| ==>
                 LexLe(files[i].name, files[j].name) && files[i].name != files[j].name
  {
    SortByKeepsKeysDistinct(listing, Name);
  }

  /**
   * An entry that appends nothing (skipped by name, unreadable, or raising
   * before its labels are appended) does not change the scan: the result is
   * the one computed from the entries that append something.
   */
  lemma OnlySurvivingFilesMatter(listing: seq<Entry>, targetLat: real, targetLon: real)
    ensures Extract(listing, targetLat, targetLon) == Extract(Surviving(listing, targetLat, targetLon), targetLat, targetLon)
  {
    var p := ContributesAt(targetLat, targetLon);
    SortByCommutesWithFilter(listing, Name, p);
    AccumulateSkipsIdleEntries(SortBy(listing, Name), targetLat, targetLon);
  }

  /** Adding an entry that appends nothing (say, an unreadable file) leaves the result as it was. */
  lemma IdleEntryChangesNothing(listing: seq<Entry>, e: Entry, targetLat: real, targetLon: real)
    requires !Contributes(e, targetLat, targetLon)
    ensures Extract(listing + [e], targetLat, targetLon) == Extract(listing, targetLat, targetLon)
  {
    var p := ContributesAt(targetLat, targetLon);
    OnlySurvivingFilesMatter(listing + [e], targetLat, targetLon);
    OnlySurvivingFilesMatter(listing, targetLat, targetLon);
    FilterAppend(listing, [e], p);
    assert [e][1..] == [];
    assert Filter([e], p) == [];
    assert Surviving(listing + [e], targetLat, targetLon) == Surviving(listing, targetLat, targetLon);
  }

  /** A file whose every variable agrees with every other: the case the scan was written for. */
  predicate WellFormed(f: FileData)
  {
    && |f.lat| == f.precip.latCount && |f.lat| > 0
    && |f.lon| == f.precip.lonCount && |f.lon| > 0
    && |f.time| == |f.precip.steps|
    && LabelsOfCodes(f.time).Some?
  }

  predicate EntryWellFormed(e: Entry)
  {
    IsPrecipFile(e.name) && e.contents.Some? ==> WellFormed(e.contents.value)
  }

  /** The number of time steps an entry holds, if the scan takes it up. */
  function EntrySteps(e: Entry): nat
  {
    if IsPrecipFile(e.name) && e.contents.Some? then |e.contents.value.time| else 0
  }

  function StepCount(es: seq<Entry>): nat
    decreases |es|
  {
    if |es| == 0 then 0 else StepCount(es[..|es| - 1]) + EntrySteps(es[|es| - 1])
  }

  lemma {:induction false} StepCountConcat(a: seq<Entry>, b: seq<Entry>)
    ensures StepCount(a + b) == StepCount(a) + StepCount(b)
    decreases |b|
  {
    if |b| == 0 {
      assert a + b == a;
    } else {
      assert (a + b)[..|a + b| - 1] == a + b[..|b| - 1];
      assert (a + b)[|a + b| - 1] == b[|b| - 1];
      StepCountConcat(a, b[..|b| - 1]);
    }
  }

  /** The count does not depend on the order of the entries. */
  lemma {:induction false} StepCountPermutation(a: seq<Entry>, b: seq<Entry>)
    requires multiset(a) == multiset(b)
    ensures StepCount(a) == StepCount(b)
    decreases |a|
  {
    if |a| > 0 {
      var init, last := a[..|a| - 1], a[|a| - 1];
      assert last in multiset(b) by { assert last in a; }
      var i :| 0 <= i < |b| && b[i] == last;
      var rest := b[..i] + b[i + 1..];
      RemoveOne(a, |a| - 1);
      assert a[..|a| - 1] + a[|a|..] == init;
      RemoveOne(b, i);
      CancelOne(multiset(init), multiset(rest), last);
      StepCountPermutation(init, rest);
      StepCountSplit(a, |a| - 1);
      StepCountSplit(b, i);
    }
  }

  /** Taking one entry out of a listing takes its steps out of the count. */
  lemma StepCountSplit(b: seq<Entry>, i: nat)
    requires i < |b|
    ensures StepCount(b) == StepCount(b[..i] + b[i + 1..]) + EntrySteps(b[i])
  {
    var l, m, r := b[..i], [b[i]], b[i + 1..];
    assert b[i..] == m + r;
    assert b == l + b[i..];
    assert l + m + r == l + (m + r);
    StepCountMiddle(l, m, r);
    StepCountSingle(b[i]);
  }

  lemma StepCountMiddle(l: seq<Entry>, m: seq<Entry>, r: seq<Entry>)
    ensures StepCount(l + m + r) == StepCount(l + r) + StepCount(m)
  {
    StepCountConcat(l, m);
    StepCountConcat(l + m, r);
    StepCountConcat(l, r);
  }

  lemma StepCountSingle(e: Entry)
    ensures StepCount([e]) == EntrySteps(e)
  {
    assert [e][..0] == [];
  }

  lemma RemoveOne<T>(s: seq<T>, i: nat)
    requires i < |s|
    ensures multiset(s) == multiset(s[..i] + s[i + 1..]) + multiset{s[i]}
  {
    assert s == s[..i] + [s[i]] + s[i + 1..];
  }

  lemma CancelOne<T>(x: multiset<T>, y: multiset<T>, e: T)
    requires x + multiset{e} == y + multiset{e}
    ensures x == y
  {
    forall v ensures x[v] == y[v] {
      assert (x + multiset{e})[v] == (y + multiset{e})[v];
    }
  }

  lemma {:induction false} WellFormedAccumulate(es: seq<Entry>, targetLat: real, targetLon: real)
    requires forall e :: e in es ==> EntryWellFormed(e)
    ensures var acc := Accumulate(es, targetLat, targetLon);
            |acc.labels| == |acc.values| == StepCount(es)
    decreases |es|
  {
    if |es| > 0 {
      var init, last := es[..|es| - 1], es[|es| - 1];
      assert forall e :: e in init ==> e in es;
      WellFormedAccumulate(init, targetLat, targetLon);
      WellFormedEntryIsWhole(last, targetLat, targetLon);
      assert Accumulate(es, targetLat, targetLon) ==
             Join(Accumulate(init, targetLat, targetLon), EntryChunk(last, targetLat, targetLon));
    }
  }

  /** A well-formed entry appends as many values as labels: one per time step. */
  lemma WellFormedEntryIsWhole(e: Entry, targetLat: real, targetLon: real)
    requires EntryWellFormed(e)
    ensures var c := EntryChunk(e, targetLat, targetLon);
            |c.labels| == |c.values| == EntrySteps(e)
  {
    if IsPrecipFile(e.name) && e.contents.Some? {
      var f := e.contents.value;
      var c := FileChunk(f, targetLat, targetLon);
      assert ReachesExtend(f);
      assert |c.labels| == |f.time|;
    }
  }

  /**
   * On a directory of well-formed files every time step of every matched
   * file yields exactly one pair, and the result is an error only when there
   * are no steps at all.
   */
  lemma WellFormedDirectoryKeepsEveryStep(listing: seq<Entry>, targetLat: real, targetLon: real)
    requires forall e :: e in listing ==> EntryWellFormed(e)
    ensures |ScannedPairs(listing, targetLat, targetLon)| == StepCount(listing)
    ensures Extract(listing, targetLat, targetLon).Err? <==> StepCount(listing) == 0
    ensures Extract(listing, targetLat, targetLon).Ok? ==>
            |Extract(listing, targetLat, targetLon).value| == StepCount(listing)
  {
    var files := SortBy(listing, Name);
    forall e | e in files ensures EntryWellFormed(e) {
      assert e in multiset(files);
    }
    WellFormedAccumulate(files, targetLat, targetLon);
    StepCountPermutation(files, listing);
  }

  // ---------------------------------------------------------------------
  // Orphan labels. A file whose cell read raises has already appended its
  // labels; no values follow them, so `zip` pairs them with the next
  // file's values. The corrected scan pairs each file's labels with that
  // same file's values before joining.
  // ---------------------------------------------------------------------

  /** `o` is one time step of the file `e` holds: its label and that same step's value. */
  ghost predicate IsStepOf(o: Obs, e: Entry, targetLat: real, targetLon: real)
  {
    var c := EntryChunk(e, targetLat, targetLon);
    exists t :: 0 <= t < |c.labels| && t < |c.values| && o == Obs(c.labels[t], c.values[t])
  }

  /** The pairs of one entry, each label with the value of the same time step. */
  function FilePairs(e: Entry, targetLat: real, targetLon: real): (r: seq<Obs>)
    ensures forall o :: o in r ==> IsStepOf(o, e, targetLat, targetLon)
  {
    var c := EntryChunk(e, targetLat, targetLon);
    var r := Zip(c.labels, c.values);
    assert forall t :: 0 <= t < |r| ==> r[t] == Obs(c.labels[t], c.values[t]);
    r
  }

  /** The corrected accumulation: each file's own pairs, in visiting order. */
  function AlignedPairs(es: seq<Entry>, targetLat: real, targetLon: real): seq<Obs>
    decreases |es|
  {
    if |es| == 0 then []
    else AlignedPairs(es[..|es| - 1], targetLat, targetLon) + FilePairs(es[|es| - 1], targetLat, targetLon)
  }

  /** The corrected `read_inputs`: as `Extract`, with every file's pairs formed within the file. */
  function ExtractAligned(listing: seq<Entry>, targetLat: real, targetLon: real): (r: Result<seq<Obs>, ExtractError>)
    ensures var pairs := AlignedPairs(SortBy(listing, Name), targetLat, targetLon);
            && (r.Err? <==> |pairs| == 0)
            && (r.Ok? ==> && SortedBy(r.value, Period)
                          && multiset(r.value) == multiset(pairs)
                          && forall l :: WithKey(r.value, Period, l) == WithKey(pairs, Period, l))
  {
    var series := SortBy(AlignedPairs(SortBy(listing, Name), targetLat, targetLon), Period);
    if |series| == 0 then Err(NothingToUnpack) else Ok(series)
  }

  lemma {:induction false} AlignedPairsComeFromSteps(es: seq<Entry>, targetLat: real, targetLon: real)
    ensures forall o :: o in AlignedPairs(es, targetLat, targetLon) ==>
              exists e :: e in es && IsStepOf(o, e, targetLat, targetLon)
    decreases |es|
  {
    if |es| > 0 {
      var init, last := es[..|es| - 1], es[|es| - 1];
      AlignedPairsComeFromSteps(init, targetLat, targetLon);
      forall o | o in AlignedPairs(es, targetLat, targetLon)
        ensures exists e :: e in es && IsStepOf(o, e, targetLat, targetLon)
      {
        if o in AlignedPairs(init, targetLat, targetLon) {
          var e :| e in init && IsStepOf(o, e, targetLat, targetLon);
          assert e in es;
        } else {
          assert o in FilePairs(last, targetLat, targetLon);
          assert last in es;
        }
      }
    }
  }

  /** Corrected: every pair returned is one time step of one file of the directory, label and value together. */
  lemma AlignedResultKeepsSteps(listing: seq<Entry>, targetLat: real, targetLon: real)
    ensures var r := ExtractAligned(listing, targetLat, targetLon);
            r.Ok? ==> forall o :: o in r.value ==>
                        exists e :: e in listing && IsStepOf(o, e, targetLat, targetLon)
  {
    var files := SortBy(listing, Name);
    var r := ExtractAligned(listing, targetLat, targetLon);
    AlignedPairsComeFromSteps(files, targetLat, targetLon);
    if r.Ok? {
      forall o | o in r.value
        ensures exists e :: e in listing && IsStepOf(o, e, targetLat, targetLon)
      {
        assert o in multiset(r.value);
        assert o in AlignedPairs(files, targetLat, targetLon);
        var e :| e in files && IsStepOf(o, e, targetLat, targetLon);
        assert e in multiset(files);
        assert e in listing;
      }
    }
  }

  /**
   * As written: when the first of two files appends one label and no value
   * and the second one label and one value, the result pairs the first
   * file's label with the second file's value, a pair that is no time step
   * of either file.
   */
  lemma OrphanLabelsShiftLaterValues(a: Entry, b: Entry, targetLat: real, targetLon: real)
    requires LexLe(a.name, b.name)
    requires var ca, cb := EntryChunk(a, targetLat, targetLon), EntryChunk(b, targetLat, targetLon);
             |ca.labels| == 1 && ca.values == [] && |cb.labels| == 1 && |cb.values| == 1 &&
             ca.labels[0] != cb.labels[0]
    ensures var ca, cb := EntryChunk(a, targetLat, targetLon), EntryChunk(b, targetLat, targetLon);
            var o := Obs(ca.labels[0], cb.values[0]);
            && Extract([a, b], targetLat, targetLon) == Ok([o])
            && !IsStepOf(o, a, targetLat, targetLon)
            && !IsStepOf(o, b, targetLat, targetLon)
  {
    var ca, cb := EntryChunk(a, targetLat, targetLon), EntryChunk(b, targetLat, targetLon);
    var o := Obs(ca.labels[0], cb.values[0]);
    OrphanLabelPairsAcross(a, b, targetLat, targetLon);
    NoValueNoStep(o, a, targetLat, targetLon);
    OtherLabelNoStep(o, b, targetLat, targetLon);
  }

  /** An entry that added no value has no time step. */
  lemma NoValueNoStep(o: Obs, e: Entry, targetLat: real, targetLon: real)
    requires EntryChunk(e, targetLat, targetLon).values == []
    ensures !IsStepOf(o, e, targetLat, targetLon)
  {
  }

  /** An entry with a single label has no time step under any other label. */
  lemma OtherLabelNoStep(o: Obs, e: Entry, targetLat: real, targetLon: real)
    requires var c := EntryChunk(e, targetLat, targetLon); |c.labels| == 1 && o.period != c.labels[0]
    ensures !IsStepOf(o, e, targetLat, targetLon)
  {
  }

  /** The one pair `read_inputs` returns in that situation. */
  lemma OrphanLabelPairsAcross(a: Entry, b: Entry, targetLat: real, targetLon: real)
    requires LexLe(a.name, b.name)
    requires var ca, cb := EntryChunk(a, targetLat, targetLon), EntryChunk(b, targetLat, targetLon);
             |ca.labels| == 1 && ca.values == [] && |cb.labels| == 1 && |cb.values| == 1
    ensures var ca, cb := EntryChunk(a, targetLat, targetLon), EntryChunk(b, targetLat, targetLon);
            Extract([a, b], targetLat, targetLon) == Ok([Obs(ca.labels[0], cb.values[0])])
  {
    var ca, cb := EntryChunk(a, targetLat, targetLon), EntryChunk(b, targetLat, targetLon);
    TwoEntriesInNameOrder(a, b);
    TwoEntriesAccumulate(a, b, targetLat, targetLon);
    var acc := Accumulate([a, b], targetLat, targetLon);
    assert acc.labels == ca.labels + cb.labels && acc.values == cb.values;
    var pairs := ScannedPairs([a, b], targetLat, targetLon);
    assert |pairs| == 1 && pairs[0] == Obs(ca.labels[0], cb.values[0]);
    assert pairs == [Obs(ca.labels[0], cb.values[0])];
    SortBySingleton(pairs[0], Period);
  }

  /** Corrected, in the same situation: the first file contributes nothing and the second keeps its own label. */
  lemma AlignedDropsOrphanLabels(a: Entry, b: Entry, targetLat: real, targetLon: real)
    requires LexLe(a.name, b.name)
    requires var ca, cb := EntryChunk(a, targetLat, targetLon), EntryChunk(b, targetLat, targetLon);
             |ca.labels| == 1 && ca.values == [] && |cb.labels| == 1 && |cb.values| == 1
    ensures var cb := EntryChunk(b, targetLat, targetLon);
            ExtractAligned([a, b], targetLat, targetLon) == Ok([Obs(cb.labels[0], cb.values[0])])
  {
    var cb := EntryChunk(b, targetLat, targetLon);
    TwoEntriesInNameOrder(a, b);
    TwoEntriesAligned(a, b, targetLat, targetLon);
    assert FilePairs(a, targetLat, targetLon) == [];
    var pb := FilePairs(b, targetLat, targetLon);
    assert |pb| == 1 && pb[0] == Obs(cb.labels[0], cb.values[0]);
    assert pb == [pb[0]];
    SortBySingleton(pb[0], Period);
  }

  lemma TwoEntriesAligned(a: Entry, b: Entry, targetLat: real, targetLon: real)
    ensures AlignedPairs([a, b], targetLat, targetLon) ==
            FilePairs(a, targetLat, targetLon) + FilePairs(b, targetLat, targetLon)
  {
    AlignedPairsSnoc([], a, targetLat, targetLon);
    AlignedPairsSnoc([a], b, targetLat, targetLon);
    assert [] + [a] == [a] && [a] + [b] == [a, b];
    assert [] + FilePairs(a, targetLat, targetLon) == FilePairs(a, targetLat, targetLon);
  }

  lemma AlignedPairsSnoc(es: seq<Entry>, e: Entry, targetLat: real, targetLon: real)
    ensures AlignedPairs(es + [e], targetLat, targetLon) ==
            AlignedPairs(es, targetLat, targetLon) + FilePairs(e, targetLat, targetLon)
  {
    assert (es + [e])[..|es|] == es;
  }

  lemma TwoEntriesInNameOrder(a: Entry, b: Entry)
    requires LexLe(a.name, b.name)
    ensures SortBy([a, b], Name) == [a, b]
  {
    assert [a, b][1..] == [b];
    assert SortBy([b], Name) == [b];
  }

  lemma TwoEntriesAccumulate(a: Entry, b: Entry, targetLat: real, targetLon: real)
    ensures Accumulate([a, b], targetLat, targetLon) ==
            Join(EntryChunk(a, targetLat, targetLon), EntryChunk(b, targetLat, targetLon))
  {
    assert [a, b][..1] == [a] && [a][..0] == [];
    var ca := EntryChunk(a, targetLat, targetLon);
    assert Accumulate([a], targetLat, targetLon) == Join(Chunk([], []), ca);
    assert Join(Chunk([], []), ca) == ca;
  }

  /** A matched file whose latitude axis is longer than its grid: the cell read at latitude 1 raises. */
  function ShortGridFile(name: string): Entry
  {
    Entry(name, Some(FileData([19500115], [0.0, 1.0], [0.0], Field(1, 1, [[[5.0]]]))))
  }

  /** A well-formed one-cell file for January 1951. */
  function OneCellFile(name: string): Entry
  {
    Entry(name, Some(FileData([19510115], [0.0], [0.0], Field(1, 1, [[[7.0]]]))))
  }

  lemma SingleCodeLabels(c: Code8)
    ensures LabelOfCode(c).Some? ==> LabelsOfCodes([c]) == Some([LabelOfCode(c).value])
  {
    assert [c][0] == c && [c][1..] == [];
    assert LabelsOfCodes([c][1..]) == Some([]);
    if LabelOfCode(c).Some? {
      assert [LabelOfCode(c).value] + [] == [LabelOfCode(c).value];
    }
  }

  lemma ExampleNearest()
    ensures NearestIndex([0.0, 1.0], 1.0) == Some(1)
    ensures NearestIndex([0.0], 0.0) == Some(0)
    ensures NearestIndex([0.0], 1.0) == Some(0)
  {
    assert IsNearest([0.0, 1.0], 1.0, NearestIndex([0.0, 1.0], 1.0).value);
  }

  /** The two codes of the example files are calendar dates. */
  lemma ExampleCodesAreDates()
    ensures LabelOfCode(19500115).Some? && LabelOfCode(19510115).Some?
  {
    assert 19500115 / 10000 == 1950 && 19500115 / 100 % 100 == 1 && 19500115 % 100 == 15;
    assert 19510115 / 10000 == 1951 && 19510115 / 100 % 100 == 1 && 19510115 % 100 == 15;
    assert DaysInMonth(1950, 1) == 31 && DaysInMonth(1951, 1) == 31;
  }

  lemma ShortGridChunk(name: string)
    requires IsPrecipFile(name)
    ensures LabelOfCode(19500115).Some?
    ensures EntryChunk(ShortGridFile(name), 1.0, 0.0) == Chunk([LabelOfCode(19500115).value], [])
  {
    ExampleCodesAreDates();
    ExampleNearest();
    SingleCodeLabels(19500115);
    var f := ShortGridFile(name).contents.value;
    assert CellSeries(f.precip, 1, 0) == None;
  }

  lemma OneCellChunk(name: string)
    requires IsPrecipFile(name)
    ensures LabelOfCode(19510115).Some?
    ensures EntryChunk(OneCellFile(name), 1.0, 0.0) == Chunk([LabelOfCode(19510115).value], [7.0])
  {
    ExampleCodesAreDates();
    ExampleNearest();
    SingleCodeLabels(19510115);
    var f := OneCellFile(name).contents.value;
    var col := CellSeries(f.precip, 0, 0);
    assert col.Some? && |col.value| == 1 && col.value[0] == 7.0;
    assert col.value == [7.0];
  }

  /**
   * Such a directory exists: two matched names in order, at latitude 1 and
   * longitude 0. The first file's read raises after its January 1950 label
   * is appended; the second holds 7.0 for January 1951. The scan as written
   * returns 7.0 for January 1950, the corrected scan for January 1951.
   */
  lemma OrphanLabelsExample(nameA: string, nameB: string)
    requires IsPrecipFile(nameA) && IsPrecipFile(nameB) && LexLe(nameA, nameB)
    ensures LabelOfCode(19500115).Some? && LabelOfCode(19510115).Some?
    ensures Extract([ShortGridFile(nameA), OneCellFile(nameB)], 1.0, 0.0) ==
            Ok([Obs(LabelOfCode(19500115).value, 7.0)])
    ensures ExtractAligned([ShortGridFile(nameA), OneCellFile(nameB)], 1.0, 0.0) ==
            Ok([Obs(LabelOfCode(19510115).value, 7.0)])
  {
    var a, b := ShortGridFile(nameA), OneCellFile(nameB);
    ShortGridChunk(nameA);
    OneCellChunk(nameB);
    OrphanLabelsShiftLaterValues(a, b, 1.0, 0.0);
    AlignedDropsOrphanLabels(a, b, 1.0, 0.0);
  }

  lemma ZipConcat(l1: seq<Label>, v1: seq<real>, l2: seq<Label>, v2: seq<real>)
    requires |l1| == |v1|
    ensures Zip(l1 + l2, v1 + v2) == Zip(l1, v1) + Zip(l2, v2)
  {
    var lhs, rhs := Zip(l1 + l2, v1 + v2), Zip(l1, v1) + Zip(l2, v2);
    assert |lhs| == |rhs|;
    forall t | 0 <= t < |lhs| ensures lhs[t] == rhs[t] {
      if t >= |l1| {
        assert rhs[t] == Zip(l2, v2)[t - |l1|];
      }
    }
  }

  /** An entry whose labels and values come in equal numbers. */
  predicate Whole(e: Entry, targetLat: real, targetLon: real)
  {
    var c := EntryChunk(e, targetLat, targetLon);
    |c.labels| == |c.values|
  }

  lemma {:induction false} AlignedAgreesOnWholeEntries(es: seq<Entry>, targetLat: real, targetLon: real)
    requires forall e :: e in es ==> Whole(e, targetLat, targetLon)
    ensures var acc := Accumulate(es, targetLat, targetLon);
            |acc.labels| == |acc.values| && AlignedPairs(es, targetLat, targetLon) == Zip(acc.labels, acc.values)
    decreases |es|
  {
    if |es| > 0 {
      var init, last := es[..|es| - 1], es[|es| - 1];
      assert forall e :: e in init ==> e in es;
      AlignedAgreesOnWholeEntries(init, targetLat, targetLon);
      assert last in es;
      AccumulateUnfold(es, targetLat, targetLon);
      var a, c := Accumulate(init, targetLat, targetLon), EntryChunk(last, targetLat, targetLon);
      ZipConcat(a.labels, a.values, c.labels, c.values);
    }
  }

  /** On a directory of well-formed files the scan as written and the corrected scan agree. */
  lemma WellFormedDirectoryNeedsNoCorrection(listing: seq<Entry>, targetLat: real, targetLon: real)
    requires forall e :: e in listing ==> EntryWellFormed(e)
    ensures ExtractAligned(listing, targetLat, targetLon) == Extract(listing, targetLat, targetLon)
  {
    var files := SortBy(listing, Name);
    forall e | e in files ensures Whole(e, targetLat, targetLon) {
      assert e in multiset(files);
      WellFormedEntryIsWhole(e, targetLat, targetLon);
    }
    AlignedAgreesOnWholeEntries(files, targetLat, targetLon);
  }
}
