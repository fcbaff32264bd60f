# Monthly precipitation at a grid point: a verified model

Two analysis scripts share one small pipeline:

- `src/bravura_precip_damwater.py` (Herdade da Bravura)
- `src/ipma_pt2_plot.py` (IPMA, Portugal)

`read_inputs` scans a directory of monthly precipitation grids. It considers the files named `PRECIP_PT_mensal*.nc` in name order. In each file it finds the grid cell nearest a target latitude and longitude, turns the file's `YYYYMMDD` date codes into `"YYYY-MM"` labels, and appends the labels and that cell's values to two running lists. A file whose processing raises is reported. Labels it appended before its cell read failed stay in the list. The lists are then zipped and sorted by label.

The plots then work on that series:

- Yearly totals and the wettest and driest years. The Bravura script uses a pandas `groupby`; the IPMA script fills a dictionary in a loop.
- One stacked bar per twelve-month batch, with a running base.
- A vertical marker at each year's January label.

The project models this pipeline in Dafny and proves what each step computes. The model has these modules:

- `Text`: Python's `startswith`, `endswith`, `split('-')[0]` and string order; `int()` of a digit string.
- `Labels`: date codes, `strptime`/`strftime`, and `"YYYY-MM"` labels.
- `StableSort`: `sorted(..., key=...)` as a stable insertion sort.
- `Extremes`: `argmin` and `argmax`, first occurrence wins.
- `Extraction`: `read_inputs`.
- `Yearly`: the Bravura yearly grouping.
- `YearlyDict`: the IPMA yearly dictionary loop.
- `Monthly`: batching, stacked bars and January markers.

The directory is modelled as its listing. Each entry has a name and, when the file opens and its variables can be read, their contents. `None` stands for any exception raised while opening or reading.

## Model

| member | source | states |
|---|---|---|
| `Extraction.MatchedNameShape` | src/bravura_precip_damwater.py:26 | About the name test `Extraction.IsPrecipFile`: a name is scanned exactly when it is `PRECIP_PT_mensal`, anything, then `.nc` (the IPMA copy is at src/ipma_pt2_plot.py:22). |
| `Extraction.NearestIndex` | src/bravura_precip_damwater.py:44-45 | The chosen index minimises `abs(axis[i] - target)` and is the first such index; an empty axis is numpy's error (same code at src/ipma_pt2_plot.py:40-41). |
| `Extraction.NearestIndexExample` | src/bravura_precip_damwater.py:44 | Target 3 on the axis -10, -5, 0, 5, 10 picks index 3 (the value 5). |
| `Extraction.CellSeries` | src/bravura_precip_damwater.py:55 | `precip[:, i, j]` is defined exactly when the cell lies inside the grid, and then holds that cell's value at every time step, in order. |
| `Extraction.FileChunk` | src/bravura_precip_damwater.py:44-55 | A file that raises before the label `extend` appends nothing. Otherwise it appends one label per date code, in code order. It appends values only if it got that far. |
| `Extraction.FileChunkReadsNearestCell` | src/bravura_precip_damwater.py:44-55 | The values a file appends are its grid values at the nearest cell, one per time step. They are empty when that cell is outside the grid, and the labels are then kept. |
| `Extraction.EntryChunk` | src/bravura_precip_damwater.py:25-58 | A directory entry whose name does not match, or that cannot be opened or read, appends nothing. |
| `Extraction.ScanEntry` | src/bravura_precip_damwater.py:28-58 | One pass of the `try` block appends exactly the entry's chunk: labels first, then values when the cell read succeeds. |
| `Extraction.ReadInputs` | src/bravura_precip_damwater.py:14-65 | The scan loop keeps its two lists equal to the fold `Extraction.Accumulate` over the entries visited so far, and returns the sorted pairs of `Extract`, or the unpacking error (the IPMA copy is at src/ipma_pt2_plot.py:10-60). |
| `Extraction.Zip` | src/bravura_precip_damwater.py:62 | `zip` pairs labels and values position by position, up to the shorter list. |
| `Extraction.Extract` | src/ipma_pt2_plot.py:58-59 | The result is an error exactly when no pair was accumulated. Otherwise it is sorted by label, is a permutation of the zipped pairs, and keeps pairs with the same label in accumulation order. |
| `Extraction.AccumulateConcat` | src/bravura_precip_damwater.py:25 | The running lists after a listing split in two are the lists after the first part, extended by the second part's contributions. |
| `Extraction.AccumulateSkipsIdleEntries` | src/bravura_precip_damwater.py:57-58 | Entries that append nothing can be dropped from the listing without changing the running lists. |
| `Extraction.OnlySurvivingFilesMatter` | src/bravura_precip_damwater.py:25-64 | The result depends only on the entries that append something; entries that append nothing are skipped. |
| `Extraction.IdleEntryChangesNothing` | src/ipma_pt2_plot.py:53-54 | Adding an entry that appends nothing leaves the result unchanged. Such an entry does not match, cannot be opened or read, or raises before its labels are appended. |
| `Extraction.WellFormedEntryIsWhole` | src/bravura_precip_damwater.py:51-55 | A well-formed file appends as many values as labels. |
| `Extraction.WellFormedAccumulate` | src/bravura_precip_damwater.py:54-55 | On well-formed files the two running lists have equal length, the total number of time steps. |
| `Extraction.StepCountConcat` | src/bravura_precip_damwater.py:25 | The step count of two listings together is the sum of their counts. |
| `Extraction.StepCountPermutation` | src/bravura_precip_damwater.py:25 | The step count does not depend on the order in which the entries are listed. |
| `Extraction.WellFormedDirectoryKeepsEveryStep` | src/bravura_precip_damwater.py:62-64 | On well-formed files every time step survives as a pair. The result is an error exactly when there are no steps. |
| `Extraction.FilePairs` | src/bravura_precip_damwater.py:54-55 | Each pair a file forms within itself is one of its own time steps: label and value of the same step. |
| `Extraction.ExtractAligned` | src/bravura_precip_damwater.py:54-64 | Corrected scan: the same error and sortedness as `Extract`, over pairs formed file by file. |
| `Extraction.AlignedPairsComeFromSteps` | src/bravura_precip_damwater.py:54-55 | In the corrected accumulation every pair is a time step of one of the visited files. |
| `Extraction.AlignedResultKeepsSteps` | src/bravura_precip_damwater.py:54-64 | Corrected result: every returned pair is one time step of one file of the directory. |
| `Extraction.OrphanLabelsShiftLaterValues` | src/bravura_precip_damwater.py:54-55 | As written: a file that appends a label but raises before its values shifts the next file's value onto that orphan label. The resulting pair is no time step of either file. |
| `Extraction.AlignedDropsOrphanLabels` | src/bravura_precip_damwater.py:54-55 | Corrected, same situation: the failing file contributes nothing, and the next file keeps its own label. |
| `Extraction.ShortGridChunk` | src/bravura_precip_damwater.py:51-55 | A file whose grid is smaller than its latitude axis appends its label and then raises before any value. |
| `Extraction.OneCellChunk` | src/bravura_precip_damwater.py:51-55 | A one-cell file for January 1951 appends one label and one value. |
| `Extraction.OrphanLabelsExample` | src/ipma_pt2_plot.py:50-51 | A concrete directory on which the scan as written reports 7.0 for 1950-01, and the corrected scan reports it for 1951-01. |
| `Extraction.ZipConcat` | src/bravura_precip_damwater.py:62 | Zipping lists extended by aligned blocks is zipping block by block. |
| `Extraction.AlignedAgreesOnWholeEntries` | src/bravura_precip_damwater.py:54-55 | When every file appends as many values as labels, the zipped running lists are the file-by-file pairs. |
| `Extraction.WellFormedDirectoryNeedsNoCorrection` | src/ipma_pt2_plot.py:58 | On well-formed directories the scan as written and the corrected scan give the same result. |
| `Labels.MonthLabel` | src/bravura_precip_damwater.py:51 | `strftime('%Y-%m')` gives a label whose year and month are the date's own. |
| `Labels.LabelOfCode` | src/bravura_precip_damwater.py:51 | A code is accepted exactly when it is a calendar date. Its label then keeps the year and month and drops the day (IPMA copy at src/ipma_pt2_plot.py:47). |
| `Labels.LabelsOfCodes` | src/ipma_pt2_plot.py:47 | The label list comprehension succeeds exactly when every code is a date, and then gives the labels in code order. |
| `Labels.ExampleCode` | src/bravura_precip_damwater.py:51 | Code 19510307 is labelled `"1951-03"`. |
| `Labels.YearTextOfLabel` | src/bravura_precip_damwater.py:96 | `label.split('-')[0]` is the label's four year digits, whose value is the label's year. |
| `Labels.LabelOrderIsChronological` | src/bravura_precip_damwater.py:62 | Sorting labels as strings sorts them by year, then by month. |
| `Text.LexLeTotal` | src/bravura_precip_damwater.py:62 | Any two strings are ordered one way or the other. |
| `Text.LexLeTransitive` | src/bravura_precip_damwater.py:62 | String order is transitive. |
| `Text.LexLeAntisymmetric` | src/bravura_precip_damwater.py:62 | Strings ordered both ways are equal. |
| `Text.DigitsOrder` | src/ipma_pt2_plot.py:188 | On digit strings of one length, string order is numeric order. |
| `Text.DigitsInjective` | src/ipma_pt2_plot.py:188 | Digit strings of one length with the same `int` value are equal. |
| `StableSort.SortBy` | src/bravura_precip_damwater.py:62 | `sorted` returns a permutation ordered by the key. Items with equal keys keep their input order. |
| `StableSort.SortByFixesSorted` | src/bravura_precip_damwater.py:25 | Sorting an already sorted sequence leaves it unchanged. |
| `StableSort.SortByCommutesWithFilter` | src/bravura_precip_damwater.py:25-26 | Filtering the sorted listing is sorting the filtered listing, so matched files are visited in name order. |
| `StableSort.SortByKeepsKeysDistinct` | src/bravura_precip_damwater.py:25 | Sorting items whose keys are pairwise distinct keeps them pairwise distinct. |
| `Extraction.ListingVisitedStrictlyAscending` | src/bravura_precip_damwater.py:25 | A directory's names are distinct, so `sorted(os.listdir(...))` visits its entries in strictly ascending name order. |
| `Extremes.ArgMin` | src/bravura_precip_damwater.py:194 | `idxmin`/`argmin` gives a position of a least value with no earlier one. |
| `Extremes.ArgMax` | src/bravura_precip_damwater.py:193 | `idxmax`/`argmax` gives a position of a greatest value with no earlier one. |
| `Yearly.YearColumn` | src/bravura_precip_damwater.py:187-189 | The `Year` column holds each pair's label year beside its value, row by row. |
| `Yearly.MinYear` | src/bravura_precip_damwater.py:190 | The earliest year of a non-empty series is one of its years and no year is earlier. |
| `Yearly.AscendingYears` | src/bravura_precip_damwater.py:190 | The group keys are the distinct years of the series, strictly ascending. |
| `Yearly.GroupByYearRows` | src/bravura_precip_damwater.py:190 | `groupby('Year').sum()`, modelled by `Yearly.GroupByYear`, has one row per distinct year, ascending. Each row's total is the sum of that year's values. |
| `Yearly.YearlyTotalsAddUp` | src/bravura_precip_damwater.py:190 | Every value is counted in exactly one year: the yearly totals add up to the series total. |
| `Yearly.ExtremeYears` | src/bravura_precip_damwater.py:193-194 | The marked years are the years of the first greatest and the first least total. An empty table is an error. |
| `Yearly.WettestRow` | src/bravura_precip_damwater.py:193 | On an ascending table, no row exceeds the wettest row and every earlier row falls short of it. |
| `Yearly.DriestRow` | src/bravura_precip_damwater.py:194 | On an ascending table, no row goes below the driest row and every earlier row exceeds it. |
| `Yearly.WettestYearOfSeries` | src/bravura_precip_damwater.py:185-193 | The wettest year is a year of the series and no year has a larger total. Every earlier year has a smaller total: the earliest year reaching the maximum. |
| `Yearly.DriestYearOfSeries` | src/bravura_precip_damwater.py:185-194 | The driest year is a year of the series and no year has a smaller total. Every earlier year has a larger total: the earliest year reaching the minimum. |
| `YearlyDict.YearTextOf` | src/ipma_pt2_plot.py:180 | `date.split('-')[0]` (`Text.BeforeDash`) of a label is a four-digit year text whose `int` is the label's year. |
| `YearlyDict.StartsWithYear` | src/ipma_pt2_plot.py:183 | A label starts with a year text exactly when the label belongs to that year. |
| `YearlyDict.StartsWithSumIsYearTotal` | src/ipma_pt2_plot.py:183-184 | The sum over labels starting with a year text (`YearlyDict.StartsWithSum`) is that year's total in the pandas grouping. |
| `YearlyDict.AccumulateRainPerYear` | src/ipma_pt2_plot.py:180-185 | The loop gives a dictionary keyed by exactly the year texts of the series, whatever order the set yields them in. Each year's value is the sum over labels starting with it, and the insertion order lists each key once. |
| `YearlyDict.Items` | src/ipma_pt2_plot.py:188 | `items()` lists each inserted key with its value, in insertion order. |
| `YearlyDict.InsertByYear` | src/ipma_pt2_plot.py:188 | One insertion step keeps every item and adds the new one. |
| `YearlyDict.InsertByYearSorted` | src/ipma_pt2_plot.py:188 | Inserting into a year-sorted list keeps it sorted. |
| `YearlyDict.SortByYear` | src/ipma_pt2_plot.py:188 | `sorted(..., key=lambda x: int(x[0]))` gives a permutation of the items in ascending integer year. |
| `YearlyDict.SortByYearDistinct` | src/ipma_pt2_plot.py:188 | Items with pairwise different years keep them after sorting. |
| `YearlyDict.AscendingUnique` | src/ipma_pt2_plot.py:188 | Two strictly ascending year lists with the same members are equal, so the sorted table does not depend on the set's order. |
| `YearlyDict.YearlyDataOnePerYear` | src/ipma_pt2_plot.py:188 | `yearly_data` has exactly one item per year of the series, strictly ascending by year, each with that year's sum. |
| `YearlyDict.DictTableIsGroupByYear` | src/ipma_pt2_plot.py:180-188 | The IPMA table, read as integer years, equals the Bravura pandas table, whatever order the years were visited in. |
| `YearlyDict.DictTotalsAddUp` | src/ipma_pt2_plot.py:180-185 | Every pair is counted in exactly one year: the dictionary's values add up to the whole series. |
| `YearlyDict.PickYearTexts` | src/ipma_pt2_plot.py:190-194 | The marked year texts are those of the first greatest and first least total. Unpacking an empty `yearly_data` is an error. |
| `YearlyDict.PlotYearlyPrecip` | src/ipma_pt2_plot.py:178-194 | An empty series fails. Otherwise the IPMA script marks the same wettest and driest years as the Bravura script's grouping (`Yearly.GroupByYear`, `Yearly.ExtremeYears`). Where pandas' timestamp range stops the Bravura script, see "## Left out". |
| `Monthly.Batches` | src/bravura_precip_damwater.py:149 | Batch `b` is pairs `12b` up to `12b+12`, or up to the end of the series. Only the last batch may be short. |
| `Monthly.FlattenBatches` | src/ipma_pt2_plot.py:145 | Putting the batches back together gives the series: nothing is dropped, repeated or reordered. |
| `Monthly.BatchSizes` | src/bravura_precip_damwater.py:149 | Every batch but the last has twelve pairs; the last has between one and twelve. |
| `Monthly.StackMonthlyBars` | src/bravura_precip_damwater.py:151-159 | One bar is drawn per pair, at its label's year, as high as its value. It stacks on the earlier values of its batch and takes the colour of its batch position. The loop raises exactly when the length is no multiple of twelve (IPMA copy at src/ipma_pt2_plot.py:147-155). |
| `Monthly.StackBatch` | src/bravura_precip_damwater.py:153-159 | One batch's inner loop: `bottom` starts at zero, and every bar drawn is the bar of its position in the series. The loop raises exactly when the batch is short; only the last batch can be, and the series length is then no multiple of twelve. |
| `Monthly.StackTopIsBatchTotal` | src/ipma_pt2_plot.py:147-155 | In a full batch the last bar tops out at the batch's total. |
| `Monthly.AlignedBarsHaveTheirMonthColour` | src/bravura_precip_damwater.py:157 | On a series that starts in January and skips no month, each bar gets its own month's colour. |
| `Monthly.FirstBarIsColouredJanuary` | src/ipma_pt2_plot.py:153 | The colour follows the batch position, not the label: a series starting in February gets January's colour first. |
| `Monthly.IndexOf` | src/bravura_precip_damwater.py:98 | `list.index` gives the first position holding the value. A missing value is a `ValueError`. |
| `Monthly.YearStartMarkers` | src/bravura_precip_damwater.py:96-99 | Each marker is the first index of its year's January label. The loop raises exactly when some year has no January label (IPMA copy at src/ipma_pt2_plot.py:92-95). |
| `Monthly.LabelOfYearAndMonth` | src/bravura_precip_damwater.py:98 | A label is determined by its year and month. |
| `Monthly.MarkerStartsTheYear` | src/ipma_pt2_plot.py:92-95 | On the label-sorted series, a year's marker is where the year begins: earlier labels are of earlier years, later ones are not. |

## Left out

- NetCDF I/O is not modelled: opening files, reading variables, `dataset.close`, `os.listdir` and `os.path.join`. The directory is its listing of names and optional contents.
- Masked-array values and NaN are not modelled. Values are plain `real` numbers.
- Sums, comparisons and tie rules are proved over exact real values, not floats. This covers the first-index tie rules of `NearestIndex`, `ArgMin` and `ArgMax`. It also covers `YearlyDict.PlotYearlyPrecip`'s agreement with the Bravura script. The IPMA script adds with Python's `sum()` and the Bravura script with pandas `groupby().sum()`. On near-ties the two float sums can round differently and mark different years.
- Printing the exception message of a skipped file is not modelled.
- Drawing is not modelled, apart from what decides it: bar positions, heights, bases and colours, and marker positions. Axes, ticks (including the `years` tick list), legends, grids, `savefig` and `show` are left out.
- `plot_monthly_precip_histogram`'s line plot and histogram, and the histogram of yearly totals, are not modelled. Only the January marker loop is.
- Floating-point statistics (mean, median, deviation, percentiles), `norm.fit`/`norm.pdf` and `np.histogram` are not modelled.
- `plot_waterlevel_yearly` and `plot_combined_waterlevel_and_precip` are not modelled. They read a fixed CSV path and do pandas date arithmetic.
- `argparse` and `main` are not modelled.
- `Labels.LabelOfCode` covers eight-digit codes only, years 1000 to 9999. `strptime`'s leniency for shorter digit strings is left out.
- `Yearly.YearColumn` models the effect of pandas' `to_datetime(...).dt.year` on labels the scan produced, for every year from 1000 to 9999. Pandas before 3.0 holds these dates as nanosecond timestamps and raises `OutOfBoundsDatetime` for labels outside 1677-10 to 2262-04. The model leaves that error out and covers the Bravura yearly plot only on series whose labels lie in that range. Parsing arbitrary strings is also left out.
- `YearlyDict.PlotYearlyPrecip`: its agreement with the Bravura script holds only where the Bravura script does not raise, that is on series whose labels lie within 1677-10 to 2262-04. Outside that range the IPMA dictionary loop still plots, while the Bravura script raises at `to_datetime`.
- The dictionary `accumulated_rain_per_year` is a map plus its insertion order. The IPMA loop's set iteration, and the marker loop's, is an arbitrary choice, and the proved results hold for every order.
- `read_inputs` returns three values in the source. The model returns the sorted pairs; the two unzipped lists are the labels and the values of those pairs.

## Findings

| source | as written | input that shows it | evidently intended | confidence | as-written member | corrected member |
|---|---|---|---|---|---|---|
| src/bravura_precip_damwater.py:54-55 | The labels are extended before the cell values are read. When the read raises (cell outside the grid), the labels stay without values, and `zip` pairs later files' values with them. | A file `A` with code 19500115 whose grid is smaller than its latitude axis, followed by a one-cell file `B` with 7.0 for 19510115, target latitude 1. The result is `[("1950-01", 7.0)]`. The same lines are at src/ipma_pt2_plot.py:50-51. | A file that raises contributes nothing, so every returned pair is one time step of one file: `[("1951-01", 7.0)]`. | medium, not executed | `Extraction.OrphanLabelsShiftLaterValues`, `Extraction.OrphanLabelsExample` | `Extraction.ExtractAligned`, `Extraction.AlignedResultKeepsSteps` |
