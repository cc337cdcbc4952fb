# Replicate outlier removal: `duplicate_analysis`

This project models `duplicate_analysis` from `spec.py` in Dafny.

The function takes one sheet of measurements: rows of a metabolite name and a
peak `Area`. A metabolite measured several times (its replicates) has several
rows. The function does the following:

1. It sorts the rows by name.
2. It gives each row the z-score of its `Area` within its name's group. The
   z-score uses the sample standard deviation, with divisor N − 1.
3. It replaces undefined z-scores with 0.
4. It drops every row whose z-score is 1.25 or more in absolute value.
5. It returns one row per name: the mean `Area` of the rows that remain, and
   their count `n`.

The model is pure. Every step is a function over sequences, and the
properties are lemmas about those functions.

- `StringOrder.dfy`: the ordering of Python `str`, which `sort_values` and
  `groupby` use on the name column.
- `Statistics.dfy`: sum, mean, sum of squared deviations, the N − 1 sample
  variance, and minimum and maximum. It also proves that the mean lies
  between the minimum and maximum, and that these statistics do not depend
  on the order of the values.
- `Duplicates.dfy`: the rows, the sort, the per-name groups, the z-score,
  the filter, the aggregation and `DuplicateAnalysis` itself.
  `AnalysisCharacterization` states what its result is.
- `DuplicateProperties.dfy`: the guarantees of the function, proved about
  the model.

Arithmetic is exact (`real`). Dafny has no square root, so the model never
computes the standard deviation itself. It carries the squared z-score
`(x − mean)² / var`, with `var` the N − 1 sample variance (line 54). Line
57's `fillna(0)` applies exactly when the z-score is NaN, and there are two
such cases:

- a one-row group, whose N − 1 standard deviation is NaN;
- a constant group, where the z-score is 0/0.

In both cases `ZSquared` is 0.

Line 59's test `abs(z) < 1.25` then becomes `z² < 25/16`. So a row is kept
iff one of these holds:

- its group has fewer than two rows;
- its group's variance is 0;
- `16 (x − mean)² < 25 var`.

`KeptIffSquaredForm` states this form. `KeptIffWithinThreshold` states the
original test `|x − mean| < 1.25 sd` for any positive `sd` with
`sd² = var`.

Three details of `spec.py` shape the model:

- **Sort stability.** `sort_values` at line 51 uses pandas' default sort
  algorithm, which is not stable. The model sorts stably instead.
  `PermutationInvariant` shows that the result does not depend on the order
  of the rows, so the choice cannot change the output.
- **One-row groups.** A group with one row has a NaN standard deviation, so
  its z-score is NaN, and line 57 replaces it with 0. The row is therefore
  kept.
- **No standard-deviation column.** The frame returned at line 66 has only
  the name, `Area` and `n` columns. It carries no pre-filter standard
  deviation.

## Model

| member | source | states |
|---|---|---|
| StringOrder.LessIffFirstDifference | spec.py:51 | The name order is Python's string order: a proper prefix comes first, and otherwise the first differing character decides. |
| StringOrder.Less | spec.py:51 | Python's `str <` on names, defined character by character. Its contract is given by `LessIffFirstDifference`, which proves it equal to the prefix-or-first-difference order. |
| StringOrder.NotLessIsLessEq | spec.py:51 | The name order is total: if `a < b` does not hold, then `b <= a` holds. |
| StringOrder.AscendingUnique | spec.py:61-64 | Two strictly ascending key sequences with the same set of names are equal. So sorted `groupby` keys are determined by the set of names alone. |
| Statistics.Mean | spec.py:54 | The mean times the number of values equals their sum. |
| Statistics.SampleVar | spec.py:54 | The variance is non-negative, and times N − 1 it equals the sum of squared deviations from the mean (the divisor of `Series.std()`). |
| Statistics.MeanBounds | spec.py:63 | The mean lies between the minimum and the maximum of the values. |
| Statistics.MeanVarPermutation | spec.py:53-55 | Mean and sample variance depend only on the multiset of values, not their order. |
| Statistics.ConstantVariance | spec.py:54-57 | Values that are all equal have variance 0. This is the 0/0 case that `fillna` turns into z = 0. |
| Duplicates.Group | spec.py:53 | A name's group is no longer than the table, and is non-empty iff the name occurs in the table. |
| Duplicates.SortByName | spec.py:51 | The sorted table is in ascending name order and is a permutation of the input. Every name's group keeps its values in input order. |
| Duplicates.ZSquared | spec.py:53-57 | The square of line 54's z-score `(x - mean) / std`, with 0 where line 57 fills a NaN: a group of fewer than two values or a group with variance 0. Its own contract states only that it is non-negative. Its meaning is stated by `KeptIffSquaredForm` and `KeptIffWithinThreshold`. |
| Duplicates.Kept | spec.py:53-59 | The row mask of line 59, `abs(z) < 1.25`, written as z² < 25/16. Its contract is given by `KeptIffSquaredForm` and `KeptIffWithinThreshold`: kept iff strictly within 1.25 standard deviations of the group mean, or the z-score is undefined. |
| Duplicates.KeptDeviation | spec.py:53-59 | When the variance is defined and non-zero, a row is kept iff its squared deviation is below 25/16 of the variance. |
| Duplicates.KeptAmong | spec.py:59 | A value occurs among the filtered values iff it occurs in the input and passes `abs(z) < 1.25`. There are never more filtered values than inputs, and if every value passes, nothing is removed. |
| Duplicates.KeptAmongMultiplicity | spec.py:59-63 | Each value that passes is kept exactly as many times as it occurs in the input, and a value that fails is not kept at all. So `n` counts the rows whose absolute z-score is below 1.25. |
| Duplicates.KeptAmongSubsequence | spec.py:59 | The boolean mask keeps the passing values in their input order: the result is a subsequence of the input. |
| Duplicates.KeepRows | spec.py:53-59 | The rows kept by the mask are exactly the rows that pass against their own name's group. Each name's kept values are the filtered values of that name's group. |
| Duplicates.AtLeastOneKept | spec.py:53-63 | Every non-empty group keeps at least one row: the squared z-scores of k values sum to k − 1, so they cannot all reach 25/16. |
| Duplicates.Summarize | spec.py:61-63 | A name's summary carries the name, a count between 1 and the group size, and a mean between the group's minimum and maximum. |
| Duplicates.GroupKeys | spec.py:61-64 | The `groupby` keys are strictly ascending and are exactly the names of the kept rows. |
| Duplicates.DuplicateAnalysis | spec.py:37-66 | `duplicate_analysis` itself: the sort, the per-row z-score with `fillna(0)`, the mask and the `groupby(...).agg(...)`. Its contract is given by `AnalysisCharacterization`, which proves that the result satisfies `IsAnalysisOf`. |
| Duplicates.AnalysisCharacterization | spec.py:49-66 | The result has one row per input name, in strictly ascending name order. Each row is its name's summary: the mean and count of the rows of that name that pass the filter. |
| Duplicates.LookupAnalysis | spec.py:61-65 | In any result of that shape, the row for a name is its summary, and a name absent from the input has no row. |
| Duplicates.OutputForName | spec.py:37-66 | The output row for a name is the summary of that name's group. A name absent from the input has no output row. |
| DuplicateProperties.KeptIffSquaredForm | spec.py:53-59 | A row is kept iff its group has fewer than 2 rows, or its variance is 0, or 16 (x − mean)² < 25 var. |
| DuplicateProperties.KeptIffWithinThreshold | spec.py:54-59 | If the standard deviation is positive, a row is kept iff it lies strictly within 1.25 standard deviations of its group mean. A row at exactly 1.25 is dropped. |
| DuplicateProperties.SummarizeSingleton | spec.py:53-63 | A one-value group is summarized as that value with `n = 1`. |
| DuplicateProperties.SingleRowName | spec.py:53-65 | A name that occurs once in the table gets `n = 1` and its own `Area`. |
| DuplicateProperties.ConstantName | spec.py:54-65 | A name whose rows all have the same `Area` keeps every row: `n` is the group size and `Area` is the common value. |
| DuplicateProperties.OutputBounds | spec.py:59-65 | A name has an output row iff it occurs in the input. In that row, `n` counts the kept rows, with 1 <= n <= the group size. `Area` is the mean of the kept values, between their minimum and maximum and between those of the whole group. |
| DuplicateProperties.NamesPreserved | spec.py:53-65 | No name is invented and none is lost. The output names are strictly ascending and are exactly the input names, one row each, every `n >= 1`. |
| DuplicateProperties.SummarizePermutation | spec.py:53-63 | A summary depends only on the multiset of its group's values. |
| DuplicateProperties.SameGroupSameRow | spec.py:51-63 | A name's output row depends only on the multiset of that name's values. Rows of other names and the order of the rows do not affect it. |
| DuplicateProperties.OtherNamesIrrelevant | spec.py:51-63 | Adding rows of other names, before or after the table, leaves a name's output row unchanged. |
| DuplicateProperties.AnalysisOfPermutation | spec.py:51-65 | Two tables with the same multiset of rows have the same result. This holds for any result of the shape `AnalysisCharacterization` states. |
| DuplicateProperties.PermutationInvariant | spec.py:51-65 | Reordering the rows of the table does not change the output at all. |
| DuplicateProperties.ResubmitGroup | spec.py:61-65 | An output, read back as a table, gives each of its names a group of exactly one value: that name's `Area`. |
| DuplicateProperties.AnalysisOfResubmit | spec.py:37-66 | Analysing an output again gives the same names and means, each with `n = 1`. |
| DuplicateProperties.ReanalysisKeepsAreas | spec.py:37-66 | Running `duplicate_analysis` on its own output (name and `Area` columns) keeps every name and mean, each with `n = 1`. |
| DuplicateProperties.OutlierExampleStatistics | spec.py:54 | The values 10, 10, 10, 100 have mean 32.5 and sample variance 2025 (standard deviation 45). |
| DuplicateProperties.OutlierExampleScores | spec.py:53-57 | In that group, each 10 has squared z-score 0.25 (z = −0.5) and 100 has 2.25 (z = 1.5). |
| DuplicateProperties.OutlierExampleGroup | spec.py:59-63 | That group is summarized as `Area` 10 over `n = 3` rows: the 100 is dropped. |
| DuplicateProperties.OutlierExample | spec.py:37-66 | For a sheet with rows `a` = 10, 10, 10, 100, the output row for `a` is `Area` 10, `n` 3. |

## Left out

- `data_cleaning` (spec.py:5-34) and the `__main__` block (spec.py:69-71): file globbing, reading and writing Excel workbooks, and hard-coded paths. This is I/O only.
- IEEE floating point: rounding, infinities, and NaN values inside the `Area` column. The model computes over exact reals. The only NaNs modelled are the two undefined z-scores that line 57 replaces, described above.
- A blank `Metabolite Name` cell: pandas reads it as NaN, and the `groupby` of lines 61-63 drops such rows from the output without notice. The model's `Row.name` is always a string, so it cannot represent this case.
- pandas index alignment when the `groupby(...).apply(...)` result is assigned back to a column (line 53). Its behaviour varies between pandas versions. The model gives each row the z-score of its own value within its own group, which is the intended per-row transform.
- The order of rows with equal names after `sort_values`, which is not a stable sort by default. The model sorts stably. The output does not depend on this order (`DuplicateProperties.PermutationInvariant`).
- Pairing of positive and negative sheets, the pre-filter standard deviation column, and the per-analyte z-score list. They are not part of `spec.py`.
- The `KeyError` pandas raises when the `Metabolite Name` or `Area` column is missing. The model's row type always has both columns.
- The caller's data frame: `duplicate_analysis` assigns new columns only to the sorted copy, so the input is not changed. Because the model is pure, it has no such side effect to state.
