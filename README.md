# InterOp QC metrics flattening, modelled in Dafny

`run_qc_yaml_interop_production.py` turns the Illumina InterOp summaries of a
sequencing run into six flat tables (lane level, cross-read level, read
level, read yield, sample level, run level) that are then written as YAML.
This project models the core of that program:

- the column schema (`get_columns_name`) that pairs every output label with
  the provider accessor it reads;
- the three walkers that flatten provider objects into pandas frames:
  the run summary (one row per read and lane, distributions reduced to
  their mean, NaN filled with 0), the sample index summary (one row per
  lane and sample, `index1-index2` joined into `index`, `lane` added) and
  the per-read scalars (one row per read, keyed by the 1-based read number);
- `get_interop_info` from the summaries on, including the cross-read
  groupby on `read_number`;
- the unit layer (`get_metrics`, `calc`, `convert_unit_value`, `add_unit`);
- the six table derivations of `parse_interop_info`.

Frames are modelled column-major as pandas holds them:
`Frames.Table(columns, data, height)` with distinct column names, one series
of `height` cells per column, and `Frames.Indexed(name, keys, body)` for a
frame whose row index matters (a groupby result, the per-read scalars).
A cell is a float (finite, NaN or an infinity), a string, a boolean or a
unit record `{value, units}`. Errors that pandas or the script raise are
`Results.Result` values with an `Err` case per exception kind: a missing
column, an unsupported operator, a division by zero, a type error in
`calc`, a non-string index part, the `index` assignment on a lane without
samples, a length mismatch and a frame built from scalars alone. Each walker is a method with the source's loops, proved equal
to a declarative function; the properties are lemmas about those functions.

## Model

| member | source | states |
|---|---|---|
| Schema.GetColumnsName | run_qc_yaml_interop_production.py:8-27 | the run-summary set is base + lane + read + read-yield + cross-read in that order; base is `lane` alone; the sample set holds `index1` and `index2` |
| Schema.SummaryLabels | run_qc_yaml_interop_production.py:13-22 | the run-summary labels are the eleven labels in declaration order |
| Schema.SummaryLabelsDistinct | run_qc_yaml_interop_production.py:13-22 | the run-summary labels are pairwise distinct and do not include `read_number`, which the walker adds |
| Schema.IdxLabelsDistinct | run_qc_yaml_interop_production.py:24 | the sample labels are distinct and include neither `index` nor `lane`, the columns the index walker adds |
| Schema.SummaryReadLabelsDistinct | run_qc_yaml_interop_production.py:26 | the per-read labels are distinct |
| Schema.LaneSelectionLabels | run_qc_yaml_interop_production.py:13-17 | the lane-level selection is `lane` and the six lane metrics, each once |
| Schema.LaneLabels | run_qc_yaml_interop_production.py:15-17 | the lane metrics are the six labels, distinct, holding both densities and neither `lane` nor `undetermined_indices` |
| Schema.SelectionLabels | run_qc_yaml_interop_production.py:13-19 | the cross-read labels are phasing and pre-phasing; the read and read-yield selections are `lane` with `reads_aligned`, and `lane` with `yield` |
| Schema.LastFieldAt | run_qc_yaml_interop_production.py:21 | a label declared once is read through its own accessor |
| Cells.FormatValue | run_qc_yaml_interop_production.py:28-38 | a value with a mean is reduced to its mean; any other value is returned unchanged |
| Cells.FillNa | run_qc_yaml_interop_production.py:57 | `fillna(0)` on a cell: NaN becomes 0, every other cell is kept, and no NaN remains |
| Cells.FillNaAll | run_qc_yaml_interop_production.py:57 | `fillna(0)` on a series, cell by cell |
| Cells.Divide | run_qc_yaml_interop_production.py:182 | series division: the exact quotient for a non-zero divisor; for a zero divisor NaN for 0/0 and an infinity of the dividend's sign otherwise |
| Results.Collect | run_qc_yaml_interop_production.py:69-78 | a sequence of steps succeeds exactly when every step does, with every step's value in order |
| Results.CollectFirstErr | run_qc_yaml_interop_production.py:69-78 | the first failing step's error is the error of the whole loop |
| Results.CollectErr | run_qc_yaml_interop_production.py:69-78 | a failing loop has a first failing step, all steps before it succeed, and its error is the loop's |
| Seqs.Dedup | run_qc_yaml_interop_production.py:54 | the keys of a dict built from a list: each element once, in order of first occurrence, with the same members; the identity on a list without repeats |
| Seqs.Upsert | run_qc_yaml_interop_production.py:86 | `dict.update` with one key: an existing key keeps its place and takes the new value, a new key is appended, other values are unchanged |
| Frames.FromDict | run_qc_yaml_interop_production.py:54 | `DataFrame.from_dict(dict(d))`: columns are the distinct labels in first-occurrence order, and each holds the series of its last occurrence |
| Frames.FromDictAt | run_qc_yaml_interop_production.py:54 | a label that is not repeated later holds its own series |
| Frames.SetColumn | run_qc_yaml_interop_production.py:55 | `df[name] = values`: the column is replaced in place or appended at the end; every other column is unchanged |
| Frames.Column | run_qc_yaml_interop_production.py:181 | `df[name]` succeeds exactly when the column exists, and otherwise raises a missing-column error naming it |
| Frames.Select | run_qc_yaml_interop_production.py:199 | `df[names]` succeeds exactly when every name exists; the result keeps every row and copies each selected column; a missing name is reported |
| Frames.SelectPair | run_qc_yaml_interop_production.py:75 | `df[[a, b]]` reports `a` first when both are missing |
| Frames.Drop | run_qc_yaml_interop_production.py:77 | `drop(names, axis=1)` succeeds exactly when every name exists, removes exactly those columns and copies the rest |
| Frames.Accumulate | run_qc_yaml_interop_production.py:56 | the `append if len > 0 else df` step: a valid frame with the new frame's columns and the two heights added (its rows: Frames.AccumulateStack) |
| Frames.Append | run_qc_yaml_interop_production.py:56 | `append(df, ignore_index=True)` on equal columns: each column is the first frame's cells followed by the second's |
| Frames.AccumulateStack | run_qc_yaml_interop_production.py:56 | the `append if len > 0 else df` step extends the stack of the frames so far by the next frame, whether or not the stack is empty |
| Frames.AppendStack | run_qc_yaml_interop_production.py:56 | appending to a non-empty stack stacks one more frame |
| Frames.FirstStack | run_qc_yaml_interop_production.py:56 | on an empty stack the step keeps the new frame itself |
| Frames.Stack | run_qc_yaml_interop_production.py:56 | the stacked frame has the frames' columns and their total height, each column being the frames' columns one after the other |
| Frames.StackedAt | run_qc_yaml_interop_production.py:56 | row `l` of frame `i` sits at the heights of the frames before it plus `l` |
| Frames.FillStackAt | run_qc_yaml_interop_production.py:56-57 | that row of the zero-filled stack is the zero-filled cell of frame `i` |
| Frames.StackResults | run_qc_yaml_interop_production.py:69-79 | the zero-filled stack of the step frames, a valid frame, or the first step's error (Frames.StackResultsCollect gives the iff) |
| Frames.StackResultsCollect | run_qc_yaml_interop_production.py:69-79 | the loop that builds a frame per step and stacks them succeeds exactly when every step succeeds, fails with the first error, and then yields the zero-filled stack |
| Frames.StackedPrefixStep | run_qc_yaml_interop_production.py:69-78 | a failing step decides the loop's error; a succeeding one extends the prefix invariant by one frame |
| Frames.StackedPrefixEnd | run_qc_yaml_interop_production.py:79 | at the end of the loop the result is the zero-filled stack |
| Frames.FillNaTable | run_qc_yaml_interop_production.py:57 | `df.fillna(0)`: same columns and height, every column zero-filled |
| Frames.Aggregate | run_qc_yaml_interop_production.py:123 | a sum adds up the group's values; a mean over a non-empty group is that sum over the group's size |
| Frames.PickNonEmpty | run_qc_yaml_interop_production.py:179 | a key that occurs has at least one row in its group |
| Frames.GroupBy | run_qc_yaml_interop_production.py:181 | `groupby(key).sum()`: succeeds exactly when the key exists; one row per distinct key in order of first appearance; the other columns aggregated over the rows of each key |
| Frames.SelectGroupBy | run_qc_yaml_interop_production.py:123 | `df[names].groupby(key).mean()`: succeeds exactly when the key is selected and every name exists; each cell is the aggregate of that column over the key's rows |
| Frames.Matches | run_qc_yaml_interop_production.py:189 | the positions of a key among the right index: exactly the positions holding it |
| Frames.JoinPairs | run_qc_yaml_interop_production.py:189 | every pair of the inner join has equal left and right keys |
| Frames.JoinPairsComplete | run_qc_yaml_interop_production.py:189 | every pair of rows with equal keys is in the inner join |
| Frames.Merge | run_qc_yaml_interop_production.py:189 | `merge(left_index=True, right_index=True)`: one row per matching pair, keyed by their common key and carrying the left row's and the right row's cells |
| Frames.RowsFrame | run_qc_yaml_interop_production.py:87-88 | `from_dict(orient='index')` then setting the labels: succeeds exactly when the label count equals the row width (any count on an empty dict being the mismatch case of zero columns), keyed by the dict keys, row `i` of column `j` holding entry `j` of row `i` |
| Frames.Align | run_qc_yaml_interop_production.py:181 | assignment of a series by index: each row takes the value at its key in the series, NaN for a key the series lacks |
| Frames.IndexToColumn | run_qc_yaml_interop_production.py:180 | `df[df.index.name] = df.index`: the index is copied into a column of its name |
| Frames.Unindex | run_qc_yaml_interop_production.py:180 | the grouped frame with its index restored as a column |
| Walkers.LaneSeries | run_qc_yaml_interop_production.py:53 | the series of one accessor over the read's lanes, each value reduced by `format_value` |
| Walkers.LaneDict | run_qc_yaml_interop_production.py:51-53 | the list of label/series pairs, one per declared column, in order |
| Walkers.ReadFrame | run_qc_yaml_interop_production.py:50-55 | read `n`'s frame has the labels then `read_number`, one row per lane |
| Walkers.ReadFrameAt | run_qc_yaml_interop_production.py:53 | lane `l`'s cell of a declared label is the reduced value of its accessor |
| Walkers.ReadFrameNumber | run_qc_yaml_interop_production.py:55 | every row of read `n`'s frame has `read_number` n + 1 |
| Walkers.FromDictReadFrame | run_qc_yaml_interop_production.py:54-55 | building the frame from the dict and adding `read_number` gives read `n`'s frame |
| Walkers.BuildReadFrame | run_qc_yaml_interop_production.py:50-55 | the inner loop builds read `n`'s frame |
| Walkers.SavStep | run_qc_yaml_interop_production.py:56 | one outer step stacks read `n`'s frame under those of the reads before |
| Walkers.SavSummary | run_qc_yaml_interop_production.py:40-57 | the value `parse_sav_summary` returns is a valid frame (its columns, height and cells: Walkers.SavSummaryShape and Walkers.SavSummaryCell) |
| Walkers.ParseSavSummary | run_qc_yaml_interop_production.py:40-57 | `parse_sav_summary` returns the zero-filled stack of the reads' frames |
| Walkers.SavSummaryShape | run_qc_yaml_interop_production.py:40-57 | a run with a read has the labels then `read_number` as columns, and reads × lanes rows |
| Walkers.SavSummaryCell | run_qc_yaml_interop_production.py:48-57 | row `n * lanes + l` holds lane `l` of read `n`: the zero-filled, mean-reduced value of each accessor |
| Walkers.SavSummaryReadNumber | run_qc_yaml_interop_production.py:55 | that row's `read_number` is n + 1 |
| Walkers.SavSummaryAt | run_qc_yaml_interop_production.py:56-57 | that row of any column is the zero-filled cell of read `n`'s frame |
| Walkers.ReadRow | run_qc_yaml_interop_production.py:85 | read `n`'s list of values: one per declared accessor, in order |
| Walkers.ReadDict | run_qc_yaml_interop_production.py:83-86 | after `m` reads the dict maps key n + 1 to read `n`'s values, in read order |
| Walkers.ReadDictStep | run_qc_yaml_interop_production.py:85-86 | one `update` extends the dict by the next read |
| Walkers.SummaryRead | run_qc_yaml_interop_production.py:81-89 | the value `parse_summary_read_df` returns is a valid indexed frame or an error (when it fails and its cells: Walkers.SummaryReadRows) |
| Walkers.SummaryReadFrame | run_qc_yaml_interop_production.py:87-89 | the result is the zero-filled frame of the finished dict, or its construction's error |
| Walkers.ParseSummaryReadDf | run_qc_yaml_interop_production.py:81-89 | `parse_summary_read_df` returns that frame |
| Walkers.SummaryReadRows | run_qc_yaml_interop_production.py:81-89 | it succeeds exactly when the run has a read or no column is declared, and otherwise raises a length mismatch; its columns are the labels, its index the 1-based read numbers, and its cells the zero-filled accessor values |
| Walkers.SummaryReadSchema | run_qc_yaml_interop_production.py:81-89 | with the fixed labels, it succeeds exactly when the run has a read; the columns are `is_index` and `number_of_cycles`, one row per read |
| Walkers.ReadColumn | run_qc_yaml_interop_production.py:85-89 | a label's column holds, per read, the zero-filled value of its last accessor |
| Walkers.RowsColumn | run_qc_yaml_interop_production.py:87-89 | the frame built from the dict has that column |
| IndexWalker.SampleSeries | run_qc_yaml_interop_production.py:73 | the series of one accessor over a lane's samples |
| IndexWalker.SampleDict | run_qc_yaml_interop_production.py:71-73 | the list of label/series pairs, one per declared column |
| IndexWalker.SampleDictLast | run_qc_yaml_interop_production.py:74 | a label's series is that of its last accessor |
| IndexWalker.DictFrame | run_qc_yaml_interop_production.py:74 | the lane's frame has the distinct labels and each label's series |
| IndexWalker.JoinIndex | run_qc_yaml_interop_production.py:75 | `"-".join([a, b])` succeeds exactly when both parts are strings, giving `a-b`; otherwise it raises |
| IndexWalker.JoinAll | run_qc_yaml_interop_production.py:75 | the row-wise join succeeds exactly when every row's two parts are strings, and then joins each row |
| IndexWalker.IndexColumn | run_qc_yaml_interop_production.py:75 | the value assigned to `index`: on no rows the assignment raises; otherwise it succeeds exactly when every row's parts are strings, with the joined rows |
| IndexWalker.JoinKeys | run_qc_yaml_interop_production.py:75 | on the lane's samples the `index` column is the empty-lane error for a lane without samples, else the `index1-index2` keys, or the non-string error |
| IndexWalker.LaneColumnsOf | run_qc_yaml_interop_production.py:74-77 | a lane frame's columns: the labels, `index` and `lane`, each once, without `index1` and `index2` |
| IndexWalker.AddedColumns | run_qc_yaml_interop_production.py:75-76 | adding `index` then `lane` to the labels appends them when absent |
| IndexWalker.LaneTableSteps | run_qc_yaml_interop_production.py:74-77 | the frame, the `index` and `lane` columns and the drop give the lane's table |
| IndexWalker.LaneFrame | run_qc_yaml_interop_production.py:70-77 | a built lane frame is valid, has the lane columns and one row per sample |
| IndexWalker.LaneFrameOk | run_qc_yaml_interop_production.py:70-77 | a lane's frame exists exactly when `index1` and `index2` are declared, the lane has a sample, and every sample's two parts are strings |
| IndexWalker.LaneFrameCells | run_qc_yaml_interop_production.py:73-77 | sample `i`'s row holds lane n + 1, the joined index and every other label's accessor value |
| IndexWalker.BuildLaneFrame | run_qc_yaml_interop_production.py:70-77 | the loop body builds lane `n`'s frame |
| IndexWalker.FrameOfLane | run_qc_yaml_interop_production.py:74-77 | from the lane's dict, the frame, `index`, `lane` and the drop give lane `n`'s frame |
| IndexWalker.LaneResults | run_qc_yaml_interop_production.py:69-77 | one lane-frame step per lane, in lane order |
| IndexWalker.LaneResultsUniform | run_qc_yaml_interop_production.py:69-77 | every lane frame that exists has the same columns |
| IndexWalker.IndexSummary | run_qc_yaml_interop_production.py:59-79 | the value `parse_index_summary` returns is a valid frame or an error (when it fails and its rows: IndexWalker.IndexSummaryOk and IndexWalker.IndexRowAt) |
| IndexWalker.ParseIndexSummary | run_qc_yaml_interop_production.py:59-79 | `parse_index_summary` returns the zero-filled stack of the lanes' frames, or the first lane's error |
| IndexWalker.IndexFrames | run_qc_yaml_interop_production.py:69-79 | a successful walk is the zero-filled stack of one frame per lane, each as high as the lane has samples |
| IndexWalker.IndexFrameAt | run_qc_yaml_interop_production.py:70-77 | frame `n` of that stack is lane `n`'s frame |
| IndexWalker.IndexSummaryOk | run_qc_yaml_interop_production.py:59-79 | the walk succeeds exactly when there is no lane, or `index1` and `index2` are declared, every lane has a sample and every sample's parts are strings |
| IndexWalker.IndexSummaryEmptyLane | run_qc_yaml_interop_production.py:75 | with both index columns declared, the first lane without samples fails the walk with the empty-lane error |
| IndexWalker.IndexSummaryMissing | run_qc_yaml_interop_production.py:75 | with a lane, a missing `index1` is reported first, then a missing `index2` |
| IndexWalker.IndexSummaryShape | run_qc_yaml_interop_production.py:59-79 | with a lane, the columns are the lane frame's and the height is the number of samples over all lanes |
| IndexWalker.IndexPrefixHeight | run_qc_yaml_interop_production.py:78 | the frames of the first `n` lanes hold the samples of those lanes |
| IndexWalker.IndexSummaryAt | run_qc_yaml_interop_production.py:78-79 | sample `i` of lane `n` sits after the samples of the lanes before, zero-filled |
| IndexWalker.IndexRowAt | run_qc_yaml_interop_production.py:69-79 | that row holds lane n + 1, the joined index and each other label's zero-filled accessor value, and neither `index1` nor `index2` |
| Units.GetMetrics | run_qc_yaml_interop_production.py:129-142 | every conversion uses one of the four operators, no division is by zero, and every converted column has a unit |
| Units.ConvertedColumns | run_qc_yaml_interop_production.py:133-141 | the five conversions and their units: densities in thousands, read counts in millions, aligned and density-PF times a hundred; yield in Gbp unconverted |
| Units.PercentColumns | run_qc_yaml_interop_production.py:133-135 | the percent columns that are not converted |
| Units.UnitlessColumns | run_qc_yaml_interop_production.py:133-141 | `lane`, `read_number`, `sample_name` and `index` have neither unit nor conversion |
| Units.Arith | run_qc_yaml_interop_production.py:152-157 | float arithmetic fails only on a division by zero, and is exact on finite values |
| Units.ShowFloat | run_qc_yaml_interop_production.py:158 | `str` of a float: the text `show` of a finite value, `nan`, `inf` or `-inf` |
| Units.Str | run_qc_yaml_interop_production.py:147 | `str` of a cell: a float's text, a string itself, `True`/`False`, a unit record as a dict display |
| Units.RepeatStr | run_qc_yaml_interop_production.py:155 | a string times `v`: empty for `v <= 0`, otherwise `v` times as long, starting with the string and repeating it with its length as period |
| Units.Digits | run_qc_yaml_interop_production.py:158 | the decimal digits of a natural number: digits only, no leading zero |
| Units.DigitsRoundTrip | run_qc_yaml_interop_production.py:158 | reading the digits back gives the number |
| Units.IntStr | run_qc_yaml_interop_production.py:158 | `str` of an int: a leading `-` exactly for a negative number, then digits without a leading zero |
| Units.IntStrRoundTrip | run_qc_yaml_interop_production.py:158 | reading `str(n)` back gives `n` |
| Units.Calc | run_qc_yaml_interop_production.py:150-160 | `calc` succeeds only on one of the four operators and an operand other than a unit record, a string only under `*`; a string gives its repetition, a boolean under `+`, `-`, `*` the text of the int result |
| Units.CalcFails | run_qc_yaml_interop_production.py:150-160 | `calc` fails exactly on an unknown operator, an operand it cannot combine with an int, or a division by zero, each with its own error |
| Units.CalcFinite | run_qc_yaml_interop_production.py:150-158 | on a finite number `calc` gives the text of the exact result |
| Units.CalcFiniteCell | run_qc_yaml_interop_production.py:150-158 | the same for any cell holding a finite float |
| Units.CalcFlag | run_qc_yaml_interop_production.py:150-158 | a boolean counts as the int 0 or 1: `+`, `-`, `*` give the text of the int result, `/` the text of the float quotient |
| Units.ConvertColumn | run_qc_yaml_interop_production.py:162-171 | a column without a conversion is kept; a converted one succeeds exactly when `calc` succeeds on every cell, each becoming its text |
| Units.ConvertColumnFirstErr | run_qc_yaml_interop_production.py:169 | the first cell `calc` rejects decides the error |
| Units.AddUnit | run_qc_yaml_interop_production.py:144-149 | a column with a unit has every cell replaced by its text and the unit; any other column is kept |
| Units.ConvertTable | run_qc_yaml_interop_production.py:183 | the column-wise conversion succeeds exactly when every column's does, keeps columns and height, and holds each converted column |
| Units.ConvertTableOk | run_qc_yaml_interop_production.py:183 | success exactly when every column converts |
| Units.ConvertTableFirstErr | run_qc_yaml_interop_production.py:183 | a failure is the first failing column's error |
| Units.AnnotateTable | run_qc_yaml_interop_production.py:184 | the column-wise annotation keeps columns and height and annotates each column |
| Units.WithUnits | run_qc_yaml_interop_production.py:183-184 | conversion then annotation succeeds exactly when the conversion does, keeping columns and height |
| Units.NumbersConvert | run_qc_yaml_interop_production.py:162-171 | a converted column of numbers always converts |
| Units.NumbersGetUnits | run_qc_yaml_interop_production.py:183-184 | a frame whose converted columns hold numbers always gets its units |
| Units.WithUnitsCell | run_qc_yaml_interop_production.py:144-171 | each cell after the unit layer: kept without a unit, tagged text with a unit, the tagged `calc` text when converted |
| Units.WithUnitsConverted | run_qc_yaml_interop_production.py:150-171 | a converted finite number becomes the text of the exact converted value with its unit |
| Metrics.Xread | run_qc_yaml_interop_production.py:123 | the cross-read means form a valid frame indexed by `read_number` |
| Metrics.XreadRows | run_qc_yaml_interop_production.py:123 | the cross-read means exist exactly when the summary has the selected columns; one row per distinct read number, each cell that read's mean |
| Metrics.LaneGroups | run_qc_yaml_interop_production.py:179 | the per-lane means are a valid frame indexed by `lane` (contents: Metrics.LaneGroupsRows) |
| Metrics.Undetermined | run_qc_yaml_interop_production.py:181 | one undetermined share per lane key (values: Metrics.UndeterminedAt) |
| Metrics.LaneMeans | run_qc_yaml_interop_production.py:178-182 | the lane table is a valid frame indexed by `lane` (contents: Metrics.LaneMeansShape to Metrics.LaneMeansMetric) |
| Metrics.LaneSelectionSplit | run_qc_yaml_interop_production.py:178 | the lane selection is `lane` then the lane metrics, each once |
| Metrics.FixedLaneSchema | run_qc_yaml_interop_production.py:13-17 | the fixed schema has the shape the lane-level lemmas require; its lane metrics are the six labels |
| Metrics.LaneGroupsOk | run_qc_yaml_interop_production.py:178-179 | the per-lane means exist exactly when the summary has the selected columns; otherwise a selected column is missing |
| Metrics.LaneGroupsRows | run_qc_yaml_interop_production.py:178-179 | one row per distinct lane in order of first appearance, the lane metrics as columns, each cell the lane's mean |
| Metrics.LaneMeanValue | run_qc_yaml_interop_production.py:179 | a lane's mean is the sum of its rows' values over their count |
| Metrics.Shares | run_qc_yaml_interop_production.py:181 | 100 minus each lane's summed fraction, NaN for a lane the sums lack; fails exactly when the fraction column is missing |
| Metrics.UndeterminedOk | run_qc_yaml_interop_production.py:181 | the undetermined shares exist exactly when the sample table has `lane` and `index_reads_passing_filter` |
| Metrics.UndeterminedAt | run_qc_yaml_interop_production.py:181 | each lane's value is 100 minus its samples' summed fraction, NaN for a lane without samples |
| Metrics.DensityRatio | run_qc_yaml_interop_production.py:182 | succeeds exactly when both densities exist; density-PF becomes density-PF over density, row by row; every other column is kept |
| Metrics.LaneMeansOk | run_qc_yaml_interop_production.py:178-182 | the lane table exists exactly when the summary has the selected columns and the sample table has `lane` and `index_reads_passing_filter` |
| Metrics.LaneMeansShape | run_qc_yaml_interop_production.py:178-182 | one row per distinct lane; columns are the lane metrics, then `lane`, then `undetermined_indices` |
| Metrics.LaneMeansLane | run_qc_yaml_interop_production.py:180-181 | row `i` holds its lane as `lane` and its undetermined share |
| Metrics.LaneMeansRatio | run_qc_yaml_interop_production.py:182 | row `i`'s density-PF is the lane's mean density-PF over its mean density |
| Metrics.LaneMeansMetric | run_qc_yaml_interop_production.py:179 | every other metric of row `i` is the lane's mean |
| Metrics.LaneCellNumber | run_qc_yaml_interop_production.py:179-182 | every cell outside `lane` is a number |
| Metrics.LaneLevel | run_qc_yaml_interop_production.py:173-185 | the lane level is a valid frame indexed by `lane` (contents: Metrics.LaneLevelShape to Metrics.LaneLevelRatio) |
| Metrics.LaneLevelOk | run_qc_yaml_interop_production.py:173-185 | with the fixed unit tables the lane level exists exactly when the lane table does, and fails with its error otherwise |
| Metrics.LaneLevelShape | run_qc_yaml_interop_production.py:173-185 | the lane level is indexed by `lane`, one row per distinct lane in order of first appearance, with the lane metrics, `lane` and `undetermined_indices` as columns |
| Metrics.LaneLevelMetric | run_qc_yaml_interop_production.py:179-184 | every metric but density-PF holds the unit layer's text of the lane's mean |
| Metrics.LaneUnitValues | run_qc_yaml_interop_production.py:133-141 | the unit layer on the averaged metrics: densities in thousands, reads in millions, error and quality as they are, each tagged |
| Metrics.LaneLevelLane | run_qc_yaml_interop_production.py:180-184 | the `lane` cell is the lane itself, without a unit |
| Metrics.LaneLevelShare | run_qc_yaml_interop_production.py:181-184 | the undetermined share is tagged in percent |
| Metrics.ShareText | run_qc_yaml_interop_production.py:181 | its text is 100 minus the summed fraction, `nan` for a lane without samples |
| Metrics.LaneLevelRatio | run_qc_yaml_interop_production.py:182-184 | the density-PF cell is the percentage of the mean density-PF over the mean density: the exact value times 100, or `nan`/an infinity for a zero mean density |
| Metrics.RatioCalc | run_qc_yaml_interop_production.py:182 | the ratio of two finite means times 100, as text |
| Metrics.UnitValue | run_qc_yaml_interop_production.py:144-171 | the unit layer's cell for a finite number in a given column |
| Metrics.XreadLevel | run_qc_yaml_interop_production.py:187-191 | the cross-read level is a valid frame under the cross-read index name |
| Metrics.XreadLevelRows | run_qc_yaml_interop_production.py:189-190 | each row is a matching pair of cross-read and per-read rows with the same read number, carrying that number as label and as `read_number`, every other cell copied without a unit |
| Metrics.XreadLevelJoin | run_qc_yaml_interop_production.py:189-190 | columns are the cross-read, then per-read, then index columns; one row per matching pair; every pair with equal read numbers appears |
| Metrics.SelectWithUnits | run_qc_yaml_interop_production.py:199-201 | the selection with units keeps every row and has the selected names, each once |
| Metrics.SelectWithUnitsOk | run_qc_yaml_interop_production.py:199-201 | selection with units succeeds exactly when every column exists and `calc` accepts every converted cell; a missing column fails first |
| Metrics.SelectWithUnitsCell | run_qc_yaml_interop_production.py:199-201 | each selected cell after the unit layer |
| Metrics.ReadLevel | run_qc_yaml_interop_production.py:193-202 | the read level keeps every summary row |
| Metrics.FixedReadSelections | run_qc_yaml_interop_production.py:198-209 | with the fixed schema the read level selects `lane`, `reads_aligned`, `read_number` and the read-yield level `lane`, `yield`, `read_number` |
| Metrics.ReadLevelOk | run_qc_yaml_interop_production.py:193-202 | the read level exists exactly when the summary has the three columns and no `reads_aligned` cell is a unit record |
| Metrics.ReadLevelRow | run_qc_yaml_interop_production.py:198-201 | row `i` keeps `lane` and `read_number`, and `reads_aligned` is `calc(x, 100, "*")` tagged `%` |
| Metrics.CalcTimes | run_qc_yaml_interop_production.py:150-158 | `x * 100` fails only on a unit record |
| Metrics.PercentText | run_qc_yaml_interop_production.py:155-158 | a finite float fraction times 100, as text |
| Metrics.ReadYield | run_qc_yaml_interop_production.py:204-213 | the read-yield level keeps every summary row |
| Metrics.ReadYieldOk | run_qc_yaml_interop_production.py:204-213 | the read-yield level exists exactly when the summary has the three columns |
| Metrics.ReadYieldRow | run_qc_yaml_interop_production.py:209-212 | row `i` keeps `lane` and `read_number`, and `yield` is its text tagged `Gbp` |
| Metrics.SampleLevel | run_qc_yaml_interop_production.py:215-220 | the sample level keeps the sample table's columns and rows |
| Metrics.SampleLevelCells | run_qc_yaml_interop_production.py:215-220 | a sample table without converted columns always gets its units: a column with a unit is tagged cell by cell, any other kept |
| Metrics.RunLevelAsWritten | run_qc_yaml_interop_production.py:235 | a frame built from a scalar alone, without an index, raises |
| Metrics.RunLevel | run_qc_yaml_interop_production.py:235 | the intended run table: one row, one column `number_of_cycles` holding the cycle count |
| Pipeline.InteropInfo | run_qc_yaml_interop_production.py:108-125 | the frames are valid, carry the cycle count and the walked run summary |
| Pipeline.GetInteropInfo | run_qc_yaml_interop_production.py:108-125 | `get_interop_info` from the summaries on builds those frames, or raises the first step's error |
| Pipeline.InteropInfoOk | run_qc_yaml_interop_production.py:108-123 | the frames exist exactly when the per-read walk, the index walk and the cross-read means succeed; otherwise the first failure's error |
| Pipeline.FixedXreadColumns | run_qc_yaml_interop_production.py:123 | with the fixed schema the run summary has every column the cross-read groupby selects |
| Pipeline.XreadLabelsIn | run_qc_yaml_interop_production.py:22 | each cross-read selection column is a run-summary column |
| Pipeline.FixedInteropInfoOk | run_qc_yaml_interop_production.py:108-125 | with the fixed schema the frames exist exactly when the run has a read and the index walk succeeds |
| Pipeline.Assemble | run_qc_yaml_interop_production.py:230-237 | the dictionary exists exactly when every table does; otherwise the first failing table in source order decides the error |
| Pipeline.ParseInteropInfoAsWritten | run_qc_yaml_interop_production.py:222-237 | as written `parse_interop_info` never returns |
| Pipeline.ParseInteropInfo | run_qc_yaml_interop_production.py:222-237 | when it returns: lane level indexed by `lane`, read and read-yield levels as high as the summary, sample level with the sample table's columns and rows, a one-row run table of the cycle count |
| Pipeline.ParseInteropInfoOk | run_qc_yaml_interop_production.py:230-234 | the tables exist exactly when the lane, read, read-yield and sample derivations succeed; otherwise the first failure's error |
| Pipeline.ParseInteropInfoTables | run_qc_yaml_interop_production.py:230-235 | each table is its derivation; the cross-read table is the merge, never passed through the unit layer |
| Pipeline.ParseInteropInfoFinding | run_qc_yaml_interop_production.py:235 | as written the call always raises: the scalar-only error when the corrected call returns, the same error otherwise |

## Left out

- Loading the run folder (lines 98-107, 116-117): the InterOp reader, `summarize_run_metrics`, `summarize_index_metrics` and `useable_cycles` are foreign calls. The model takes the run summary, the index summary and the cycle count as inputs.
- The `run_folder` handle that `get_interop_info` stores (line 102) is not part of this model; it is never read by the derivations.
- YAML and CSV output, argument parsing and the script's entry point (lines 239 onward) are I/O.
- `str(float)`: Python's shortest round-trip float text is a parameter `show` of the unit layer. Arithmetic is exact on reals, with no floating-point rounding.
- `getattr(r, func)()` and `eval` are replaced by closed enumerations of the provider's accessors.
- Units.Str: printing a unit record in `str` does not model quote escaping.
- Cells.RealOf: a mean or sum adds an infinite value, a string or a unit record as 0. pandas would give an infinity or NaN, or treat the column otherwise. The zero-filled tables hold no NaN, but the model does not prove them free of infinities or non-numbers. That InterOp reports finite numeric metrics is an assumption about the provider.
- Frames.GroupBy: the groups come in order of first appearance, not in pandas' sorted key order.
- Frames.Merge: overlapping column names take the left frame's cells, with no `_x`/`_y` suffixes. The cross-read and per-read columns never overlap.
- Frames.Append: stacking is limited to frames with equal columns. Every frame a walker stacks has the same columns.
- Metrics.RunLevel: the run table's integer is held as a real number cell.
- The lane-level lemmas (Metrics.LaneGroupsOk to Metrics.LaneLevelRatio) are stated for every schema that satisfies Metrics.LaneSchema. Metrics.FixedLaneSchema shows that the fixed schema does.
- The read-level lemmas (Metrics.ReadLevelOk, Metrics.ReadLevelRow, Metrics.ReadYieldOk, Metrics.ReadYieldRow) are stated over the fixed column lists. Metrics.FixedReadSelections ties those lists to the schema.
- Metrics.ReadLevelRow: gives the `reads_aligned` cell as the tagged `calc(x, 100, "*")` text. Metrics.PercentText gives that text for a finite `x`; the two are not combined into one lemma.
- Where the written description of the program and the code disagree, the model follows the code. The description promises a one-row run table, but line 235 raises (see Findings).

## Findings

| source | as written | input that shows it | evidently intended | confidence | as-written member | corrected member |
|---|---|---|---|---|---|---|
| run_qc_yaml_interop_production.py:235 | `pd.DataFrame(data={"number_of_cycles": int(n)})` builds a frame from a scalar alone, and pandas raises "If using all scalar values, you must pass an index" | any cycle count, e.g. 151 | a one-row table whose `number_of_cycles` column holds the count | not executed | Pipeline.ParseInteropInfoAsWritten | Pipeline.ParseInteropInfo |
