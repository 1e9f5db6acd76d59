# Heart-artefact SNR bookkeeping, modelled in Dafny

This project models the bookkeeping in two scripts from a cardiac-artefact-removal study of spinal
recordings.

`compute_SNR_heart.py` measures how strongly the heart artefact survives in each processing stage:
prepared (raw), PCA, PCA followed by ICA ("post-ICA"), ICA alone, and SSP with 5..20 projectors. For
every subject 1..36 and every stimulation condition (median, tibial) it does the following:

- it builds the `sub-NNN` identifier;
- in the prepared and PCA stages only, it picks the nerve and the reference channel; the other
  stages measure the recording as read;
- it reads one cleaned recording (in the SSP stage, one per projector count n = 5..20), obtains one
  SNR value per recording and stores it in a subjects x 1 table (subjects x 16 for SSP) at row
  `subject - 1` and column `n - 5`.

Median values go to `snr_med` and tibial values to `snr_tib`. Both tables are then saved under one of
four output names chosen by the `reduced_window` and `ant_ref` flags.

`Statistics/SNR_stats_permutation.py` gathers the per-stage tables into one subject-indexed table per
condition. Its columns are Prep, PCA, ICA, Post-ICA, SSP_5 and SSP_6. It then does four things:

- it drops subjects with a missing value;
- for each anchor (Prep, then PCA) it keeps the column pairs whose first element is the anchor;
- it forms "later stage minus anchor" difference columns labelled `anchor-stage`;
- it pairs each label with the p-value of a permutation t-test.

Files:

- `wrappers.dfy`: `Option` (None stands for NaN or absence) and `Result` (a raised exception).
- `text.dfy`: Python's `str(n)` on naturals, `str.zfill`, and "tag occurs in name".
- `heart_snr.dfy`, module `HeartSnr`: the SNR computation script.
  - The result tables are a class `SnrTables` with two `array2` fields, filled in place by nested
    loops.
  - A ghost log `written` records every cell write, in order.
  - Each sweep is proved to leave in every cell the measurement of that cell's recording.
- `snr_stats.dfy`, module `SnrStats`: the statistics script.
  - Data frames are values: a `Frame` holds an index and named columns.
  - Four loops stay methods: the one over the stage files, the one filling the p-value dict, and
    the two nested loops over conditions and anchors that produce the reports.
  - `dropna`, `combinations`, the anchor filter, the differences and the label join are functions.

The SNR value of one recording depends on code not shown here (`calculate_heart_SNR_evoked` and
`evoked_from_raw`). It enters the model as the parameter `measure`, applied to the recording's input
path and to the reference choice made for it. The permutation t-test enters as the parameter
`permTest`, which maps the difference matrix to one p-value per column. Reading a stage's result file
enters as the parameter `load`, which maps a path to its datasets.

## Model

| member | source | states |
|---|---|---|
| Text.DecimalString | compute_SNR_heart.py:61 | `str(subject)` is a non-empty digit string with no leading zero |
| Text.DecimalRoundTrip | compute_SNR_heart.py:61 | reading the digits of `str(n)` gives back n |
| Text.ZFill | compute_SNR_heart.py:61 | `zfill(width)` has length max(len, width) and leaves a long-enough string unchanged |
| Text.ZFillDigits | compute_SNR_heart.py:61 | zero-padding a digit string keeps it a digit string with the same value |
| HeartSnr.ConditionOf | compute_SNR_heart.py:22 | exactly the two names of `cond_names` denote a condition, and each names itself back |
| HeartSnr.ConditionNameRoundTrip | compute_SNR_heart.py:22 | condition -> name -> condition is the identity |
| HeartSnr.NerveOf | compute_SNR_heart.py:54-59 | a nerve is set exactly for the two condition names, and it is 1 or 2 |
| HeartSnr.ReferenceFor | compute_SNR_heart.py:70-77 | the TH6 reference channel is added exactly when `ant_ref` is off |
| HeartSnr.NerveAndReferenceByCondition | compute_SNR_heart.py:54-77 | median gives nerve 1 and anterior channel AC, tibial gives nerve 2 and AL; without `ant_ref` both get TH6 added |
| HeartSnr.StageDir | compute_SNR_heart.py:65 | each stage has one directory, ending in '/'; it is the directory the statistics read that stage from (SnrStats.FilePathsAreStageDirs) |
| HeartSnr.RecordingDir | compute_SNR_heart.py:351-352 | the subject's directory: `<subject>/<n> projections/` for SSP, `<subject>/esg/prepro/` otherwise; its properties are RecordingDirInStageDir and RecordingDirHasNoCapitalR |
| HeartSnr.RecordingDirInStageDir | compute_SNR_heart.py:65 | a subject's recording directory lies inside the stage directory |
| HeartSnr.RecordingName | compute_SNR_heart.py:287-291 | the file name per stage and condition; its properties are RecordingNameIsFif, RecordingNameWithTag and RecordingNameWithoutTag |
| HeartSnr.RecordingNameIsFif | compute_SNR_heart.py:66 | every recording name ends in `.fif` |
| HeartSnr.InputPath | compute_SNR_heart.py:147-149 | the path read for one subject, condition and projector count; its properties are InputPathInStageDir and InputPathAntRefTag |
| HeartSnr.InputPathInStageDir | compute_SNR_heart.py:225-230 | every recording a stage reads is a `.fif` file inside that stage's directory |
| HeartSnr.StageReference | compute_SNR_heart.py:225-232 | the post-ICA, ICA and SSP stages measure the recording as read, without re-referencing |
| HeartSnr.SubjectId | compute_SNR_heart.py:61 | the identifier starts with `sub-` and has at least three characters after it |
| HeartSnr.SubjectIdDigits | compute_SNR_heart.py:61 | after `sub-` come decimal digits whose value is the subject number |
| HeartSnr.SubjectIdRoundTrip | compute_SNR_heart.py:61 | the identifier determines the subject, so distinct subjects get distinct identifiers |
| HeartSnr.SubjectIdWidth | compute_SNR_heart.py:61 | below 1000 the identifier is `sub-` plus exactly 3 digits, with a leading 0 below 100 (so for all subjects 1..36) |
| HeartSnr.RecordingNameWithTag | compute_SNR_heart.py:353-356 | with `ant_ref`, the ICA, post-ICA and SSP recording names contain `antRef` |
| HeartSnr.RecordingNameWithoutTag | compute_SNR_heart.py:288-291 | without `ant_ref` (and in the prepared and PCA stages always) the recording name has no capital R, hence no `antRef` |
| HeartSnr.InputPathAntRefTag | compute_SNR_heart.py:226-229 | the full input path contains `antRef` if and only if `ant_ref` is set and the stage is ICA, post-ICA or SSP |
| HeartSnr.OutputFile | compute_SNR_heart.py:102-111 | the output name chosen by the two flags; its properties are OutputFileInStageDir, OutputFileSmallwinTag, OutputFileAntTag and OutputFilesDistinct |
| HeartSnr.OutputFileInStageDir | compute_SNR_heart.py:372-381 | every output name is a `.h5` file inside the stage directory |
| HeartSnr.OutputFileSmallwinTag | compute_SNR_heart.py:102-111 | the output name contains `smallwin` if and only if `reduced_window` is set |
| HeartSnr.OutputFileAntTag | compute_SNR_heart.py:102-111 | the output name contains `_ant` if and only if `ant_ref` is set |
| HeartSnr.OutputFilesDistinct | compute_SNR_heart.py:102-111 | the four flag combinations give four distinct output names in every stage directory |
| HeartSnr.ResolveIndex | compute_SNR_heart.py:94 | numpy resolves an index on an axis of length len if and only if -len <= i < len; negative indices count from the end |
| HeartSnr.SubjectRow | compute_SNR_heart.py:94-96 | for subjects 1..36, `subject - 1` lands on row subject - 1 of the 36-row table, with no wrap-around |
| HeartSnr.ProjectorColumn | compute_SNR_heart.py:364-366 | for n in 5..20, `n - 5` lands on column n - 5 of the 16-column table, with no wrap-around |
| HeartSnr.ProjectorColumnsBijective | compute_SNR_heart.py:336-366 | n -> n - 5 is one-to-one on 5..20 and reaches every one of the 16 columns |
| HeartSnr.SubjectCellsOnce | compute_SNR_heart.py:53-96 | one subject's pass writes each cell of that subject's row in both tables exactly once |
| HeartSnr.SweepWritesEachCellOnce | compute_SNR_heart.py:52-96 | the order in which the loops write cells covers every cell of both tables and repeats none |
| HeartSnr.SnrTables.constructor | compute_SNR_heart.py:49-50 | both tables start as fresh, distinct, zero-filled rows x cols arrays |
| HeartSnr.SnrTables.Store | compute_SNR_heart.py:93-96 | a median value is written into exactly one cell of `snr_med` and a tibial value into one cell of `snr_tib`; every other cell of both tables is unchanged; an out-of-range index is numpy's IndexError and changes nothing; any other condition name changes nothing |
| HeartSnr.CellIndicesResolve | compute_SNR_heart.py:364-366 | the row `subject - 1` and the column the script writes (`n - 5` in SSP, 0 elsewhere) resolve to the cell itself in a 36-row table |
| HeartSnr.SnrTables.MeasureAndStore | compute_SNR_heart.py:88-96 | one loop step stores the measurement of the cell's own recording in that cell, keeps every cell written before it, and leaves every other cell of both tables as it was |
| HeartSnr.SnrTables.FillStageSubject | compute_SNR_heart.py:53-96 | one subject of a single-column stage: median then tibial, each at column 0 of row subject - 1; the other subjects' rows keep their values |
| HeartSnr.SnrTables.FillStage | compute_SNR_heart.py:52-96 | after the sweep of a single-column stage the log is exactly the sweep order, and every cell holds its own measurement |
| HeartSnr.SnrTables.FillProjectorCounts | compute_SNR_heart.py:349-366 | for one subject and condition, projector counts 5..20 are stored in columns 0..15, in order; every cell of another row or the other condition keeps its value |
| HeartSnr.SnrTables.FillSspSubject | compute_SNR_heart.py:340-366 | one subject of the SSP stage: median then tibial, each over all 16 projector counts; the other subjects' rows keep their values |
| HeartSnr.SnrTables.FillSsp | compute_SNR_heart.py:339-366 | after the SSP sweep the log is exactly the sweep order, and every cell holds the measurement for its subject, condition and projector count |
| HeartSnr.SnrTables.SweepFillsTables | compute_SNR_heart.py:52-53 | once every cell in the sweep order holds its value, every cell of both tables does |
| HeartSnr.SnrTables.FilledRows | compute_SNR_heart.py:99-100 | tables filled by a sweep, read out row by row, are the stage's result tables |
| HeartSnr.SweepStage | compute_SNR_heart.py:49-96 | the stage's two tables are 36 x 1 (36 x 16 for SSP), and each cell holds the measurement of the recording for that subject, condition and projector count |
| HeartSnr.RunStage | compute_SNR_heart.py:98-115 | the stage saves exactly `snr_med` and `snr_tib`, in that order, with the swept tables, under the flag-selected output name |
| SnrStats.Arange | Statistics/SNR_stats_permutation.py:36 | `np.arange(lo, hi)` holds lo, lo + 1, ..., hi - 1 |
| SnrStats.FilePathsAreStageDirs | Statistics/SNR_stats_permutation.py:16-25 | the statistics read each stage from the directory where the SNR computation writes that stage |
| SnrStats.ReadNameIsNotWrittenName | Statistics/SNR_stats_permutation.py:15 | none of the four output names of the SNR computation is the name `snr.h5` read here |
| SnrStats.Flatten | Statistics/SNR_stats_permutation.py:54 | `reshape(-1)`: the first row's values come first; the whole row-major order is FlattenConcat and FlattenRow, the length FlattenLength |
| SnrStats.FlattenConcat | Statistics/SNR_stats_permutation.py:54 | `reshape(-1)` is row-major: flattening stacked rows gives the flattened parts one after the other |
| SnrStats.FlattenRow | Statistics/SNR_stats_permutation.py:54 | a one-row matrix flattens to that row, so with FlattenConcat each row appears whole and in order |
| SnrStats.FlattenLength | Statistics/SNR_stats_permutation.py:54-55 | a rows x w dataset flattens to rows * w values, so any shape with 36 cells fits the 36-row table |
| SnrStats.FlattenSingleColumn | Statistics/SNR_stats_permutation.py:34 | `reshape(-1)` of a subjects x 1 table is its column, one value per subject |
| SnrStats.ColumnAt | Statistics/SNR_stats_permutation.py:45-46 | `m[:, j]` exists exactly when every row has a column j, and then holds each row's j-th value |
| SnrStats.IndexOf | Statistics/SNR_stats_permutation.py:55 | the position of the first column with that name, or none when no column has it |
| SnrStats.ColumnNamed | Statistics/SNR_stats_permutation.py:84 | `df[name]` exists exactly when some column has that name; which values it holds is ColumnNamedIsFirst |
| SnrStats.ColumnNamedIsFirst | Statistics/SNR_stats_permutation.py:84 | `df[name]` holds the values of the first column called `name` |
| SnrStats.SetColumn | Statistics/SNR_stats_permutation.py:55 | after `df[name] = v`, `df[name]` is v; a new name is appended last, and an existing name is replaced in place with all other columns kept |
| SnrStats.Assign | Statistics/SNR_stats_permutation.py:55 | the assignment succeeds exactly when the length matches the index, and is then SetColumn |
| SnrStats.StageTableShape | Statistics/SNR_stats_permutation.py:27 | an assembled table is indexed by subjects 1..36, has exactly the columns Prep, PCA, ICA, Post-ICA, SSP_5, SSP_6, and all of them are distinct |
| SnrStats.AddStage | Statistics/SNR_stats_permutation.py:32-58 | one pass of the loop body: a missing dataset is a KeyError, and a success is a well-formed table; what it adds is AddStageStep |
| SnrStats.AddPrepStep | Statistics/SNR_stats_permutation.py:33-40 | the prepared file starts the table with the column Prep, its flattened dataset, indexed 1..36; this fails exactly when the dataset is missing or not 36 values long |
| SnrStats.AddMiddleStep | Statistics/SNR_stats_permutation.py:52-58 | the PCA, ICA and post-ICA files each append one column, named after their own stage, holding their flattened dataset |
| SnrStats.AddSspStep | Statistics/SNR_stats_permutation.py:42-50 | the SSP file appends SSP_5 and SSP_6, which are columns 0 and 1 of its per-projector matrix |
| SnrStats.AddStageStep | Statistics/SNR_stats_permutation.py:31-60 | the step for file k extends the table by that file's columns, and fails exactly when that file does not fit |
| SnrStats.AssembleTables | Statistics/SNR_stats_permutation.py:25-60 | succeeds exactly when every stage file holds both datasets in the needed shape; each table then has the index 1..36 and column j drawn from its own stage file under its own stage name (names and paths advance in lockstep) |
| SnrStats.KeptRows | Statistics/SNR_stats_permutation.py:77 | the kept row positions are exactly the complete rows, in strictly increasing order |
| SnrStats.DropNa | Statistics/SNR_stats_permutation.py:77 | `dropna()` keeps the columns and, for each kept row in order, its subject index and its values |
| SnrStats.DropNaKeepsExactlyCompleteRows | Statistics/SNR_stats_permutation.py:77-79 | a row survives if and only if it has no missing value, and no missing value is left after `dropna()` |
| SnrStats.Fan | Statistics/SNR_stats_permutation.py:82 | the pairs of one element with each later element, in order |
| SnrStats.Pairs | Statistics/SNR_stats_permutation.py:82 | `combinations(cols, 2)`: the pairs of positions i < j in lexicographic order; its contents are stated by PairsComplete and PairsSound, its size by PairsCount |
| SnrStats.PairsComplete | Statistics/SNR_stats_permutation.py:82 | for every two positions i < j, `(cols[i], cols[j])` is among the combinations |
| SnrStats.PairsSound | Statistics/SNR_stats_permutation.py:82 | every combination is `(cols[i], cols[j])` for some positions i < j |
| SnrStats.PairsIn | Statistics/SNR_stats_permutation.py:82 | every pair from `combinations(cols, 2)` is made of two of the columns |
| SnrStats.PairsCount | Statistics/SNR_stats_permutation.py:82 | `combinations(cols, 2)` has n(n-1)/2 pairs for n columns |
| SnrStats.FirstIs | Statistics/SNR_stats_permutation.py:83 | the filter keeps exactly the pairs of the list whose first element is the anchor |
| SnrStats.FirstIsConcat | Statistics/SNR_stats_permutation.py:83 | filtering a concatenation concatenates the filtered parts, so the kept pairs stay in list order |
| SnrStats.AnchorPairs | Statistics/SNR_stats_permutation.py:82-83 | every kept pair is (anchor, some column); which columns and in what order is AnchorPairsAreLaterColumns |
| SnrStats.AnchorPairsAreLaterColumns | Statistics/SNR_stats_permutation.py:81-83 | with distinct names, the pairs for anchor m are exactly (m, c) for each column c after m, in column order; none when m is no column |
| SnrStats.PrepAnchorPairs | Statistics/SNR_stats_permutation.py:81-83 | on the stage table, Prep yields the 5 pairs with PCA, ICA, Post-ICA, SSP_5, SSP_6 |
| SnrStats.PcaAnchorPairs | Statistics/SNR_stats_permutation.py:81-83 | on the stage table, PCA yields the 4 pairs with ICA, Post-ICA, SSP_5, SSP_6, and no PCA-Prep |
| SnrStats.NoBackwardContrast | Statistics/SNR_stats_permutation.py:82-83 | with distinct names an anchor is never paired with an earlier column |
| SnrStats.Difference | Statistics/SNR_stats_permutation.py:84 | `b.sub(a)` on one row is missing exactly when either value is, and otherwise adds to a to give b |
| SnrStats.Label | Statistics/SNR_stats_permutation.py:85 | `'-'.join((a, b))` is a, then one '-', then b |
| SnrStats.LabelInjective | Statistics/SNR_stats_permutation.py:85 | two pairs with the same anchor get the same label only if they are the same pair |
| SnrStats.ContrastColumn | Statistics/SNR_stats_permutation.py:84 | the difference column for a pair carries the pair's label and one value per subject; its values are ContrastColumnAt |
| SnrStats.Contrasts | Statistics/SNR_stats_permutation.py:84-85 | the concatenation fails exactly when no pair is left; otherwise it keeps the index and has one column per pair, in order, named by the pair's label |
| SnrStats.ContrastColumnAt | Statistics/SNR_stats_permutation.py:84 | the difference column of columns a and b is labelled `a-b` and holds, row by row, b's value minus a's value |
| SnrStats.ContrastsAreLaterMinusAnchor | Statistics/SNR_stats_permutation.py:81-85 | with distinct names, the contrasts for the anchor in column a are the differences of each later column against it, in order; they fail exactly when a is the last column |
| SnrStats.ContrastAt | Statistics/SNR_stats_permutation.py:84 | contrast k for the anchor in column a is the difference column of the anchor and column a + 1 + k, labelled `anchor-column` |
| SnrStats.ContrastsOfCompleteRow | Statistics/SNR_stats_permutation.py:84 | on a complete row, contrast k for anchor a is labelled `anchor-stage` and holds the later stage's value minus the anchor's value |
| SnrStats.ToMatrix | Statistics/SNR_stats_permutation.py:86 | `to_numpy()` has one row per subject and holds column k's value at position k |
| SnrStats.Put | Statistics/SNR_stats_permutation.py:94 | `update` overwrites an existing key in place and appends a new key; keys stay distinct |
| SnrStats.PValueTable | Statistics/SNR_stats_permutation.py:91-94 | the dict built by the updates has distinct keys |
| SnrStats.FormatPValues | Statistics/SNR_stats_permutation.py:91-94 | the loop succeeds exactly when there are no more p-values than column names, and then builds the dict of the successive updates |
| SnrStats.PValueTablePairs | Statistics/SNR_stats_permutation.py:91-94 | with distinct labels the dict has one entry per p-value, and its i-th entry pairs the i-th label with the i-th p-value |
| SnrStats.ContrastLabelsDistinct | Statistics/SNR_stats_permutation.py:85 | with distinct stage names, the contrast labels for one anchor are distinct |
| SnrStats.TestReport | Statistics/SNR_stats_permutation.py:84-94 | the p-value table for one anchor: concatenation fails when the anchor has no pair, and the table's keys are distinct; its entries are ReportPairs |
| SnrStats.ReportPairs | Statistics/SNR_stats_permutation.py:85-94 | for the anchor in column a, the report exists exactly when there are no more p-values than contrasts, and entry i pairs the label `anchor-stage` of the i-th later column with the i-th p-value |
| SnrStats.TestFrame | Statistics/SNR_stats_permutation.py:76-79 | condition 0 (median) is tested on `DropNa` of the median table and condition 1 (tibial) on `DropNa` of the tibial table: well formed, with that table's columns and no missing value |
| SnrStats.TestCondition | Statistics/SNR_stats_permutation.py:81-94 | for one condition, one report per anchor, Prep then PCA, each built from the same frame; it fails exactly when one of them fails |
| SnrStats.RunTests | Statistics/SNR_stats_permutation.py:75-94 | median is tested on the median table and tibial on the tibial table, each after `dropna()`, median first; report [c][a] is the one for condition c and anchor a |

## Left out

- The SNR value itself is the parameter `measure`. This covers `calculate_heart_SNR_evoked`,
  `evoked_from_raw`, the epoch and baseline windows, and the band-pass and notch filtering of the
  prepared and PCA data with settings loaded from `cfg.mat`. All of it is floating-point signal
  processing in code that is not part of this model.
- `mne.stats.permutation_t_test` is the parameter `permTest`. It uses random sign flips and runs in
  parallel.
- Reading FIF recordings and `add_reference_channels` / `rereference_data` are left out. The model
  keeps only which reference the script chooses (`Reference`) and passes it to `measure`.
  epoch_data.py is not part of this model.
- h5py reads and writes are left out. A saved file is the returned `StageOutput`, and a read file is
  the parameter `load`. Printing, `describe()` and `from_dict` are left out too: the p-value tables
  are returned in `Report`s instead.
- `os.makedirs` of the figure directory is left out. It has no effect on the results.
- The `calc_*` flags only pick which stage blocks run. The model runs one stage per `RunStage` call.
- `trigger_name` is assigned but never used. `reduced_epochs` is a constant `False` passed along to
  `evoked_from_raw`. Both are left out.
- HeartSnr.StageReference: for a condition name other than median or tibial, the script would keep
  the nerve of the previous iteration. The model leaves the reference unchanged in that case
  instead. That branch cannot happen, because `cond_names` holds only those two names.
- Floats are modelled as `real` and NaN as `None`. Rounding is not modelled.
- The `df = df_med.dropna()` at Statistics/SNR_stats_permutation.py:64 is left out, because the loop
  overwrites it before use.
- The statistics script reads `snr.h5` from each stage directory, but the SNR script writes
  `snr_heart*.h5` (SnrStats.ReadNameIsNotWrittenName). The model follows each script as written, and
  `load` stands for whatever file is found under the name read.
