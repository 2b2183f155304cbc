# CycleSense preprocessing, modelled in Dafny

CycleSense turns SimRa bicycle rides into training data for an incident
classifier. Each ride is a CSV file with one row per measurement. A row holds a
millisecond timestamp, the accelerometer (`X Y Z`) and gyroscope (`a b c`)
readings, and optionally linear acceleration (`XL YL ZL`). It also holds a GPS
fix (`lat lon acc`) and an `incident` label.

The preprocessing runs a fixed sequence of per-file stages:

1. Sort by timestamp.
2. Delete invalid rides.
3. Blank inertial values on Android GPS samples.
4. Remove GPS-accuracy outliers.
5. Turn lat/lon into per-second deltas.
6. Resample, either by linear interpolation or onto an equidistant time grid. The equidistant path re-places every incident on its nearest grid timestamp.
7. Remove velocity outliers.
8. Drop incomplete rows.
9. Scale and reorder the columns.
10. Cut the rides into labelled buckets of `window_size x slices` cells.
11. Optionally augment the positive buckets by 180-degree rotations.
12. Optionally replace the inertial channels by their discrete Fourier transform.

The project models the per-file logic of these stages.

- Modules and forms:
  - A ride is a `Ride` value: its schema plus a sequence of `Row` records. Empty cells are `None`.
  - A per-file stage is a function from a ride to an `Outcome`: `Rewrite`, `Untouched` or `Delete`.
  - The stages built on explicit Python loops are methods with loop invariants:
    - the incident-placement loop of equidistant resampling;
    - the bucket loops of `create_buckets`;
    - the rotation loops of `augment_data` and `augment_data_inner`;
    - the key loop of the off-memory Fourier transform.
  - Buckets are `seq<seq<seq<real>>>`, indexed by window position, slice and channel. Keyed archives are `map<string, Bucket>`.
- Library numerics are parameters:
  - `np.percentile` (`Outliers.Percentile`);
  - the fitted `MaxAbsScaler` (`Scaling.Scaler`);
  - the FFT (`Fourier.Dft`);
  - the tie rule of pandas' nearest-index lookup (`Nearest.Tie`).
- Files:
  - `rides.dfy`: the row and ride data model.
  - `wrappers.dfy`: `Option` and `Result`.
  - `cleaning.dfy`: sorting, invalid rides, Android GPS samples, empty rows.
  - `outliers.dfy`: IQR bounds and both outlier filters.
  - `velocity.dfy`: the velocity deltas.
  - `nearest.dfy`: nearest lookup.
  - `resampling.dfy`: de-duplication, backfill/pad, the time grid and the merged frame.
  - `equidistant.dfy`: incident placement and both interpolation paths.
  - `scaling.dfy`: the output channel layout.
  - `keys.dfy`: archive key names.
  - `buckets.dfy`: bucketing and class counts.
  - `augment.dfy`: rotation and augmentation.
  - `fourier.dfy`: the Fourier channel layout.

## Model

| member | source | states |
|---|---|---|
| Cleaning.SortByTimestamp | preprocess.py:28 | The result is sorted by timestamp and is a permutation of the rows (same multiset). |
| Cleaning.SortIsStable | preprocess.py:28 | Merge sort is stable: the rows sharing a timestamp keep their relative order. |
| Cleaning.SortDistinctIsStrict | preprocess.py:28 | Sorting rows with unique timestamps gives a strictly increasing index. |
| Cleaning.SortTimestamps | preprocess.py:22-29 | The file is rewritten with the same schema, sorted, as a permutation of its rows. |
| Cleaning.Breakpoints | preprocess.py:55-57 | Exactly the positions k >= 1 whose gap to row k-1 exceeds 6000 ms; position 0 never counts. |
| Cleaning.DiffDropnaCount | preprocess.py:54-59 | After the timestamp diff and `dropna`, no row is left iff no row after the first is complete. |
| Cleaning.RemoveInvalidRide | preprocess.py:47-63 | The ride is deleted iff some adjacent gap exceeds 6000 ms or no row after the first is complete; otherwise it is untouched. |
| Cleaning.RemoveSensorValuesFromGps | preprocess.py:82-100 | Non-Android files are untouched. An Android file without an acc column raises KeyError. In other Android files, every GPS sample loses its inertial values (and XL/YL/ZL with the flag), and every other cell and row is kept. |
| Cleaning.RemoveEmptyRows | preprocess.py:454-465 | Deleted iff no row is complete, and never left untouched. Otherwise rewritten with the complete rows (`CompleteRows`): each as often as in the input and in input order, so a sorted table stays sorted and a unique increasing index stays so. |
| Outliers.IqrBounds | preprocess.py:172-175 | The bounds are centred on the quartiles' midpoint, and their width is the IQR times (1 + 2k). |
| Outliers.QuartileRangeIsNeverOutlier | preprocess.py:130-133 | For any factor k >= 0, a value between the quartiles is never an outlier. |
| Outliers.WiderFactorFlagsFewer | preprocess.py:441-444 | A larger factor flags a subset: a velocity outlier (k = 3) under equal quartiles is also an accuracy outlier (k = 1.5). |
| Outliers.PresentAcc | preprocess.py:156-158 | One value per row that has an acc value, in row order: value i is the acc of the i-th such row. Empty iff every acc cell is empty. |
| Outliers.AccSample | preprocess.py:155-166 | The pooled training sample is empty iff no training file has an accuracy value. |
| Outliers.AccSampleAppend | preprocess.py:155-166 | The pooled sample is the files' present acc values, file after file in training order: one file contributes its `PresentAcc`, and pooling two lists of files concatenates their samples. |
| Outliers.AccFitVerdict | preprocess.py:156-161 | KeyError iff the file has no acc column. Otherwise the training file is deleted iff it has no accuracy value, and is untouched if it has one. |
| Outliers.FitAccBounds | preprocess.py:152-175 | A missing-column error iff some training file has no acc column. Otherwise an error iff no training file has an acc value. Otherwise the 25/75 percentiles of the pooled sample widened by 1.5 IQR. |
| Outliers.RemoveAccOutliers | preprocess.py:120-142 | KeyError iff the file has no acc column. Otherwise the acc column is dropped, rows whose acc is strictly outside the bounds lose lat and lon, and all other cells are unchanged. |
| Outliers.CompleteDeltas | preprocess.py:421-429 | One lat and one lon value per complete row, in row order: value i is the lat (lon) of the i-th complete row. Empty iff no row is complete. |
| Outliers.VelSample | preprocess.py:417-431 | The pooled per-column velocity sample is empty iff no training file has a complete row. |
| Outliers.VelSampleAppend | preprocess.py:417-431 | Each column of the pooled sample is the files' columns, file after file in training order: one file contributes its `CompleteDeltas`, and pooling two lists of files concatenates their samples. |
| Outliers.VelFitVerdict | preprocess.py:421-426 | A training file is deleted iff it has no complete row. |
| Outliers.FitVelBounds | preprocess.py:417-444 | Error iff the pooled sample is empty; otherwise per-column percentile bounds widened by 3 IQR. |
| Outliers.RemoveVelOutliers | preprocess.py:386-406 | Untouched iff no row has lat or lon strictly outside its column's bounds. Otherwise rewritten with the non-outlier rows (`Inliers`), which are fewer: each as often as in the input and in input order, so a sorted table stays sorted. |
| Outliers.InliersKept | preprocess.py:404-405 | Dropping the outlier rows keeps every other row as often as it occurs and removes the outliers entirely. A sorted table stays sorted, and a unique increasing index stays so. |
| Rides.FilterAppend | preprocess.py:460 | Dropping rows from two tables put together drops from each and keeps them in order. With `Rides.FilterOfOne`, this fixes the order and the multiplicity of the kept rows. |
| Rides.FilterOfOne | preprocess.py:460 | One row is kept exactly when it qualifies. |
| Rides.FilterCounts | preprocess.py:460 | Every kept row occurs as often as in the input, and a dropped row not at all. |
| Rides.FilterKeepsSorted | preprocess.py:460 | Dropping rows from a sorted table leaves it sorted. |
| Rides.FilterKeepsOrder | preprocess.py:405 | Dropping rows from a table with a unique increasing index leaves the index unique and increasing. |
| Rides.CompleteRowsKept | preprocess.py:460 | `dropna()` keeps exactly the complete rows, each as often as it occurs and in table order. |
| Velocity.PrevFix | preprocess.py:194 | The last row before i with both lat and lon, or -1; no row in between has a fix. |
| Velocity.Differenced | preprocess.py:194-200 | Only lat/lon change. They are present together, and exactly when the row and some earlier fix exist with a positive time gap. |
| Velocity.CalcVelDelta | preprocess.py:186-202 | Same schema and length; every row keeps every cell except lat and lon. |
| Velocity.VelDeltaUsesPreviousFix | preprocess.py:193-200 | Row i of the result is row i differenced against the last fix before it. |
| Velocity.FirstFixHasNoVelocity | preprocess.py:194-197 | The first row with a fix gets no velocity (its diff is missing). |
| Velocity.VelocityIsChangeSincePreviousFix | preprocess.py:196-198 | A row with a fix after fix j gets lat = Δlat·1000/Δt and lon = Δlon·1000/Δt against fix j. |
| Nearest.NearestIndex | preprocess.py:336 | On an increasing index, the returned position holds the nearest entry, with ties resolved by the tie rule. |
| Nearest.NearestValue | preprocess.py:336 | The nearest entry is an entry of the index. |
| Nearest.NearestIsUnique | preprocess.py:336 | The nearest entry of a set is unique. |
| Nearest.NearestSurvivesRemoval | preprocess.py:336-344 | Dropping other entries keeps a nearest entry nearest. |
| Nearest.ExactMatchIsNearest | preprocess.py:336 | An exact timestamp match is its own nearest entry. |
| Resampling.FirstIndex | preprocess.py:238 | The first position carrying timestamp t. |
| Resampling.DedupKeepFirst | preprocess.py:238 | `duplicated(keep='first')`: no longer than the input, and every kept row is an input row. |
| Resampling.DedupKeepsTimestamps | preprocess.py:238 | De-duplication keeps every timestamp. |
| Resampling.DedupIsDistinct | preprocess.py:238 | After de-duplication the timestamps are unique. |
| Resampling.DedupKeepsFirstOccurrence | preprocess.py:237-238 | Each kept row is the first input row with its timestamp. |
| Resampling.DedupOfSortedIsStrict | preprocess.py:303-308 | De-duplicating sorted rows gives a strictly increasing index. |
| Resampling.NextPresent | preprocess.py:324 | The first present position at or after i, or -1; none in between is present. |
| Resampling.PrevPresent | preprocess.py:255 | The last present position at or before i, or -1; none in between is present. |
| Resampling.BackfillTakesNextPresent | preprocess.py:324-325 | `bfill` puts the next present value at each position, or leaves it empty. |
| Resampling.PadTakesPrevPresent | preprocess.py:253-256 | `pad` puts the previous present value at each position, or leaves it empty. |
| Resampling.NextPresentMirrorsPrevPresent | preprocess.py:253-256 | The next present position is the mirror of the previous present position in the reversed column. |
| Resampling.BackfillIsReversedPad | preprocess.py:253-258 | Padding the reversed column and reversing back is a backfill. |
| Resampling.BackfillLatLon | preprocess.py:324-325 | Same length and timestamps. |
| Resampling.BackfillLatLonSpec | preprocess.py:323-325 | Only lat/lon change; each becomes the next present value of its own column. |
| Resampling.ReversedPadIsBackfill | preprocess.py:253-258 | Reversing, padding lat/lon and reversing back is the lat/lon backfill. |
| Resampling.LinearInterpolate | preprocess.py:220-263 | Same schema. The rows are the de-duplicated (keep first), sorted rows with lat/lon backfilled. |
| Resampling.LinearInterpolateIndex | preprocess.py:235-261 | The result has a strictly increasing index with exactly the original timestamps. |
| Resampling.GridStart | preprocess.py:277 | A multiple of the interval, at most the first timestamp and less than one interval before it. |
| Resampling.GridStartIsLargestMultiple | preprocess.py:275-277 | No larger multiple of the interval is at or before the first timestamp (floor division). |
| Resampling.Grid | preprocess.py:282 | `np.arange(start, end, iv)`: entry k is start + k·iv, every entry is below end, and the grid is not cut short. |
| Resampling.GridIncreases | preprocess.py:282 | The grid is strictly increasing. |
| Resampling.RideGrid | preprocess.py:277-282 | Increasing; every entry is a multiple of the interval, from the grid start up to (not including) the last timestamp. |
| Resampling.Removables | preprocess.py:287 | Original timestamps not on the grid: disjoint from the grid, and together with it they cover the original timestamps. |
| Resampling.NetNew | preprocess.py:284 | Exactly the grid timestamps that are not original timestamps. |
| Resampling.LastTimestampIsRemovable | preprocess.py:278-287 | The ride's last timestamp is never on the grid, so it is always removable. |
| Resampling.NetNewRows | preprocess.py:284-292 | One empty row for each net-new grid timestamp, and nothing else. |
| Resampling.MergeSpec | preprocess.py:284-308 | The merged frame has a strictly increasing index, the original timestamps plus the grid, and the first original row at each timestamp (else an empty row). |
| Equidistant.Assigned | preprocess.py:327-344 | The grid timestamps that receive an incident lie on the grid. |
| Equidistant.AssignedIsNearestGridPoint | preprocess.py:334-341 | Every marked grid timestamp is the nearest grid point of some incident. |
| Equidistant.AssignedCoversIncidents | preprocess.py:330-341 | Every incident marks its nearest grid point. |
| Equidistant.MarkKeepsTracking | preprocess.py:338-341 | Setting incident 1.0 on a row keeps the index and the frame-to-rows correspondence. |
| Equidistant.DropKeepsTracking | preprocess.py:342-344 | Dropping a row removes exactly its timestamp and keeps the correspondence. |
| Equidistant.NearestKeptIsNearestOnGrid | preprocess.py:334-341 | A nearest row that is not removable is the nearest grid point. |
| Equidistant.FinalDrop | preprocess.py:346-347 | Dropping the remaining removables leaves exactly the grid, each row being the frame row at that timestamp, marked or not. |
| Equidistant.LookupNearest | preprocess.py:336-344 | The lookup finds the timestamp x nearest to the incident among those still in the frame. It marks x iff x is not removable, and then x is the nearest grid point and the frame keeps its index. Otherwise it drops exactly x from both the frame and the removables. |
| Equidistant.PlaceIncident | preprocess.py:332-344 | The while loop ends. It places the incident iff the grid is non-empty, and it marks the nearest grid point. |
| Equidistant.PlaceIncidents | preprocess.py:327-344 | The loop over the incidents fails iff the grid is empty while there are incidents. Otherwise every incident marked its nearest grid point, and the frame index is still the grid plus the removables. |
| Equidistant.AssignIncidents | preprocess.py:327-347 | Error iff the grid is empty while there are incidents. Otherwise the rows are exactly the grid, each the frame row marked iff assigned. |
| Equidistant.FrameIndex | preprocess.py:292-325 | The merged and backfilled frame has a strictly increasing index of original plus grid timestamps. |
| Equidistant.IncidentTimestamps | preprocess.py:327 | Exactly the timestamps of the frame rows with incident > 0: each returned timestamp belongs to such a row, and every such row's timestamp is returned. |
| Equidistant.FillIncidents | preprocess.py:352 | `fillna(0)` on the label: only the label changes, every label becomes present, and present labels are kept. |
| Equidistant.EquidistantInterpolate | preprocess.py:266-354 | Errors for an empty ride, a zero interval, and an empty grid with incidents. Otherwise same schema, the rows are exactly the grid, and each row is its resampled row. |
| Equidistant.IncidentFlagMarksAssignedTimestamps | preprocess.py:327-352 | A resampled row equals the frame row except for its label. The label is present, > 0 iff the timestamp was assigned, and then 1.0. |
| Equidistant.AssignedTimestampsAreNearestGridPoints | preprocess.py:329-347 | A marked timestamp is on the grid, is not removable, and is the nearest grid point of some incident. |
| Equidistant.Interpolate | preprocess.py:357-383 | 'linear' gives the linear result. 'equidistant' gives the errors of `EquidistantInterpolate` (empty ride, zero interval, or an empty grid with incidents) and otherwise rewrites the file onto the time grid, each row its `ResampledRow`. An empty grid without incidents succeeds. Any other kind leaves the file untouched. |
| Scaling.Layout | preprocess.py:491-500 | 12 or 9 distinct channels: X..c first, lat/lon/incident last, and XL present iff the linear-acceleration flag is set. |
| Scaling.ScaledCell | preprocess.py:492-498 | The label passes through unscaled; a cell is present iff its input cell is. |
| Scaling.ScaledRow | preprocess.py:494-500 | One scaled cell per layout channel, in layout order. |
| Scaling.ScaleRide | preprocess.py:483-500 | Error iff linear acceleration is selected but absent from the file. Otherwise one scaled row per input row. |
| Scaling.ScaledLayout | preprocess.py:495-500 | Channels 0-5 are the scaled inertial values, the third- and second-to-last are lat and lon, and the last is the raw label. |
| Scaling.CompleteRowScalesToFullRow | preprocess.py:491-500 | A complete row scales to a row with every cell present. |
| BucketKeys.Digits | preprocess.py:600 | `str(i)`: a non-empty run of digits without leading zeros. |
| BucketKeys.ZFill | preprocess.py:600 | `zfill`: the digits right-aligned, with zeros in front up to the width. |
| BucketKeys.ParseDigitsOfDigits | preprocess.py:600 | Reading back `str(i)` gives i. |
| BucketKeys.ZFillRoundTrip | preprocess.py:600 | Reading back the zero-filled index gives i. |
| BucketKeys.BucketKeyIsInjective | preprocess.py:597-603 | Within a file, equal keys mean the same bucket index and the same label. |
| BucketKeys.RotatedKey | preprocess.py:690-692 | A rotated key always ends in `_bucket_incident`. |
| BucketKeys.RotatedKeysDiffer | preprocess.py:690-692 | The X, Y and Z copies get three different keys. |
| Buckets.FileError | preprocess.py:568-608 | No error iff the table is rectangular, two-dimensional (at least 2 rows and 2 columns) and window·slices > 0. |
| Buckets.Trimmed | preprocess.py:572 | `arr[60:-60, :]`: max(n-120, 0) rows, row k being input row k+60. |
| Buckets.OffsetInRange | preprocess.py:578-581 | Cell (i, j) of bucket b lies inside the truncated ride and inside its own bucket's block. |
| Buckets.BucketCellIsRideRow | preprocess.py:578-596 | Cell (i, j) of bucket b is input row 60 + b·w·s + j·w + i, with its label replaced by the bucket's label. |
| Buckets.RowLandsInBucket | preprocess.py:578-581 | Every row before the dropped tail lands in the cell its position gives (bucket k / (w·s), column and slice from the remainder), and no other cell has that position. |
| Buckets.BucketLabelIsAnyRowLabel | preprocess.py:583-584 | A bucket is labelled positive iff some row that went into it had a nonzero label. |
| Buckets.StampedBucketCarriesLabel | preprocess.py:591-596 | After stamping, every label cell is 1 or 0 as the bucket's label, and the bucket is positive iff labelled so. |
| Buckets.FileLabelsCountPositives | preprocess.py:583-587 | The labels counted for a file are the classes its buckets end up with. |
| Buckets.PositivesAppend | preprocess.py:586-587 | Positive counts add up over concatenated archives. |
| Buckets.FileKeyedKeys | preprocess.py:594-605 | A key is in the file's archive exactly when it is the key of one of its buckets (in bucket order), so no other key is stored. |
| Buckets.FileKeyedHoldsEveryBucket | preprocess.py:594-605 | Each bucket of a file is stored under its own key. |
| Buckets.FileKeyedSize | preprocess.py:594-605 | No two buckets of a file share a key: the dictionary has one entry per bucket. |
| Buckets.FirstErrorIsFirstUnreadable | preprocess.py:566-608 | An error is reported iff some file is unreadable, and it is the first such file's error. |
| Buckets.AppendBuckets | preprocess.py:589-592 | The in-memory list grows by the file's buckets, in order. |
| Buckets.StoreBuckets | preprocess.py:594-605 | The keyed archive is updated with the file's keyed buckets. |
| Buckets.CreateBuckets | preprocess.py:557-612 | Error iff some file is unreadable (the first one's). Otherwise positive count = positive buckets, positive + negative = all buckets, and the archive is the list or the keyed map of all buckets. |
| Augment.RotationMatrix | preprocess.py:635-653 | A matrix exists iff the axis is 0, 1 or 2. |
| Augment.Rotate | preprocess.py:628-664 | A rotated bucket exists iff the axis is 0, 1 or 2, and it has the same shape. |
| Augment.RotationFlipsSigns | preprocess.py:655-664 | About axis a, channels c < 6 with c mod 3 != a are negated; all others are kept. |
| Augment.RotationIsInvolution | preprocess.py:635-664 | Rotating twice about the same axis gives the bucket back. |
| Augment.TwoRotationsMakeTheThird | preprocess.py:635-664 | Rotating about two distinct axes equals rotating about the third. |
| Augment.RotationKeepsLabel | preprocess.py:662 | A rotated copy keeps every label, and its class. |
| Augment.CopiesArePositive | preprocess.py:739-747 | Every rotated copy of a positive bucket is positive. |
| Augment.AugmentInMemoryAsWritten | preprocess.py:736-777 | As written, the saved array is the original one, while the positive count grows by 3 per positive bucket and the negative count is kept. |
| Augment.AugmentInMemory | preprocess.py:736-748 | The saved list is the originals plus the X, Y, Z copies of each positive bucket; positive count +3 per positive bucket; negative count kept. |
| Augment.AugmentationKeepsCountsInAgreement | preprocess.py:736-748 | With the augmented list saved, the class counts still describe the archive. |
| Augment.AsWrittenCountsDisagree | preprocess.py:736-777 | As written, with any positive bucket, the counts no longer describe the saved archive. |
| Augment.AugmentWorker | preprocess.py:667-703 | The worker dictionary: every key copied, plus three rotated copies per positive bucket when rotating; its count is 3 per rotated bucket. |
| Augment.WorkerDictKeys | preprocess.py:683-700 | The worker's keys are exactly what its input keys produce: each key itself, plus its X, Y and Z rotated keys when its bucket is rotated. |
| Augment.WorkerDictAppend | preprocess.py:786-791 | Merging the workers' results in order equals one pass over the concatenated keys (dictionary and count). |
| Augment.AugmentKeyed | preprocess.py:779-791 | The merged dictionary is the one-pass dictionary; the positive count grows by 3 per rotated bucket; the negative count is kept. |
| Fourier.PartsCoverCell | preprocess.py:847-850 | `[:-3]`, `[-3:-1]` and `[-1:]` split any cell into consecutive parts, with one label and at most two GPS channels. |
| Fourier.TransformedCellLayout | preprocess.py:846-856 | With C >= 3 channels, a cell has 2(C-3)+3 channels: the real parts, the imaginary parts, then GPS and the label unchanged. |
| Fourier.TransformKeepsLabel | preprocess.py:847-856 | The label channel and the class of every bucket are kept. |
| Fourier.StackedIsPerBucket | preprocess.py:883-890 | The stacked in-memory transform along axis 1 equals the per-bucket transform along axis 0. |
| Fourier.TransformKeepsClassCounts | preprocess.py:880-890 | The transform keeps the number of positive buckets, so the class counts stay valid. |
| Fourier.FourierWorker | preprocess.py:833-860 | Same keys, each mapped to its transformed bucket: the dictionary is `TransformedKeys` of its share of the keys. |
| Fourier.FourierKeyed | preprocess.py:894-902 | The merged dictionary has the keys of all shards, each mapped to its transformed bucket. |
| Fourier.ScaledLayoutSplit | preprocess.py:847-850 | On the scaled channel order, GPS is [lat, lon], the label is [incident], and the transformed channels are the inertial ones. |

## Left out

- File and archive I/O: CSV reading and writing, `np.savez`/`np.load`, file and directory removal, and the class-count CSV. Files are values, deletions are `Delete` outcomes, and class counts are numbers.
- The drivers: the loop over the `train`/`test`/`val` splits, glob, the `multiprocessing` fan-out, the progress bar and `main`. Each split is processed independently by the modelled per-file and per-split operations. `np.array_split` sharding is a parameter, a sequence of key lists.
- Time interpolation of the inertial columns (`interpolate(method='time')`). These are floating-point values from pandas; the model keeps the inertial cells as they were. Because of this, the `_a` stem check that guards XL/YL/ZL interpolation is not modelled either.
- `np.percentile`, the `MaxAbsScaler` fit and transform, and `np.fft.fft` are parameters. Fitting and caching the scaler (joblib) are left out.
- GAN augmentation and the `gan_flag` branches: they call foreign training code and use float count arithmetic.
- NaN and infinity: model cells are `Option<real>` in rides and reals in buckets. `np.any` treating NaN as true has no counterpart.
- Velocity.Differenced: where two fixes share a timestamp (time gap 0), pandas divides by zero and writes inf or NaN. The model leaves that cell empty instead. A negative gap cannot occur after sorting; the model would also give an empty cell there.
- Timestamps are integer milliseconds throughout. The datetime round trip (`utcfromtimestamp`, `view(np.int64) // 10**6`) is taken as the identity.
- The order in which the net-new grid rows are appended (Python set order) is not modelled: the frame is sorted afterwards, and net-new timestamps are distinct from the original ones.
- The window size, slice count and time interval are natural numbers. Negative values are not modelled.
- Buckets.AllKeyed: when two files produce the same key, the later file's bucket wins (dictionary update). The model states this and does not rule it out.
- Augment.AugmentWorker, Augment.PositiveCopies, Augment.AugmentInMemoryAsWritten, Augment.AugmentInMemory: both augmentation paths are only modelled for archives whose cells have at least seven channels (`Loadable`, `AllLabelled`), so that the label (the last channel) is never one of the six rotated inertial channels. `rotate_bucket` would also rotate a six-channel bucket, and without rotation no channel count is needed at all. Every archive the pipeline builds has 9 or 12 channels (`Scaling.Layout`).
- Outliers.FitAccBounds: when a training file without the acc column raises KeyError, the training files before it have already been deleted or read. The model returns only the error, not those deletions.

## Findings

| source | as written | input that shows it | evidently intended | confidence | as-written member | corrected member |
|---|---|---|---|---|---|---|
| preprocess.py:736-777 | The in-memory rotation branch builds `ride_images_list` with the rotated copies, but saves the original `data` array. `pos_counter` still grows by 3 per positive bucket. | Any in-memory training archive with one positive bucket, augmented with `rotation_flag=True`, `gan_flag=False`: the saved archive is unchanged, but its positive count is 3 higher. | Save the augmented list, so that the archive and the class counts agree. | high, not executed | Augment.AugmentInMemoryAsWritten, Augment.AsWrittenCountsDisagree | Augment.AugmentInMemory, Augment.AugmentationKeepsCountsInAgreement |
