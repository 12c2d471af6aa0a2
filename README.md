# Fracture-fragment data pipeline, modelled in Dafny

This project models the hand-written, non-library logic of the AMAAZE
machine-learning scripts for bone-fracture fragments. The data flows through
these steps:

- **Angle-level measurements.** Rows of virtual-goniometer readings are
  sorted by mesh and break number. They are cut into maximal runs of equal
  (mesh, break) keys, and each run becomes one record of a two-level
  dictionary, mesh -> break -> record.
  - The VG variants wrap each run's coordinates with the break's two
    endpoints, taken from an endpoint table.
  - They then put the coordinates in curve order with a greedy
    nearest-neighbour walk.
  - An older script reorders every stored curve in place.
- **Break-level rows.** These are aggregated to one record per fragment
  (specimen). Each record holds:
  - a break count;
  - one count per first-seen categorical value;
  - summary statistics;
  - copied or joined fragment fields.

  The CSV table is printed with its header taken from the first record.
- **Classifier experiments.** These split the data by specimen and take a
  majority vote of the per-break predictions inside each specimen.
  - The randomized experiments expand fragment-level data to break level.
  - They keep one result list per model.
  - They print the results under normalised model names.

Randomness and the floating-point parts are inputs to the model: the drawn
specimens, the random columns, the tie-break jitter, the distance, and the
mean, median and standard deviation.

The modules are:

- `Tsp`: `tsp_path` and `tsp_order`. The distance matrix is an `array2` whose
  entries are `Fin(d)` or `Inf`. `tsp_path` walks it and blanks columns in
  place. `tsp_order` tries every start on a copy and keeps the walk of least
  total. Both are proved against a functional walk `Walk`.
  - Properties proved: the walk is a permutation; each step is a first
    nearest neighbour; the chosen start has the least total and is the
    earliest such start.
  - The copies in preprocessing/process_VG_data.py and old/order_all_breaks.py
    are the same text, and are modelled by the same members.
- `SpecimenSplit` and `Voting`: `train_test_split` and `specimen_voting`.
- `BreakCurves`: the four run-segmentation scripts, the endpoint dictionary,
  and the reordering of all stored curves.
- `FragLevel`: break_to_frag_level.py and
  preprocessing/compile_frag_level_ml.py. One model is parameterised by a
  `Schema`, which holds the copied, counted, summarised and joined field
  lists.
- `FragToBreak`: `frag_to_break` in its three forms, and the result
  dictionary with `append`. The result dictionary is a class whose list map
  is updated in place.
- `ModelNames`: the `print_results` renaming and the table's model-name
  chain.
- `Seqs` and `Wrappers`: shared vocabulary. `Seqs` covers deduplication in
  first-seen order, counting, permutations and gathering. `Wrappers` holds
  Option and Result.

Where the code and its documentation disagree, the model follows the code.
The comment at src/utils.py:506 says the jitter breaks ties at random. But the
jitter is a single scalar added to every count, so it never changes the
arg-max. Ties always go to the smallest label (`Voting.GuessIgnoresJitter`,
`Voting.GuessIsSmallestMode`).

## Model

| member | source | states |
|---|---|---|
| Tsp.ArgMin | utils.py:379 | `np.argmin` returns an in-range position whose value nothing is below, and every earlier position is strictly above it (the first minimum) |
| Tsp.Walk | utils.py:374-383 | the walk from `i` has the requested length, starts at `i`, and stays inside the matrix |
| Tsp.StepLengths | utils.py:380 | `length` has one entry fewer than the path |
| Tsp.BestStart | utils.py:367-371 | the kept start's total is not above any start's total, and every earlier start's total is strictly above it (strict `<` keeps the earliest) |
| Tsp.WalkPrefix | utils.py:378-379 | a shorter walk from the same start is a prefix of a longer one |
| Tsp.WalkStep | utils.py:379 | a walk grows by the first arg-min of the current row of the working copy |
| Tsp.WalkDistinct | utils.py:374-383 | on a matrix with +inf exactly on its diagonal, the walk never revisits a point |
| Tsp.WalkIsPermutation | utils.py:362 | `tsp_path` on such a matrix returns a permutation of 0 .. n-1 |
| Tsp.WalkIsNearestNeighbour | utils.py:379-381 | each step goes to an unvisited point at finite least distance, with the lowest index among ties, and `length[k]` is the original distance of that step |
| Tsp.TotalFinite | utils.py:365-370 | every start's walk has a finite total, so for n >= 2 the first walk replaces the +inf placeholder |
| Tsp.SumInfinite | utils.py:365 | the initial `min_length` of n-1 infinities sums to +inf |
| Tsp.BlankColumn | utils.py:381 | `D[:, c] = np.inf` sets column c to +inf and changes no other entry |
| Tsp.CopyMatrix | utils.py:368 | `D.copy()` is a fresh array with the same entries |
| Tsp.TspPath | utils.py:374-383 | the in-place walk returns `Walk` and its step lengths, and leaves D with the columns of every point it left blanked (also the copies at preprocessing/process_VG_data.py:7-16 and old/order_all_breaks.py:28-37) |
| Tsp.WalkOnCopy | utils.py:368 | a walk on a copy returns `Walk` from that start, with total `Total`, and leaves the caller's matrix unchanged |
| Tsp.TryStart | utils.py:368-371 | trying start i keeps the least walk among starts 0 .. i, with the earliest start on ties |
| Tsp.ShortestWalk | utils.py:365-372 | the search loop returns the walk from `BestStart` |
| Tsp.DistanceMatrix | utils.py:360-362 | the matrix is square, of the number of points, with +inf exactly on the diagonal |
| Tsp.TspOrder | utils.py:338-372 | unequal coordinate lengths or no points fail; otherwise the result is a permutation of 0 .. n-1 and is the greedy walk from the best start (also the copies at preprocessing/process_VG_data.py:70-104 and old/order_all_breaks.py:39-53) |
| SpecimenSplit.RoundHalfEven | src/utils.py:439 | Python's `round` is within 0.5 of its argument, and an exact half goes to the even neighbour |
| SpecimenSplit.TestSize | src/utils.py:439 | the test size is at least 1, and it is the banker's-rounded double share `fragments.size * percent_test` unless that rounds below 1 |
| SpecimenSplit.TestSizeFits | src/utils.py:437-440 | with one or more specimens and a share in (0, n], which a fraction in (0, 1] gives, the size is between 1 and the number of specimens |
| SpecimenSplit.EmptyInputFails | src/utils.py:439-440 | on empty input the size exceeds the empty population, so the draw fails |
| SpecimenSplit.SmallShareHoldsOutOne | src/utils.py:439 | every share below 1.5 holds out exactly one specimen (ten specimens at 1% among them) |
| SpecimenSplit.Positions | src/utils.py:450-457 | each side's row indices are in range, increasing, and hold only rows of that side |
| SpecimenSplit.PositionsComplete | src/utils.py:450-457 | every row of a side is among that side's positions |
| SpecimenSplit.PositionsPartition | src/utils.py:450-457 | train count plus test count equals the row count |
| SpecimenSplit.SpecimenIntegrity | src/utils.py:451-454 | no specimen has rows on both sides, and a row is held out exactly when its specimen was drawn |
| SpecimenSplit.RoutedStep | src/utils.py:451-457 | one more row extends the test lists by its data, target and specimen when its specimen was drawn, and otherwise the training lists by its data and target, with the other side unchanged |
| SpecimenSplit.RouteRow | src/utils.py:451-457 | one loop pass appends row i to the test lists when its specimen was drawn, and to the training lists otherwise |
| SpecimenSplit.Route | src/utils.py:450-457 | the loop's five lists gather data, target and specimen at the test and train positions, in row order |
| SpecimenSplit.TrainTestSplit | src/utils.py:403-471 | failure exactly when the size exceeds the distinct specimens; otherwise the routed split, sizes that add up, and only drawn specimens in `frag_test` |
| Voting.MaxLabel | src/utils.py:507 | the largest vote is one of the votes and is at least every vote |
| Voting.Bincount | src/utils.py:507 | `np.bincount` has max+1 entries, and entry v is the number of votes for v |
| Voting.ArgMax | src/utils.py:507 | `np.argmax` is the first position of a greatest value |
| Voting.Jittered | src/utils.py:507 | the jittered counts have one entry per label |
| Voting.JitteredAt | src/utils.py:507 | entry v of the jittered counts is v's vote count plus the one scalar jitter |
| Voting.GuessIsSmallestMode | src/utils.py:507-508 | the guess is one of the votes, has the most votes, and every smaller label has strictly fewer |
| Voting.SmallestModeUnique | src/utils.py:507 | at most one label is the smallest mode |
| Voting.GuessIgnoresJitter | src/utils.py:506-507 | any two jitter values give the same guess |
| Voting.UnanimousVotes | src/utils.py:507 | unanimous votes elect their label |
| Voting.VotesOf | src/utils.py:500-501 | a specimen has as many votes as rows naming it |
| Voting.VotesAreRowPredictions | src/utils.py:500-501 | every vote of s is the prediction at some row naming s |
| Voting.LastRow | src/utils.py:496-497 | the last row naming s is in range, names s, and no later row names s |
| Voting.LastTruth | src/utils.py:495-497 | a specimen's truth is the label of the last row naming it |
| Voting.LastTruthStep | src/utils.py:496-497 | one more row makes its label its specimen's truth and leaves other specimens' truths unchanged |
| Voting.OpenRow | src/utils.py:496-497 | one pass of the first loop (re)creates the row's record with its truth and no votes |
| Voting.OpenRecords | src/utils.py:495-497 | the first loop makes one record per distinct specimen, in first-seen order, each with its last row's truth and no votes |
| Voting.CastVotes | src/utils.py:500-501 | the second loop gives every specimen exactly its rows' predictions, in row order |
| Voting.Correct | src/utils.py:504-510 | the number of correct guesses is at most the number of specimens |
| Voting.CorrectStep | src/utils.py:509-510 | counting one more specimen adds one exactly when its guess equals its truth |
| Voting.SettledAt | src/utils.py:505-508 | a settled specimen holds its finished record, and the others keep their voted records |
| Voting.Settle | src/utils.py:507-510 | one pass of the tally sets the guess from the votes and reports whether it equals the truth |
| Voting.Tally | src/utils.py:503-510 | the third loop gives every specimen its finished record and counts the correct guesses |
| Voting.RatioBounds | src/utils.py:512 | a count out of a positive total lies in [0, 1] |
| Voting.SpecimenVoting | src/utils.py:473-514 | failure exactly on empty `frag_test` (division by zero); otherwise one record per distinct specimen in first-seen order, each with its last truth, its votes and its smallest-mode guess, and Mean Accuracy = correct / #specimens, which lies in [0, 1] |
| Voting.PerfectPredictionsScoreOne | src/utils.py:504-512 | perfect predictions on specimens with consistent labels score every specimen right |
| BreakCurves.Prefix | preprocessing/process_VG_data.py:130 | `s[:10]` has length min(|s|, 10) and is a prefix of s |
| BreakCurves.KeysOf | process_break_curve_data.py:35 | the key column has one (mesh, break) key per row |
| BreakCurves.RunEnd | process_break_curve_data.py:32-35 | a run ends at the first position whose key differs, or at the end |
| BreakCurves.Runs | process_break_curve_data.py:32-61 | the runs are empty exactly when no rows remain, start at the cursor, and lie within the rows |
| BreakCurves.RunsAreMaximal | process_break_curve_data.py:55-61 | the runs are contiguous, end at the last row, each holds one key, and the key changes at every boundary |
| BreakCurves.RunsCover | process_break_curve_data.py:55-61 | every row lies in some run |
| BreakCurves.RunsOrdered | process_break_curve_data.py:55-61 | later runs start after earlier ones end, so the runs are disjoint |
| BreakCurves.RunStartIsKeyChange | process_break_curve_data.py:35 | every run after the first starts where the key has just changed |
| BreakCurves.KeyChangeIsRunStart | process_break_curve_data.py:35 | every key change starts a run |
| BreakCurves.RunEndUnique | process_break_curve_data.py:35 | a range of one key that ends at a key change is the run from its start |
| BreakCurves.RunsStep | process_break_curve_data.py:55-61 | closing a run moves the cursor to its end |
| BreakCurves.GroupedRunsDistinct | process_break_curve_data.py:23 | on rows sorted by key, no two runs share a key |
| BreakCurves.PlaceStores | process_break_curve_data.py:48-52 | storing a record adds its mesh and break and leaves every other record as it was |
| BreakCurves.CollectMeshes | process_break_curve_data.py:48-49 | the dictionary's meshes are the earlier ones plus those of the stored entries |
| BreakCurves.CollectKeeps | process_break_curve_data.py:52 | storing entries of other keys leaves a stored record unchanged |
| BreakCurves.CollectLast | process_VG_data.py:64-68 | a repeated (mesh, break) key ends with the record of its last entry |
| BreakCurves.Column | process_break_curve_data.py:38-45 | a field column is the run's values in row order |
| BreakCurves.PlainCurve | process_break_curve_data.py:38-52 | every field list of a record has the run's length, and the count is the run length exactly in the current script; the old script's dict literal repeats 'Number_of_Vertices' (old/process_break_curve_data.py:43), so its record has no count |
| BreakCurves.PlainEntries | process_break_curve_data.py:32-61 | there is one entry per run |
| BreakCurves.PlainEntryAt | process_break_curve_data.py:47-52 | entry j is run j's record under the key of the run's first row |
| BreakCurves.PlainStep | process_break_curve_data.py:35-61 | closing the run [start, i) stores its record and continues from i |
| BreakCurves.RowMeshHasEntry | process_break_curve_data.py:48-49 | every row's mesh names some stored entry |
| BreakCurves.SegmentedMeshes | process_break_curve_data.py:48-49 | the top-level keys are exactly the rows' mesh names |
| BreakCurves.SegmentedRecord | process_break_curve_data.py:23-52 | on sorted rows every maximal run is stored as its own record, holding the run's rows in every column |
| BreakCurves.Store | process_break_curve_data.py:47-52 | one store creates the mesh's inner dictionary on first sight and sets the break's record |
| BreakCurves.SegmentBreaks | process_break_curve_data.py:26-61 | no rows fails (row 0 is read first); otherwise the result is one record per run, stored in order (also the count-less loop of old/process_break_curve_data.py:16-52) |
| BreakCurves.BuildEndpoints | process_VG_data.py:16-22 | the endpoint loop builds the dictionary of all endpoint rows, stored in order |
| BreakCurves.EndpointsPresent | preprocessing/process_VG_data.py:116-122 | a break has endpoints exactly when some endpoint row names it |
| BreakCurves.EndpointsLast | preprocessing/process_VG_data.py:122 | a break's endpoints are those of the last row naming it |
| BreakCurves.Wrap | process_VG_data.py:46-53 | `np.hstack([e1, col, e2])` is two longer, starts with e1, ends with e2, and holds col in between |
| BreakCurves.CurveOrder | process_VG_data.py:56 | `tsp_order` of at least one point is a permutation |
| BreakCurves.VGCoordinates | process_VG_data.py:46-58 | x, y and z have run length + 2 entries, the same values as the wrapped lists, and are all permuted by one index list |
| BreakCurves.VGRowColumns | preprocessing/process_VG_data.py:141-168 | the count is the run length, and angle, vertices, radius, fit and segparam keep row order |
| BreakCurves.VGRecord | preprocessing/process_VG_data.py:137-161 | one boundary step wraps, orders and permutes the coordinates into the VG record |
| BreakCurves.VGRecorder | process_VG_data.py:41-68 | the record builder builds the VG record |
| BreakCurves.VGRunEntry | process_VG_data.py:68 | a run's entry is stored under its 10-character mesh prefix and break key |
| BreakCurves.VGEntriesFail | process_VG_data.py:37 | the entries fail exactly when some run's key has no endpoints |
| BreakCurves.VGEntriesLength | process_VG_data.py:31-77 | successful entries are one per run |
| BreakCurves.VGEntryAt | process_VG_data.py:37-68 | successful entry j is run j's VG record, under its key and with its key's endpoints |
| BreakCurves.VGStep | preprocessing/process_VG_data.py:134-177 | closing a run either stops on a missing endpoint or stores the record and continues |
| BreakCurves.SegmentVGBreaks | process_VG_data.py:25-77 | no rows fails; otherwise the result is the VG segmentation, or the first run's key that has no endpoints (also the copy at preprocessing/process_VG_data.py:124-177) |
| BreakCurves.SegmentedVGFailsAt | process_VG_data.py:37 | a row whose (mesh prefix, break) has no endpoint row stops the script |
| BreakCurves.SegmentedVGFailsWitness | preprocessing/process_VG_data.py:137 | when the script stops, some row's key lacks endpoints |
| BreakCurves.SegmentedVGFails | preprocessing/process_VG_data.py:137 | the script stops exactly when some row's key lacks endpoints |
| BreakCurves.SegmentedVGRecord | preprocessing/process_VG_data.py:131-177 | on rows whose 10-character (mesh, break) keys are grouped and all have endpoints, every maximal run is stored as its own VG record, built from its key's endpoints |
| BreakCurves.ReorderedKeepsValues | old/order_all_breaks.py:71-77 | reordering keeps each coordinate list's length and multiset of values and changes no other field |
| BreakCurves.ReorderCurve | old/order_all_breaks.py:64-77 | one record is reordered exactly when `tsp_order` can take it, with x, y and z permuted by the same index list |
| BreakCurves.ReorderMesh | old/order_all_breaks.py:62-77 | every break of a mesh is reordered once, and the break numbers are unchanged |
| BreakCurves.ReorderAll | old/order_all_breaks.py:60-77 | every (mesh, break) record is reordered exactly once and the keys are unchanged; the loop stops at the first record `tsp_order` cannot take |
| BreakCurves.SomeBreakLeft | old/order_all_breaks.py:62 | a non-empty set of break numbers has a member to visit next |
| FragLevel.AccumOf | break_to_frag_level.py:28-54 | a specimen's entry has one list entry per break in every field, and it has breaks exactly when some row names it |
| FragLevel.Specimens | break_to_frag_level.py:30 | the specimen column |
| FragLevel.RowsOf | break_to_frag_level.py:33-54 | the rows of a specimen all name it |
| FragLevel.AccumIsRowsOf | break_to_frag_level.py:33-54 | a specimen's break count is its number of rows, and its field lists are the columns of those rows |
| FragLevel.RowsOfCount | break_to_frag_level.py:39 | a specimen's number of rows is its count in the specimen column |
| FragLevel.AccumAbsent | break_to_frag_level.py:33-36 | a specimen no row names has the fresh entry |
| FragLevel.CopyFromLastRow | break_to_frag_level.py:42-43 | a specimen's copy fields hold the values of the last row naming it |
| FragLevel.CatValues | break_to_frag_level.py:23-25 | `cat_values` has one list per counts field |
| FragLevel.NoteValues | break_to_frag_level.py:46-50 | each counts field's list gains the row's value exactly when it was not yet seen |
| FragLevel.NotedValues | break_to_frag_level.py:46-50 | the noted values after one more row are the first-seen values of the longer prefix |
| FragLevel.AccumStep | break_to_frag_level.py:33-54 | one more row changes only its own specimen's entry, by adding the row |
| FragLevel.AddToEntry | break_to_frag_level.py:33-54 | row i is added to its specimen's entry, which is created empty on first sight |
| FragLevel.AddFragRow | break_to_frag_level.py:29-54 | one pass keeps the order, entries and `cat_values` equal to those of the rows seen so far |
| FragLevel.BuildFragData | break_to_frag_level.py:19-54 | the row loop gives one entry per specimen in first-appearance order, each equal to `AccumOf`, and `cat_values` holds each field's distinct values in first-seen order (also preprocessing/compile_frag_level_ml.py:20-51, with no copy fields) |
| FragLevel.Min | preprocessing/compile_frag_level_ml.py:73 | `np.min` is an element of the list and at most every element |
| FragLevel.Max | preprocessing/compile_frag_level_ml.py:74 | `np.max` is an element of the list and at least every element |
| FragLevel.MinAtMostMax | preprocessing/compile_frag_level_ml.py:73-74 | `_min` <= `_max` |
| FragLevel.CopyItems | break_to_frag_level.py:64-65 | the copy entries have the copy fields as keys |
| FragLevel.CountItemsKeys | break_to_frag_level.py:71-75 | the count entries have the keys `field_value` for every first-seen value, including zero counts |
| FragLevel.StatItemsKeys | preprocessing/compile_frag_level_ml.py:71-77 | the summary entries have the five keys of every stats field |
| FragLevel.SummaryKeys | break_to_frag_level.py:59-84 | every specimen's record has the same keys in the same order |
| FragLevel.SumCountsAppend | break_to_frag_level.py:73-75 | one more value adds its multiplicity among the counted values |
| FragLevel.CountsAddUp | break_to_frag_level.py:73-75 | counts of distinct values covering a list add up to its length |
| FragLevel.CountsSumToBreakCount | break_to_frag_level.py:71-75 | for every counts field, a specimen's counts add up to its break count (also preprocessing/compile_frag_level_ml.py:64-68) |
| FragLevel.AppendCounts | break_to_frag_level.py:73-75 | the inner loop appends `field_value` with the specimen's count for each value |
| FragLevel.AppendCopies | break_to_frag_level.py:64-65 | the copy loop appends the copy entries |
| FragLevel.AppendAllCounts | break_to_frag_level.py:71-75 | the counts loop appends the count entries of every field |
| FragLevel.AppendAllStats | break_to_frag_level.py:78-84 | the stats loop appends the five summaries of every field |
| FragLevel.Summarize | break_to_frag_level.py:59-84 | one pass of the second loop builds the specimen's record |
| FragLevel.Summaries | break_to_frag_level.py:58-61 | there is one record per distinct specimen |
| FragLevel.SummarizeAll | break_to_frag_level.py:19-84 | both passes give the summary records in first-appearance order |
| FragLevel.JoinAll | preprocessing/compile_frag_level_ml.py:80-85 | the join loop gives the joined records, or the first specimen the fragment table lacks |
| FragLevel.JoinStep | preprocessing/compile_frag_level_ml.py:82-85 | one record is joined in place, and the rest follow |
| FragLevel.AfterSteps | preprocessing/compile_frag_level_ml.py:82-85 | the records done so far, followed by the outcome of the rest, compose step by step |
| FragLevel.JoinedFails | preprocessing/compile_frag_level_ml.py:83-85 | the join fails exactly when some specimen with fields to join has no fragment-table row |
| FragLevel.JoinedAt | preprocessing/compile_frag_level_ml.py:84-85 | a successful join keeps the records in order and appends to each its specimen's fragment fields |
| FragLevel.JoinedLength | preprocessing/compile_frag_level_ml.py:82 | a successful join has one record per input record |
| FragLevel.FragLevelTable | break_to_frag_level.py:19-99 | the script prints the table `FragTableOf` or fails; preprocessing/compile_frag_level_ml.py:20-100 prints it with the joined fields |
| FragLevel.FragTableFails | preprocessing/compile_frag_level_ml.py:80-92 | the table is refused exactly when there are no rows, or some row's specimen has fields to join and no fragment-table row |
| FragLevel.FragTableFailsAt | preprocessing/compile_frag_level_ml.py:83-85 | a row whose specimen is missing from the fragment table refuses the join |
| FragLevel.FragTableFailsWitness | preprocessing/compile_frag_level_ml.py:83-85 | a refused join names some row's specimen that is missing from the fragment table |
| FragLevel.FragTableNotEmpty | break_to_frag_level.py:89 | one or more rows give one or more records, so the header can read the first |
| FragLevel.FragRecordIs | break_to_frag_level.py:94-98 | record k is the k-th specimen's summary followed by its joined fields |
| FragLevel.FragRecordKeys | break_to_frag_level.py:89-98 | record k's keys are the shared layout and the joined fields, and its break count is the specimen's number of rows |
| FragLevel.FragTableHeader | break_to_frag_level.py:89-90 | the header is 'Specimen' followed by the shared layout and the joined fields |
| FragLevel.FragRecordAt | break_to_frag_level.py:89-99 | record k's keys are the header after 'Specimen' |
| FragLevel.FragTableRecords | break_to_frag_level.py:89-99 | one record per specimen in first-appearance order; every record's keys are the header's; each break count is the specimen's number of rows |
| FragToBreak.Expand | src/randomized_experiment.py:42-45 | repeating each element B times gives |xs| * B entries, each drawn from xs |
| FragToBreak.ExpandAt | src/randomized_experiment.py:42-45 | entry i*B + j of the expansion is element i |
| FragToBreak.ExpandCount | src/randomized_experiment.py:43-45 | the expansion multiplies every element's count by B |
| FragToBreak.Labels | src/randomized_experiment.py:43 | the float labels equal the integer labels |
| FragToBreak.LabelsCount | src/randomized_experiment.py:43 | the float labels keep every label's count |
| FragToBreak.FragToBreak | src/randomized_experiment.py:12-51 | a negative B fails (`np.ones` refuses it); otherwise there are F*B rows and labels, with num_features + num_break_features columns when extra columns are asked for and num_features otherwise (also the copy at randomized_experiment.py:10-49) |
| FragToBreak.FragToBreakRows | src/randomized_experiment.py:42-49 | row i*B + j starts with `x_frag[i]`, continues with that row's random columns, and has label `y_frag[i]` (also randomized_experiment.py:40-47) |
| FragToBreak.FragToBreakLabels | src/randomized_experiment.py:43-45 | each label's count in y is B times its count in `y_frag` |
| FragToBreak.SingleFeatureFragToBreak | frag_level_experimenet.py:6-14 | a negative B fails; otherwise x and y have F*B rows and x has a single column |
| FragToBreak.SingleFeatureRows | frag_level_experimenet.py:9-12 | row i*B + j is `[x_frag[i]]` and its label is `y_frag[i]` |
| FragToBreak.AddName | src/randomized_experiment.py:113-117 | one model name gets an empty list and joins the keys when new |
| FragToBreak.AccuracyLog.constructor | src/randomized_experiment.py:110-117 | one empty list per distinct model name, keys in first-seen order |
| FragToBreak.AccuracyLog.Append | src/randomized_experiment.py:87-89 | every list grows by exactly `r[key]` when r has every key; otherwise the first missing key is returned, the earlier lists have grown, and the later ones are unchanged |
| ModelNames.SwapCommas | src/randomized_experiment_table.py:7 | `replace(',', ';')` keeps the length, replaces each comma by ';', and leaves no comma |
| ModelNames.SwapCommasPrefix | src/randomized_experiment_table.py:7-8 | swapping commas does not change whether the name starts with 'NeuralNetwork' |
| ModelNames.PrintName | src/randomized_experiment_table.py:7-9 | the listed name has no comma; a key starting 'NeuralNetwork' lists as 'NeuralNetwork', and any other key lists with its commas swapped |
| ModelNames.PrintNameIdempotent | src/randomized_experiment_table.py:7-9 | listing a listed name again changes nothing |
| ModelNames.PrintResults | src/randomized_experiment_table.py:4-10 | one line per key in dictionary order, with the listed name and the mean and deviation of its accuracies |
| ModelNames.Head | src/randomized_experiment_table.py:64 | `split('(', 1)[0]` is a prefix of the key with no '(', and is followed by '(' when shorter than the key |
| ModelNames.TableName | src/randomized_experiment_table.py:64-76 | the reassignment chain yields `TableNameOf`: 'Linear SVM' for a linear kernel, then 'RBF SVM' for any other SVC, otherwise the renamed class name |
| ModelNames.NoRenameOfLabels | src/randomized_experiment_table.py:73-76 | no fixed label is renamed again by the 'KN' or 'Neural' rules |
| ModelNames.TableNameNoParen | src/randomized_experiment_table.py:64-76 | no table name contains '(' |
| ModelNames.LabelsAreFixed | src/randomized_experiment_table.py:65-76 | every fixed label maps to itself |
| ModelNames.TableNameIdempotent | src/randomized_experiment_table.py:64-76 | renaming a table name again changes nothing |
| ModelNames.TableRows | src/randomized_experiment_table.py:63-84 | one row per key of `break_acc`, in order, when every key is also in `boot_acc` and `frag_acc`; otherwise the first key missing from them |
| Seqs.Dedup | break_to_frag_level.py:46-50 | first-seen deduplication is distinct and holds exactly the elements of the input |
| Seqs.DedupSnoc | break_to_frag_level.py:49-50 | one more element is appended unless it was already seen |
| Seqs.GatherPermutation | old/order_all_breaks.py:71-73 | gathering through a permutation keeps the multiset of values |

## Left out

- I/O is not modelled: CSV reads and writes, pickle, `sys.stdout` redirection, LaTeX writing and plotting. The printed CSV is modelled as a header and a list of records.
- The ordering of sorted rows is a precondition, not modelled. `sort_values` is not computed. Lemmas that need sorted rows take `Grouped`: rows of one key form one block. Sorting by the full (mesh, break) gives this for the plain scripts' keys. The segmentation methods themselves work on any row order.
- BreakCurves.SegmentedVGRecord: it assumes the 10-character keys are grouped. Sorting by the full `Mesh_Name` does not give that, so meshes sharing a 10-character prefix whose breaks interleave are not covered. On such rows the source overwrites an earlier run's record with the last run of the same key (`BreakCurves.CollectLast`).
- Dictionary iteration order is a parameter. Where the source walks a dict's keys (`print_results`, the table loop), the model takes the key order `order` as a parameter. Dictionaries the source builds itself carry their insertion order explicitly (`Dedup`, `AccuracyLog.keys`).
- Random draws are inputs:
  - `np.random.choice` is the drawn specimen set.
  - `np.random.rand(n, num_break_features)` is the `noise` rows.
  - `np.random.rand(1,1)` is the scalar `jitter`.
  - The bootstrap resampling is out of scope.
- Floating-point statistics are parameters: mean, median and std are the `Aggregates`/`mean`/`std` functions, and '%.1f' formatting is not modelled.
- The Euclidean distance of `spatial.distance_matrix` is a `metric` parameter. Coordinates are real numbers, with no NaN or rounding.
- FragLevel.MinAtMostMax: the values of the summarised (stats) fields are real numbers with no NaN. An empty CSV cell reads as NaN, `np.min`/`np.max` then return NaN, and `_min <= _max` fails; `FragLevel.Min` and `FragLevel.Max` do not cover that case either.
- FragLevel.SummarizeAll: a record is a sequence of (key, value) items, where the source's record is a dict. A repeated `field_value` or stats key would overwrite in place in the source and appears twice in the model. The scripts' constant field lists never produce a repeated key.
- The classifiers, training and `train_test_models` are left out, as foreign library calls.
- Exceptions become failure values: a KeyError, an IndexError, the division by zero in `specimen_voting`, a negative `np.ones` shape, or a `np.random.choice` sample larger than its population.
  - Partial effects before a raise are not modelled. Examples are a half-built dictionary or the lines already printed.
  - The exception is `AccuracyLog.Append`, which models the lists grown before the KeyError.
- Numpy broadcasting of `y_frag` with shape (F, 1) against (F, B) is assumed as written in frag_level_experimenet.py: a column vector of labels.
- SpecimenSplit.TestSize: the floating-point product `fragments.size * percent_test` is an input, `share`, not computed. The caller passes the double the source computes (31.499999999999996 for 45 specimens at 0.7, so 31 specimens); rounding of the product is not modelled.
- SpecimenSplit.TrainTestSplit: the model requires the drawn set to be what `np.random.choice` returns whenever it does not raise: distinct specimens of the input, of the test size. It takes the double product `share` rather than `percent_test`.
- FragToBreak.FragToBreak: the model does not check that `noise` has the shape the source draws. It requires the caller to pass one of F*B rows and num_break_features columns.
- Voting.SpecimenVoting: votes and truths are `nat`, class indices 0 .. num_classes-1, as src/Moclan_replication.py:163 sizes them (`num_classes = np.max(target)+1`). The ValueError `np.bincount` raises on a negative vote is not modelled, and neither is a negative truth, which the source accepts and never matches.
- Tsp.BestStart: walk totals are exact real sums. On an exact tie the model keeps the earliest start. In the source, `np.sum` adds doubles in its own order, so two walks with the same step lengths in different orders (a chain walked from either end) can get totals that differ in the last bit, and the later start can win.
- FragLevel.JoinAll: the fragment table enters as a map `fragInfo` from a specimen to its first table row (`frag_info[field].iloc[0]`). Selecting that first row from the table is not modelled.
- Tsp.TspOrder: `n == 0` is reported as a failure, standing for the negative shape of `np.ones((n-1,))`.
- Tsp.WalkIsPermutation and Tsp.WalkIsNearestNeighbour are stated for matrices with +inf exactly on the diagonal, which is what `tsp_order` builds. For a matrix with other infinite entries, only the `tsp_path` equations (`Tsp.TspPath`) are proved.
- The duplicated `tsp_path`/`tsp_order` in preprocessing/process_VG_data.py and old/order_all_breaks.py is modelled once, because the code is the same.
