# Shared-deletion detection in a multiple sequence alignment

This project models and proves the deletion-detection core of
`plotting/onion_trees.py`. The input is an alignment of equal-width consensus
sequences, and one sample is the reference, called "patient zero". The
pipeline works in five steps:

1. It finds the columns where the reference holds the gap symbol `-`. These
   are insertion columns.
2. It removes those columns from every record, in place and one column at a
   time. The i-th removal deletes the character now found at `pos - i`.
3. It checks that the reference is left without gaps.
4. It cuts every sequence to the coding window `[265, 29674)` and stores
   them in a dictionary keyed by record identifier.
5. In every sample, it splits the gap positions into maximal runs of
   consecutive positions. It keeps the runs longer than `min_del_len` (2 by
   default), gives each run the key `min:max`, and groups the samples that
   share a key and a length. The groups are sorted by their number of
   samples.

The modules follow these components:

- `Gaps`: the gap scanner. `GapPositions` is the regular-expression scan for
  `-`. The source has three copies of this scan: `identify_insertion_positions`
  (lines 76-77), `find_del_positions` (61-62) and the first line of
  `find_deletions` (65). The model defines it once.
- `Insertions`: the reference definition `Drop` (filter out a set of
  columns) and the imperative `RemoveInsertions`, proved equal to it.
- `Normalizer`: alignment records, `get_seq`, Python slicing, the ordered
  Python dictionary, `get_seqs` and `process_cns_seqs`. `process_cns_seqs`
  works on an `array<Record>` that it updates in place.
- `Runs`: `consecutive_groups` and `find_deletions`.
- `Coords`: `get_deletion_coord`, the `"min:max"` text of a key, Python's
  `str.split` and `int`, and `adjust_coords`.
- `Aggregation`: the filter, explode, group-by and sort steps of
  `identify_deletions`, written over lists.
- `Pipeline`: `identify_deletions` after the alignment has been read.

Three choices differ from a direct transliteration:

- Python's `assert` on line 46 is a Dafny `assert` that the verifier
  discharges. For an alignment of equal widths it always holds, so the model
  has no "invariant violated" outcome.
- When no record has the reference's name, `get_seq` fails with an unbound
  local variable. The model returns `None` instead, and normalization and the
  pipeline return `Err(ReferenceNotFound)`. As in the source, the alignment is
  then left unchanged.
- The grouping key is a pair of integers, not its text. `FormatKeyInjective`
  proves that grouping by the text `"min:max"` gives the same groups.

Four points of behaviour follow the code, not what its surrounding
workflow might suggest:

- The window is not configurable. `identify_deletions` calls `get_seqs`
  with its defaults, 265 and 29674, and so does the model. `GetSeqs` takes
  the bounds as parameters with those defaults.
- A reference that still has gaps after removal would make the assert on
  line 46 fail. The model proves that this cannot happen.
- Any sequence of 265 columns or fewer is cut to the empty string by the
  default window. A short alignment therefore reports no deletions at all,
  whatever gaps it has.
- `adjust_coords` is defined but never called. So the keys in the model's
  result table are positions inside the window, and `AdjustCoordsShifts`
  states what `adjust_coords` would do to them.

## Model

| member | source | states |
|---|---|---|
| `Gaps.GapPositions` | plotting/onion_trees.py:76-77 | The result is strictly increasing. Every index in it is inside the sequence and holds `-`. Every `-` index of the sequence is in it. |
| `Gaps.NoGapPositions` | plotting/onion_trees.py:46 | The gap scan is empty exactly when the sequence holds no `-`. This is the test behind the sanity check. |
| `Insertions.DropNothing` | plotting/onion_trees.py:79-82 | About `Insertions.Drop`, the column filter. Removing no column returns the sequence unchanged. |
| `Insertions.DropSplit` | plotting/onion_trees.py:79-82 | If every removed column lies before `q`, the part of the sequence from `q` on is kept whole. |
| `Insertions.DropInRange` | plotting/onion_trees.py:79-82 | Column indices outside the sequence do not change the result. |
| `Insertions.DropStep` | plotting/onion_trees.py:81 | One loop step: when `i` columns before `pos` are already gone, slicing out index `pos - i` removes exactly column `pos`, and `pos >= i`. |
| `Insertions.RemoveInsertions` | plotting/onion_trees.py:79-82 | For a strictly increasing list of in-range positions, the shifting-offset loop returns the original sequence with exactly those columns filtered out, in order. Its length is the input length minus the number of positions. |
| `Insertions.DropGaps` | plotting/onion_trees.py:38-46 | Removing a set of columns that covers every `-` of a sequence leaves no `-`. |
| `Insertions.ReferenceGapFree` | plotting/onion_trees.py:38-46 | The reference, with the gap columns of its own unshrunk sequence removed, has an empty gap scan. So the assert on line 46 always holds. |
| `Normalizer.FindRecord` | plotting/onion_trees.py:69-74 | Returns `None` exactly when no record has the name. Otherwise it returns the index of the first record with that name. |
| `Normalizer.FindRecordByNames` | plotting/onion_trees.py:45 | The lookup depends only on the names. After the sequences are rewritten, the second lookup finds the same record as the first. |
| `Normalizer.GetSeq` | plotting/onion_trees.py:69-74 | The search loop with `break` returns the sequence of the first record with the name. It returns `None` exactly when no record has the name, which is the source's failure on an unbound `seq`. |
| `Normalizer.SliceBound` | plotting/onion_trees.py:58 | A slice bound clamps into `0..len`. A non-negative bound is kept up to `len`. A negative bound `i` counts from the end and gives `len + i`, or 0 when `i < -len`, as in Python. |
| `Normalizer.PySlice` | plotting/onion_trees.py:58 | For non-negative bounds, `s[lo:hi]` has length `max(0, min(len(s), hi) - lo)`, and its k-th character is `s[lo + k]`. |
| `Normalizer.KeySetCons` | plotting/onion_trees.py:54-58 | The keys of a dictionary with one more entry in front are that entry's key plus the old keys. |
| `Normalizer.PutKeys` | plotting/onion_trees.py:58 | About `Normalizer.Put`, which models `d[key] = value`. The assignment `d[key] = value` adds `key` to the keys and no other key. |
| `Normalizer.PutDistinct` | plotting/onion_trees.py:58 | The assignment never creates a second entry for a key. |
| `Normalizer.PutLookup` | plotting/onion_trees.py:58 | After the assignment, `d[key]` is `value`, and every other key keeps its value. |
| `Normalizer.SeqsTableKeys` | plotting/onion_trees.py:53-59 | About `Normalizer.SeqsTable`, the dictionary of lines 54-58. The keys of the built dictionary are exactly the record identifiers, each with one entry. |
| `Normalizer.IdsSnoc` | plotting/onion_trees.py:55-56 | The identifiers of the records are those of all records but the last, plus the last record's. |
| `Normalizer.SeqsTableLast` | plotting/onion_trees.py:53-59 | The value stored under an identifier is the window of the last record with that identifier. A later duplicate overwrites an earlier one. |
| `Normalizer.GetSeqs` | plotting/onion_trees.py:53-59 | With the default window 265..29674, the loop returns the dictionary whose keys and values `SeqsTableKeys` and `SeqsTableLast` describe. |
| `Normalizer.StripIdempotent` | plotting/onion_trees.py:36-49 | Normalizing an already normalized alignment against the same reference removes nothing. |
| `Normalizer.StripInsertions` | plotting/onion_trees.py:42-43 | The in-place loop over the records replaces each record's sequence with its filtered version and leaves identifiers and names as they were. Every width shrinks by the number of positions. |
| `Normalizer.ProcessConsensusSeqs` | plotting/onion_trees.py:36-49 | If the reference's name is not found, it fails with `ReferenceNotFound` and the alignment is unchanged. Otherwise every record loses exactly the reference's original gap columns, and every record shrinks by the same number of columns. The returned reference is found again at the same index and holds no `-`. The returned dictionary is the windowed table of the stripped records. |
| `Runs.ConsecutiveGroups` | plotting/onion_trees.py:66 | There are no groups exactly when the list is empty. Every group is non-empty, and the first group starts with the first element. |
| `Runs.GroupsConsecutive` | plotting/onion_trees.py:66 | Every group is non-empty, and each element is the previous one plus 1. |
| `Runs.GroupsFlatten` | plotting/onion_trees.py:66 | The groups laid end to end equal the input list. |
| `Runs.GroupsMaximal` | plotting/onion_trees.py:66 | No group starts right after the last element of the group before it. |
| `Runs.GroupsAscending` | plotting/onion_trees.py:66 | On a strictly increasing list, each group starts more than one past the last element of the previous group. |
| `Runs.FindDeletions` | plotting/onion_trees.py:64-67 | The runs are non-empty and consecutive. Laid end to end they equal the gap positions. Each run starts more than 1 past the end of the previous run. |
| `Runs.NoGapsNoRuns` | plotting/onion_trees.py:64-67 | A sequence without `-` has no deletion runs. |
| `Runs.RunMemberIsGap` | plotting/onion_trees.py:64-67 | Every position of every run is inside the sequence and holds `-`. |
| `Runs.ExampleGroups` | plotting/onion_trees.py:66 | The positions `[5, 6, 7, 10, 11]` group into exactly `[5, 6, 7]` and `[10, 11]`. |
| `Runs.ConsecutiveAt` | plotting/onion_trees.py:66 | In a consecutive run, the i-th element is the first plus i. |
| `Coords.SeqMin` | plotting/onion_trees.py:85 | `np.min`: an element of the list that is at most every element. |
| `Coords.SeqMax` | plotting/onion_trees.py:86 | `np.max`: an element of the list that is at least every element. |
| `Coords.DeletionCoord` | plotting/onion_trees.py:84-87 | Both ends of the key belong to the run, and every position of the run lies between them. |
| `Coords.CoordOfConsecutiveRun` | plotting/onion_trees.py:84-87 | For a consecutive run, the key is (first, last), and `max - min + 1` is the run's length. |
| `Coords.DecimalRoundTrip` | plotting/onion_trees.py:87 | Reading back the decimal digits of a natural number gives that number. |
| `Coords.ParseIntRoundTrip` | plotting/onion_trees.py:90-91 | About `Coords.ParseInt`, which models `int()`. `int()` applied to the decimal text of any integer gives that integer back. |
| `Coords.SplitNone` | plotting/onion_trees.py:90-91 | About `Coords.Split`, which models `str.split`. `split(':')` of a text without a colon is that text alone. |
| `Coords.SplitAt` | plotting/onion_trees.py:90-91 | `split(':')` of a colon-free piece, a colon and the rest gives the piece followed by the split of the rest. |
| `Coords.NoColon` | plotting/onion_trees.py:87 | The decimal text of an integer holds no colon. |
| `Coords.SplitKey` | plotting/onion_trees.py:90-91 | `split(':')` of a key's text `f'{min}:{max}'` gives exactly its two decimal ends. |
| `Coords.FormatKeyInjective` | plotting/onion_trees.py:87 | About `Coords.FormatKey`, which models the f-string on line 87. Two keys with the same text are the same pair, so grouping by the text is grouping by the pair. |
| `Coords.AdjustCoordsShifts` | plotting/onion_trees.py:89-92 | About `Coords.AdjustCoords`, which models `adjust_coords`. On the text of a key, `adjust_coords` succeeds and returns the text of the key with 265 added to each end. |
| `Aggregation.RunsColumn` | plotting/onion_trees.py:18 | The column of runs built with `find_deletions` holds only non-empty runs. |
| `Aggregation.SampleDeletionsMembers` | plotting/onion_trees.py:21-27 | A sample's retained deletions are exactly its runs strictly longer than the threshold, each with its key and length. |
| `Aggregation.RetainedSound` | plotting/onion_trees.py:20-27 | About `Aggregation.Retained`, which models lines 20-27. Every exploded, filtered row is longer than the threshold and describes some run of some sample. |
| `Aggregation.RetainedComplete` | plotting/onion_trees.py:20-27 | Every run of every sample that is longer than the threshold is among the exploded, filtered rows. |
| `Aggregation.AddDeletionRecords` | plotting/onion_trees.py:29-31 | After adding a deletion, the groups record what they recorded before plus that deletion. |
| `Aggregation.KeysCons` | plotting/onion_trees.py:29 | The group keys of rows with one more row in front are that row's key plus the old keys. |
| `Aggregation.AddDeletionKeys` | plotting/onion_trees.py:29 | Adding a deletion adds its (key, length) to the group keys and no other. |
| `Aggregation.AddDeletionUnique` | plotting/onion_trees.py:29 | Adding a deletion never creates a second group for a (key, length). |
| `Aggregation.AddDeletionValid` | plotting/onion_trees.py:30-31 | Adding a deletion keeps every group non-empty and free of repeated sample IDs. |
| `Aggregation.GroupDeletionsSpec` | plotting/onion_trees.py:29-32 | About `Aggregation.GroupDeletions`, which models the `groupby`/`agg`. The groups record exactly the retained deletions. Keys are unique, and every group has at least one sample and no sample twice. |
| `Aggregation.InsertByCountPerm` | plotting/onion_trees.py:33 | Insertion keeps all rows and adds the new one. |
| `Aggregation.InsertByCountSorted` | plotting/onion_trees.py:33 | Inserting into rows already sorted by `num_samples` keeps them sorted. |
| `Aggregation.SortByCountSpec` | plotting/onion_trees.py:33 | About `Aggregation.SortByCount`, which models `sort_values`. The sort returns a permutation of the rows in non-decreasing `num_samples` order. |
| `Aggregation.InsertUnique` | plotting/onion_trees.py:33 | Inserting a row whose (key, length) is new keeps the keys unique. |
| `Aggregation.SortByCountUnique` | plotting/onion_trees.py:33 | Sorting keeps the (key, length) pairs unique. |
| `Aggregation.RunOfHasRun` | plotting/onion_trees.py:18-21 | A run in the column of runs is exactly a run that `find_deletions` reports for that sample's sequence. |
| `Aggregation.TableOrderAndKeys` | plotting/onion_trees.py:29-33 | About `Aggregation.IdentifyDeletionTable`, the result of lines 18-33. The result rows are in non-decreasing `num_samples` order, and no two rows share a (key, length). |
| `Aggregation.GroupRowSound` | plotting/onion_trees.py:25-31 | Every sample in a group has a run with the group's key and length, and that length is above the threshold. |
| `Aggregation.GroupRowComplete` | plotting/onion_trees.py:25-31 | A sample with a run of a group's key and length, above the threshold, is in that group. |
| `Aggregation.GroupRow` | plotting/onion_trees.py:25-31 | Every group has `del_len > min_del_len` and at least one sample, with no repeats. A sample is in it exactly when one of its runs has that key and length. |
| `Aggregation.TableRow` | plotting/onion_trees.py:20-33 | Every result row has `del_len > min_del_len`, and `max - min + 1 == del_len`. Its `num_samples` is at least 1 and equals the number of distinct sample IDs. A sample is in the row exactly when `find_deletions` gives it a run with the row's key and length. |
| `Aggregation.TableComplete` | plotting/onion_trees.py:20-31 | Every run of every sample that is longer than the threshold appears in a result row with its key, its length and its sample. |
| `Pipeline.IdentifyDeletions` | plotting/onion_trees.py:8-34 | If the reference is missing, it fails with `ReferenceNotFound` and the alignment is unchanged. Otherwise the alignment is stripped of the reference's gap columns, and the result is the deletion table of the windowed sequences with threshold `min_del_len` (2 by default). |
| `Common.DistinctCardinality` | plotting/onion_trees.py:31 | A list without repeats has as many distinct elements as elements. This is why `nunique` equals the length of the `unique` list. |

## Left out

- Reading the alignment file with `AlignIO.read` (line 11). The alignment is
  given as an array of records.
- `IdentifyDeletions` requires sequences of equal width. The alignment
  reader in the source enforces this, so the model takes it as a
  precondition.
- The pandas machinery itself: DataFrame construction, `explode`,
  `groupby`/`agg`, `reset_index` and `sort_values`. Its effect is modelled on
  lists.
- The unused `seq_len` column (line 17).
- The non-empty filter on line 20. It only keeps `explode` from making
  empty rows, and samples without runs add no rows in the model either.
- The order of rows with equal `num_samples`. pandas first orders groups by
  key, then sorts them with an unstable quicksort, so the order of ties is
  not fixed.
- `Aggregation.SortByCountSpec`: states non-decreasing order and a
  permutation, not where ties end up. The model keeps ties in the order in
  which each key first appears.
- The `unique` column is a numpy array in pandas. The model uses a list in
  order of first appearance.
- `np.min`/`np.max` as numpy calls, and the width of `np.int64`. The model
  uses plain integer minimum and maximum over lists.
- `Coords.ParseIntRoundTrip`: models Python's `int()` only on an optional
  `-` followed by ASCII digits. Spaces, a `+` sign, underscores and
  non-ASCII digits are read as failures, although Python accepts them. Keys
  made by `get_deletion_coord` never contain them.
- `find_deletions_old` (lines 94-97). It is dead code that uses an
  `itemgetter` the file never imports. It was meant to compute the same
  runs as `find_deletions`.
- `cross_join` and `is_deletion_common` (lines 99-105). They are pandas
  merge helpers that the pipeline never calls.
- `Normalizer.ProcessConsensusSeqs`: does not model the type change of
  `rec.seq`. Biopython holds a `Seq` object there, the source stores a
  `str`, and the model keeps a string throughout.
- contaminant_utils.py: file reading, HTML templating, heatmaps, pandas
  reshaping and its two small row predicates.
- pipeline_consensus/scripts/analyse_contamination.py: workflow
  orchestration, CSV reading, floating-point log transforms and plotting.
