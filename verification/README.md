# Data preparation and weight averaging of the word-decoding script

`code/tfsdec_main.py` trains a classifier that decodes spoken words from
binned electrocorticography signals. This project models the part of the
script that decides *which data* the classifier sees and how its final weights
are formed. The model is pure functions over immutable values:

- **SignalStore**: the signal archive after unpickling. It models the loader's
  two shape assertions, and the `0` that is prepended to the list of bin
  boundaries ("stitch index") between recording segments.
- **WindowExtractor**: `extract_signal_from_fold`.
  - Each word event's onset (in samples) is mapped to a 32-sample bin.
  - The bin is placed in its recording segment by the numpy rank lookup
    (the last boundary strictly below the bin).
  - The event gets a lag-shifted window of `2 * half_window` bins. The window
    is kept only if it lies wholly inside that segment.
  - Kept windows are sliced with Python slice semantics and stacked with
    `np.stack`. Stacking fails on an empty list.
- **FoldPartition**: the three list comprehensions. They split the events of
  fold `i` by their `fold{i}` entry into `'train'`, `'dev'` and `'test'`.
- **LexOrder** and **Vocabulary**:
  - `word2index` enumerates `sorted(set(w_train))` in Python's code-point string
    order, and `index2word` is its inverse.
  - Each split's words are translated to class indices; an unseen word is a
    `KeyError`.
  - The class counts are computed with `np.unique(...).size`.
- **FoldPipeline**: one fold's data preparation, from partition to the six
  counts recorded in `results`.
- **WeightAverager**: the Keras callback.
  - `__init__` caps the averaging count at twice the patience.
  - `on_epoch_end` keeps a list of weight snapshots, dropping the oldest at a cap.
  - `on_train_end` averages the oldest retained snapshots with a running mean.

Python exceptions (`AssertionError`, `IndexError`, `KeyError`, the `ValueError`
of `np.stack`) become constructors of one `Error` datatype in `Results`.
Every operation that can fail returns a `Result`, so each error path is
modelled rather than excluded by a precondition.

The source does not check that the stitch index increases, although the
segment lookup only makes sense when it does. Here that ordering is the
predicate `SignalStore.Covers`. It is a hypothesis of the lemmas
that need it and is never assumed by the operations.
`SignalStore.LoadCoversIff` states exactly when a loaded index satisfies it.

## Model

| member | source | states |
|---|---|---|
| SignalStore.Load | code/tfsdec_main.py:137-144 | Loading succeeds exactly when the raw boundary list is non-empty, the row count equals its last entry and the column count equals the electrode count. Each failure is reported by its own error, and the three errors are exhaustive and mutually exclusive. On success the signal is unchanged and the stitch index is `0` followed by the raw boundaries. |
| SignalStore.LoadCoversIff | code/tfsdec_main.py:137-144 | A loaded stitch index starts at 0, increases strictly and ends at the row count exactly when the raw list increases strictly from a positive first boundary. |
| WindowExtractor.Bin | code/tfsdec_main.py:273-278 | `x // 32` is the floor division: the sample lies in `[32b, 32b + 32)`, negative samples included. |
| WindowExtractor.LastBelow | code/tfsdec_main.py:279 | `nonzero()[0][-1]` finds the last position whose boundary is strictly below the bin, or reports that no boundary is below it. |
| WindowExtractor.SegmentOf | code/tfsdec_main.py:279-281 | The lookup succeeds exactly when some last-below rank has a successor, and then returns the boundaries at that rank and the next one. It fails with no boundary below exactly when every boundary is at or above the bin. It fails with no boundary after exactly when the last boundary is below the bin. |
| WindowExtractor.SegmentContainsBin | code/tfsdec_main.py:279-281 | On an increasing index the found segment satisfies `start < bin <= stop`. |
| WindowExtractor.SegmentOfContainingBin | code/tfsdec_main.py:279-281 | Conversely, `stitch[k] < bin <= stitch[k+1]` places the bin in segment `k`. A bin exactly on a boundary belongs to the segment that ends there. |
| WindowExtractor.LookupSucceedsIffBinInRange | code/tfsdec_main.py:278-281 | Under the segment invariant the lookup succeeds exactly for bins in `(0, rows]`. A bin at or below 0 raises the no-boundary-below error, and one past the end raises the no-boundary-after error. |
| WindowExtractor.Place | code/tfsdec_main.py:278-290 | One loop iteration fails exactly when the lookup fails, with the same error. A kept window starts at `bin + lag_bin - half_window`, is `2 * half_window` wide, carries the event's word and lies inside the segment. |
| WindowExtractor.AcceptedIffInsideSegment | code/tfsdec_main.py:283-290 | Once the lookup succeeds, an event is kept exactly when its whole window lies inside the segment. Nothing is clipped. |
| WindowExtractor.NoBoundaryInsideWindow | code/tfsdec_main.py:279-290 | On an increasing index no boundary lies strictly inside a kept window. |
| WindowExtractor.Collect | code/tfsdec_main.py:277-290 | The loop succeeds exactly when every event's lookup succeeds. Otherwise it reports the error of the first failing event. Every kept window is `2 * half_window` wide. |
| WindowExtractor.CollectIsOrderedSelection | code/tfsdec_main.py:277-290 | The kept windows are exactly the windows of the accepted events, in the events' order, each once. Every accepted event appears. |
| WindowExtractor.PySlice | code/tfsdec_main.py:289 | Python slicing never yields more than the sequence holds, and on in-range bounds it is the ordinary subsequence. |
| WindowExtractor.Stack | code/tfsdec_main.py:292 | `np.stack` succeeds exactly on a non-empty list of equally long windows and then returns them unchanged. An empty list fails. |
| WindowExtractor.Extract | code/tfsdec_main.py:271-295 | On success there is one window and one word per kept event, at least one of each. Each `x[i]` is the signal slice of the i-th kept window and each `w[i]` is its word. A failed lookup propagates unchanged. When every lookup succeeds but no event is kept, extraction fails with the empty-stack error. |
| WindowExtractor.ExtractedWindowsAreExactSlices | code/tfsdec_main.py:283-292 | Under the segment invariant and for a non-negative half window, every stacked window lies within `[0, rows]` and is exactly the rows `[left, right)` of the signal, `2 * half_window` of them. On a rectangular signal every row of every window has the signal's width. |
| WindowExtractor.ExtractFailsOnlyWhenNothingKept | code/tfsdec_main.py:289-292 | Under the segment invariant and for a non-negative half window, all kept windows have the same shape. So extraction fails on stacking exactly when no event was kept. |
| WindowExtractor.BoundaryEventIsDropped | code/tfsdec_main.py:278-287 | Worked example: with boundaries `[0, 500, 1000]`, an onset of 16000 samples falls on boundary bin 500 in segment `[0, 500)`, and its window `[484, 516)` is dropped. |
| WindowExtractor.InteriorEventIsKept | code/tfsdec_main.py:278-290 | Worked example: an onset of 9600 samples keeps the window `[284, 316)`. |
| WindowExtractor.BoundaryBinJoinsPrecedingSegment | code/tfsdec_main.py:278-290 | As written: an onset on the boundary bin 500 with a lag of -640 samples is judged against the preceding segment `[0, 500)` and keeps the window `[464, 496)` of the earlier recording. |
| WindowExtractor.FirstBinAborts | code/tfsdec_main.py:278-279 | As written: any onset in the first 32 samples falls in bin 0 and fails the lookup with no boundary below. |
| WindowExtractor.SegmentOfCorrected | code/tfsdec_main.py:279-281 | Corrected: the lookup uses the last boundary at or below the bin. It succeeds exactly when that rank has a successor, and then returns that rank's segment. |
| WindowExtractor.CorrectedSegmentHoldsBin | code/tfsdec_main.py:279-281 | Corrected: under the segment invariant the lookup succeeds exactly for bins in `[0, rows)`, and the found segment satisfies `start <= bin < stop`. |
| WindowExtractor.CorrectedBoundaryBins | code/tfsdec_main.py:279-281 | Corrected: boundary bin 500 opens the second segment `[500, 1000)`, and bin 0 lies in the first segment. |
| FoldPartition.Select | code/tfsdec_main.py:331-340 | A comprehension keeps exactly the events whose `fold{i}` entry equals the tag, in their original order. |
| FoldPartition.Partition | code/tfsdec_main.py:331-340 | The partition succeeds exactly when every event has the fold's entry; otherwise it is the missing-key error. Each split holds exactly the events with its tag and is an order-preserving subsequence of the events. |
| FoldPartition.SplitsAreDisjoint | code/tfsdec_main.py:331-340 | No event is in two splits. |
| FoldPartition.PartitionAccountsForEveryEvent | code/tfsdec_main.py:331-340 | The three splits and the events with any other entry together are the events, counted with multiplicity. |
| FoldPartition.SplitsCoverIffAllTagged | code/tfsdec_main.py:331-340 | The three splits together are exactly the events, counted with multiplicity, exactly when every entry is one of the three tags. |
| LexOrder.LessTransitive | code/tfsdec_main.py:352 | Python's string order is transitive. |
| LexOrder.LessTotal | code/tfsdec_main.py:352 | Python's string order is total on distinct strings. |
| LexOrder.SortedSet | code/tfsdec_main.py:352 | `sorted(set(ws))` is strictly increasing and holds exactly the words of `ws`. |
| LexOrder.SortedIsUnique | code/tfsdec_main.py:352 | Two strictly increasing lists with the same elements are equal. |
| LexOrder.RankIsPosition | code/tfsdec_main.py:350-353 | In a strictly increasing list, the k-th word has exactly k words of the list below it. |
| Vocabulary.Build | code/tfsdec_main.py:350-354 | The vocabulary is sorted and holds exactly the training words. `word2index` is defined on exactly the training words with values in `[0, |words|)`, and `index2word` on exactly that range. The two maps are inverse to each other in both directions. |
| Vocabulary.IndexIsRank | code/tfsdec_main.py:350-353 | A training word's index is the number of distinct training words that sort before it. |
| Vocabulary.WordsAreTheSortedSet | code/tfsdec_main.py:350-353 | Any strictly sorted listing of the distinct training words is the vocabulary. |
| Vocabulary.Translate | code/tfsdec_main.py:356-358 | Translation succeeds exactly when every word is in the map, and then gives each word's index. Otherwise it fails on the first unknown word. |
| Vocabulary.TrainingWordsTranslate | code/tfsdec_main.py:350-356 | The training words always translate, and every label lies in the class range and maps back to its word. |
| Vocabulary.TranslateFailsIffUnseen | code/tfsdec_main.py:350-358 | A dev or test split translates exactly when all its words occur among the training words. A failure names a word of the split that is not a training word. |
| Vocabulary.ClassCountIsVocabularySize | code/tfsdec_main.py:356-360 | `np.unique(y_train).size` equals the vocabulary size. |
| Vocabulary.VocabularySizeIsDistinctWords | code/tfsdec_main.py:350-353 | The vocabulary has exactly one entry per distinct training word. |
| Vocabulary.SplitClassesWithinVocabulary | code/tfsdec_main.py:357-358 | A translated split's labels lie in the class range and map back to its words. Its distinct-label count is at most the class count. |
| FoldPipeline.PrepareFold | code/tfsdec_main.py:331-374 | A fold's stages run in order and the first failure is the fold's result: a missing fold entry, then the train, dev and test extractions (an empty split fails on stacking), then an unknown dev or test word. On success the windows are exactly the extractions of the fold's three splits, and the vocabulary is built from the kept training words. The labels are those words' translations. The counts are positive and equal the window and label counts. `n_classes` is the number of distinct kept training words, and the dev and test class counts are the numbers of distinct dev and test labels (`np.unique(...).size`), neither exceeding it. Every label is a class index that `index2word` maps back to its word. |
| FoldPipeline.UnseenWordFailsTheFold | code/tfsdec_main.py:343-358 | Once the three extractions succeed, the fold succeeds exactly when every kept dev and test word is a kept training word. |
| WeightAverager.Init | code/tfsdec_main.py:213-217 | The averager starts empty, with the count capped at twice the patience. |
| WeightAverager.OnEpochEnd | code/tfsdec_main.py:222-226 | An epoch appends its snapshot last, and drops the oldest snapshot exactly when the non-empty list's length equals the float cap. |
| WeightAverager.EvictsIffEvenAtCap | code/tfsdec_main.py:223-225 | The float test holds exactly when the list is non-empty, the count is even and the length equals `patience + count // 2`. |
| WeightAverager.RunKeepsASuffix | code/tfsdec_main.py:222-226 | Over any number of epochs, the retained snapshots are a suffix of everything given. Only the oldest are ever dropped. |
| WeightAverager.EvenCountRetainsMostRecent | code/tfsdec_main.py:222-226 | With an even count and a positive cap, the callback retains exactly the most recent `min(total, cap)` snapshots. |
| WeightAverager.OddCountNeverEvicts | code/tfsdec_main.py:223-225 | As written, with an odd count nothing is ever dropped. |
| WeightAverager.OddCountExceedsCap | code/tfsdec_main.py:213-226 | As written, with `n_weight_avg = 3` and `patience = 150` the cap is 151.5, but 200 epochs leave 200 snapshots. |
| WeightAverager.OnEpochEndCorrected | code/tfsdec_main.py:222-226 | Corrected: one epoch keeps exactly the most recent `max(1, patience + count // 2)` snapshots. |
| WeightAverager.CorrectedRetainsMostRecent | code/tfsdec_main.py:222-226 | Corrected: over any epochs the most recent `min(total, max(1, cap))` snapshots are retained, for odd counts as well. |
| WeightAverager.CorrectedAgreesForEvenCount | code/tfsdec_main.py:222-226 | For an even count and a positive cap the correction behaves as the source. |
| WeightAverager.OnTrainEnd | code/tfsdec_main.py:228-238 | With no snapshot the weights are kept. Otherwise the running mean averages the first `min(len, max(count, 0) + 1)` snapshots and equals their arithmetic mean. |
| WeightAverager.Train | code/tfsdec_main.py:213-226 | Corrected: a run from a fresh averager retains exactly the most recent `min(n, max(1, patience + count // 2))` epochs, with the capped count. |
| WeightAverager.TrainAndAverage | code/tfsdec_main.py:213-238 | A corrected training run averages the oldest `min(len, max(count, 0) + 1)` of the retained most recent epochs, and keeps the weights only when there was no epoch. |

## Left out

- Model building (`pitom`, `language_decoder`, `get_decoder`), compilation, fitting, early stopping, evaluation and prediction are TensorFlow calls with no logic of the script's own.
- Reading the pickles and `label_folds`, saving models, and the CSV and JSON output are I/O.
- Discovering ensemble members, averaging ensemble predictions, aggregating results across folds, `evaluate_topk` and `evaluate_roc` sit outside the data preparation and the callback.
- The argument parser, SLURM and uuid handling, `save_dir`, `set_seed`, plotting and printing are not modelled.
- The five-fold `for` loop is modelled per fold (`FoldPipeline.PrepareFold`), and the fold number is a parameter.
- `on_train_begin` (a print) and the `best_weights` copy, which nothing reads, are not modelled.
- The script builds a `WeightAverager` but passes only the early-stopping callback to `fit`. The callback is modelled as written all the same.
- WeightAverager.OnEpochEnd: the float cap `patience + epoch_count / 2` is modelled as an exact rational, not as an IEEE double. For the integer arguments of the script the two agree.
- WeightAverager.OnTrainEnd: a weight snapshot is one real number. Keras weights are lists of arrays averaged elementwise by the same formula, and floating-point rounding is not modelled.
- WindowExtractor.Extract: the signal is passed explicitly; the source reads the global `signals`. `np.array(w)` is modelled as the list of words.
- The extraction pipeline (`Place`, `Collect`, `Extract`, `PrepareFold`) keeps the strict lookup of line 279, because it models the code as written. The corrected lookup of the second finding is proved on its own and not threaded through extraction.
- WindowExtractor.Stack: a shape mismatch is modelled on window lengths only. All rows of one signal have the same width (`SignalMatrix.Rectangular`, under which `WindowExtractor.ExtractedWindowsAreExactSlices` gives every window row that width).

## Findings

| source | as written | input that shows it | evidently intended | confidence | as-written member | corrected member |
|---|---|---|---|---|---|---|
| code/tfsdec_main.py:223-225 | `len(self.weights) == self.patience + self.epoch_count / 2` compares an integer length with a true-division float, which is never an integer for an odd `epoch_count`, so no snapshot is ever dropped | `n_weight_avg = 3`, `patience = 150`: the cap is 151.5, and after 200 epochs all 200 snapshots are held | retain at most `patience + epoch_count // 2` snapshots, dropping the oldest when that many are held | medium, not executed | WeightAverager.OnEpochEnd, WeightAverager.OddCountNeverEvicts, WeightAverager.OddCountExceedsCap | WeightAverager.OnEpochEndCorrected, WeightAverager.CorrectedRetainsMostRecent |
| code/tfsdec_main.py:279 | `(np.array(stitch_index) < bin_index)` looks for the last boundary strictly below the bin, so a bin on a boundary is assigned to the segment that ends there, and bin 0 has no segment at all | boundaries `[0, 500, 1000]`: onset 16000 (bin 500, first bin of the second recording) with lag -640 keeps the window `[464, 496)` from the first recording; any onset below 32 raises `IndexError` and aborts the run | `<=`: a bin belongs to the segment `[start, stop)` that holds it, so the lookup succeeds exactly on `[0, rows)` | low, not executed | WindowExtractor.SegmentOf, WindowExtractor.BoundaryBinJoinsPrecedingSegment, WindowExtractor.FirstBinAborts | WindowExtractor.SegmentOfCorrected, WindowExtractor.CorrectedSegmentHoldsBin, WindowExtractor.CorrectedBoundaryBins |
