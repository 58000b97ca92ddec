# Minimum edit distance and n-gram counting, in Dafny

This project models two parts of a small natural-language-processing
repository and proves properties of the model.

**Minimum edit distance** (`min-edit-distance.py`). It follows Jurafsky & Martin,
*Speech and Language Processing*, chapter 2, and has four parts:

- **Matrix.** An (n+1)×(m+1) matrix. Each cell holds the cheapest cost of turning a source prefix
  into a target prefix. It also holds *every* neighbouring cell through which that cost is reached,
  in the order up, left, diagonal.
- **Trace extraction.** A depth-first walk enumerates all tied paths back to (0, 0).
- **Conversion.** Each trace step is classified as an insertion, a deletion, a substitution or a
  match.
- **Rendering.** An alignment becomes three lines of text.

The costs are parameters: a deletion cost, an insertion cost and a substitution cost. The defaults
are `One` and `ZeroOrTwo`.

A reference distance `EditDistance.Distance` is defined by recursion on the two strings. It is
linked to the matrix, to the alignments and to the traces:

- every cell holds the reference distance of its prefixes;
- the traces are exactly the licensed predecessor paths, each listed once;
- each extracted alignment is optimal;
- every optimal alignment is extracted.

**N-gram counting**, in three variants:

- `python/ngram/ngram.py`: counts the windows of every padded sentence, then divides each count by
  a denominator. Unigrams are divided by the total unigram count. A longer gram is divided by the
  count of its prefix.
- `ngram/ngram.py`: counts the same windows but never the lone begin marker `(<s>,)`.
- `ngram_model.py`: builds the Kneser-Ney count tables. The first table holds raw counts of the
  highest order. Each later table holds continuation counts derived from the table before it.

The shared reference is `NgramCounting.CorpusGrams`, the multiset of all windows of length n over
the padded corpus. A sentence of L words has max(0, L+1-n) such windows, the k-th being
`words[k..k+n]` (`NgramCounting.Windows`). The counting loops are proved equal to this reference.

Tokenisation is not modelled. The sentences arrive already split into words, next to the raw text
on which the marker check runs. Probabilities are exact ratios `Ratio(num, den)`, not floats.

The figures in `ngram/test_ngram.py` count `(<s>,)` three times and call `_calculate_probabilities`.
They therefore describe the `python/ngram/ngram.py` counter, not the `ngram/ngram.py` file next to
them. The examples here use them that way. `NgramExamples.SimpleSkippedTotal` gives the count of
the skipping variant.

Files:

- `wrappers.dfy`: `Option` and `Result`.
- `edit_distance.dfy`: the matrix.
- `traces.dfy`: trace extraction.
- `alignment.dfy`: conversion, cost, optimality, the entry point and rendering.
- `edit_examples.dfy`: the edit-distance unit-test cases and the textbook intention/execution distance.
- `ngram_counting.dfy`: the shared counting loop and its reference.
- `ngram_probabilities.dfy`: the probability model.
- `ngram_counts.dfy`: the skipping counter.
- `kn_counts.dfy`: the Kneser-Ney counts.
- `ngram_examples.dfy`: the test corpus.

## Model

| member | source | states |
|---|---|---|
| EditDistance.BuildMatrix | min-edit-distance.py:53-82 | The result is the (n+1)×(m+1) matrix in which every cell obeys its rule. (0,0) is 0 with no predecessors. A border cell adds one deletion or insertion cost to its sole neighbour. An interior cell is the minimum of the three candidates, with the tying neighbours listed. |
| EditDistance.BuiltDistance | min-edit-distance.py:57-82 | Every cell of a built matrix holds the reference edit distance of the source and target prefixes it stands for. |
| EditDistance.PredecessorsExact | min-edit-distance.py:57-82 | Only (0,0) has an empty predecessor list. A neighbour is listed exactly when stepping from it reaches the cell's distance. The list has no repetition and is in the order up, left, diagonal. |
| EditDistance.InteriorPrevious | min-edit-distance.py:75-82 | An interior cell's list is never empty. It holds exactly the candidates equal to the minimum, in the order up, left, diagonal. |
| EditDistance.DistanceStepBound | min-edit-distance.py:67-75 | No single deletion, insertion or substitution step beats a cell's distance. The distance is at most the neighbour's distance plus the step cost. |
| EditDistance.DistanceNonNegative | min-edit-distance.py:44-51 | When no cost is negative, no distance is negative. |
| EditDistance.DistanceToEmpty | min-edit-distance.py:58-61 | With the default costs, distance(s, "") = \|s\|. |
| EditDistance.DistanceFromEmpty | min-edit-distance.py:62-65 | With the default costs, distance("", t) = \|t\|. |
| EditDistance.DistanceToSelf | min-edit-distance.py:12-25 | With the default costs, distance(s, s) = 0. |
| EditDistance.DistanceSymmetric | min-edit-distance.py:12-25 | The default costs are symmetric, so distance(a, b) = distance(b, a). |
| EditDistanceExamples.TablePrefixDistance | min-edit-distance.py:57-82 | Any table that fills its borders with character counts and each interior entry with the cheapest of the three candidates under the default costs holds, in every entry, the reference distance of the two prefixes. |
| EditDistanceExamples.IntentionDistance | min-edit-distance.py:44-88 | Under the default costs, distance("intention", "execution") = 8. |
| TraceExtraction.Traces | min-edit-distance.py:99-108 | Every cell has at least one trace. A trace is empty exactly when the cell has no predecessors. Every non-empty trace ends at the cell. |
| TraceExtraction.TracesSound | min-edit-distance.py:99-108 | Every returned trace is a path from a cell without predecessors to the cell, with the start left out. Each step of the path is licensed by the later cell's predecessor list. |
| TraceExtraction.TracesComplete | min-edit-distance.py:99-108 | Every such licensed path is returned. |
| TraceExtraction.TracesDistinct | min-edit-distance.py:99-108 | If only (0,0) lacks predecessors and no predecessor list repeats an entry, no trace is returned twice. |
| TraceExtraction.ExtractTraces | min-edit-distance.py:96-111 | The walk starts at the bottom-right cell. It returns at least one trace, each a licensed path to that cell. |
| TraceExtraction.BuiltRanked | min-edit-distance.py:57-82 | A built matrix has these properties: predecessor links lead to cheaper or nearer cells; it is rectangular; only (0,0) lacks predecessors; no predecessor list repeats an entry. |
| TraceExtraction.PathLength | min-edit-distance.py:96-111 | A path of neighbour steps from (0,0) to (i,j) has between max(i,j) and i+j steps. |
| TraceExtraction.BuiltTraces | min-edit-distance.py:96-111 | Every trace of a built matrix has (0,0) prepended, is licensed, moves by neighbour steps and ends at (n,m). Its length lies between max(n,m) and n+m. |
| Alignments.StepColumnClassified | min-edit-distance.py:122-140 | The column for a step is classified by its shape and is well formed. A step within a row is an insertion of the target character. A step within a column is a deletion of the source character. A diagonal step is a match when the characters agree and otherwise a substitution. No column lacks both characters. |
| Alignments.ColumnDetermined | min-edit-distance.py:122-140 | The shape of a step determines its column: any well-formed column classified for the step is that column. |
| Alignments.TraceToAlignment | min-edit-distance.py:114-145 | One column per trace step, each well formed and classified by the step that produced it. |
| Alignments.ColumnsAreSteps | min-edit-distance.py:117-142 | Column k is the column of the step from the previous address (initially (0,0)) to trace[k]. |
| Alignments.AlignmentSpells | min-edit-distance.py:114-142 | For a path of neighbour steps, the present source characters of the alignment spell the source prefix up to the path's end, and likewise for the target. |
| Alignments.AlignmentCostIsDistance | min-edit-distance.py:84-88 | For a licensed trace of a built matrix, the alignment's cost equals the distance in the trace's last cell. |
| Alignments.NoCheaperAlignment | min-edit-distance.py:67-76 | No alignment costs less than the distance between the strings it spells. |
| Alignments.AlignmentDeterminesTrace | min-edit-distance.py:114-142 | Conversion is injective: two neighbour-step traces with the same alignment are the same trace. |
| Alignments.OptimalAlignmentFollowsMatrix | min-edit-distance.py:77-82 | Every optimal alignment of two prefixes retraces a path of recorded predecessors, and converting that path gives the alignment back. |
| Alignments.ExtractedAlignmentOptimal | min-edit-distance.py:84-88 | Every extracted trace converts to an optimal alignment: well formed, spelling source and target, at minimum cost. |
| Alignments.OptimalAlignmentExtracted | min-edit-distance.py:84-88 | Every optimal alignment is the conversion of an extracted trace. |
| Alignments.ConvertedSound | min-edit-distance.py:84-87 | Every converted alignment is optimal. |
| Alignments.ConvertedDistinct | min-edit-distance.py:84-87 | The converted alignments contain no duplicate. |
| Alignments.ConvertedComplete | min-edit-distance.py:84-87 | Every optimal alignment is among the converted alignments. |
| Alignments.MinEditDistance | min-edit-distance.py:44-88 | Returns the reference distance and a non-empty, duplicate-free list. The list holds exactly the optimal alignments of source and target. For two empty strings the list is exactly `[[]]`. |
| Alignments.OnlyEmptyAlignment | min-edit-distance.py:44-88 | Between two empty strings an alignment is optimal exactly when it is empty. |
| Alignments.EmptyPairAlignments | min-edit-distance.py:84-88 | A non-empty, duplicate-free list of optimal alignments of two empty strings is `[[]]`. |
| Alignments.SelfAlignmentOptimal | min-edit-distance.py:44-88 | With the default costs, the alignment that matches every character of a string with itself is optimal. So `MinEditDistance(s, s)` returns it, with distance 0. |
| Alignments.AlignToString | min-edit-distance.py:154-162 | Three lines, each as long as the alignment, separated by newlines. They hold the source characters, the target characters and the edits. Absent characters render as `*`; edits render as `d`, `i`, `s`, and a match as a space. |
| Alignments.RenderingDeterminesAlignment | min-edit-distance.py:154-162 | When no character is itself `*`, the rendering determines the alignment. |
| Alignments.TraceToAlignmentAsWritten | min-edit-distance.py:114-142 | The conversion as written fails exactly when some step's eager reads are out of range. Otherwise it equals the corrected conversion. |
| Alignments.EmptySourceFailsAsWritten | min-edit-distance.py:120-121 | With an empty source and a non-empty target, the conversion as written fails on every extracted trace. The corrected conversion yields an optimal alignment. |
| Alignments.EmptyTargetFailsAsWritten | min-edit-distance.py:120-121 | The same for an empty target and a non-empty source. |
| Alignments.NonEmptyAgreesAsWritten | min-edit-distance.py:120-121 | When both strings are non-empty, the conversion as written equals the corrected one. |
| EditDistanceExamples.NullCaseTraces | min_edit_distance/test_min_edit_distance.py:26-28 | The 1×1 matrix yields `[[]]`. |
| EditDistanceExamples.SingleInsertionTraces | min_edit_distance/test_min_edit_distance.py:30-32 | The single-insertion matrix yields `[[(0,1)]]`. |
| EditDistanceExamples.SingleDeletionTraces | min_edit_distance/test_min_edit_distance.py:34-37 | The single-deletion matrix yields `[[(1,0)]]`. |
| EditDistanceExamples.TwoByTwoTraces | min_edit_distance/test_min_edit_distance.py:39-45 | The 2×2 tie matrix yields exactly the two listed traces. |
| EditDistanceExamples.UpAndLeftTraces | min_edit_distance/test_min_edit_distance.py:47-52 | The 3×3 matrix yields 6 traces. |
| EditDistanceExamples.EmptyTraceAlignment | min_edit_distance/test_min_edit_distance.py:55-56 | The empty trace converts to the empty alignment. |
| EditDistanceExamples.InsertionAlignment | min_edit_distance/test_min_edit_distance.py:58-62 | `[(0,1)]` with "" and "I" gives one insertion of `I`. The conversion as written fails. |
| EditDistanceExamples.DeletionAlignment | min_edit_distance/test_min_edit_distance.py:64-68 | `[(1,0)]` with "I" and "" gives one deletion of `I`. The conversion as written fails. |
| EditDistanceExamples.SubstitutionAlignment | min_edit_distance/test_min_edit_distance.py:70-74 | `[(1,1)]` with "I" and "U" gives one substitution. The conversion as written agrees. |
| EditDistanceExamples.IntentionAlignment | min_edit_distance/test_min_edit_distance.py:76-85 | The intention/execution trace gives the expected ten columns. |
| EditDistanceExamples.IntentionLowerCost | min_edit_distance/test_min_edit_distance.py:79-85 | Those columns cost 8 under the default costs: one deletion, three substitutions and one insertion. |
| EditDistanceExamples.IntentionAlignmentOptimal | min_edit_distance/test_min_edit_distance.py:76-85 | Those columns form an optimal alignment of "intention" with "execution". So `MinEditDistance` returns them. |
| EditDistanceExamples.EmptyRendering | min_edit_distance/test_min_edit_distance.py:88-89 | The empty alignment renders as `"\n\n"`. |
| EditDistanceExamples.InsertionRendering | min_edit_distance/test_min_edit_distance.py:91-92 | An insertion of `E` renders as `"*\nE\ni"`. |
| EditDistanceExamples.DeletionRendering | min_edit_distance/test_min_edit_distance.py:94-95 | A deletion of `I` renders as `"I\n*\nd"`. |
| EditDistanceExamples.SubstitutionRendering | min_edit_distance/test_min_edit_distance.py:97-98 | A substitution of `I` by `E` renders as `"I\nE\ns"`. |
| EditDistanceExamples.IntentionRendering | min_edit_distance/test_min_edit_distance.py:100-103 | The INTENTION/EXECUTION trace renders as `"INTE*NTION\n*EXECUTION\ndss is    "`. |
| NgramCounting.CountTables | python/ngram/ngram.py:51-61 | The counting loop gives one table per order 1..order, or none for a non-positive order. Table j equals the multiset of all (j+1)-windows of the padded sentences. The skipping variant leaves out the lone begin marker. |
| NgramCounting.GramLength | python/ngram/ngram.py:57-60 | Every gram counted for order n has exactly n words. |
| NgramCounting.GramsAreWindows | python/ngram/ngram.py:55-60 | A gram is counted for order n exactly when it is a window of length n of some padded sentence. |
| NgramCounting.CorpusSize | python/ngram/ngram.py:56-60 | A padded sentence of L words contributes max(0, L+1-n) grams to order n. |
| NgramCounting.PrefixDominates | python/ngram/ngram.py:57-60 | A gram of order n+1 occurs at most as often as its n-word prefix does at order n. |
| NgramCounting.BeginUnigrams | python/ngram/ngram.py:55-60 | When no token is a marker, the lone begin marker is counted once per sentence. |
| NgramCounting.GetTable | python/ngram/ngram.py:22-25 | A negative key is refused with an index error. Key k in 1..\|tables\| selects table k-1. Key 0 reads index -1, which is the last table, or an index error when there are no tables. Any larger key is an index error. |
| NgramProbabilities.GetItem | python/ngram/ngram.py:22-25 | A negative key is an index error. Otherwise the key reads index key-1 modulo the number of ratio tables, as Python does for index -1. It succeeds exactly when that index is in range. |
| NgramCounts.GetItem | ngram/ngram.py:21-24 | A negative key is an index error. Otherwise the key reads index key-1 modulo the number of tables, as Python does for index -1. It succeeds exactly when that index is in range. |
| NgramProbabilities.Count | python/ngram/ngram.py:47-61 | Fails exactly when the text contains `<s>` or `</s>`. Otherwise it returns max(order, 0) tables, table j being the corpus count of (j+1)-grams. |
| NgramProbabilities.CalculateProbabilities | python/ngram/ngram.py:63-76 | No tables gives an index error. Otherwise it succeeds exactly when no denominator is zero. Each table keeps its key set, and each ratio is count over denominator. Unigrams have the total unigram count as denominator. Longer grams have the prefix count one table down. |
| NgramProbabilities.CountedRatiosAreProbabilities | python/ngram/ngram.py:69-75 | For counted tables no denominator is zero, and every ratio lies in (0, 1]. |
| NgramProbabilities.CorpusRatioTables | python/ngram/ngram.py:63-76 | On corpus counts the division always succeeds. Table i has exactly the corpus (i+1)-grams as keys. Each numerator is the corpus count and lies in (0, denominator]. |
| NgramProbabilities.NewModel | python/ngram/ngram.py:18-20 | A marker in the text is refused, and so is a non-positive order (no unigram table). Otherwise table i holds exactly the corpus (i+1)-grams. Each entry is its count over its unigram total or prefix count, in (0, 1]. |
| NgramCounts.Count | ngram/ngram.py:46-62 | Fails exactly when the text contains a marker. Otherwise table 0 holds every unigram but `(<s>,)`, with its corpus count, and never `(<s>,)`. Every higher table is the full corpus count. |
| NgramCounts.SkippedUnigramTotal | ngram/ngram.py:55-61 | When no token is a marker, the unigram table is one gram short per sentence compared with the padded corpus. |
| NgramCounts.NewModel | ngram/ngram.py:17-19 | Only a marker in the text is refused. Table j is the skipping count of (j+1)-grams, and any order is accepted. |
| KneserNeyCounts.CalculateCount | ngram_model.py:18-26 | The table records each n-window of the padded corpus with its number of occurrences. |
| KneserNeyCounts.ContinuationStep | ngram_model.py:33-38 | One more key adds one to the count of its prefix. It adds one to the count of its suffix when it ends with `</s>`. |
| KneserNeyCounts.ContinuationCounts | ngram_model.py:31-39 | The count of g is the sum of two numbers: distinct keys one order up whose prefix is g, and distinct keys ending with `</s>` whose suffix is g. A gram is recorded exactly when that sum is positive. |
| KneserNeyCounts.ContinuationKeyLength | ngram_model.py:34-37 | Every continuation key is one word shorter than the keys it is counted from. |
| KneserNeyCounts.MakeKNCounts | ngram_model.py:28-40 | There are highest-order tables. The first is the raw highest-order count. Each later table is the continuation table of the one before. Table t holds grams of N-t words, and no count is zero. |
| KneserNeyCounts.NewModel | ngram_model.py:8-12 | The counting part of the constructor fails exactly when the highest order is not positive. Otherwise there are highest-order tables. The first is the raw highest-order count, each later table is the continuation table of the one before, and table t holds grams of N-t words. |
| NgramExamples.SimpleUnigramTotal | ngram/test_ngram.py:99-105 | The three-sentence test corpus has 23 unigrams. |
| NgramExamples.UnigramI | ngram/test_ngram.py:28-31 | `("I",)` is counted three times. |
| NgramExamples.UnigramIProbability | ngram/test_ngram.py:99-101 | The unigram probability of `("I",)` is 3/23. |
| NgramExamples.SimpleSkippedTotal | ngram/ngram.py:59-61 | The skipping counter sees 20 unigrams in the test corpus. |

## Left out

- Tokenisation (`sent_tokenize`, `word_tokenize`) belongs to NLTK, a foreign library. The sentences are an input beside the raw text.
  - The marker check runs on the raw text.
  - Lemmas that need tokens free of markers say so with `NoMarkerWords`.
- The Kneser-Ney discounts, backoffs and interpolated model (ngram_model.py:42-108) are left out. They are floating-point, partly unfinished, and can divide by zero.
- The debug prints (min-edit-distance.py:143-144) and the pretty-printer carry no meaning and are left out.
- The numpy matrix is a sequence of rows.
- TraceExtraction.Traces: has no recursion limit. `traverse_tree` (min-edit-distance.py:99-108) recurses once per trace step, so under CPython's default limit of 1000 frames the source raises RecursionError once the trace nears 1000 steps. Since a trace has at least max(n, m) steps, this happens once the longer string nears that length.
- `DistanceCell(0, None)` at the origin is the empty predecessor list. Both are falsy where the walk tests them.
- The source fills the borders first and then the interior. `EditDistance.BuildMatrix` fills row by row in one pass. Each cell reads only cells filled before it, so the matrix is the same.
- Probabilities are exact `Ratio(num, den)` pairs. Python's float division and its rounding are not modelled.
- The return type is annotated as a set but is a list. The model returns a sequence, proved free of duplicates.
- Alignments.MinEditDistance: requires every cost to be non-negative, the cost model's documented convention. Negative costs are not modelled.
  - It converts traces with the corrected conversion. So `MinEditDistance("", "I")` returns the insertion alignment, where the source raises IndexError (min-edit-distance.py:85, 120). See "## Findings" and `Alignments.EmptySourceFailsAsWritten`.
- TraceExtraction.ExtractTraces: defined only for ranked matrices, where each predecessor is cheaper, or equally cheap and nearer the origin.
  - Every built matrix is ranked (`BuiltRanked`), and so are the test's hand-built matrices.
  - On a matrix with cyclic predecessor links the source recurses without end.
- Alignments.TraceToAlignment: defined only for traces whose every step reads characters in range.
  - Every trace of a built matrix qualifies (`AlignmentSpells`).
  - The source's negative-index reads on arbitrary coordinate lists are modelled only as the failure case of `TraceToAlignmentAsWritten`.
  - Wrap-around reads that succeed in Python are outside `ReadableTrace` and are not modelled at all. For example, the trace `[(0, 0)]` over non-empty strings becomes, in Python, an insertion of `target[-1]`, the last character.
- KneserNeyCounts.ContinuationCounts: requires non-empty keys. The source would raise on `gram[-1]` for an empty key, but the keys it is given always have at least two words.
- KneserNeyCounts.NewModel: models the constructor only up to the count tables.
  - The constructor goes on to call `make_discounts` (ngram_model.py:13), which is left out with the discounts.
  - That call raises ZeroDivisionError (ngram_model.py:54) whenever a table has no count of 1 or 2, for example on the empty text.
- KneserNeyCounts.MakeKNCounts: requires a positive highest order, which the constructor's assertion guarantees (`NewModel`).
- Reading a missing key of a `defaultdict` inserts a zero entry. In `_calculate_probabilities` the prefix is always present (`CountedRatiosAreProbabilities`), so no such entry arises.
- The type assertions of the `Ngram_model` constructor (a string text, an integer order) hold by the Dafny types.
- The `ngrams` and `order` properties are the datatype's fields.
- The long-corpus script `ngram_test.py` only checks a length on the float model and is not modelled.

## Findings

| source | as written | input that shows it | evidently intended | confidence | as-written member | corrected member |
|---|---|---|---|---|---|---|
| min-edit-distance.py:120-121 | `source[i-1]` and `target[j-1]` are read for every step, before the step's shape is known. | Trace `[(0, 1)]` with source `""` and target `"I"` (min_edit_distance/test_min_edit_distance.py:58-62): `""[-1]` raises IndexError. So does `[(1, 0)]` with `"I"` and `""`. | Read each character only in the branch that uses it, so an insertion into an empty source, or a deletion to an empty target, converts. | not executed | Alignments.TraceToAlignmentAsWritten | Alignments.TraceToAlignment |
