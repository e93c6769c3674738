# Benchmark data preparation, modelled in Dafny

Two data-preparation scripts turn a labelled competition dataset into a
benchmark split. Each one makes a train table, a public test table without
labels, a sample submission and a private answer key. This project models the
record-level logic of both scripts as pure functions over sequences of rows,
and proves what the scripts promise about those tables.

- `first_seen.dfy`, module `FirstSeen`: the distinct values of a column in
  order of first appearance (a column's `unique()`), and the dictionary that
  sends the k-th of them to k (`{old: new for new, old in enumerate(...)}`).
- `group_split.dfy`, module `GroupSplit`: the text-normalisation script
  (`DS-HARD-002/scripts/prepare.py`). It keeps the token rows whose
  `sentence_id` is in the train key set or in the test key set. It asserts
  that no sentence is on both sides. It renumbers each side's sentences
  densely, from 0, in order of first appearance. Then it derives the public
  test table (no `after`, no `class`), the answer key (`id`, `after`) and the
  sample submission (`id`, `after := before`). The `id` is
  `sentence_id + "_" + token_id`. The assertion is modelled as an
  `AssertionFailed` outcome, and `Prepare`'s contract says exactly when it
  fires.
- `row_split.dfy`, module `RowSplit`: the manufacturing-state script
  (`DS-EASY-002/scripts/prepare.py`). Train rows get ids `0..|train|-1` and
  test rows get ids `|train|..|train|+|test|-1`. Then it derives the public
  test table (no `target`), the answer key (`id`, `target`) and the sample
  submission (`id`, `target := 0.5`).

The seeded split (`train_test_split`) is a library call. Here it is an input.
In `GroupSplit` the input is two arbitrary key sets; `IsKeySplit` says when
they split the distinct sentence ids. In `RowSplit` the input is the two row
sequences; `IsRowSplit` says when they split the raw rows with 100,000 rows
held out.

The text-normalisation script's sample submission echoes `before`
(DS-HARD-002/scripts/prepare.py:51). For every token that normalisation
leaves unchanged, that is the true answer;
`GroupSplit.SampleGuessRightIffUnchanged` states this.

## Model

| member | source | states |
|---|---|---|
| `FirstSeen.Unique` | DS-HARD-002/scripts/prepare.py:35 | the distinct sentence ids have no duplicates and hold exactly the values of the column |
| `FirstSeen.UniqueCountsDistinctValues` | DS-HARD-002/scripts/prepare.py:24 | the number of distinct ids equals the size of the set of ids |
| `FirstSeen.UniquePrefix` | DS-HARD-002/scripts/prepare.py:35 | the distinct ids of a prefix of the column are a prefix of the column's distinct ids (first-seen order) |
| `FirstSeen.UniqueAtFirstOccurrence` | DS-HARD-002/scripts/prepare.py:35 | at the first occurrence of a value, the distinct list grows by exactly that value |
| `FirstSeen.FirstIndex` | DS-HARD-002/scripts/prepare.py:35 | the first position of a value holds it and has no earlier copy |
| `FirstSeen.FirstSeenMap` | DS-HARD-002/scripts/prepare.py:35 | the reindex dictionary's keys are exactly the column's values, the k-th distinct id goes to k, and every image is below the number of distinct ids |
| `FirstSeen.FirstSeenMapOnto` | DS-HARD-002/scripts/prepare.py:35 | every number in `[0, k)` is the image of some id, where k is the number of distinct ids |
| `FirstSeen.FirstSeenMapInjective` | DS-HARD-002/scripts/prepare.py:35 | different old ids get different new ids |
| `FirstSeen.FirstSeenMapCountsEarlierValues` | DS-HARD-002/scripts/prepare.py:35 | an id's new value is the number of distinct ids that appear before its first occurrence |
| `FirstSeen.FirstSeenMapMonotone` | DS-HARD-002/scripts/prepare.py:35 | an id that first appears earlier gets a smaller new value |
| `GroupSplit.SentenceIds` | DS-HARD-002/scripts/prepare.py:24 | the `sentence_id` column has one entry per row, the i-th being row i's sentence id |
| `GroupSplit.IsKeySplit` | DS-HARD-002/scripts/prepare.py:24-27 | what the model assumes of `train_test_split` on the distinct ids; when it holds, every row's sentence id lies in exactly one of the two key sets |
| `GroupSplit.SelectGroups` | DS-HARD-002/scripts/prepare.py:28-29 | a row is kept if and only if its sentence id is in the key set |
| `GroupSplit.SelectGroupsConcat` | DS-HARD-002/scripts/prepare.py:28-29 | the filter keeps the relative order of the rows (it distributes over concatenation) |
| `GroupSplit.SelectGroupsConservesRows` | DS-HARD-002/scripts/prepare.py:28-29 | when each row's id is in exactly one key set, the two sides together hold every row exactly once (multiset and count) |
| `GroupSplit.KeySplitConservesRows` | DS-HARD-002/scripts/prepare.py:24-29 | a split of the distinct sentence ids gives `|new_train| + |answers| == |old_train|` with the same multiset of rows |
| `GroupSplit.GroupCountIsSentenceIdSetSize` | DS-HARD-002/scripts/prepare.py:24 | the number of distinct sentences equals the size of the set of sentence ids |
| `GroupSplit.SelectGroupsSentenceIds` | DS-HARD-002/scripts/prepare.py:28-29 | the selected rows' sentences are the original sentences that lie in the key set |
| `GroupSplit.KeySplitConservesGroups` | DS-HARD-002/scripts/prepare.py:24-29 | a split of the distinct sentence ids conserves the number of sentences across the two sides |
| `GroupSplit.GroupsDisjoint` | DS-HARD-002/scripts/prepare.py:31-32 | train and answers share no sentence id, that is, no train row and answer row have the same sentence id |
| `GroupSplit.SelectedGroupsDisjointIff` | DS-HARD-002/scripts/prepare.py:28-32 | the disjointness assertion fails exactly when some row's sentence id is in both key sets |
| `GroupSplit.DisjointKeysGiveDisjointGroups` | DS-HARD-002/scripts/prepare.py:25-32 | disjoint key sets give train and answers with no shared sentence id |
| `GroupSplit.Reindex` | DS-HARD-002/scripts/prepare.py:35-39 | same rows in the same order with every other column unchanged; new ids lie in `[0, k)`, where k is the number of distinct sentences |
| `GroupSplit.ReindexPreservesGrouping` | DS-HARD-002/scripts/prepare.py:35-36 | two rows share a new sentence id if and only if they shared the old one |
| `GroupSplit.ReindexIsFirstSeenOrder` | DS-HARD-002/scripts/prepare.py:35-36 | a row's new id is the number of sentences first seen before its own sentence |
| `GroupSplit.ReindexIsDense` | DS-HARD-002/scripts/prepare.py:35-36 | every id in `[0, k)` is used by some row |
| `GroupSplit.ReindexIdRange` | DS-HARD-002/scripts/prepare.py:35-36 | the set of new ids is exactly `[0, k)` |
| `GroupSplit.ReindexStartsAtZero` | DS-HARD-002/scripts/prepare.py:35-36 | the first row's new sentence id is 0 |
| `GroupSplit.DropAnswerColumns` | DS-HARD-002/scripts/prepare.py:42 | the public test table has one row per answer row, in order, and putting `class` and `after` back gives the answer row again |
| `GroupSplit.DropAnswerColumnsKeepsSentenceIds` | DS-HARD-002/scripts/prepare.py:42 | the public test table has the same sentence ids as the answers |
| `GroupSplit.IntToString` | DS-HARD-002/scripts/prepare.py:45 | `astype(str)` of an integer column value, as its decimal text with a minus sign for negatives |
| `GroupSplit.DigitStringIsDigits` | DS-HARD-002/scripts/prepare.py:45 | the decimal text of a natural number is a non-empty run of digits |
| `GroupSplit.IntToStringShape` | DS-HARD-002/scripts/prepare.py:45 | the text of an integer is non-empty, starts with `-` exactly for negatives, and holds no underscore |
| `GroupSplit.SubmissionId` | DS-HARD-002/scripts/prepare.py:45 | the `sentence_id + "_" + token_id` id expression of lines 45 and 50 |
| `GroupSplit.SubmissionIdDeterminesParts` | DS-HARD-002/scripts/prepare.py:45-50 | two tokens with the same submission id have the same sentence-id text and the same token-id text |
| `GroupSplit.FormatAnswers` | DS-HARD-002/scripts/prepare.py:44-46 | the answer key has one row per answer row, in order, holding `sentence_id_token_id` and the true `after` |
| `GroupSplit.SampleSubmission` | DS-HARD-002/scripts/prepare.py:49-52 | the sample submission has one row per test row, in order, holding `sentence_id_token_id` and the row's `before` |
| `GroupSplit.SampleSubmissionMatchesAnswerKey` | DS-HARD-002/scripts/prepare.py:44-52 | the sample submission and the answer key have the same id column element by element; the sample echoes `before`, the key holds the true `after` |
| `GroupSplit.SampleGuessRightIffUnchanged` | DS-HARD-002/scripts/prepare.py:51 | the sample's guess equals the key's answer if and only if the token's `before` equals its `after` |
| `GroupSplit.Derive` | DS-HARD-002/scripts/prepare.py:35-52 | the train table has one row per train-side row; the public test table, sample submission and answer key have one row per test-side row |
| `GroupSplit.Prepare` | DS-HARD-002/scripts/prepare.py:24-52 | the run stops with the assertion's message if and only if some row's sentence id is in both key sets; otherwise the tables are derived from the two selections |
| `GroupSplit.PrepareOnKeySplit` | DS-HARD-002/scripts/prepare.py:24-32 | a split of the distinct ids never trips the assertion, and the train and test tables together have `|old_train|` rows |
| `GroupSplit.DeriveReindexesTrainSide` | DS-HARD-002/scripts/prepare.py:35-36 | the train table is the train-side rows in order with the other columns kept, its ids exactly `[0, k_train)`, starting at 0 |
| `GroupSplit.DeriveReindexesTestSide` | DS-HARD-002/scripts/prepare.py:38-42 | the public test table is the test-side rows in order with `token_id` and `before` kept, its ids exactly `[0, k_test)`, starting at 0 on its own |
| `GroupSplit.DeriveSubmissionMatchesAnswers` | DS-HARD-002/scripts/prepare.py:42-52 | sample and key ids agree in order and are built from the public test rows; the sample's answer is the test-side row's `before`, the key's is its true `after` |
| `RowSplit.IsRowSplit` | DS-EASY-002/scripts/prepare.py:20-22 | what the model assumes of `train_test_split` on the rows; when it holds, a row is on some side exactly when it is a raw row |
| `RowSplit.RowSplitSizes` | DS-EASY-002/scripts/prepare.py:17-22 | a split that holds out 100,000 rows leaves `|old_train| - 100,000` train rows |
| `RowSplit.Renumber` | DS-EASY-002/scripts/prepare.py:26-27 | row i gets id `start + i`; labels, features and row order are unchanged |
| `RowSplit.RenumberIdRange` | DS-EASY-002/scripts/prepare.py:26-27 | the ids used are exactly `[start, start + n)` |
| `RowSplit.DropTarget` | DS-EASY-002/scripts/prepare.py:31 | the public test table has one row per labelled test row, in order, and putting `target` back gives that row again |
| `RowSplit.AnswerKey` | DS-EASY-002/scripts/prepare.py:34 | the answer key is the `(id, target)` pair of each labelled test row, in order |
| `RowSplit.SampleSubmission` | DS-EASY-002/scripts/prepare.py:37-38 | the sample submission has the answer key's ids in order, and every target is the placeholder |
| `RowSplit.PlaceholderIsNoLabel` | DS-EASY-002/scripts/prepare.py:38 | no integer label equals the placeholder 0.5 |
| `RowSplit.SampleSubmissionNeverGuessesLabel` | DS-EASY-002/scripts/prepare.py:37-38 | no sample-submission target equals its row's true label |
| `RowSplit.Prepare` | DS-EASY-002/scripts/prepare.py:26-38 | train row i has id i and keeps its label and features; test row j has id `|train| + j` in the public test table, the answer key and the sample submission |
| `RowSplit.PrepareIdsDisjoint` | DS-EASY-002/scripts/prepare.py:26-27 | every train id is below `|train|` and every test id is at least `|train|`, so the two ranges are disjoint |
| `RowSplit.PrepareIdsCoverOldTrain` | DS-EASY-002/scripts/prepare.py:20-27 | for a row split, train has `|old_train| - 100,000` rows, and train and test ids together cover `[0, |old_train|)` |
| `RowSplit.PrepareOnTwoHundredThousandTenRows` | DS-EASY-002/scripts/prepare.py:17-22 | for an example raw table of 200,010 rows (a size chosen for illustration): 100,010 train rows, 100,000 sample-submission rows, all guessing 0.5 |
| `RowSplit.PrepareSubmissionMatchesAnswers` | DS-EASY-002/scripts/prepare.py:31-38 | sample submission, answer key and public test table have the same ids in order; the sample never guesses the true label, and the key holds it |

## Left out

- The seeded shuffle in `train_test_split` is left out, along with its
  stratification by `target` and the rounding of `test_size=0.1`. This is a
  foreign library call (DS-HARD-002/scripts/prepare.py:25-27,
  DS-EASY-002/scripts/prepare.py:20-22). The split is an input. `IsKeySplit`
  and `IsRowSplit` state what the model assumes of it. So the model does not
  fix how many sentence ids `test_size=0.1` puts on the test side.
- The library's refusals are not modelled. It raises when a split would
  leave the train side empty. With `stratify=old_train['target']` it also
  raises when the train side would have fewer rows than there are distinct
  targets, and when some target occurs only once. `IsRowSplit` cannot hold
  for fewer than 100,000 rows. It admits exactly 100,000 rows with an empty
  train table, and it admits 100,001 rows with one train row, where the
  program raises. `IsKeySplit` admits an empty train key set, which
  `test_size=0.1` gives for fewer than two distinct sentences, where the
  library raises instead. The lemmas that assume these predicates hold in
  these admitted cases too.
- Reading and writing CSV files is left out, including the
  `QUOTE_NONNUMERIC` quoting. This is I/O and library formatting. Determinism
  comes for free in the model, since every operation is a function.
- Zipping the public files and deleting the uncompressed copies is left out.
  This is filesystem I/O. The code archives all three files and only then
  deletes all three.
- Progress printing is left out.
- pandas dtypes are not modelled. The manufacturing features are opaque cell
  strings. The placeholder `0.5` is the real constant `Placeholder`.
- `astype(str)` is modelled as the decimal rendering `GroupSplit.IntToString`.
  `GroupSplit.SubmissionIdDeterminesParts` proves that an id determines the
  text of both of its parts. That different integers have different decimal
  text is not proved. So the model does not prove that different
  `(sentence_id, token_id)` pairs get different ids.
- `GroupSplit.Reindex` has no case for a sentence id missing from the reindex
  dictionary. pandas would give NaN there, but the dictionary is built from
  the same column, so that case cannot arise.
