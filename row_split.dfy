/**
 * The manufacturing-state preparation step (DS-EASY-002/scripts/prepare.py):
 * given the two halves of a row-level split of `train.csv`, renumber the
 * train rows `0, 1, ...` and the test rows after them, then derive the public
 * test table, the private answer key and the sample submission.
 *
 * The seeded, stratified split itself is an input; `IsRowSplit` states what
 * the model assumes of it. File reading and writing are not modelled.
 */
module RowSplit {

  /** The number of rows the split holds out for the test table. */
  const TestSize: nat := 100000

  /** The answer the sample submission guesses for every row. */
  const Placeholder: real := 0.5

  /** A row of `train.csv`: its id, its label and its feature cells. */
  datatype Row = Row(id: int, target: int, features: seq<string>)

  /** A row of the public test table: a row without `target`. */
  datatype PublicRow = PublicRow(id: int, features: seq<string>)

  /** A row of the private answer key: columns `id`, `target`. */
  datatype Answer = Answer(id: int, target: int)

  /** A row of the sample submission: columns `id`, `target`, the latter a float. */
  datatype Guess = Guess(id: int, target: real)

  /** Everything the step writes. */
  datatype Outputs = Outputs(
    train: seq<Row>,
    publicTest: seq<PublicRow>,
    sampleSubmission: seq<Guess>,
    answers: seq<Answer>)

  /**
   * `train` and `test` are a split of `oldTrain` holding out `TestSize` rows:
   * every row of `oldTrain` lands on exactly one side, as often as it occurs.
   * In particular, a row is on some side exactly when it is a raw row.
   */
  predicate IsRowSplit(oldTrain: seq<Row>, train: seq<Row>, test: seq<Row>): (b: bool)
    ensures b ==> forall r :: r in oldTrain <==> r in train || r in test
  {
    var split := multiset(train) + multiset(test) == multiset(oldTrain) && |test| == TestSize;
    assert split ==> forall r :: r in oldTrain <==> r in train || r in test by {
      if split {
        forall r
          ensures r in oldTrain <==> r in train || r in test
        {
          assert r in oldTrain <==> r in multiset(oldTrain);
          assert r in train <==> r in multiset(train);
          assert r in test <==> r in multiset(test);
        }
      }
    }
    split
  }

  /** A split that holds out `TestSize` rows leaves the rest for training. */
  lemma RowSplitSizes(oldTrain: seq<Row>, train: seq<Row>, test: seq<Row>)
    requires IsRowSplit(oldTrain, train, test)
    ensures |train| == |oldTrain| - TestSize
  {
    assert |multiset(train)| + |multiset(test)| == |multiset(oldTrain)|;
  }

  // ---------------------------------------------------------------------------
  // Reindexer
  // ---------------------------------------------------------------------------

  /**
   * Overwrites the id column with `start, start + 1, ...` in row order; the
   * rows, their order, labels and features are unchanged.
   */
  function Renumber(rows: seq<Row>, start: int): (r: seq<Row>)
    ensures |r| == |rows|
    ensures forall i :: 0 <= i < |r| ==>
      r[i].id == start + i && r[i].target == rows[i].target && r[i].features == rows[i].features
  {
    seq(|rows|, i requires 0 <= i < |rows| => rows[i].(id := start + i))
  }

  /** The ids that occur in `rows`. */
  function IdSet(rows: seq<Row>): set<int> {
    set r | r in rows :: r.id
  }

  /** `ids` is exactly the interval `[lo, hi)`. */
  predicate IsIdInterval(ids: set<int>, lo: int, hi: int) {
    && (forall x :: x in ids ==> lo <= x < hi)
    && (forall k :: lo <= k < hi ==> k in ids)
  }

  /** Renumbering from `start` uses exactly the ids `[start, start + |rows|)`. */
  lemma RenumberIdRange(rows: seq<Row>, start: int)
    ensures IsIdInterval(IdSet(Renumber(rows, start)), start, start + |rows|)
  {
    var r := Renumber(rows, start);
    forall k | start <= k < start + |rows|
      ensures k in IdSet(r)
    {
      assert r[k - start] in r;
    }
  }

  // ---------------------------------------------------------------------------
  // Formatter
  // ---------------------------------------------------------------------------

  /** Puts a label back on a public test row. */
  function WithTarget(p: PublicRow, target: int): Row {
    Row(p.id, target, p.features)
  }

  /**
   * The public test table: the labelled test rows with `target` dropped.
   * Nothing else is lost: putting each label back gives the labelled rows
   * again, in the same order.
   */
  function DropTarget(rows: seq<Row>): (t: seq<PublicRow>)
    ensures |t| == |rows|
    ensures forall i :: 0 <= i < |t| ==> WithTarget(t[i], rows[i].target) == rows[i]
  {
    seq(|rows|, i requires 0 <= i < |rows| => PublicRow(rows[i].id, rows[i].features))
  }

  /** The private answer key: the `(id, target)` pair of each labelled test row, in order. */
  function AnswerKey(rows: seq<Row>): (a: seq<Answer>)
    ensures |a| == |rows|
    ensures forall i :: 0 <= i < |a| ==> a[i].id == rows[i].id && a[i].target == rows[i].target
  {
    seq(|rows|, i requires 0 <= i < |rows| => Answer(rows[i].id, rows[i].target))
  }

  /**
   * The sample submission: the answer key with every label replaced by the
   * placeholder.
   */
  function SampleSubmission(answers: seq<Answer>): (g: seq<Guess>)
    ensures |g| == |answers|
    ensures forall i :: 0 <= i < |g| ==> g[i].id == answers[i].id && g[i].target == Placeholder
  {
    seq(|answers|, i requires 0 <= i < |answers| => Guess(answers[i].id, Placeholder))
  }

  /** No integer label equals the placeholder. */
  lemma PlaceholderIsNoLabel(n: int)
    ensures n as real != Placeholder
  {
    if n <= 0 {
      assert n as real <= 0.0;
    } else {
      assert n as real >= 1.0;
    }
  }

  /** The sample submission never guesses a row's true label. */
  lemma SampleSubmissionNeverGuessesLabel(answers: seq<Answer>)
    ensures forall i :: 0 <= i < |answers| ==> SampleSubmission(answers)[i].target != answers[i].target as real
  {
    forall i | 0 <= i < |answers|
      ensures SampleSubmission(answers)[i].target != answers[i].target as real
    {
      PlaceholderIsNoLabel(answers[i].target);
    }
  }

  // ---------------------------------------------------------------------------
  // The whole step
  // ---------------------------------------------------------------------------

  /**
   * The preparation step on the two halves of the split. Train row i gets id
   * i; test row j gets id `|newTrain| + j` in the public test table, the
   * answer key and the sample submission alike.
   */
  function Prepare(newTrain: seq<Row>, newTestWithLabels: seq<Row>): (out: Outputs)
    ensures |out.train| == |newTrain|
    ensures forall i :: 0 <= i < |newTrain| ==>
      out.train[i].id == i && out.train[i].target == newTrain[i].target && out.train[i].features == newTrain[i].features
    ensures |out.publicTest| == |out.answers| == |out.sampleSubmission| == |newTestWithLabels|
    ensures forall j :: 0 <= j < |newTestWithLabels| ==>
      && out.publicTest[j] == PublicRow(|newTrain| + j, newTestWithLabels[j].features)
      && out.answers[j] == Answer(|newTrain| + j, newTestWithLabels[j].target)
      && out.sampleSubmission[j] == Guess(|newTrain| + j, Placeholder)
  {
    var train := Renumber(newTrain, 0);
    var test := Renumber(newTestWithLabels, |newTrain|);
    var answers := AnswerKey(test);
    Outputs(train, DropTarget(test), SampleSubmission(answers), answers)
  }

  /** Train ids and test ids never overlap: train ids lie below `|newTrain|`,
      test ids at or above it. */
  lemma PrepareIdsDisjoint(newTrain: seq<Row>, newTestWithLabels: seq<Row>)
    ensures var out := Prepare(newTrain, newTestWithLabels);
      forall i, j :: 0 <= i < |out.train| && 0 <= j < |out.publicTest| ==>
        out.train[i].id < |newTrain| <= out.publicTest[j].id
  {
  }

  /**
   * For a split of `oldTrain`, the train table has `|oldTrain| - TestSize`
   * rows, and its ids together with the test ids are exactly `[0, |oldTrain|)`,
   * each used once.
   */
  lemma PrepareIdsCoverOldTrain(oldTrain: seq<Row>, newTrain: seq<Row>, newTestWithLabels: seq<Row>)
    requires IsRowSplit(oldTrain, newTrain, newTestWithLabels)
    ensures var out := Prepare(newTrain, newTestWithLabels);
      && |out.train| == |oldTrain| - TestSize
      && |out.train| + |out.publicTest| == |oldTrain|
      && (forall k :: 0 <= k < |oldTrain| ==>
            (0 <= k < |out.train| && out.train[k].id == k)
            || (0 <= k - |out.train| < |out.publicTest| && out.publicTest[k - |out.train|].id == k))
  {
    RowSplitSizes(oldTrain, newTrain, newTestWithLabels);
  }

  /**
   * A worked size, for one example input: on a raw table of 200,010 rows the
   * train table has 100,010 rows and the sample submission 100,000, every one
   * of them guessing the placeholder.
   */
  lemma PrepareOnTwoHundredThousandTenRows(oldTrain: seq<Row>, newTrain: seq<Row>, newTestWithLabels: seq<Row>)
    requires IsRowSplit(oldTrain, newTrain, newTestWithLabels)
    requires |oldTrain| == 200010
    ensures var out := Prepare(newTrain, newTestWithLabels);
      && |out.train| == 100010
      && |out.sampleSubmission| == 100000
      && (forall j :: 0 <= j < |out.sampleSubmission| ==> out.sampleSubmission[j].target == 0.5)
  {
    RowSplitSizes(oldTrain, newTrain, newTestWithLabels);
  }

  /**
   * The sample submission has the answer key's ids in the same order, and
   * none of its guesses is the true label of its row; the public test table
   * lists the same ids in the same order.
   */
  lemma PrepareSubmissionMatchesAnswers(newTrain: seq<Row>, newTestWithLabels: seq<Row>)
    ensures var out := Prepare(newTrain, newTestWithLabels);
      forall j :: 0 <= j < |out.answers| ==>
        && out.sampleSubmission[j].id == out.answers[j].id == out.publicTest[j].id
        && out.sampleSubmission[j].target != out.answers[j].target as real
        && out.answers[j].target == newTestWithLabels[j].target
  {
    var out := Prepare(newTrain, newTestWithLabels);
    forall j | 0 <= j < |out.answers|
      ensures out.sampleSubmission[j].target != out.answers[j].target as real
    {
      PlaceholderIsNoLabel(out.answers[j].target);
    }
  }
}
