/**
 * The text-normalisation preparation step (DS-HARD-002/scripts/prepare.py):
 * split the token rows of `en_train.csv` by sentence so that no sentence is
 * on both sides, renumber each side's sentences densely in order of first
 * appearance, and derive the public test table, the private answer key and
 * the sample submission.
 *
 * The seeded split of the distinct sentence ids is an input: two key sets
 * chosen by the caller. File reading, writing and zipping are not modelled.
 */
module GroupSplit {
  import opened FirstSeen

  /** One row of `en_train.csv`: a token of a sentence with its class and its
      text before and after normalisation. */
  datatype TokenRow = TokenRow(sentenceId: int, tokenId: int, tokenClass: string, before: string, after: string)

  /** A row of the public test table: a token row without `class` and `after`. */
  datatype TestRow = TestRow(sentenceId: int, tokenId: int, before: string)

  /** A row of the answer key or of the sample submission: columns `id`, `after`. */
  datatype KeyedRow = KeyedRow(id: string, after: string)

  /** Everything the step writes. */
  datatype Outputs = Outputs(
    train: seq<TokenRow>,
    test: seq<TestRow>,
    sampleSubmission: seq<KeyedRow>,
    answers: seq<KeyedRow>)

  /** A run either completes or stops at the disjointness assertion. */
  datatype Outcome = Prepared(out: Outputs) | AssertionFailed(message: string)

  const DisjointnessMessage: string := "sentence_id is not disjoint between train and test sets"

  /** The `sentence_id` column. */
  function SentenceIds(rows: seq<TokenRow>): (ids: seq<int>)
    ensures |ids| == |rows|
    ensures forall i :: 0 <= i < |rows| ==> ids[i] == rows[i].sentenceId
  {
    seq(|rows|, i requires 0 <= i < |rows| => rows[i].sentenceId)
  }

  /** The set of sentence ids that occur in `rows`. */
  function SentenceIdSet(rows: seq<TokenRow>): set<int> {
    set r | r in rows :: r.sentenceId
  }

  /** `ids` is exactly the zero-based range `[0, n)`. */
  predicate IsZeroBasedRange(ids: set<int>, n: nat) {
    && (forall x :: x in ids ==> 0 <= x < n)
    && (forall k :: 0 <= k < n ==> k in ids)
  }

  /** The number of distinct sentences in `rows`. */
  function GroupCount(rows: seq<TokenRow>): nat {
    |Unique(SentenceIds(rows))|
  }

  // ---------------------------------------------------------------------------
  // Splitter
  // ---------------------------------------------------------------------------

  /**
   * The rows whose sentence id lies in `keys`, in their original order
   * (the boolean-mask filter `rows[rows["sentence_id"].isin(keys)]`).
   */
  function SelectGroups(rows: seq<TokenRow>, keys: set<int>): (r: seq<TokenRow>)
    ensures forall x :: x in r <==> x in rows && x.sentenceId in keys
    ensures |r| <= |rows|
  {
    if rows == [] then []
    else (if rows[0].sentenceId in keys then [rows[0]] else []) + SelectGroups(rows[1..], keys)
  }

  /** Selecting from a concatenation selects from each part in turn: the
      filter keeps the relative order of the rows it keeps. */
  lemma {:induction false} SelectGroupsConcat(a: seq<TokenRow>, b: seq<TokenRow>, keys: set<int>)
    ensures SelectGroups(a + b, keys) == SelectGroups(a, keys) + SelectGroups(b, keys)
  {
    if a == [] {
      assert a + b == b;
    } else {
      assert (a + b)[1..] == a[1..] + b;
      SelectGroupsConcat(a[1..], b, keys);
    }
  }

  /**
   * When every row's sentence id lies in exactly one of the two key sets,
   * the two selections together hold every row exactly once.
   */
  lemma {:induction false} SelectGroupsConservesRows(rows: seq<TokenRow>, trainKeys: set<int>, testKeys: set<int>)
    requires forall i :: 0 <= i < |rows| ==> (rows[i].sentenceId in trainKeys <==> rows[i].sentenceId !in testKeys)
    ensures multiset(SelectGroups(rows, trainKeys)) + multiset(SelectGroups(rows, testKeys)) == multiset(rows)
    ensures |SelectGroups(rows, trainKeys)| + |SelectGroups(rows, testKeys)| == |rows|
  {
    if rows != [] {
      var head, tail := rows[0], rows[1..];
      assert rows == [head] + tail;
      assert forall i :: 0 <= i < |tail| ==> tail[i] == rows[i + 1];
      SelectGroupsConservesRows(tail, trainKeys, testKeys);
      var train, test := SelectGroups(tail, trainKeys), SelectGroups(tail, testKeys);
      if head.sentenceId in trainKeys {
        assert SelectGroups(rows, trainKeys) == [head] + train;
        assert SelectGroups(rows, testKeys) == test;
      } else {
        assert SelectGroups(rows, trainKeys) == train;
        assert SelectGroups(rows, testKeys) == [head] + test;
      }
    }
  }

  /**
   * The key sets describe a split of the distinct sentence ids of `rows`:
   * together they are exactly those ids, and they share none. Then every row's
   * sentence id lies in exactly one of them.
   */
  predicate IsKeySplit(rows: seq<TokenRow>, trainKeys: set<int>, testKeys: set<int>): (b: bool)
    ensures b ==> forall i :: 0 <= i < |rows| ==> (rows[i].sentenceId in trainKeys <==> rows[i].sentenceId !in testKeys)
  {
    trainKeys + testKeys == SentenceIdSet(rows) && trainKeys !! testKeys
  }

  /** A split of the distinct sentence ids conserves the rows. */
  lemma KeySplitConservesRows(rows: seq<TokenRow>, trainKeys: set<int>, testKeys: set<int>)
    requires IsKeySplit(rows, trainKeys, testKeys)
    ensures multiset(SelectGroups(rows, trainKeys)) + multiset(SelectGroups(rows, testKeys)) == multiset(rows)
    ensures |SelectGroups(rows, trainKeys)| + |SelectGroups(rows, testKeys)| == |rows|
  {
    SelectGroupsConservesRows(rows, trainKeys, testKeys);
  }

  /** The number of distinct sentences is the size of the set of sentence ids. */
  lemma GroupCountIsSentenceIdSetSize(rows: seq<TokenRow>)
    ensures GroupCount(rows) == |SentenceIdSet(rows)|
  {
    var ids := SentenceIds(rows);
    UniqueCountsDistinctValues(ids);
    assert (set x | x in ids) == SentenceIdSet(rows) by {
      forall x | x in SentenceIdSet(rows) ensures x in ids {
        var i :| 0 <= i < |rows| && rows[i].sentenceId == x;
        assert ids[i] == x;
      }
    }
  }

  /** The sentences of the selected rows are those of `rows` that lie in `keys`. */
  lemma SelectGroupsSentenceIds(rows: seq<TokenRow>, keys: set<int>)
    ensures SentenceIdSet(SelectGroups(rows, keys)) == SentenceIdSet(rows) * keys
  {
  }

  /**
   * A split of the distinct sentence ids conserves the sentences: the two
   * sides hold as many distinct sentences together as `rows` does.
   */
  lemma KeySplitConservesGroups(rows: seq<TokenRow>, trainKeys: set<int>, testKeys: set<int>)
    requires IsKeySplit(rows, trainKeys, testKeys)
    ensures GroupCount(SelectGroups(rows, trainKeys)) + GroupCount(SelectGroups(rows, testKeys)) == GroupCount(rows)
  {
    var all := SentenceIdSet(rows);
    SelectGroupsSentenceIds(rows, trainKeys);
    SelectGroupsSentenceIds(rows, testKeys);
    GroupCountIsSentenceIdSetSize(rows);
    GroupCountIsSentenceIdSetSize(SelectGroups(rows, trainKeys));
    GroupCountIsSentenceIdSetSize(SelectGroups(rows, testKeys));
    assert all * trainKeys == trainKeys && all * testKeys == testKeys;
  }

  /**
   * The check that no sentence id is shared by the two sides: no train row
   * and answer row have the same sentence id.
   */
  predicate GroupsDisjoint(train: seq<TokenRow>, answers: seq<TokenRow>): (b: bool)
    ensures b <==> forall i, j :: 0 <= i < |train| && 0 <= j < |answers| ==> train[i].sentenceId != answers[j].sentenceId
  {
    var trainIds, answerIds := SentenceIdSet(train), SentenceIdSet(answers);
    assert trainIds !! answerIds <==>
        forall i, j :: 0 <= i < |train| && 0 <= j < |answers| ==> train[i].sentenceId != answers[j].sentenceId
    by {
      if !(trainIds !! answerIds) {
        var x :| x in trainIds && x in answerIds;
        var r :| r in train && r.sentenceId == x;
        var q :| q in answers && q.sentenceId == x;
        var i :| 0 <= i < |train| && train[i] == r;
        var j :| 0 <= j < |answers| && answers[j] == q;
      }
      if i, j :| 0 <= i < |train| && 0 <= j < |answers| && train[i].sentenceId == answers[j].sentenceId {
        assert train[i] in train && answers[j] in answers;
        assert train[i].sentenceId in trainIds * answerIds;
      }
    }
    trainIds !! answerIds
  }

  /**
   * The disjointness check on the selected rows fails exactly when some row's
   * sentence id lies in both key sets.
   */
  lemma SelectedGroupsDisjointIff(rows: seq<TokenRow>, trainKeys: set<int>, testKeys: set<int>)
    ensures !GroupsDisjoint(SelectGroups(rows, trainKeys), SelectGroups(rows, testKeys))
        <==> exists i :: 0 <= i < |rows| && rows[i].sentenceId in trainKeys && rows[i].sentenceId in testKeys
  {
    var train, answers := SelectGroups(rows, trainKeys), SelectGroups(rows, testKeys);
    if !GroupsDisjoint(train, answers) {
      var id :| id in SentenceIdSet(train) && id in SentenceIdSet(answers);
      var r :| r in train && r.sentenceId == id;
      var i :| 0 <= i < |rows| && rows[i] == r;
      assert rows[i].sentenceId in trainKeys && rows[i].sentenceId in testKeys;
    }
    if i :| 0 <= i < |rows| && rows[i].sentenceId in trainKeys && rows[i].sentenceId in testKeys {
      assert rows[i] in train && rows[i] in answers;
      assert rows[i].sentenceId in SentenceIdSet(train) * SentenceIdSet(answers);
    }
  }

  /** Disjoint key sets give selections that share no sentence id. */
  lemma DisjointKeysGiveDisjointGroups(rows: seq<TokenRow>, trainKeys: set<int>, testKeys: set<int>)
    requires trainKeys !! testKeys
    ensures GroupsDisjoint(SelectGroups(rows, trainKeys), SelectGroups(rows, testKeys))
  {
    SelectedGroupsDisjointIff(rows, trainKeys, testKeys);
  }

  // ---------------------------------------------------------------------------
  // Reindexer
  // ---------------------------------------------------------------------------

  /**
   * Replaces each sentence id by its position among the distinct sentence
   * ids of `rows` in order of first appearance. Rows, their order and every
   * other column are unchanged, and new ids lie in `[0, GroupCount(rows))`.
   */
  function Reindex(rows: seq<TokenRow>): (r: seq<TokenRow>)
    ensures |r| == |rows|
    ensures forall i :: 0 <= i < |rows| ==>
      && r[i].tokenId == rows[i].tokenId && r[i].tokenClass == rows[i].tokenClass
      && r[i].before == rows[i].before && r[i].after == rows[i].after
    ensures forall i :: 0 <= i < |rows| ==> 0 <= r[i].sentenceId < GroupCount(rows)
  {
    var ids := SentenceIds(rows);
    var m := FirstSeenMap(ids);
    assert forall i :: 0 <= i < |rows| ==> rows[i].sentenceId == ids[i] && ids[i] in ids;
    seq(|rows|, i requires 0 <= i < |rows| => rows[i].(sentenceId := m[rows[i].sentenceId]))
  }

  /** Reindexing preserves grouping: two rows share a new sentence id exactly
      when they shared the old one. */
  lemma ReindexPreservesGrouping(rows: seq<TokenRow>, i: nat, j: nat)
    requires i < |rows| && j < |rows|
    ensures Reindex(rows)[i].sentenceId == Reindex(rows)[j].sentenceId <==> rows[i].sentenceId == rows[j].sentenceId
  {
    var ids := SentenceIds(rows);
    FirstSeenMapInjective(ids);
    assert ids[i] in ids && ids[j] in ids;
  }

  /** Reindexing numbers sentences by first appearance: a row's new id is the
      number of distinct sentences whose first row comes before its sentence's
      first row. */
  lemma ReindexIsFirstSeenOrder(rows: seq<TokenRow>, i: nat)
    requires i < |rows|
    ensures Reindex(rows)[i].sentenceId
         == |Unique(SentenceIds(rows)[..FirstIndex(SentenceIds(rows), rows[i].sentenceId)])|
  {
    FirstSeenMapCountsEarlierValues(SentenceIds(rows), i);
  }

  /** Reindexing is dense: every id in `[0, GroupCount(rows))` is used by some row. */
  lemma ReindexIsDense(rows: seq<TokenRow>, k: nat)
    requires k < GroupCount(rows)
    ensures exists i :: 0 <= i < |rows| && Reindex(rows)[i].sentenceId == k
  {
    var ids := SentenceIds(rows);
    FirstSeenMapOnto(ids, k);
    var x :| x in ids && FirstSeenMap(ids)[x] == k;
    var i :| 0 <= i < |ids| && ids[i] == x;
    assert Reindex(rows)[i].sentenceId == k;
  }

  /** The new ids are exactly `[0, GroupCount(rows))`. */
  lemma ReindexIdRange(rows: seq<TokenRow>)
    ensures IsZeroBasedRange(SentenceIdSet(Reindex(rows)), GroupCount(rows))
  {
    var r := Reindex(rows);
    forall k | 0 <= k < GroupCount(rows)
      ensures k in SentenceIdSet(r)
    {
      ReindexIsDense(rows, k);
      var i :| 0 <= i < |rows| && r[i].sentenceId == k;
      assert r[i] in r;
    }
  }

  /** The first row always belongs to sentence 0. */
  lemma ReindexStartsAtZero(rows: seq<TokenRow>)
    requires rows != []
    ensures Reindex(rows)[0].sentenceId == 0
  {
    ReindexIsFirstSeenOrder(rows, 0);
    assert FirstIndex(SentenceIds(rows), rows[0].sentenceId) == 0;
  }

  // ---------------------------------------------------------------------------
  // Formatter
  // ---------------------------------------------------------------------------

  /** Puts `class` and `after` back on a public test row. */
  function WithAnswerColumns(t: TestRow, tokenClass: string, after: string): TokenRow {
    TokenRow(t.sentenceId, t.tokenId, tokenClass, t.before, after)
  }

  /**
   * The public test table: the answer rows with `after` and `class` dropped.
   * Nothing else is lost: putting those two columns back gives the answer
   * rows again, in the same order.
   */
  function DropAnswerColumns(answers: seq<TokenRow>): (t: seq<TestRow>)
    ensures |t| == |answers|
    ensures forall i :: 0 <= i < |t| ==>
      WithAnswerColumns(t[i], answers[i].tokenClass, answers[i].after) == answers[i]
  {
    seq(|answers|, i requires 0 <= i < |answers| =>
      TestRow(answers[i].sentenceId, answers[i].tokenId, answers[i].before))
  }

  /** The sentence ids of the public test table. */
  function TestIdSet(test: seq<TestRow>): set<int> {
    set t | t in test :: t.sentenceId
  }

  /** Dropping the answer columns keeps the set of sentence ids. */
  lemma DropAnswerColumnsKeepsSentenceIds(answers: seq<TokenRow>)
    ensures TestIdSet(DropAnswerColumns(answers)) == SentenceIdSet(answers)
  {
    var t := DropAnswerColumns(answers);
    forall k | k in SentenceIdSet(answers)
      ensures k in TestIdSet(t)
    {
      var i :| 0 <= i < |answers| && answers[i].sentenceId == k;
      assert t[i] in t;
    }
  }

  /** Decimal digits of a natural number. */
  function DigitString(n: nat): string
    decreases n
  {
    var d := "0123456789"[n % 10];
    if n < 10 then [d] else DigitString(n / 10) + [d]
  }

  /** The text of an integer column value after `astype(str)`. */
  function IntToString(n: int): string {
    if n < 0 then "-" + DigitString(-n) else DigitString(n)
  }

  /** The decimal rendering of a natural number is a non-empty run of digits. */
  lemma {:induction false} DigitStringIsDigits(n: nat)
    ensures |DigitString(n)| >= 1
    ensures forall i :: 0 <= i < |DigitString(n)| ==> '0' <= DigitString(n)[i] <= '9'
    decreases n
  {
    if n >= 10 {
      DigitStringIsDigits(n / 10);
    }
  }

  /**
   * The text of an integer is non-empty, starts with a minus sign exactly
   * when the integer is negative, and holds no underscore.
   */
  lemma IntToStringShape(n: int)
    ensures |IntToString(n)| >= 1
    ensures IntToString(n)[0] == '-' <==> n < 0
    ensures '_' !in IntToString(n)
  {
    DigitStringIsDigits(if n < 0 then -n else n);
  }

  /** The submission id of a token: sentence id, underscore, token id. */
  function SubmissionId(sentenceId: int, tokenId: int): (id: string)
  {
    IntToString(sentenceId) + "_" + IntToString(tokenId)
  }

  /**
   * A submission id determines the text of its sentence id and of its token
   * id: two tokens with the same id have the same `astype(str)` renderings.
   */
  lemma SubmissionIdDeterminesParts(s1: int, t1: int, s2: int, t2: int)
    requires SubmissionId(s1, t1) == SubmissionId(s2, t2)
    ensures IntToString(s1) == IntToString(s2) && IntToString(t1) == IntToString(t2)
  {
    var id := SubmissionId(s1, t1);
    var a1, b1, a2, b2 := IntToString(s1), IntToString(t1), IntToString(s2), IntToString(t2);
    IntToStringShape(s1);
    IntToStringShape(s2);
    assert id == a1 + "_" + b1 == a2 + "_" + b2;
    assert id[|a1|] == '_' && id[|a2|] == '_';
    assert a1 == id[..|a1|] == a2;
    assert b1 == id[|a1| + 1..] == b2;
  }

  /**
   * The private answer key: for each answer row, in order, its submission id
   * and its true `after` text.
   */
  function FormatAnswers(answers: seq<TokenRow>): (key: seq<KeyedRow>)
    ensures |key| == |answers|
    ensures forall i :: 0 <= i < |key| ==>
      key[i].id == SubmissionId(answers[i].sentenceId, answers[i].tokenId) && key[i].after == answers[i].after
  {
    seq(|answers|, i requires 0 <= i < |answers| =>
      KeyedRow(SubmissionId(answers[i].sentenceId, answers[i].tokenId), answers[i].after))
  }

  /**
   * The sample submission: for each public test row, in order, its
   * submission id and, as the guessed answer, its own `before` text.
   */
  function SampleSubmission(test: seq<TestRow>): (sub: seq<KeyedRow>)
    ensures |sub| == |test|
    ensures forall i :: 0 <= i < |sub| ==>
      sub[i].id == SubmissionId(test[i].sentenceId, test[i].tokenId) && sub[i].after == test[i].before
  {
    seq(|test|, i requires 0 <= i < |test| =>
      KeyedRow(SubmissionId(test[i].sentenceId, test[i].tokenId), test[i].before))
  }

  /**
   * The sample submission built from the public test table has the answer
   * key's id column, element by element and in order; its answers echo
   * `before` while the key holds the true `after`.
   */
  lemma SampleSubmissionMatchesAnswerKey(answers: seq<TokenRow>)
    ensures |SampleSubmission(DropAnswerColumns(answers))| == |FormatAnswers(answers)| == |answers|
    ensures forall i :: 0 <= i < |answers| ==>
      && SampleSubmission(DropAnswerColumns(answers))[i].id == FormatAnswers(answers)[i].id
      && SampleSubmission(DropAnswerColumns(answers))[i].after == answers[i].before
      && FormatAnswers(answers)[i].after == answers[i].after
  {
    var t := DropAnswerColumns(answers);
    assert forall i :: 0 <= i < |answers| ==>
      WithAnswerColumns(t[i], answers[i].tokenClass, answers[i].after) == answers[i];
  }

  /**
   * Echoing `before` guesses a token's answer right exactly when
   * normalisation leaves the token unchanged.
   */
  lemma SampleGuessRightIffUnchanged(answers: seq<TokenRow>, i: nat)
    requires i < |answers|
    ensures SampleSubmission(DropAnswerColumns(answers))[i].after == FormatAnswers(answers)[i].after
        <==> answers[i].before == answers[i].after
  {
    SampleSubmissionMatchesAnswerKey(answers);
  }

  // ---------------------------------------------------------------------------
  // The whole step
  // ---------------------------------------------------------------------------

  /**
   * Renumbering and formatting, applied to the two sides of the split: the
   * train table, the public test table, the sample submission and the answer
   * key, with one row in each test-side table per test-side row.
   */
  function Derive(newTrain: seq<TokenRow>, answers: seq<TokenRow>): (out: Outputs)
    ensures |out.train| == |newTrain|
    ensures |out.test| == |out.sampleSubmission| == |out.answers| == |answers|
  {
    var train' := Reindex(newTrain);
    var answers' := Reindex(answers);
    var test := DropAnswerColumns(answers');
    Outputs(train', test, SampleSubmission(test), FormatAnswers(answers'))
  }

  /**
   * The preparation step on the rows of `en_train.csv`, given the sentence
   * ids the seeded split put on each side. It stops with the assertion's
   * message exactly when some row's sentence id was put on both sides, and
   * otherwise derives the tables from the two selections.
   */
  function Prepare(oldTrain: seq<TokenRow>, trainKeys: set<int>, testKeys: set<int>): (r: Outcome)
    ensures r.AssertionFailed? <==>
      exists i :: 0 <= i < |oldTrain| && oldTrain[i].sentenceId in trainKeys && oldTrain[i].sentenceId in testKeys
    ensures r.AssertionFailed? ==> r.message == DisjointnessMessage
    ensures r.Prepared? ==> r.out == Derive(SelectGroups(oldTrain, trainKeys), SelectGroups(oldTrain, testKeys))
  {
    var newTrain := SelectGroups(oldTrain, trainKeys);
    var answers := SelectGroups(oldTrain, testKeys);
    SelectedGroupsDisjointIff(oldTrain, trainKeys, testKeys);
    if !GroupsDisjoint(newTrain, answers) then AssertionFailed(DisjointnessMessage)
    else Prepared(Derive(newTrain, answers))
  }

  /** A split of the distinct sentence ids never trips the assertion, and the
      train and test tables together hold as many rows as `en_train.csv`. */
  lemma PrepareOnKeySplit(oldTrain: seq<TokenRow>, trainKeys: set<int>, testKeys: set<int>)
    requires IsKeySplit(oldTrain, trainKeys, testKeys)
    ensures Prepare(oldTrain, trainKeys, testKeys).Prepared?
    ensures |Prepare(oldTrain, trainKeys, testKeys).out.train|
          + |Prepare(oldTrain, trainKeys, testKeys).out.test| == |oldTrain|
  {
    KeySplitConservesRows(oldTrain, trainKeys, testKeys);
  }

  /**
   * The train table holds the train-side rows in original order with every
   * column but the sentence id kept, its sentences numbered from 0 densely.
   */
  lemma DeriveReindexesTrainSide(newTrain: seq<TokenRow>, answers: seq<TokenRow>)
    ensures var out := Derive(newTrain, answers);
      && (forall i :: 0 <= i < |newTrain| ==>
            && out.train[i].tokenId == newTrain[i].tokenId && out.train[i].tokenClass == newTrain[i].tokenClass
            && out.train[i].before == newTrain[i].before && out.train[i].after == newTrain[i].after)
      && IsZeroBasedRange(SentenceIdSet(out.train), GroupCount(newTrain))
      && (newTrain != [] ==> out.train[0].sentenceId == 0)
  {
    assert Derive(newTrain, answers).train == Reindex(newTrain);
    ReindexIdRange(newTrain);
    if newTrain != [] { ReindexStartsAtZero(newTrain); }
  }

  /**
   * The public test table holds the test-side rows in original order with
   * `sentence_id`, `token_id` and `before`, its sentences numbered from 0
   * densely, independently of the train table.
   */
  lemma DeriveReindexesTestSide(newTrain: seq<TokenRow>, answers: seq<TokenRow>)
    ensures var out := Derive(newTrain, answers);
      && (forall i :: 0 <= i < |answers| ==>
            out.test[i].tokenId == answers[i].tokenId && out.test[i].before == answers[i].before)
      && IsZeroBasedRange(TestIdSet(out.test), GroupCount(answers))
      && (answers != [] ==> out.test[0].sentenceId == 0)
  {
    var t := DropAnswerColumns(Reindex(answers));
    assert Derive(newTrain, answers).test == t;
    ReindexIdRange(answers);
    DropAnswerColumnsKeepsSentenceIds(Reindex(answers));
    if answers != [] { ReindexStartsAtZero(answers); }
  }

  /**
   * The sample submission and the answer key have the same id column in the
   * same order, built from the public test rows; the sample's answer is each
   * test-side row's `before`, the key's is its true `after`.
   */
  lemma DeriveSubmissionMatchesAnswers(newTrain: seq<TokenRow>, answers: seq<TokenRow>)
    ensures var out := Derive(newTrain, answers);
      forall i :: 0 <= i < |answers| ==>
        && out.sampleSubmission[i].id == out.answers[i].id
        && out.sampleSubmission[i].id == SubmissionId(out.test[i].sentenceId, out.test[i].tokenId)
        && out.sampleSubmission[i].after == answers[i].before
        && out.answers[i].after == answers[i].after
  {
    var answers' := Reindex(answers);
    var out := Derive(newTrain, answers);
    assert out.test == DropAnswerColumns(answers');
    assert out.sampleSubmission == SampleSubmission(out.test);
    assert out.answers == FormatAnswers(answers');
    SampleSubmissionMatchesAnswerKey(answers');
  }
}
