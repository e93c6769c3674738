/**
 * First-seen order over a column of integer keys: the distinct values of a
 * column in order of first appearance (what a column's `unique()` returns)
 * and the dictionary that sends the k-th of them to k (what
 * `{old: new for new, old in enumerate(unique)}` builds).
 */
module FirstSeen {

  /** No value occurs twice in `s`. */
  predicate NoDuplicates(s: seq<int>) {
    forall i, j :: 0 <= i < j < |s| ==> s[i] != s[j]
  }

  /** Position of the first occurrence of `x` in `s`. */
  function FirstIndex(s: seq<int>, x: int): (i: nat)
    requires x in s
    ensures i < |s| && s[i] == x && x !in s[..i]
  {
    if s[0] == x then 0
    else
      var j := FirstIndex(s[1..], x);
      assert s[..j + 1] == [s[0]] + s[1..][..j];
      1 + j
  }

  /**
   * The distinct values of `s` in order of first appearance. Defined by
   * scanning from the back, so that the prefixes of `s` are easy to relate.
   */
  function Unique(s: seq<int>): (u: seq<int>)
    ensures NoDuplicates(u)
    ensures forall x :: x in u <==> x in s
    ensures |u| <= |s|
  {
    if s == [] then []
    else
      var init := s[..|s| - 1];
      var u' := Unique(init);
      var x := s[|s| - 1];
      assert s == init + [x];
      if x in u' then u' else u' + [x]
  }

  /** There are as many distinct values as values in the set of `s`. */
  lemma {:induction false} UniqueCountsDistinctValues(s: seq<int>)
    ensures |Unique(s)| == |set x | x in s|
  {
    if s != [] {
      var init, x := s[..|s| - 1], s[|s| - 1];
      UniqueCountsDistinctValues(init);
      assert s == init + [x];
      var before := set y | y in init;
      assert (set y | y in s) == before + {x};
      if x in init {
        assert before + {x} == before;
      } else {
        assert x !in Unique(init) && x !in before;
        assert |before + {x}| == |before| + 1;
      }
    }
  }

  /** Scanning a prefix of `s` gives a prefix of the distinct values of `s`. */
  lemma {:induction false} UniquePrefix(s: seq<int>, j: nat)
    requires j <= |s|
    ensures Unique(s[..j]) <= Unique(s)
    decreases |s| - j
  {
    if j == |s| {
      assert s[..j] == s;
    } else {
      UniquePrefix(s, j + 1);
      assert s[..j + 1][..j] == s[..j];
    }
  }

  /**
   * The distinct values seen before the first occurrence of `s[i]`, followed
   * by `s[i]` itself, are the distinct values of the prefix that ends there.
   */
  lemma UniqueAtFirstOccurrence(s: seq<int>, i: nat)
    requires i < |s|
    ensures Unique(s[..FirstIndex(s, s[i]) + 1]) == Unique(s[..FirstIndex(s, s[i])]) + [s[i]]
  {
    var f := FirstIndex(s, s[i]);
    var p := s[..f + 1];
    assert p[..|p| - 1] == s[..f];
    assert p[|p| - 1] == s[i];
    assert s[i] !in Unique(s[..f]);
  }

  /**
   * The dictionary from each distinct value to its position in order of first
   * appearance: the k-th distinct value is sent to k, the keys are exactly the
   * values of `s`, and every image is below the number of distinct values.
   */
  function FirstSeenMap(s: seq<int>): (m: map<int, nat>)
    ensures forall x :: x in m <==> x in s
    ensures forall k :: 0 <= k < |Unique(s)| ==> Unique(s)[k] in m && m[Unique(s)[k]] == k
    ensures forall x :: x in m ==> m[x] < |Unique(s)|
  {
    var u := Unique(s);
    map k | 0 <= k < |u| :: u[k] := k
  }

  /** Every position in `[0, |Unique(s)|)` is the image of some value of `s`. */
  lemma FirstSeenMapOnto(s: seq<int>, k: nat)
    requires k < |Unique(s)|
    ensures exists x :: x in s && FirstSeenMap(s)[x] == k
  {
    var u := Unique(s);
    assert u[k] in s && FirstSeenMap(s)[u[k]] == k;
  }

  /** Different values get different new keys. */
  lemma FirstSeenMapInjective(s: seq<int>)
    ensures forall x, y :: x in s && y in s && FirstSeenMap(s)[x] == FirstSeenMap(s)[y] ==> x == y
  {
    var m, u := FirstSeenMap(s), Unique(s);
    forall x, y | x in s && y in s && m[x] == m[y]
      ensures x == y
    {
      var i :| 0 <= i < |u| && u[i] == x;
      var j :| 0 <= j < |u| && u[j] == y;
      assert m[x] == i && m[y] == j;
    }
  }

  /**
   * First-seen numbering: the new key of `s[i]` is the number of distinct
   * values that occur before the first occurrence of `s[i]`.
   */
  lemma {:induction false} FirstSeenMapCountsEarlierValues(s: seq<int>, i: nat)
    requires i < |s|
    ensures FirstSeenMap(s)[s[i]] == |Unique(s[..FirstIndex(s, s[i])])|
  {
    var f := FirstIndex(s, s[i]);
    var p := Unique(s[..f]);
    UniqueAtFirstOccurrence(s, i);
    UniquePrefix(s, f + 1);
    assert Unique(s)[|p|] == Unique(s[..f + 1])[|p|] == s[i];
  }

  /**
   * Values are numbered in the order in which they first appear: a value that
   * first occurs earlier gets a smaller new key.
   */
  lemma {:induction false} FirstSeenMapMonotone(s: seq<int>, i: nat, j: nat)
    requires i < |s| && j < |s|
    requires FirstIndex(s, s[i]) < FirstIndex(s, s[j])
    ensures FirstSeenMap(s)[s[i]] < FirstSeenMap(s)[s[j]]
  {
    var fi, fj := FirstIndex(s, s[i]), FirstIndex(s, s[j]);
    FirstSeenMapCountsEarlierValues(s, i);
    FirstSeenMapCountsEarlierValues(s, j);
    UniqueAtFirstOccurrence(s, i);
    assert s[..fj][..fi + 1] == s[..fi + 1];
    UniquePrefix(s[..fj], fi + 1);
  }
}
