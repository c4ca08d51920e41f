/**
 * iter.compare, iter.equal and iter.findMismatch: two cursors stepped in
 * lockstep, both handed to the callback with the same position.
 */
module Comparisons {
  import opened Wrappers
  import opened Callbacks
  import opened Sequences

  /** A mismatch_result: both values (None for a side that has ended) and their position. */
  datatype Mismatch<T> = Mismatch(lhsValue: Option<T>, rhsValue: Option<T>, index: nat)

  // ---------------------------------------------------------------- compare

  /** Lexicographic comparison of l[k..] and r[k..], positions counted from 0 in l and r. */
  function CompareFrom<T>(l: seq<T>, r: seq<T>, cmp: Comparer<T>, k: nat): (result: int)
    requires k <= |l| && k <= |r|
    ensures -1 <= result <= 1
    decreases |l| - k
  {
    if k == |l| && k == |r| then 0
    else if k == |l| then -1
    else if k == |r| then 1
    else
      var c := cmp(l[k], r[k], k, k);
      if c < 0 then -1 else if c > 0 then 1 else CompareFrom(l, r, cmp, k + 1)
  }

  function Compare<T>(l: seq<T>, r: seq<T>, cmp: Comparer<T>): int {
    CompareFrom(l, r, cmp, 0)
  }

  method ComputeCompare<T>(l: seq<T>, r: seq<T>, cmp: Comparer<T>) returns (result: int)
    ensures result == Compare(l, r, cmp)
    ensures result == -1 || result == 0 || result == 1
  {
    var index := 0;
    while true
      invariant index <= |l| && index <= |r|
      invariant CompareFrom(l, r, cmp, index) == Compare(l, r, cmp)
      decreases |l| - index
    {
      var doneL, doneR := index == |l|, index == |r|;
      if doneL && doneR {
        return 0;
      }
      if doneL {
        return -1;
      }
      if doneR {
        return 1;
      }
      var c := cmp(l[index], r[index], index, index);
      index := index + 1;
      if c < 0 {
        return -1;
      } else if c > 0 {
        return 1;
      }
    }
  }

  /** Positions [k, m) all compare equal, so the comparison from k is the one from m. */
  lemma {:induction false} CompareFromSkip<T>(l: seq<T>, r: seq<T>, cmp: Comparer<T>, k: nat, m: nat)
    requires k <= m <= |l| && m <= |r|
    requires forall p :: k <= p < m ==> cmp(l[p], r[p], p, p) == 0
    ensures CompareFrom(l, r, cmp, k) == CompareFrom(l, r, cmp, m)
    decreases m - k
  {
    if k < m {
      CompareFromSkip(l, r, cmp, k + 1, m);
    }
  }

  /**
   * The result is decided at the first position k where the comparer is not
   * zero or a side ends: the sign of the comparer there, -1 if only l has
   * ended (a proper prefix), 1 if only r has, 0 if both have.
   */
  lemma CompareAtFirstDifference<T>(l: seq<T>, r: seq<T>, cmp: Comparer<T>, k: nat)
    requires k <= |l| && k <= |r|
    requires forall p :: 0 <= p < k ==> cmp(l[p], r[p], p, p) == 0
    requires k == |l| || k == |r| || cmp(l[k], r[k], k, k) != 0
    ensures Compare(l, r, cmp) ==
      if k < |l| && k < |r| then Sign(cmp(l[k], r[k], k, k))
      else if k == |l| && k == |r| then 0
      else if k == |l| then -1
      else 1
  {
    CompareFromSkip(l, r, cmp, 0, k);
  }

  /** compare(A, A) == 0 when the comparer finds every value equal to itself. */
  lemma {:induction false} CompareReflexive<T>(s: seq<T>, cmp: Comparer<T>)
    requires forall k :: 0 <= k < |s| ==> cmp(s[k], s[k], k, k) == 0
    ensures Compare(s, s, cmp) == 0
  {
    CompareFromSkip(s, s, cmp, 0, |s|);
  }

  /** Swapping the sides negates the result when the comparer is antisymmetric. */
  lemma {:induction false} CompareFromAntisymmetric<T>(l: seq<T>, r: seq<T>, cmp: Comparer<T>, k: nat)
    requires k <= |l| && k <= |r|
    requires forall a, b, i, j :: Sign(cmp(a, b, i, j)) == -Sign(cmp(b, a, j, i))
    ensures CompareFrom(l, r, cmp, k) == -CompareFrom(r, l, cmp, k)
    decreases |l| - k
  {
    if k < |l| && k < |r| && cmp(l[k], r[k], k, k) == 0 {
      assert Sign(cmp(r[k], l[k], k, k)) == 0;
      CompareFromAntisymmetric(l, r, cmp, k + 1);
    } else if k < |l| && k < |r| {
      assert Sign(cmp(r[k], l[k], k, k)) == -Sign(cmp(l[k], r[k], k, k));
    }
  }

  lemma CompareAntisymmetric<T>(l: seq<T>, r: seq<T>, cmp: Comparer<T>)
    requires forall a, b, i, j :: Sign(cmp(a, b, i, j)) == -Sign(cmp(b, a, j, i))
    ensures Compare(l, r, cmp) == -Compare(r, l, cmp)
  {
    CompareFromAntisymmetric(l, r, cmp, 0);
  }

  // ---------------------------------------------------------------- equal

  function EqualFrom<T>(l: seq<T>, r: seq<T>, eq: Equals<T>, k: nat): bool
    requires k <= |l| && k <= |r|
    decreases |l| - k
  {
    if k == |l| && k == |r| then true
    else if k == |l| || k == |r| then false
    else if !eq(l[k], r[k], k, k) then false
    else EqualFrom(l, r, eq, k + 1)
  }

  function Equal<T>(l: seq<T>, r: seq<T>, eq: Equals<T>): bool {
    EqualFrom(l, r, eq, 0)
  }

  method ComputeEqual<T>(l: seq<T>, r: seq<T>, eq: Equals<T>) returns (result: bool)
    ensures result == Equal(l, r, eq)
  {
    var index := 0;
    while true
      invariant index <= |l| && index <= |r|
      invariant EqualFrom(l, r, eq, index) == Equal(l, r, eq)
      decreases |l| - index
    {
      var doneL, doneR := index == |l|, index == |r|;
      if doneL && doneR {
        return true;
      }
      if doneL || doneR {
        return false;
      }
      var same := eq(l[index], r[index], index, index);
      index := index + 1;
      if !same {
        return false;
      }
    }
  }

  lemma {:induction false} EqualFromMeaning<T>(l: seq<T>, r: seq<T>, eq: Equals<T>, k: nat)
    requires k <= |l| && k <= |r|
    ensures EqualFrom(l, r, eq, k) <==>
      |l| == |r| && forall p :: k <= p < |l| ==> eq(l[p], r[p], p, p)
    decreases |l| - k
  {
    if k < |l| && k < |r| {
      EqualFromMeaning(l, r, eq, k + 1);
    }
  }

  /** equal is true exactly when the lengths agree and equals(l[p], r[p], p, p) holds at every p. */
  lemma EqualMeaning<T>(l: seq<T>, r: seq<T>, eq: Equals<T>)
    ensures Equal(l, r, eq) <==> |l| == |r| && forall p :: 0 <= p < |l| ==> eq(l[p], r[p], p, p)
  {
    EqualFromMeaning(l, r, eq, 0);
  }

  /** equal(A, A) for an equality that holds of every value with itself. */
  lemma EqualReflexive<T>(s: seq<T>, eq: Equals<T>)
    requires forall k :: 0 <= k < |s| ==> eq(s[k], s[k], k, k)
    ensures Equal(s, s, eq)
  {
    EqualMeaning(s, s, eq);
  }

  // ---------------------------------------------------------------- findMismatch

  function FindMismatchFrom<T>(l: seq<T>, r: seq<T>, eq: Equals<T>, k: nat): Option<Mismatch<T>>
    requires k <= |l| && k <= |r|
    decreases |l| - k
  {
    if k == |l| && k == |r| then None
    else if k == |l| then Some(Mismatch(None, Some(r[k]), k))
    else if k == |r| then Some(Mismatch(Some(l[k]), None, k))
    else if !eq(l[k], r[k], k, k) then Some(Mismatch(Some(l[k]), Some(r[k]), k))
    else FindMismatchFrom(l, r, eq, k + 1)
  }

  function FindMismatch<T>(l: seq<T>, r: seq<T>, eq: Equals<T>): Option<Mismatch<T>> {
    FindMismatchFrom(l, r, eq, 0)
  }

  method ComputeFindMismatch<T>(l: seq<T>, r: seq<T>, eq: Equals<T>) returns (result: Option<Mismatch<T>>)
    ensures result == FindMismatch(l, r, eq)
  {
    var index := 0;
    while true
      invariant index <= |l| && index <= |r|
      invariant FindMismatchFrom(l, r, eq, index) == FindMismatch(l, r, eq)
      decreases |l| - index
    {
      var doneL, doneR := index == |l|, index == |r|;
      if doneL && doneR {
        return None;
      }
      if doneL {
        return Some(Mismatch(None, Some(r[index]), index));
      }
      if doneR {
        return Some(Mismatch(Some(l[index]), None, index));
      }
      if !eq(l[index], r[index], index, index) {
        return Some(Mismatch(Some(l[index]), Some(r[index]), index));
      }
      index := index + 1;
    }
  }

  lemma {:induction false} FindMismatchFromMeaning<T>(l: seq<T>, r: seq<T>, eq: Equals<T>, k: nat)
    requires k <= |l| && k <= |r|
    ensures FindMismatchFrom(l, r, eq, k).None? <==> EqualFrom(l, r, eq, k)
    ensures FindMismatchFrom(l, r, eq, k).Some? ==>
      var m := FindMismatchFrom(l, r, eq, k).value;
      && k <= m.index <= |l| && m.index <= |r|
      && (m.index < |l| || m.index < |r|)
      && m.lhsValue == Slot(l, m.index) && m.rhsValue == Slot(r, m.index)
      && (m.index < |l| && m.index < |r| ==> !eq(l[m.index], r[m.index], m.index, m.index))
      && forall p :: k <= p < m.index ==> eq(l[p], r[p], p, p)
    decreases |l| - k
  {
    if k < |l| && k < |r| && eq(l[k], r[k], k, k) {
      FindMismatchFromMeaning(l, r, eq, k + 1);
    }
  }

  /** findMismatch returns null exactly when equal would return true under the same equals. */
  lemma FindMismatchNoneIffEqual<T>(l: seq<T>, r: seq<T>, eq: Equals<T>)
    ensures FindMismatch(l, r, eq).None? <==> Equal(l, r, eq)
  {
    FindMismatchFromMeaning(l, r, eq, 0);
  }

  /**
   * A mismatch found is at the smallest position where the sides differ
   * (or one ends), with None for a side that has ended.
   */
  lemma FindMismatchIsFirst<T>(l: seq<T>, r: seq<T>, eq: Equals<T>)
    requires FindMismatch(l, r, eq).Some?
    ensures
      var m := FindMismatch(l, r, eq).value;
      && m.index <= |l| && m.index <= |r|
      && (m.index < |l| || m.index < |r|)
      && m.lhsValue == Slot(l, m.index) && m.rhsValue == Slot(r, m.index)
      && (m.index < |l| && m.index < |r| ==> !eq(l[m.index], r[m.index], m.index, m.index))
      && forall p :: 0 <= p < m.index ==> eq(l[p], r[p], p, p)
  {
    FindMismatchFromMeaning(l, r, eq, 0);
  }
}
