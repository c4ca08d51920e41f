/**
 * iter.merge: two cursors over sorted inputs, advanced by a three-way
 * comparison; on a tie both current items are emitted, lhs first.
 */
module Merging {
  import opened Callbacks
  import opened Sequences

  function MergeFrom<T>(l: seq<T>, r: seq<T>, cmp: Comparer<T>, i: nat, j: nat): seq<T>
    requires i <= |l| && j <= |r|
    decreases |l| - i + |r| - j
  {
    if i == |l| && j == |r| then []
    else if i == |l| then [r[j]] + MergeFrom(l, r, cmp, i, j + 1)
    else if j == |r| then [l[i]] + MergeFrom(l, r, cmp, i + 1, j)
    else
      var c := cmp(l[i], r[j], i, j);
      if c < 0 then [l[i]] + MergeFrom(l, r, cmp, i + 1, j)
      else if c > 0 then [r[j]] + MergeFrom(l, r, cmp, i, j + 1)
      else [l[i], r[j]] + MergeFrom(l, r, cmp, i + 1, j + 1)
  }

  function Merge<T>(l: seq<T>, r: seq<T>, cmp: Comparer<T>): seq<T> {
    MergeFrom(l, r, cmp, 0, 0)
  }

  method ComputeMerge<T>(l: seq<T>, r: seq<T>, cmp: Comparer<T>) returns (out: seq<T>)
    ensures out == Merge(l, r, cmp)
  {
    out := [];
    var i, j := 0, 0;
    while i < |l| || j < |r|
      invariant i <= |l| && j <= |r|
      invariant out + MergeFrom(l, r, cmp, i, j) == Merge(l, r, cmp)
      decreases |l| - i + |r| - j
    {
      ghost var before := out;
      if i == |l| {
        out := out + [r[j]];
        j := j + 1;
        AppendAssoc(before, [r[j - 1]], MergeFrom(l, r, cmp, i, j));
      } else if j == |r| {
        out := out + [l[i]];
        i := i + 1;
        AppendAssoc(before, [l[i - 1]], MergeFrom(l, r, cmp, i, j));
      } else {
        var nextL, nextR := l[i], r[j];
        var c := cmp(nextL, nextR, i, j);
        if c <= 0 {
          out := out + [nextL];
          i := i + 1;
        }
        if c >= 0 {
          out := out + [nextR];
          j := j + 1;
        }
        assert c == 0 ==> out == before + [nextL, nextR];
        AppendAssoc(before, out[|before|..], MergeFrom(l, r, cmp, i, j));
      }
    }
  }

  lemma {:induction false} MergeFromMultiset<T>(l: seq<T>, r: seq<T>, cmp: Comparer<T>, i: nat, j: nat)
    requires i <= |l| && j <= |r|
    ensures multiset(MergeFrom(l, r, cmp, i, j)) == multiset(l[i..]) + multiset(r[j..])
    decreases |l| - i + |r| - j
  {
    if i == |l| && j == |r| {
    } else if i == |l| || (j < |r| && cmp(l[i], r[j], i, j) > 0) {
      MergeFromMultiset(l, r, cmp, i, j + 1);
      MultisetSplit(r, j);
    } else if j == |r| || cmp(l[i], r[j], i, j) < 0 {
      MergeFromMultiset(l, r, cmp, i + 1, j);
      MultisetSplit(l, i);
    } else {
      var rest := MergeFrom(l, r, cmp, i + 1, j + 1);
      MergeFromMultiset(l, r, cmp, i + 1, j + 1);
      MergeTieStep(l, r, cmp, i, j);
      MultisetSplit(l, i);
      MultisetSplit(r, j);
      assert multiset([l[i]] + ([r[j]] + rest)) == multiset{l[i]} + (multiset{r[j]} + multiset(rest));
    }
  }

  /** For any comparer, the output is a permutation of lhs followed by rhs. */
  lemma MergePermutation<T>(l: seq<T>, r: seq<T>, cmp: Comparer<T>)
    ensures multiset(Merge(l, r, cmp)) == multiset(l) + multiset(r)
    ensures |Merge(l, r, cmp)| == |l| + |r|
  {
    MergeFromMultiset(l, r, cmp, 0, 0);
    assert l[0..] == l && r[0..] == r;
    assert |multiset(Merge(l, r, cmp))| == |Merge(l, r, cmp)|;
  }

  /** A lower bound of two sequences bounds any sequence with their items. */
  lemma AllAtLeastOfMultiset<T>(x: T, t: seq<T>, u: seq<T>, v: seq<T>, cmp: Comparer<T>)
    requires multiset(t) == multiset(u) + multiset(v)
    requires AllAtLeast(x, u, cmp) && AllAtLeast(x, v, cmp)
    ensures AllAtLeast(x, t, cmp)
  {
    forall k | 0 <= k < |t| ensures cmp(x, t[k], 0, 0) <= 0 {
      assert t[k] in multiset(t);
      assert t[k] in u || t[k] in v;
    }
  }

  /** x at or below s[j] is at or below all of the sorted suffix s[j..]. */
  lemma BoundSuffix<T(!new)>(x: T, s: seq<T>, j: nat, cmp: Comparer<T>)
    requires TotalPreorder(cmp) && Sorted(s, cmp)
    requires j <= |s| && (j < |s| ==> cmp(x, s[j], 0, 0) <= 0)
    ensures AllAtLeast(x, s[j..], cmp)
  {
    forall k | 0 <= k < |s[j..]| ensures cmp(x, s[j..][k], 0, 0) <= 0 {
      assert s[j..][k] == s[j + k];
      if k > 0 {
        Transitive(cmp, x, s[j], s[j + k]);
      }
    }
  }

  /** Emitting x in front of a sorted rest built from u and v keeps the output sorted. */
  lemma EmitSorted<T>(x: T, rest: seq<T>, u: seq<T>, v: seq<T>, cmp: Comparer<T>)
    requires Sorted(rest, cmp)
    requires multiset(rest) == multiset(u) + multiset(v)
    requires AllAtLeast(x, u, cmp) && AllAtLeast(x, v, cmp)
    ensures Sorted([x] + rest, cmp)
  {
    AllAtLeastOfMultiset(x, rest, u, v, cmp);
    var t := [x] + rest;
    forall a, b | 0 <= a < b < |t| ensures cmp(t[a], t[b], 0, 0) <= 0 {
      if a > 0 {
        assert t[a] == rest[a - 1] && t[b] == rest[b - 1];
      } else {
        assert t[b] == rest[b - 1];
      }
    }
  }

  lemma {:induction false} MergeFromSorted<T(!new)>(l: seq<T>, r: seq<T>, cmp: Comparer<T>, i: nat, j: nat)
    requires TotalPreorder(cmp) && Sorted(l, cmp) && Sorted(r, cmp)
    requires i <= |l| && j <= |r|
    ensures Sorted(MergeFrom(l, r, cmp, i, j), cmp)
    decreases |l| - i + |r| - j
  {
    if i == |l| && j == |r| {
    } else if i == |l| || (j < |r| && cmp(l[i], r[j], i, j) > 0) {
      // r[j] is emitted alone
      MergeFromSorted(l, r, cmp, i, j + 1);
      MergeFromMultiset(l, r, cmp, i, j + 1);
      BoundSuffix(r[j], l, i, cmp);
      BoundSuffix(r[j], r, j + 1, cmp);
      EmitSorted(r[j], MergeFrom(l, r, cmp, i, j + 1), l[i..], r[j + 1..], cmp);
    } else if j == |r| || cmp(l[i], r[j], i, j) < 0 {
      // l[i] is emitted alone
      MergeFromSorted(l, r, cmp, i + 1, j);
      MergeFromMultiset(l, r, cmp, i + 1, j);
      BoundSuffix(l[i], l, i + 1, cmp);
      BoundSuffix(l[i], r, j, cmp);
      EmitSorted(l[i], MergeFrom(l, r, cmp, i + 1, j), l[i + 1..], r[j..], cmp);
    } else {
      // a tie: l[i], then r[j]
      MergeFromSorted(l, r, cmp, i + 1, j + 1);
      MergeTieSorted(l, r, cmp, i, j);
    }
  }

  lemma MergeTieStep<T>(l: seq<T>, r: seq<T>, cmp: Comparer<T>, i: nat, j: nat)
    requires i < |l| && j < |r| && cmp(l[i], r[j], i, j) == 0
    ensures MergeFrom(l, r, cmp, i, j) == [l[i]] + ([r[j]] + MergeFrom(l, r, cmp, i + 1, j + 1))
  {
    assert [l[i], r[j]] + MergeFrom(l, r, cmp, i + 1, j + 1) == [l[i]] + ([r[j]] + MergeFrom(l, r, cmp, i + 1, j + 1));
  }

  /** The tie step of MergeFromSorted: [l[i], r[j]] in front of the sorted rest. */
  lemma MergeTieSorted<T(!new)>(l: seq<T>, r: seq<T>, cmp: Comparer<T>, i: nat, j: nat)
    requires TotalPreorder(cmp) && Sorted(l, cmp) && Sorted(r, cmp)
    requires i < |l| && j < |r| && cmp(l[i], r[j], i, j) == 0
    requires Sorted(MergeFrom(l, r, cmp, i + 1, j + 1), cmp)
    ensures Sorted(MergeFrom(l, r, cmp, i, j), cmp)
  {
    var rest := MergeFrom(l, r, cmp, i + 1, j + 1);
    MergeTieStep(l, r, cmp, i, j);
    MergeFromMultiset(l, r, cmp, i + 1, j + 1);
    if i + 1 < |l| {
      Transitive(cmp, r[j], l[i], l[i + 1]);
    }
    BoundSuffix(r[j], l, i + 1, cmp);
    BoundSuffix(r[j], r, j + 1, cmp);
    EmitSorted(r[j], rest, l[i + 1..], r[j + 1..], cmp);
    MultisetSplit(r, j);
    BoundSuffix(l[i], l, i + 1, cmp);
    BoundSuffix(l[i], r, j, cmp);
    EmitSorted(l[i], [r[j]] + rest, l[i + 1..], r[j..], cmp);
  }

  /** Inputs sorted under a total preorder merge into a sorted output. */
  lemma MergeSorted<T(!new)>(l: seq<T>, r: seq<T>, cmp: Comparer<T>)
    requires TotalPreorder(cmp) && Sorted(l, cmp) && Sorted(r, cmp)
    ensures Sorted(Merge(l, r, cmp), cmp)
  {
    MergeFromSorted(l, r, cmp, 0, 0);
  }

  /** test/iter.merge.js: duplicates are preserved. */
  lemma MergeKeepsDuplicates()
    ensures Merge([3, 9, 15, 19], [3, 7, 9, 10, 15, 17, 19], NaturalOrder)
         == [3, 3, 7, 9, 9, 10, 15, 15, 17, 19, 19]
  {
  }

  /** test/iter.merge.js: a comparer that always answers 1 always takes rhs first. */
  lemma MergeFollowsComparer()
    ensures Merge([3, 6], [3, 5], (a: int, b: int, i: nat, j: nat) => 1) == [3, 5, 3, 6]
  {
  }
}
