/**
 * iter.setUnion, iter.setIntersection, iter.setSymmetricDifference and
 * iter.setDifference: two cursors over inputs that are sorted with no
 * duplicates, advanced by a three-way comparison. What each emits is
 * decided by the comparer alone; the set meaning holds when the comparer is a
 * total order and the inputs are strictly increasing under it.
 */
module SetOperations {
  import opened Callbacks
  import opened Sequences

  // ---------------------------------------------------------------- definitions

  function SetUnionFrom<T>(l: seq<T>, r: seq<T>, cmp: Comparer<T>, i: nat, j: nat): seq<T>
    requires i <= |l| && j <= |r|
    decreases |l| - i + |r| - j
  {
    if i == |l| && j == |r| then []
    else if i == |l| then [r[j]] + SetUnionFrom(l, r, cmp, i, j + 1)
    else if j == |r| then [l[i]] + SetUnionFrom(l, r, cmp, i + 1, j)
    else
      var c := cmp(l[i], r[j], i, j);
      if c < 0 then [l[i]] + SetUnionFrom(l, r, cmp, i + 1, j)
      else if c > 0 then [r[j]] + SetUnionFrom(l, r, cmp, i, j + 1)
      else [l[i]] + SetUnionFrom(l, r, cmp, i + 1, j + 1)
  }

  function SetUnion<T>(l: seq<T>, r: seq<T>, cmp: Comparer<T>): seq<T> {
    SetUnionFrom(l, r, cmp, 0, 0)
  }

  function SetIntersectionFrom<T>(l: seq<T>, r: seq<T>, cmp: Comparer<T>, i: nat, j: nat): seq<T>
    requires i <= |l| && j <= |r|
    decreases |l| - i + |r| - j
  {
    if i == |l| || j == |r| then []
    else
      var c := cmp(l[i], r[j], i, j);
      if c < 0 then SetIntersectionFrom(l, r, cmp, i + 1, j)
      else if c > 0 then SetIntersectionFrom(l, r, cmp, i, j + 1)
      else [l[i]] + SetIntersectionFrom(l, r, cmp, i + 1, j + 1)
  }

  function SetIntersection<T>(l: seq<T>, r: seq<T>, cmp: Comparer<T>): seq<T> {
    SetIntersectionFrom(l, r, cmp, 0, 0)
  }

  function SetSymmetricDifferenceFrom<T>(l: seq<T>, r: seq<T>, cmp: Comparer<T>, i: nat, j: nat): seq<T>
    requires i <= |l| && j <= |r|
    decreases |l| - i + |r| - j
  {
    if i == |l| && j == |r| then []
    else if i == |l| then [r[j]] + SetSymmetricDifferenceFrom(l, r, cmp, i, j + 1)
    else if j == |r| then [l[i]] + SetSymmetricDifferenceFrom(l, r, cmp, i + 1, j)
    else
      var c := cmp(l[i], r[j], i, j);
      if c < 0 then [l[i]] + SetSymmetricDifferenceFrom(l, r, cmp, i + 1, j)
      else if c > 0 then [r[j]] + SetSymmetricDifferenceFrom(l, r, cmp, i, j + 1)
      else SetSymmetricDifferenceFrom(l, r, cmp, i + 1, j + 1)
  }

  function SetSymmetricDifference<T>(l: seq<T>, r: seq<T>, cmp: Comparer<T>): seq<T> {
    SetSymmetricDifferenceFrom(l, r, cmp, 0, 0)
  }

  function SetDifferenceFrom<T>(l: seq<T>, r: seq<T>, cmp: Comparer<T>, i: nat, j: nat): seq<T>
    requires i <= |l| && j <= |r|
    decreases |l| - i + |r| - j
  {
    if i == |l| then []
    else if j == |r| then [l[i]] + SetDifferenceFrom(l, r, cmp, i + 1, j)
    else
      var c := cmp(l[i], r[j], i, j);
      if c < 0 then [l[i]] + SetDifferenceFrom(l, r, cmp, i + 1, j)
      else if c > 0 then SetDifferenceFrom(l, r, cmp, i, j + 1)
      else SetDifferenceFrom(l, r, cmp, i + 1, j + 1)
  }

  function SetDifference<T>(l: seq<T>, r: seq<T>, cmp: Comparer<T>): seq<T> {
    SetDifferenceFrom(l, r, cmp, 0, 0)
  }

  // ---------------------------------------------------------------- the generators

  method ComputeSetUnion<T>(l: seq<T>, r: seq<T>, cmp: Comparer<T>) returns (out: seq<T>)
    ensures out == SetUnion(l, r, cmp)
  {
    out := [];
    var i, j := 0, 0;
    while i < |l| || j < |r|
      invariant i <= |l| && j <= |r|
      invariant out + SetUnionFrom(l, r, cmp, i, j) == SetUnion(l, r, cmp)
      decreases |l| - i + |r| - j
    {
      ghost var before := out;
      if i == |l| {
        out := out + [r[j]];
        j := j + 1;
        AppendAssoc(before, [r[j - 1]], SetUnionFrom(l, r, cmp, i, j));
      } else if j == |r| {
        out := out + [l[i]];
        i := i + 1;
        AppendAssoc(before, [l[i - 1]], SetUnionFrom(l, r, cmp, i, j));
      } else {
        var c := cmp(l[i], r[j], i, j);
        if c < 0 {
          out := out + [l[i]];
          i := i + 1;
          AppendAssoc(before, [l[i - 1]], SetUnionFrom(l, r, cmp, i, j));
        } else if c > 0 {
          out := out + [r[j]];
          j := j + 1;
          AppendAssoc(before, [r[j - 1]], SetUnionFrom(l, r, cmp, i, j));
        } else {
          out := out + [l[i]];
          i, j := i + 1, j + 1;
          AppendAssoc(before, [l[i - 1]], SetUnionFrom(l, r, cmp, i, j));
        }
      }
    }
  }

  method ComputeSetIntersection<T>(l: seq<T>, r: seq<T>, cmp: Comparer<T>) returns (out: seq<T>)
    ensures out == SetIntersection(l, r, cmp)
  {
    out := [];
    var i, j := 0, 0;
    while i < |l| && j < |r|
      invariant i <= |l| && j <= |r|
      invariant out + SetIntersectionFrom(l, r, cmp, i, j) == SetIntersection(l, r, cmp)
      decreases |l| - i + |r| - j
    {
      ghost var before := out;
      var c := cmp(l[i], r[j], i, j);
      if c < 0 {
        i := i + 1;
      } else if c > 0 {
        j := j + 1;
      } else {
        out := out + [l[i]];
        i, j := i + 1, j + 1;
        AppendAssoc(before, [l[i - 1]], SetIntersectionFrom(l, r, cmp, i, j));
      }
    }
  }

  method ComputeSetSymmetricDifference<T>(l: seq<T>, r: seq<T>, cmp: Comparer<T>) returns (out: seq<T>)
    ensures out == SetSymmetricDifference(l, r, cmp)
  {
    out := [];
    var i, j := 0, 0;
    while i < |l| || j < |r|
      invariant i <= |l| && j <= |r|
      invariant out + SetSymmetricDifferenceFrom(l, r, cmp, i, j) == SetSymmetricDifference(l, r, cmp)
      decreases |l| - i + |r| - j
    {
      ghost var before := out;
      if i == |l| {
        out := out + [r[j]];
        j := j + 1;
        AppendAssoc(before, [r[j - 1]], SetSymmetricDifferenceFrom(l, r, cmp, i, j));
      } else if j == |r| {
        out := out + [l[i]];
        i := i + 1;
        AppendAssoc(before, [l[i - 1]], SetSymmetricDifferenceFrom(l, r, cmp, i, j));
      } else {
        var c := cmp(l[i], r[j], i, j);
        if c < 0 {
          out := out + [l[i]];
          i := i + 1;
          AppendAssoc(before, [l[i - 1]], SetSymmetricDifferenceFrom(l, r, cmp, i, j));
        } else if c > 0 {
          out := out + [r[j]];
          j := j + 1;
          AppendAssoc(before, [r[j - 1]], SetSymmetricDifferenceFrom(l, r, cmp, i, j));
        } else {
          i, j := i + 1, j + 1;
        }
      }
    }
  }

  method ComputeSetDifference<T>(l: seq<T>, r: seq<T>, cmp: Comparer<T>) returns (out: seq<T>)
    ensures out == SetDifference(l, r, cmp)
  {
    out := [];
    var i, j := 0, 0;
    while i < |l|
      invariant i <= |l| && j <= |r|
      invariant out + SetDifferenceFrom(l, r, cmp, i, j) == SetDifference(l, r, cmp)
      decreases |l| - i + |r| - j
    {
      ghost var before := out;
      if j == |r| {
        out := out + [l[i]];
        i := i + 1;
        AppendAssoc(before, [l[i - 1]], SetDifferenceFrom(l, r, cmp, i, j));
      } else {
        var c := cmp(l[i], r[j], i, j);
        if c < 0 {
          out := out + [l[i]];
          i := i + 1;
          AppendAssoc(before, [l[i - 1]], SetDifferenceFrom(l, r, cmp, i, j));
        } else if c > 0 {
          j := j + 1;
        } else {
          i, j := i + 1, j + 1;
        }
      }
    }
  }

  // ---------------------------------------------------------------- helpers

  /** Ties mean identical values, whatever positions the comparer is handed. */
  ghost predicate TiesAreEqual<T(!new)>(cmp: Comparer<T>) {
    forall a, b, i, j :: cmp(a, b, i, j) == 0 ==> a == b
  }

  /** x strictly below s[j] is strictly below all of the sorted suffix s[j..]. */
  lemma AboveSuffix<T(!new)>(x: T, s: seq<T>, j: nat, cmp: Comparer<T>)
    requires TotalPreorder(cmp) && StrictlySorted(s, cmp)
    requires j <= |s| && (j < |s| ==> cmp(x, s[j], 0, 0) < 0)
    ensures AllAbove(x, s[j..], cmp)
  {
    forall k | 0 <= k < |s[j..]| ensures cmp(x, s[j..][k], 0, 0) < 0 {
      assert s[j..][k] == s[j + k];
      if k > 0 {
        LessTransitive(cmp, x, s[j], s[j + k]);
      }
    }
  }

  /** Under a total preorder nothing is strictly above itself. */
  lemma AboveNotIn<T(!new)>(x: T, s: seq<T>, cmp: Comparer<T>)
    requires TotalPreorder(cmp) && AllAbove(x, s, cmp)
    ensures x !in Elements(s)
  {
    forall k | 0 <= k < |s| ensures s[k] != x {
      assert cmp(x, s[k], 0, 0) < 0;
    }
  }

  /** A lower bound of two sequences bounds any sequence drawn from their items. */
  lemma AllAboveOfSubset<T>(x: T, t: seq<T>, u: seq<T>, v: seq<T>, cmp: Comparer<T>)
    requires Elements(t) <= Elements(u) + Elements(v)
    requires AllAbove(x, u, cmp) && AllAbove(x, v, cmp)
    ensures AllAbove(x, t, cmp)
  {
    forall k | 0 <= k < |t| ensures cmp(x, t[k], 0, 0) < 0 {
      assert t[k] in Elements(t);
    }
  }

  /** Emitting x in front of a strictly sorted rest that lies above x keeps it strictly sorted. */
  lemma EmitStrictlySorted<T>(x: T, rest: seq<T>, cmp: Comparer<T>)
    requires StrictlySorted(rest, cmp) && AllAbove(x, rest, cmp)
    ensures StrictlySorted([x] + rest, cmp)
  {
    var t := [x] + rest;
    forall a, b | 0 <= a < b < |t| ensures cmp(t[a], t[b], 0, 0) < 0 {
      if a > 0 {
        assert t[a] == rest[a - 1] && t[b] == rest[b - 1];
      } else {
        assert t[b] == rest[b - 1];
      }
    }
  }

  /**
   * Under a total preorder, x compared strictly below the current items of two
   * strictly sorted inputs is strictly below everything that remains of them,
   * so it can be emitted in front of any strictly sorted sequence drawn from them.
   */
  lemma EmitAbove<T(!new)>(x: T, rest: seq<T>, l: seq<T>, i: nat, r: seq<T>, j: nat, cmp: Comparer<T>)
    requires TotalPreorder(cmp) && StrictlySorted(l, cmp) && StrictlySorted(r, cmp)
    requires i <= |l| && j <= |r|
    requires i < |l| ==> cmp(x, l[i], 0, 0) < 0
    requires j < |r| ==> cmp(x, r[j], 0, 0) < 0
    requires StrictlySorted(rest, cmp) && Elements(rest) <= Elements(l[i..]) + Elements(r[j..])
    ensures StrictlySorted([x] + rest, cmp)
  {
    AboveSuffix(x, l, i, cmp);
    AboveSuffix(x, r, j, cmp);
    AllAboveOfSubset(x, rest, l[i..], r[j..], cmp);
    EmitStrictlySorted(x, rest, cmp);
  }

  // ---------------------------------------------------------------- setUnion

  /** For any comparer, every emitted value comes from one of the inputs. */
  lemma {:induction false} SetUnionFromDrawsFromInputs<T>(l: seq<T>, r: seq<T>, cmp: Comparer<T>, i: nat, j: nat)
    requires i <= |l| && j <= |r|
    ensures Elements(SetUnionFrom(l, r, cmp, i, j)) <= Elements(l[i..]) + Elements(r[j..])
    decreases |l| - i + |r| - j
  {
    if i == |l| && j == |r| {
    } else if i == |l| || (j < |r| && cmp(l[i], r[j], i, j) > 0) {
      SetUnionFromDrawsFromInputs(l, r, cmp, i, j + 1);
      ElementsAppend([r[j]], SetUnionFrom(l, r, cmp, i, j + 1));
      ElementsSplit(r, j);
    } else if j == |r| || cmp(l[i], r[j], i, j) < 0 {
      SetUnionFromDrawsFromInputs(l, r, cmp, i + 1, j);
      ElementsAppend([l[i]], SetUnionFrom(l, r, cmp, i + 1, j));
      ElementsSplit(l, i);
    } else {
      SetUnionFromDrawsFromInputs(l, r, cmp, i + 1, j + 1);
      ElementsAppend([l[i]], SetUnionFrom(l, r, cmp, i + 1, j + 1));
      ElementsSplit(l, i);
      ElementsSplit(r, j);
    }
  }

  /** When only identical values tie, the union emits exactly the values of both inputs. */
  lemma {:induction false} SetUnionFromElements<T(!new)>(l: seq<T>, r: seq<T>, cmp: Comparer<T>, i: nat, j: nat)
    requires TiesAreEqual(cmp)
    requires i <= |l| && j <= |r|
    ensures Elements(SetUnionFrom(l, r, cmp, i, j)) == Elements(l[i..]) + Elements(r[j..])
    decreases |l| - i + |r| - j
  {
    if i == |l| && j == |r| {
    } else if i == |l| || (j < |r| && cmp(l[i], r[j], i, j) > 0) {
      SetUnionFromElements(l, r, cmp, i, j + 1);
      ElementsAppend([r[j]], SetUnionFrom(l, r, cmp, i, j + 1));
      ElementsSplit(r, j);
    } else if j == |r| || cmp(l[i], r[j], i, j) < 0 {
      SetUnionFromElements(l, r, cmp, i + 1, j);
      ElementsAppend([l[i]], SetUnionFrom(l, r, cmp, i + 1, j));
      ElementsSplit(l, i);
    } else {
      SetUnionFromElements(l, r, cmp, i + 1, j + 1);
      ElementsAppend([l[i]], SetUnionFrom(l, r, cmp, i + 1, j + 1));
      ElementsSplit(l, i);
      ElementsSplit(r, j);
      assert l[i] == r[j];
    }
  }

  /** Under a total preorder, strictly sorted inputs give a strictly sorted union. */
  lemma {:induction false} SetUnionFromStrictlySorted<T(!new)>(l: seq<T>, r: seq<T>, cmp: Comparer<T>, i: nat, j: nat)
    requires TotalPreorder(cmp) && StrictlySorted(l, cmp) && StrictlySorted(r, cmp)
    requires i <= |l| && j <= |r|
    ensures StrictlySorted(SetUnionFrom(l, r, cmp, i, j), cmp)
    decreases |l| - i + |r| - j
  {
    if i == |l| && j == |r| {
    } else if i == |l| || (j < |r| && cmp(l[i], r[j], i, j) > 0) {
      SetUnionFromStrictlySorted(l, r, cmp, i, j + 1);
      SetUnionEmitsRhs(l, r, cmp, i, j);
    } else if j == |r| || cmp(l[i], r[j], i, j) < 0 {
      SetUnionFromStrictlySorted(l, r, cmp, i + 1, j);
      SetUnionEmitsLhs(l, r, cmp, i, j);
    } else {
      SetUnionFromStrictlySorted(l, r, cmp, i + 1, j + 1);
      SetUnionEmitsTie(l, r, cmp, i, j);
    }
  }

  /** The step of SetUnionFromStrictlySorted that emits r[j] alone. */
  lemma SetUnionEmitsRhs<T(!new)>(l: seq<T>, r: seq<T>, cmp: Comparer<T>, i: nat, j: nat)
    requires TotalPreorder(cmp) && StrictlySorted(l, cmp) && StrictlySorted(r, cmp)
    requires i <= |l| && j < |r| && (i < |l| ==> cmp(l[i], r[j], i, j) > 0)
    requires StrictlySorted(SetUnionFrom(l, r, cmp, i, j + 1), cmp)
    ensures StrictlySorted(SetUnionFrom(l, r, cmp, i, j), cmp)
  {
    SetUnionFromDrawsFromInputs(l, r, cmp, i, j + 1);
    EmitAbove(r[j], SetUnionFrom(l, r, cmp, i, j + 1), l, i, r, j + 1, cmp);
  }

  /** The step of SetUnionFromStrictlySorted that emits l[i] alone. */
  lemma SetUnionEmitsLhs<T(!new)>(l: seq<T>, r: seq<T>, cmp: Comparer<T>, i: nat, j: nat)
    requires TotalPreorder(cmp) && StrictlySorted(l, cmp) && StrictlySorted(r, cmp)
    requires i < |l| && j <= |r| && (j < |r| ==> cmp(l[i], r[j], i, j) < 0)
    requires StrictlySorted(SetUnionFrom(l, r, cmp, i + 1, j), cmp)
    ensures StrictlySorted(SetUnionFrom(l, r, cmp, i, j), cmp)
  {
    SetUnionFromDrawsFromInputs(l, r, cmp, i + 1, j);
    EmitAbove(l[i], SetUnionFrom(l, r, cmp, i + 1, j), l, i + 1, r, j, cmp);
  }

  /** The step of SetUnionFromStrictlySorted that emits l[i] for a tie. */
  lemma SetUnionEmitsTie<T(!new)>(l: seq<T>, r: seq<T>, cmp: Comparer<T>, i: nat, j: nat)
    requires TotalPreorder(cmp) && StrictlySorted(l, cmp) && StrictlySorted(r, cmp)
    requires i < |l| && j < |r| && cmp(l[i], r[j], i, j) == 0
    requires StrictlySorted(SetUnionFrom(l, r, cmp, i + 1, j + 1), cmp)
    ensures StrictlySorted(SetUnionFrom(l, r, cmp, i, j), cmp)
  {
    SetUnionFromDrawsFromInputs(l, r, cmp, i + 1, j + 1);
    if j + 1 < |r| {
      LessTransitive(cmp, l[i], r[j], r[j + 1]);
    }
    EmitAbove(l[i], SetUnionFrom(l, r, cmp, i + 1, j + 1), l, i + 1, r, j + 1, cmp);
  }

  // ---------------------------------------------------------------- setIntersection

  /** For any comparer, every emitted value comes from lhs. */
  lemma {:induction false} SetIntersectionFromDrawsFromLhs<T>(l: seq<T>, r: seq<T>, cmp: Comparer<T>, i: nat, j: nat)
    requires i <= |l| && j <= |r|
    ensures Elements(SetIntersectionFrom(l, r, cmp, i, j)) <= Elements(l[i..])
    decreases |l| - i + |r| - j
  {
    if i == |l| || j == |r| {
    } else if cmp(l[i], r[j], i, j) < 0 {
      SetIntersectionFromDrawsFromLhs(l, r, cmp, i + 1, j);
      ElementsSplit(l, i);
    } else if cmp(l[i], r[j], i, j) > 0 {
      SetIntersectionFromDrawsFromLhs(l, r, cmp, i, j + 1);
    } else {
      SetIntersectionFromDrawsFromLhs(l, r, cmp, i + 1, j + 1);
      ElementsAppend([l[i]], SetIntersectionFrom(l, r, cmp, i + 1, j + 1));
      ElementsSplit(l, i);
    }
  }

  /** Under a total order, strictly sorted inputs intersect to exactly their common values. */
  lemma {:induction false} SetIntersectionFromElements<T(!new)>(l: seq<T>, r: seq<T>, cmp: Comparer<T>, i: nat, j: nat)
    requires TotalOrder(cmp) && StrictlySorted(l, cmp) && StrictlySorted(r, cmp)
    requires i <= |l| && j <= |r|
    ensures Elements(SetIntersectionFrom(l, r, cmp, i, j)) == Elements(l[i..]) * Elements(r[j..])
    decreases |l| - i + |r| - j
  {
    if i == |l| || j == |r| {
    } else if cmp(l[i], r[j], i, j) < 0 {
      SetIntersectionFromElements(l, r, cmp, i + 1, j);
      ElementsSplit(l, i);
      AboveSuffix(l[i], r, j, cmp);
      AboveNotIn(l[i], r[j..], cmp);
    } else if cmp(l[i], r[j], i, j) > 0 {
      SetIntersectionFromElements(l, r, cmp, i, j + 1);
      ElementsSplit(r, j);
      AboveSuffix(r[j], l, i, cmp);
      AboveNotIn(r[j], l[i..], cmp);
    } else {
      SetIntersectionFromElements(l, r, cmp, i + 1, j + 1);
      ElementsAppend([l[i]], SetIntersectionFrom(l, r, cmp, i + 1, j + 1));
      ElementsSplit(l, i);
      ElementsSplit(r, j);
      assert l[i] == r[j];
    }
  }

  /** Under a total preorder, strictly sorted inputs give a strictly sorted intersection. */
  lemma {:induction false} SetIntersectionFromStrictlySorted<T(!new)>(l: seq<T>, r: seq<T>, cmp: Comparer<T>, i: nat, j: nat)
    requires TotalPreorder(cmp) && StrictlySorted(l, cmp) && StrictlySorted(r, cmp)
    requires i <= |l| && j <= |r|
    ensures StrictlySorted(SetIntersectionFrom(l, r, cmp, i, j), cmp)
    decreases |l| - i + |r| - j
  {
    if i == |l| || j == |r| {
    } else if cmp(l[i], r[j], i, j) < 0 {
      SetIntersectionFromStrictlySorted(l, r, cmp, i + 1, j);
    } else if cmp(l[i], r[j], i, j) > 0 {
      SetIntersectionFromStrictlySorted(l, r, cmp, i, j + 1);
    } else {
      SetIntersectionFromStrictlySorted(l, r, cmp, i + 1, j + 1);
      SetIntersectionEmitsTie(l, r, cmp, i, j);
    }
  }

  /** The step of SetIntersectionFromStrictlySorted that emits l[i] for a tie. */
  lemma SetIntersectionEmitsTie<T(!new)>(l: seq<T>, r: seq<T>, cmp: Comparer<T>, i: nat, j: nat)
    requires TotalPreorder(cmp) && StrictlySorted(l, cmp) && StrictlySorted(r, cmp)
    requires i < |l| && j < |r| && cmp(l[i], r[j], i, j) == 0
    requires StrictlySorted(SetIntersectionFrom(l, r, cmp, i + 1, j + 1), cmp)
    ensures StrictlySorted(SetIntersectionFrom(l, r, cmp, i, j), cmp)
  {
    SetIntersectionFromDrawsFromLhs(l, r, cmp, i + 1, j + 1);
    EmitAbove(l[i], SetIntersectionFrom(l, r, cmp, i + 1, j + 1), l, i + 1, r, |r|, cmp);
  }

  // ---------------------------------------------------------------- setSymmetricDifference

  /** For any comparer, every emitted value comes from one of the inputs. */
  lemma {:induction false} SetSymmetricDifferenceFromDrawsFromInputs<T>(l: seq<T>, r: seq<T>, cmp: Comparer<T>, i: nat, j: nat)
    requires i <= |l| && j <= |r|
    ensures Elements(SetSymmetricDifferenceFrom(l, r, cmp, i, j)) <= Elements(l[i..]) + Elements(r[j..])
    decreases |l| - i + |r| - j
  {
    if i == |l| && j == |r| {
    } else if i == |l| || (j < |r| && cmp(l[i], r[j], i, j) > 0) {
      SetSymmetricDifferenceFromDrawsFromInputs(l, r, cmp, i, j + 1);
      ElementsAppend([r[j]], SetSymmetricDifferenceFrom(l, r, cmp, i, j + 1));
      ElementsSplit(r, j);
    } else if j == |r| || cmp(l[i], r[j], i, j) < 0 {
      SetSymmetricDifferenceFromDrawsFromInputs(l, r, cmp, i + 1, j);
      ElementsAppend([l[i]], SetSymmetricDifferenceFrom(l, r, cmp, i + 1, j));
      ElementsSplit(l, i);
    } else {
      SetSymmetricDifferenceFromDrawsFromInputs(l, r, cmp, i + 1, j + 1);
      ElementsSplit(l, i);
      ElementsSplit(r, j);
    }
  }

  /** Under a total order, strictly sorted inputs give exactly the values in one input only. */
  lemma {:induction false} SetSymmetricDifferenceFromElements<T(!new)>(l: seq<T>, r: seq<T>, cmp: Comparer<T>, i: nat, j: nat)
    requires TotalOrder(cmp) && StrictlySorted(l, cmp) && StrictlySorted(r, cmp)
    requires i <= |l| && j <= |r|
    ensures Elements(SetSymmetricDifferenceFrom(l, r, cmp, i, j))
         == (Elements(l[i..]) - Elements(r[j..])) + (Elements(r[j..]) - Elements(l[i..]))
    decreases |l| - i + |r| - j
  {
    if i == |l| && j == |r| {
    } else if i == |l| || (j < |r| && cmp(l[i], r[j], i, j) > 0) {
      SetSymmetricDifferenceFromElements(l, r, cmp, i, j + 1);
      ElementsAppend([r[j]], SetSymmetricDifferenceFrom(l, r, cmp, i, j + 1));
      ElementsSplit(r, j);
      AboveSuffix(r[j], l, i, cmp);
      AboveNotIn(r[j], l[i..], cmp);
      SymmetricDifferenceAdd(r[j], Elements(r[j + 1..]), Elements(l[i..]));
    } else if j == |r| || cmp(l[i], r[j], i, j) < 0 {
      SetSymmetricDifferenceFromElements(l, r, cmp, i + 1, j);
      ElementsAppend([l[i]], SetSymmetricDifferenceFrom(l, r, cmp, i + 1, j));
      ElementsSplit(l, i);
      AboveSuffix(l[i], r, j, cmp);
      AboveNotIn(l[i], r[j..], cmp);
      SymmetricDifferenceAdd(l[i], Elements(l[i + 1..]), Elements(r[j..]));
    } else {
      SetSymmetricDifferenceFromElements(l, r, cmp, i + 1, j + 1);
      ElementsSplit(l, i);
      ElementsSplit(r, j);
      TieLeavesBoth(l, r, cmp, i, j);
      SymmetricDifferenceAddBoth(l[i], Elements(l[i + 1..]), Elements(r[j + 1..]));
    }
  }

  /** A value new to one side and absent from the other joins the symmetric difference. */
  lemma SymmetricDifferenceAdd<T>(x: T, a: set<T>, b: set<T>)
    requires x !in b
    ensures (({x} + a) - b) + (b - ({x} + a)) == {x} + ((a - b) + (b - a))
    ensures (b - ({x} + a)) + (({x} + a) - b) == {x} + ((b - a) + (a - b))
  {
  }

  /** A value new to both sides stays out of the symmetric difference. */
  lemma SymmetricDifferenceAddBoth<T>(x: T, a: set<T>, b: set<T>)
    requires x !in a && x !in b
    ensures (({x} + a) - ({x} + b)) + (({x} + b) - ({x} + a)) == (a - b) + (b - a)
  {
  }

  /** A tie under a total order is one value, and strictness keeps it out of both remainders. */
  lemma TieLeavesBoth<T(!new)>(l: seq<T>, r: seq<T>, cmp: Comparer<T>, i: nat, j: nat)
    requires TotalOrder(cmp) && StrictlySorted(l, cmp) && StrictlySorted(r, cmp)
    requires i < |l| && j < |r| && cmp(l[i], r[j], i, j) == 0
    ensures l[i] == r[j]
    ensures l[i] !in Elements(l[i + 1..]) && r[j] !in Elements(r[j + 1..])
  {
    AboveSuffix(l[i], l, i + 1, cmp);
    AboveNotIn(l[i], l[i + 1..], cmp);
    AboveSuffix(r[j], r, j + 1, cmp);
    AboveNotIn(r[j], r[j + 1..], cmp);
  }

  /** Under a total preorder, strictly sorted inputs give a strictly sorted symmetric difference. */
  lemma {:induction false} SetSymmetricDifferenceFromStrictlySorted<T(!new)>(l: seq<T>, r: seq<T>, cmp: Comparer<T>, i: nat, j: nat)
    requires TotalPreorder(cmp) && StrictlySorted(l, cmp) && StrictlySorted(r, cmp)
    requires i <= |l| && j <= |r|
    ensures StrictlySorted(SetSymmetricDifferenceFrom(l, r, cmp, i, j), cmp)
    decreases |l| - i + |r| - j
  {
    if i == |l| && j == |r| {
    } else if i == |l| || (j < |r| && cmp(l[i], r[j], i, j) > 0) {
      SetSymmetricDifferenceFromStrictlySorted(l, r, cmp, i, j + 1);
      SetSymmetricDifferenceEmitsRhs(l, r, cmp, i, j);
    } else if j == |r| || cmp(l[i], r[j], i, j) < 0 {
      SetSymmetricDifferenceFromStrictlySorted(l, r, cmp, i + 1, j);
      SetSymmetricDifferenceEmitsLhs(l, r, cmp, i, j);
    } else {
      SetSymmetricDifferenceFromStrictlySorted(l, r, cmp, i + 1, j + 1);
    }
  }

  /** The step of SetSymmetricDifferenceFromStrictlySorted that emits r[j]. */
  lemma SetSymmetricDifferenceEmitsRhs<T(!new)>(l: seq<T>, r: seq<T>, cmp: Comparer<T>, i: nat, j: nat)
    requires TotalPreorder(cmp) && StrictlySorted(l, cmp) && StrictlySorted(r, cmp)
    requires i <= |l| && j < |r| && (i < |l| ==> cmp(l[i], r[j], i, j) > 0)
    requires StrictlySorted(SetSymmetricDifferenceFrom(l, r, cmp, i, j + 1), cmp)
    ensures StrictlySorted(SetSymmetricDifferenceFrom(l, r, cmp, i, j), cmp)
  {
    SetSymmetricDifferenceFromDrawsFromInputs(l, r, cmp, i, j + 1);
    EmitAbove(r[j], SetSymmetricDifferenceFrom(l, r, cmp, i, j + 1), l, i, r, j + 1, cmp);
  }

  /** The step of SetSymmetricDifferenceFromStrictlySorted that emits l[i]. */
  lemma SetSymmetricDifferenceEmitsLhs<T(!new)>(l: seq<T>, r: seq<T>, cmp: Comparer<T>, i: nat, j: nat)
    requires TotalPreorder(cmp) && StrictlySorted(l, cmp) && StrictlySorted(r, cmp)
    requires i < |l| && j <= |r| && (j < |r| ==> cmp(l[i], r[j], i, j) < 0)
    requires StrictlySorted(SetSymmetricDifferenceFrom(l, r, cmp, i + 1, j), cmp)
    ensures StrictlySorted(SetSymmetricDifferenceFrom(l, r, cmp, i, j), cmp)
  {
    SetSymmetricDifferenceFromDrawsFromInputs(l, r, cmp, i + 1, j);
    EmitAbove(l[i], SetSymmetricDifferenceFrom(l, r, cmp, i + 1, j), l, i + 1, r, j, cmp);
  }

  // ---------------------------------------------------------------- setDifference

  /** For any comparer, every emitted value comes from lhs. */
  lemma {:induction false} SetDifferenceFromDrawsFromLhs<T>(l: seq<T>, r: seq<T>, cmp: Comparer<T>, i: nat, j: nat)
    requires i <= |l| && j <= |r|
    ensures Elements(SetDifferenceFrom(l, r, cmp, i, j)) <= Elements(l[i..])
    decreases |l| - i + |r| - j
  {
    if i == |l| {
    } else if j == |r| || cmp(l[i], r[j], i, j) < 0 {
      SetDifferenceFromDrawsFromLhs(l, r, cmp, i + 1, j);
      ElementsAppend([l[i]], SetDifferenceFrom(l, r, cmp, i + 1, j));
      ElementsSplit(l, i);
    } else if cmp(l[i], r[j], i, j) > 0 {
      SetDifferenceFromDrawsFromLhs(l, r, cmp, i, j + 1);
    } else {
      SetDifferenceFromDrawsFromLhs(l, r, cmp, i + 1, j + 1);
      ElementsSplit(l, i);
    }
  }

  /** Under a total order, strictly sorted inputs give exactly the lhs values missing from rhs. */
  lemma {:induction false} SetDifferenceFromElements<T(!new)>(l: seq<T>, r: seq<T>, cmp: Comparer<T>, i: nat, j: nat)
    requires TotalOrder(cmp) && StrictlySorted(l, cmp) && StrictlySorted(r, cmp)
    requires i <= |l| && j <= |r|
    ensures Elements(SetDifferenceFrom(l, r, cmp, i, j)) == Elements(l[i..]) - Elements(r[j..])
    decreases |l| - i + |r| - j
  {
    if i == |l| {
    } else if j == |r| || cmp(l[i], r[j], i, j) < 0 {
      SetDifferenceFromElements(l, r, cmp, i + 1, j);
      ElementsAppend([l[i]], SetDifferenceFrom(l, r, cmp, i + 1, j));
      ElementsSplit(l, i);
      AboveSuffix(l[i], r, j, cmp);
      AboveNotIn(l[i], r[j..], cmp);
    } else if cmp(l[i], r[j], i, j) > 0 {
      SetDifferenceFromElements(l, r, cmp, i, j + 1);
      ElementsSplit(r, j);
      AboveSuffix(r[j], l, i, cmp);
      AboveNotIn(r[j], l[i..], cmp);
    } else {
      SetDifferenceFromElements(l, r, cmp, i + 1, j + 1);
      ElementsSplit(l, i);
      ElementsSplit(r, j);
      TieLeavesBoth(l, r, cmp, i, j);
    }
  }

  /** Under a total preorder, a strictly sorted lhs gives a strictly sorted difference. */
  lemma {:induction false} SetDifferenceFromStrictlySorted<T(!new)>(l: seq<T>, r: seq<T>, cmp: Comparer<T>, i: nat, j: nat)
    requires TotalPreorder(cmp) && StrictlySorted(l, cmp)
    requires i <= |l| && j <= |r|
    ensures StrictlySorted(SetDifferenceFrom(l, r, cmp, i, j), cmp)
    decreases |l| - i + |r| - j
  {
    if i == |l| {
    } else if j == |r| || cmp(l[i], r[j], i, j) < 0 {
      SetDifferenceFromStrictlySorted(l, r, cmp, i + 1, j);
      SetDifferenceEmitsLhs(l, r, cmp, i, j);
    } else if cmp(l[i], r[j], i, j) > 0 {
      SetDifferenceFromStrictlySorted(l, r, cmp, i, j + 1);
    } else {
      SetDifferenceFromStrictlySorted(l, r, cmp, i + 1, j + 1);
    }
  }

  /** The step of SetDifferenceFromStrictlySorted that emits l[i]. */
  lemma SetDifferenceEmitsLhs<T(!new)>(l: seq<T>, r: seq<T>, cmp: Comparer<T>, i: nat, j: nat)
    requires TotalPreorder(cmp) && StrictlySorted(l, cmp)
    requires i < |l| && j <= |r| && (j < |r| ==> cmp(l[i], r[j], i, j) < 0)
    requires StrictlySorted(SetDifferenceFrom(l, r, cmp, i + 1, j), cmp)
    ensures StrictlySorted(SetDifferenceFrom(l, r, cmp, i, j), cmp)
  {
    SetDifferenceFromDrawsFromLhs(l, r, cmp, i + 1, j);
    EmitAbove(l[i], SetDifferenceFrom(l, r, cmp, i + 1, j), l, i + 1, [], 0, cmp);
  }

  // ---------------------------------------------------------------- the set meaning

  lemma TotalOrderTiesAreEqual<T(!new)>(cmp: Comparer<T>)
    requires TotalOrder(cmp)
    ensures TiesAreEqual(cmp)
  {
    forall a, b, i, j | cmp(a, b, i, j) == 0 ensures a == b {
      assert cmp(a, b, 0, 0) == 0;
    }
  }

  /** Strictly sorted inputs under a total order: the set union, strictly sorted. */
  lemma SetUnionCorrect<T(!new)>(l: seq<T>, r: seq<T>, cmp: Comparer<T>)
    requires TotalOrder(cmp) && StrictlySorted(l, cmp) && StrictlySorted(r, cmp)
    ensures Elements(SetUnion(l, r, cmp)) == Elements(l) + Elements(r)
    ensures StrictlySorted(SetUnion(l, r, cmp), cmp)
  {
    TotalOrderTiesAreEqual(cmp);
    SetUnionFromElements(l, r, cmp, 0, 0);
    SetUnionFromStrictlySorted(l, r, cmp, 0, 0);
    assert l[0..] == l && r[0..] == r;
  }

  /** Strictly sorted inputs under a total order: the set intersection, strictly sorted. */
  lemma SetIntersectionCorrect<T(!new)>(l: seq<T>, r: seq<T>, cmp: Comparer<T>)
    requires TotalOrder(cmp) && StrictlySorted(l, cmp) && StrictlySorted(r, cmp)
    ensures Elements(SetIntersection(l, r, cmp)) == Elements(l) * Elements(r)
    ensures StrictlySorted(SetIntersection(l, r, cmp), cmp)
  {
    SetIntersectionFromElements(l, r, cmp, 0, 0);
    SetIntersectionFromStrictlySorted(l, r, cmp, 0, 0);
    assert l[0..] == l && r[0..] == r;
  }

  /** Strictly sorted inputs under a total order: the symmetric difference, strictly sorted. */
  lemma SetSymmetricDifferenceCorrect<T(!new)>(l: seq<T>, r: seq<T>, cmp: Comparer<T>)
    requires TotalOrder(cmp) && StrictlySorted(l, cmp) && StrictlySorted(r, cmp)
    ensures Elements(SetSymmetricDifference(l, r, cmp))
         == (Elements(l) - Elements(r)) + (Elements(r) - Elements(l))
    ensures StrictlySorted(SetSymmetricDifference(l, r, cmp), cmp)
  {
    SetSymmetricDifferenceFromElements(l, r, cmp, 0, 0);
    SetSymmetricDifferenceFromStrictlySorted(l, r, cmp, 0, 0);
    assert l[0..] == l && r[0..] == r;
  }

  /** Strictly sorted inputs under a total order: the set difference, strictly sorted. */
  lemma SetDifferenceCorrect<T(!new)>(l: seq<T>, r: seq<T>, cmp: Comparer<T>)
    requires TotalOrder(cmp) && StrictlySorted(l, cmp) && StrictlySorted(r, cmp)
    ensures Elements(SetDifference(l, r, cmp)) == Elements(l) - Elements(r)
    ensures StrictlySorted(SetDifference(l, r, cmp), cmp)
  {
    SetDifferenceFromElements(l, r, cmp, 0, 0);
    SetDifferenceFromStrictlySorted(l, r, cmp, 0, 0);
    assert l[0..] == l && r[0..] == r;
  }

  // ---------------------------------------------------------------- an exhausted input

  /**
   * Once one input is exhausted, part-way or from the start, the union
   * copies the rest of the other, whatever the comparer.
   */
  lemma {:induction false} SetUnionFromExhausted<T>(l: seq<T>, r: seq<T>, cmp: Comparer<T>, i: nat, j: nat)
    requires i <= |l| && j <= |r|
    ensures SetUnionFrom(l, r, cmp, i, |r|) == l[i..]
    ensures SetUnionFrom(l, r, cmp, |l|, j) == r[j..]
    decreases |l| - i + |r| - j
  {
    if i < |l| {
      SetUnionFromExhausted(l, r, cmp, i + 1, j);
      assert l[i..] == [l[i]] + l[i + 1..];
    }
    if j < |r| {
      SetUnionFromExhausted(l, r, cmp, i, j + 1);
      assert r[j..] == [r[j]] + r[j + 1..];
    }
  }

  /** Once one input is exhausted, the symmetric difference copies the rest of the other. */
  lemma {:induction false} SetSymmetricDifferenceFromExhausted<T>(l: seq<T>, r: seq<T>, cmp: Comparer<T>, i: nat, j: nat)
    requires i <= |l| && j <= |r|
    ensures SetSymmetricDifferenceFrom(l, r, cmp, i, |r|) == l[i..]
    ensures SetSymmetricDifferenceFrom(l, r, cmp, |l|, j) == r[j..]
    decreases |l| - i + |r| - j
  {
    if i < |l| {
      SetSymmetricDifferenceFromExhausted(l, r, cmp, i + 1, j);
      assert l[i..] == [l[i]] + l[i + 1..];
    }
    if j < |r| {
      SetSymmetricDifferenceFromExhausted(l, r, cmp, i, j + 1);
      assert r[j..] == [r[j]] + r[j + 1..];
    }
  }

  /**
   * Once rhs is exhausted, part-way or from the start, the difference passes
   * the rest of lhs through without calling the comparer.
   */
  lemma {:induction false} SetDifferenceFromExhausted<T>(l: seq<T>, r: seq<T>, cmp: Comparer<T>, i: nat)
    requires i <= |l|
    ensures SetDifferenceFrom(l, r, cmp, i, |r|) == l[i..]
    decreases |l| - i
  {
    if i < |l| {
      SetDifferenceFromExhausted(l, r, cmp, i + 1);
      assert l[i..] == [l[i]] + l[i + 1..];
    }
  }

  /** For any comparer: an empty input empties the intersection, and an empty rhs leaves lhs. */
  lemma SetOperationsWithEmpty<T>(s: seq<T>, cmp: Comparer<T>)
    ensures SetUnion(s, [], cmp) == s && SetUnion([], s, cmp) == s
    ensures SetIntersection(s, [], cmp) == [] && SetIntersection([], s, cmp) == []
    ensures SetSymmetricDifference(s, [], cmp) == s && SetSymmetricDifference([], s, cmp) == s
    ensures SetDifference(s, [], cmp) == s && SetDifference([], s, cmp) == []
  {
    SetUnionFromExhausted(s, [], cmp, 0, 0);
    SetUnionFromExhausted([], s, cmp, 0, 0);
    SetSymmetricDifferenceFromExhausted(s, [], cmp, 0, 0);
    SetSymmetricDifferenceFromExhausted([], s, cmp, 0, 0);
    SetDifferenceFromExhausted(s, [], cmp, 0);
    assert s[0..] == s;
  }

  // ---------------------------------------------------------------- cases from the test suite

  /** A comparer that always answers 1 treats every rhs item as the smaller. */
  lemma SetUnionFollowsComparer()
    ensures SetUnion([3, 6], [3, 5], (a: int, b: int, i: nat, j: nat) => 1) == [3, 5, 3, 6]
  {
  }

  lemma SetSymmetricDifferenceOfSubset()
    ensures SetSymmetricDifference([1, 2], [1, 2, 3, 4], NaturalOrder) == [3, 4]
  {
  }

  lemma SetDifferenceOfSuperset()
    ensures SetDifference([1, 2, 3, 4, 5], [3, 4], NaturalOrder) == [1, 2, 5]
  {
  }
}
