/**
 * The operations that consume a sequence and return one value:
 * iter.prototype.length, isEmpty, first, last, find, at, fold, min, max,
 * minmax, every, some, toArray, toObject and toMap.
 */
module Terminals {
  import opened Wrappers
  import opened Callbacks
  import opened Sequences
  import opened Factories
  import opened Scanning
  import opened Transforms

  /** A find_result: a value and its position. */
  datatype Found<T> = Found(value: T, index: nat)

  /** A minmax_result. */
  datatype MinMax<T> = MinMax(min: Found<T>, max: Found<T>)

  // ---------------------------------------------------------------- length, isEmpty, first, last

  /** The loop of length: one increment per item. */
  method ComputeLength<T>(s: seq<T>) returns (result: nat)
    ensures result == |s|
  {
    result := 0;
    for k := 0 to |s|
      invariant result == k
    {
      result := result + 1;
    }
  }

  /** isEmpty: the first step of an iterator is already done. */
  predicate IsEmpty<T>(s: seq<T>) {
    |s| == 0
  }

  /** first: the item at position 0, or null. */
  function First<T>(s: seq<T>): Option<Found<T>> {
    if |s| == 0 then None else Some(Found(s[0], 0))
  }

  /** last: the item at the last position, or null. */
  function Last<T>(s: seq<T>): Option<Found<T>> {
    if |s| == 0 then None else Some(Found(s[|s| - 1], |s| - 1))
  }

  /** The loop of last: remember each item, count from -1, return null if the count is still -1. */
  method ComputeLast<T>(s: seq<T>) returns (result: Option<Found<T>>)
    ensures result == Last(s)
  {
    var value: Option<T> := None;
    var index: int := -1;
    for k := 0 to |s|
      invariant index == k - 1
      invariant k > 0 ==> value == Some(s[k - 1])
    {
      value := Some(s[k]);
      index := index + 1;
    }
    if index == -1 {
      return None;
    }
    return Some(Found(value.value, index));
  }

  /** An iter is empty exactly when it has no first item, and then it has no last item either. */
  lemma IsEmptyMeaning<T>(s: seq<T>)
    ensures IsEmpty(s) <==> First(s).None?
    ensures IsEmpty(s) <==> Last(s).None?
    ensures !IsEmpty(s) ==> First(s).value.index == 0
  {
  }

  // ---------------------------------------------------------------- find and at

  function FindFrom<T>(s: seq<T>, p: Predicate<T>, k: nat): Option<Found<T>>
    requires k <= |s|
    decreases |s| - k
  {
    if k == |s| then None
    else if p(s[k], k) then Some(Found(s[k], k))
    else FindFrom(s, p, k + 1)
  }

  /** find(predicate). */
  function Find<T>(s: seq<T>, p: Predicate<T>): Option<Found<T>> {
    FindFrom(s, p, 0)
  }

  /** The loop of find, with its index starting at -1 and incremented before each call. */
  method ComputeFind<T>(s: seq<T>, p: Predicate<T>) returns (result: Option<Found<T>>)
    ensures result == Find(s, p)
  {
    var index: int := -1;
    var position := 0;
    while position < |s|
      invariant position <= |s|
      invariant index == position - 1
      invariant FindFrom(s, p, position) == Find(s, p)
    {
      var value := s[position];
      index := index + 1;
      if p(value, index) {
        return Some(Found(value, index));
      }
      position := position + 1;
    }
    return None;
  }

  lemma {:induction false} FindFromMeaning<T>(s: seq<T>, p: Predicate<T>, k: nat)
    requires k <= |s|
    ensures FindFrom(s, p, k).None? <==> forall i :: k <= i < |s| ==> !p(s[i], i)
    ensures FindFrom(s, p, k).Some? ==>
      var f := FindFrom(s, p, k).value;
      && k <= f.index < |s| && f.value == s[f.index] && p(s[f.index], f.index)
      && forall i :: k <= i < f.index ==> !p(s[i], i)
    decreases |s| - k
  {
    if k < |s| && !p(s[k], k) {
      FindFromMeaning(s, p, k + 1);
    }
  }

  /**
   * find returns null exactly when no (value, index) satisfies the
   * predicate; otherwise the first item that does, with its position.
   */
  lemma FindMeaning<T>(s: seq<T>, p: Predicate<T>)
    ensures Find(s, p).None? <==> forall i :: 0 <= i < |s| ==> !p(s[i], i)
    ensures Find(s, p).Some? ==>
      var f := Find(s, p).value;
      && f.index < |s| && f.value == s[f.index] && p(s[f.index], f.index)
      && forall i :: 0 <= i < f.index ==> !p(s[i], i)
  {
    FindFromMeaning(s, p, 0);
  }

  /** at(n) is find((_, i) => i === n). */
  function At<T>(s: seq<T>, n: int): Option<Found<T>> {
    Find(s, (x: T, i: nat) => i == n)
  }

  /** at(n) is the item at position n, or null when n is not a position of s. */
  lemma AtMeaning<T>(s: seq<T>, n: int)
    ensures At(s, n) == if 0 <= n < |s| then Some(Found(s[n], n)) else None
  {
    FindMeaning(s, (x: T, i: nat) => i == n);
  }

  /** first is at(0) and last is at(length - 1). */
  lemma FirstAndLastAreAt<T>(s: seq<T>)
    ensures First(s) == At(s, 0)
    ensures Last(s) == At(s, |s| - 1)
  {
    AtMeaning(s, 0);
    AtMeaning(s, |s| - 1);
  }

  /** test/find.js and test/at.js, over iter.range(3, 10) and iter.range(1, 3). */
  lemma FindAndAtExamples()
    ensures Find(Range(3, 10), (x: int, i: nat) => x >= 7) == Some(Found(7, 4))
    ensures At(Range(3, 10), 4) == Some(Found(7, 4))
    ensures At(Range(1, 3), 2) == None
  {
    var s := Range(3, 10);
    RangeMeaning(3, 10);
    RangeMeaning(1, 3);
    FindMeaning(s, (x: int, i: nat) => x >= 7);
    AtMeaning(s, 4);
    AtMeaning(Range(1, 3), 2);
  }

  // ---------------------------------------------------------------- fold

  /** fold(combine, seed): the value of scan(combine, seed).last(), undefined (None) when scan yields nothing. */
  function Fold<T>(s: seq<T>, combine: Combine<T, T>, seed: Option<T>): Option<T> {
    var r := Last(Scan(s, combine, seed));
    if r.None? then None else Some(r.value.value)
  }

  /**
   * With a seed, fold combines every item, and an empty iter gives
   * undefined, not the seed; without one, the first item is the start value
   * and fewer than two items give undefined.
   */
  lemma FoldMeaning<T>(s: seq<T>, combine: Combine<T, T>, seed: Option<T>)
    ensures seed.Some? ==>
      Fold(s, combine, seed) == if |s| == 0 then None else Some(Combined(s, combine, seed.value, 0, |s|))
    ensures seed.None? ==>
      Fold(s, combine, seed) == if |s| <= 1 then None else Some(Combined(s, combine, s[0], 1, |s|))
  {
    if seed.Some? {
      ScanSeededMeaning(s, combine, seed.value);
    } else {
      ScanUnseededMeaning(s, combine);
    }
  }

  /** test/fold.js: sums with and without a seed. */
  lemma FoldSums()
    ensures Fold([3], (x: int, y: int, i: nat) => x + y, None) == None
    ensures Fold([3, 5, 1, 2, 2, 1], (x: int, y: int, i: nat) => x + y, None) == Some(14)
    ensures Fold([], (x: int, y: int, i: nat) => x + y, Some(2)) == None
    ensures Fold([3, 5, 1, 2, 2, 1], (x: int, y: int, i: nat) => x + y, Some(2)) == Some(16)
  {
    var plus := (x: int, y: int, i: nat) => x + y;
    assert Scan([3, 5, 1, 2, 2, 1], plus, None) == [8, 9, 11, 13, 14];
    assert Scan([3, 5, 1, 2, 2, 1], plus, Some(2)) == [5, 10, 11, 13, 15, 16];
  }

  // ---------------------------------------------------------------- min, max, minmax

  /**
   * The running minimum from position k on, when the best so far is at
   * position best: an item replaces it only when the comparer puts the
   * current minimum strictly above it, so ties keep the earlier item.
   */
  function MinFrom<T>(s: seq<T>, cmp: Comparer<T>, best: nat, k: nat): (r: Found<T>)
    requires best < k <= |s|
    ensures r.index < |s| && r.value == s[r.index]
    decreases |s| - k
  {
    if k == |s| then Found(s[best], best)
    else if cmp(s[best], s[k], best, k) > 0 then MinFrom(s, cmp, k, k + 1)
    else MinFrom(s, cmp, best, k + 1)
  }

  /** min(comparer). */
  function Min<T>(s: seq<T>, cmp: Comparer<T>): Option<Found<T>> {
    if |s| == 0 then None else Some(MinFrom(s, cmp, 0, 1))
  }

  /** The loop of min, with minIndex -1 until the first item is seen. */
  method ComputeMin<T>(s: seq<T>, cmp: Comparer<T>) returns (result: Option<Found<T>>)
    ensures result == Min(s, cmp)
  {
    var minIndex: int := -1;
    var minValue: Option<T> := None;
    var index := 0;
    while index < |s|
      invariant index <= |s|
      invariant index == 0 <==> minIndex == -1
      invariant index > 0 ==> 0 <= minIndex < index && minValue == Some(s[minIndex])
      invariant index > 0 ==> MinFrom(s, cmp, minIndex, index) == MinFrom(s, cmp, 0, 1)
    {
      var item := s[index];
      if minIndex == -1 {
        minIndex := index;
        minValue := Some(item);
      } else if cmp(minValue.value, item, minIndex, index) > 0 {
        minIndex := index;
        minValue := Some(item);
      }
      index := index + 1;
    }
    if minIndex == -1 {
      return None;
    }
    return Some(Found(minValue.value, minIndex));
  }

  /** Under a preorder, a value compares equal to itself. */
  lemma Reflexive<T(!new)>(cmp: Comparer<T>, a: T)
    requires TotalPreorder(cmp)
    ensures cmp(a, a, 0, 0) == 0
  {
  }

  /** One step of the running minimum keeps it a first-index minimum of the prefix seen. */
  lemma MinStep<T(!new)>(s: seq<T>, cmp: Comparer<T>, best: nat, k: nat)
    requires TotalPreorder(cmp)
    requires best < k < |s|
    requires forall j :: 0 <= j < k ==> cmp(s[best], s[j], 0, 0) <= 0
    requires forall j :: 0 <= j < best ==> cmp(s[j], s[best], 0, 0) > 0
    ensures var next := if cmp(s[best], s[k], best, k) > 0 then k else best;
      && next <= k
      && (forall j :: 0 <= j < k + 1 ==> cmp(s[next], s[j], 0, 0) <= 0)
      && (forall j :: 0 <= j < next ==> cmp(s[j], s[next], 0, 0) > 0)
  {
    assert cmp(s[best], s[k], best, k) == cmp(s[best], s[k], 0, 0);
    if cmp(s[best], s[k], 0, 0) > 0 {
      assert cmp(s[k], s[best], 0, 0) < 0;
      Reflexive(cmp, s[k]);
      forall j | 0 <= j < k ensures cmp(s[k], s[j], 0, 0) < 0 {
        LessTransitive(cmp, s[k], s[best], s[j]);
      }
    }
  }

  lemma {:induction false} MinFromMeaning<T(!new)>(s: seq<T>, cmp: Comparer<T>, best: nat, k: nat)
    requires TotalPreorder(cmp)
    requires best < k <= |s|
    requires forall j :: 0 <= j < k ==> cmp(s[best], s[j], 0, 0) <= 0
    requires forall j :: 0 <= j < best ==> cmp(s[j], s[best], 0, 0) > 0
    ensures var r := MinFrom(s, cmp, best, k);
      && (forall j :: 0 <= j < |s| ==> cmp(r.value, s[j], 0, 0) <= 0)
      && (forall j :: 0 <= j < r.index ==> cmp(s[j], r.value, 0, 0) > 0)
    decreases |s| - k
  {
    if k < |s| {
      MinStep(s, cmp, best, k);
      MinFromMeaning(s, cmp, if cmp(s[best], s[k], best, k) > 0 then k else best, k + 1);
    }
  }

  /**
   * Under a total preorder, min is null exactly for an empty iter; otherwise
   * it is an item at or below every item and strictly below every earlier
   * one, so among ties the first is returned.
   */
  lemma MinMeaning<T(!new)>(s: seq<T>, cmp: Comparer<T>)
    requires TotalPreorder(cmp)
    ensures Min(s, cmp).None? <==> |s| == 0
    ensures Min(s, cmp).Some? ==>
      var r := Min(s, cmp).value;
      && r.index < |s| && r.value == s[r.index]
      && (forall j :: 0 <= j < |s| ==> cmp(r.value, s[j], 0, 0) <= 0)
      && (forall j :: 0 <= j < r.index ==> cmp(s[j], r.value, 0, 0) > 0)
  {
    if |s| > 0 {
      Reflexive(cmp, s[0]);
      MinFromMeaning(s, cmp, 0, 1);
    }
  }

  /** The comparer max hands to min: (l, r, li, ri) => -comparer(l, r, li, ri). */
  function Negated<T>(cmp: Comparer<T>): Comparer<T> {
    (a: T, b: T, i: nat, j: nat) => -cmp(a, b, i, j)
  }

  /** max(comparer) is min with the negated comparer. */
  function Max<T>(s: seq<T>, cmp: Comparer<T>): Option<Found<T>> {
    Min(s, Negated(cmp))
  }

  /** Negating a total preorder gives the reverse total preorder. */
  lemma NegatedIsTotalPreorder<T(!new)>(cmp: Comparer<T>)
    requires TotalPreorder(cmp)
    ensures TotalPreorder(Negated(cmp))
  {
    var neg := Negated(cmp);
    forall a, b, c | Between(neg, a, b, c) ensures neg(a, c, 0, 0) <= 0 {
      assert cmp(b, a, 0, 0) <= 0 && cmp(c, b, 0, 0) <= 0;
      Transitive(cmp, c, b, a);
    }
  }

  /**
   * Under a total preorder, max is an item at or above every item and
   * strictly above every earlier one: among ties the first is returned.
   */
  lemma MaxMeaning<T(!new)>(s: seq<T>, cmp: Comparer<T>)
    requires TotalPreorder(cmp)
    ensures Max(s, cmp).None? <==> |s| == 0
    ensures Max(s, cmp).Some? ==>
      var r := Max(s, cmp).value;
      && r.index < |s| && r.value == s[r.index]
      && (forall j :: 0 <= j < |s| ==> cmp(r.value, s[j], 0, 0) >= 0)
      && (forall j :: 0 <= j < r.index ==> cmp(s[j], r.value, 0, 0) < 0)
  {
    NegatedIsTotalPreorder(cmp);
    MinMeaning(s, Negated(cmp));
  }

  /** The two running indices of minmax from position k on. */
  function MinmaxFrom<T>(s: seq<T>, cmp: Comparer<T>, lo: nat, hi: nat, k: nat): MinMax<T>
    requires lo < k && hi < k && k <= |s|
    decreases |s| - k
  {
    if k == |s| then MinMax(Found(s[lo], lo), Found(s[hi], hi))
    else
      var lo' := if cmp(s[lo], s[k], lo, k) > 0 then k else lo;
      var hi' := if cmp(s[hi], s[k], hi, k) < 0 then k else hi;
      MinmaxFrom(s, cmp, lo', hi', k + 1)
  }

  /** minmax(comparer). */
  function Minmax<T>(s: seq<T>, cmp: Comparer<T>): Option<MinMax<T>> {
    if |s| == 0 then None else Some(MinmaxFrom(s, cmp, 0, 0, 1))
  }

  /** The loop of minmax: one pass, both running indices -1 until the first item. */
  method ComputeMinmax<T>(s: seq<T>, cmp: Comparer<T>) returns (result: Option<MinMax<T>>)
    ensures result == Minmax(s, cmp)
  {
    var minIndex: int := -1;
    var maxIndex: int := -1;
    var minValue: Option<T> := None;
    var maxValue: Option<T> := None;
    var index := 0;
    while index < |s|
      invariant index <= |s|
      invariant index == 0 <==> minIndex == -1
      invariant index > 0 ==> 0 <= minIndex < index && minValue == Some(s[minIndex])
      invariant index > 0 ==> 0 <= maxIndex < index && maxValue == Some(s[maxIndex])
      invariant index > 0 ==> MinmaxFrom(s, cmp, minIndex, maxIndex, index) == MinmaxFrom(s, cmp, 0, 0, 1)
    {
      var item := s[index];
      if minIndex == -1 {
        minIndex, maxIndex := index, index;
        minValue, maxValue := Some(item), Some(item);
      } else {
        if cmp(minValue.value, item, minIndex, index) > 0 {
          minIndex := index;
          minValue := Some(item);
        }
        if cmp(maxValue.value, item, maxIndex, index) < 0 {
          maxIndex := index;
          maxValue := Some(item);
        }
      }
      index := index + 1;
    }
    if minIndex == -1 {
      return None;
    }
    return Some(MinMax(Found(minValue.value, minIndex), Found(maxValue.value, maxIndex)));
  }

  lemma {:induction false} MinmaxFromIsMinAndMax<T>(s: seq<T>, cmp: Comparer<T>, lo: nat, hi: nat, k: nat)
    requires lo < k && hi < k && k <= |s|
    ensures MinmaxFrom(s, cmp, lo, hi, k) == MinMax(MinFrom(s, cmp, lo, k), MinFrom(s, Negated(cmp), hi, k))
    decreases |s| - k
  {
    if k < |s| {
      assert (Negated(cmp)(s[hi], s[k], hi, k) > 0) == (cmp(s[hi], s[k], hi, k) < 0);
      MinmaxFromIsMinAndMax(s, cmp, if cmp(s[lo], s[k], lo, k) > 0 then k else lo,
        if cmp(s[hi], s[k], hi, k) < 0 then k else hi, k + 1);
    }
  }

  /** For any comparer, minmax returns what min and max return. */
  lemma MinmaxIsMinAndMax<T>(s: seq<T>, cmp: Comparer<T>)
    ensures Minmax(s, cmp).None? <==> |s| == 0
    ensures Minmax(s, cmp).Some? ==>
      Min(s, cmp) == Some(Minmax(s, cmp).value.min) && Max(s, cmp) == Some(Minmax(s, cmp).value.max)
  {
    if |s| > 0 {
      MinmaxFromIsMinAndMax(s, cmp, 0, 0, 1);
    }
  }

  /** test/min.js, max.js and minmax.js: [3, 5, 2, 7, 5], and a comparer that finds every pair equal. */
  lemma MinMaxExamples()
    ensures Minmax([3, 5, 2, 7, 5], NaturalOrder) == Some(MinMax(Found(2, 2), Found(7, 3)))
    ensures Min([3, 5, 2, 7, 5], (a: int, b: int, i: nat, j: nat) => 0) == Some(Found(3, 0))
    ensures Max([3, 5, 2, 7, 5], (a: int, b: int, i: nat, j: nat) => 0) == Some(Found(3, 0))
  {
  }

  // ---------------------------------------------------------------- every and some

  function EveryFrom<T>(s: seq<T>, p: Predicate<T>, k: nat): bool
    requires k <= |s|
    decreases |s| - k
  {
    k == |s| || (p(s[k], k) && EveryFrom(s, p, k + 1))
  }

  /** every(predicate). */
  function Every<T>(s: seq<T>, p: Predicate<T>): bool {
    EveryFrom(s, p, 0)
  }

  /** The loop of every over map(predicate): stop at the first false result. */
  method ComputeEvery<T>(s: seq<T>, p: Predicate<T>) returns (result: bool)
    ensures result == Every(s, p)
  {
    var index := 0;
    while index < |s|
      invariant index <= |s|
      invariant EveryFrom(s, p, index) == Every(s, p)
    {
      if !p(s[index], index) {
        return false;
      }
      index := index + 1;
    }
    return true;
  }

  lemma {:induction false} EveryFromMeaning<T>(s: seq<T>, p: Predicate<T>, k: nat)
    requires k <= |s|
    ensures EveryFrom(s, p, k) <==> forall i :: k <= i < |s| ==> p(s[i], i)
    decreases |s| - k
  {
    if k < |s| {
      EveryFromMeaning(s, p, k + 1);
    }
  }

  /** every is true exactly when the predicate holds of every (value, index), and so of an empty iter. */
  lemma EveryMeaning<T>(s: seq<T>, p: Predicate<T>)
    ensures Every(s, p) <==> forall i :: 0 <= i < |s| ==> p(s[i], i)
  {
    EveryFromMeaning(s, p, 0);
  }

  function AnyFrom<T>(s: seq<T>, p: Predicate<T>, k: nat): bool
    requires k <= |s|
    decreases |s| - k
  {
    k < |s| && (p(s[k], k) || AnyFrom(s, p, k + 1))
  }

  /** some(predicate). */
  function Any<T>(s: seq<T>, p: Predicate<T>): bool {
    AnyFrom(s, p, 0)
  }

  /** The loop of some over map(predicate): stop at the first true result. */
  method ComputeAny<T>(s: seq<T>, p: Predicate<T>) returns (result: bool)
    ensures result == Any(s, p)
  {
    var index := 0;
    while index < |s|
      invariant index <= |s|
      invariant AnyFrom(s, p, index) == Any(s, p)
    {
      if p(s[index], index) {
        return true;
      }
      index := index + 1;
    }
    return false;
  }

  lemma {:induction false} AnyFromMeaning<T>(s: seq<T>, p: Predicate<T>, k: nat)
    requires k <= |s|
    ensures AnyFrom(s, p, k) <==> exists i :: k <= i < |s| && p(s[i], i)
    decreases |s| - k
  {
    if k < |s| {
      AnyFromMeaning(s, p, k + 1);
    }
  }

  /** some is true exactly when the predicate holds of some (value, index): find would not return null. */
  lemma AnyMeaning<T>(s: seq<T>, p: Predicate<T>)
    ensures Any(s, p) <==> exists i :: 0 <= i < |s| && p(s[i], i)
    ensures Any(s, p) <==> Find(s, p).Some?
  {
    AnyFromMeaning(s, p, 0);
    FindMeaning(s, p);
  }

  // ---------------------------------------------------------------- toArray

  /** The loop of toArray: push every item. */
  method ComputeToArray<T>(s: seq<T>) returns (result: seq<T>)
    ensures result == s
  {
    result := [];
    for k := 0 to |s|
      invariant result == s[..k]
    {
      result := result + [s[k]];
      assert s[..k + 1] == s[..k] + [s[k]];
    }
    assert s[..|s|] == s;
  }

  // ---------------------------------------------------------------- keyValuePairs, toObject and toMap

  /** keyValuePairs(it, keySelector, valueSelector): one [key, value] pair per item. */
  function KeyValuePairs<T, K, V>(s: seq<T>, key: Transform<T, K>, value: Transform<T, V>): seq<(K, V)> {
    Map(s, (x: T, i: nat) => (key(x, i), value(x, i)))
  }

  /** Pair i is (keySelector(s[i], i), valueSelector(s[i], i)). */
  lemma KeyValuePairsMeaning<T, K, V>(s: seq<T>, key: Transform<T, K>, value: Transform<T, V>)
    ensures |KeyValuePairs(s, key, value)| == |s|
    ensures forall i :: 0 <= i < |s| ==> KeyValuePairs(s, key, value)[i] == (key(s[i], i), value(s[i], i))
  {
    MapMeaning(s, (x: T, i: nat) => (key(x, i), value(x, i)));
  }

  /** The map the pairs build when they are stored in order, a later key overwriting an earlier one. */
  function ToMap<K(==), V>(pairs: seq<(K, V)>): map<K, V>
    decreases |pairs|
  {
    if |pairs| == 0 then map[]
    else ToMap(pairs[..|pairs| - 1])[pairs[|pairs| - 1].0 := pairs[|pairs| - 1].1]
  }

  /**
   * The loop of toObject (and of new Map over keyValuePairs): store each
   * pair in turn.
   */
  method ComputeToMap<T, K(==), V>(s: seq<T>, key: Transform<T, K>, value: Transform<T, V>) returns (result: map<K, V>)
    ensures result == ToMap(KeyValuePairs(s, key, value))
  {
    ghost var pairs := KeyValuePairs(s, key, value);
    KeyValuePairsMeaning(s, key, value);
    result := map[];
    var index := 0;
    while index < |s|
      invariant index <= |s|
      invariant result == ToMap(pairs[..index])
    {
      var kvp := (key(s[index], index), value(s[index], index));
      assert pairs[..index + 1][..index] == pairs[..index];
      result := result[kvp.0 := kvp.1];
      index := index + 1;
    }
    assert pairs[..|s|] == pairs;
  }

  /**
   * The keys are those of the pairs, and each key maps to the value of the
   * last pair that has it.
   */
  lemma {:induction false} ToMapMeaning<K, V>(pairs: seq<(K, V)>)
    ensures ToMap(pairs).Keys == set i | 0 <= i < |pairs| :: pairs[i].0
    ensures forall i :: 0 <= i < |pairs| && (forall j :: i < j < |pairs| ==> pairs[j].0 != pairs[i].0) ==>
      ToMap(pairs)[pairs[i].0] == pairs[i].1
    decreases |pairs|
  {
    if |pairs| > 0 {
      var init := pairs[..|pairs| - 1];
      ToMapMeaning(init);
      assert forall i :: 0 <= i < |init| ==> init[i] == pairs[i];
    }
  }

  /** A duplicate key keeps the value of its later pair. */
  lemma ToMapLaterKeyWins()
    ensures ToMap(KeyValuePairs([5, 6, 7], (x: int, i: nat) => x % 2, (x: int, i: nat) => i)) == map[1 := 2, 0 := 1]
  {
    var pairs := KeyValuePairs([5, 6, 7], (x: int, i: nat) => x % 2, (x: int, i: nat) => i);
    KeyValuePairsMeaning([5, 6, 7], (x: int, i: nat) => x % 2, (x: int, i: nat) => i);
    assert pairs == [(1, 0), (0, 1), (1, 2)];
    assert pairs[..2] == [(1, 0), (0, 1)] && pairs[..2][..1] == [(1, 0)];
    assert ToMap(pairs[..2][..1]) == map[1 := 0];
    assert ToMap(pairs[..2]) == map[1 := 0, 0 := 1];
  }
}
