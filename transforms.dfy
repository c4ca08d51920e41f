/**
 * The item-by-item operators: iter.prototype.map, filter, do,
 * filterConsecutiveDuplicates and the instance repeat (iter.repeat of the
 * source followed by flatten). flatten itself is Factories.Concat.
 */
module Transforms {
  import opened Wrappers
  import opened Callbacks
  import opened Sequences
  import opened Factories

  // ---------------------------------------------------------------- map

  function MapFrom<T, U>(s: seq<T>, f: Transform<T, U>, k: nat): seq<U>
    requires k <= |s|
    decreases |s| - k
  {
    if k == |s| then [] else [f(s[k], k)] + MapFrom(s, f, k + 1)
  }

  /** map(transform). */
  function Map<T, U>(s: seq<T>, f: Transform<T, U>): seq<U> {
    MapFrom(s, f, 0)
  }

  /** The loop `for (let item of self) yield transform(item, index++)`. */
  method ComputeMap<T, U>(s: seq<T>, f: Transform<T, U>) returns (out: seq<U>)
    ensures out == Map(s, f)
  {
    out := [];
    var index := 0;
    while index < |s|
      invariant index <= |s|
      invariant out + MapFrom(s, f, index) == Map(s, f)
    {
      ghost var before := out;
      var next := f(s[index], index);
      out := out + [next];
      index := index + 1;
      AppendAssoc(before, [next], MapFrom(s, f, index));
    }
  }

  lemma {:induction false} MapFromMeaning<T, U>(s: seq<T>, f: Transform<T, U>, k: nat)
    requires k <= |s|
    ensures |MapFrom(s, f, k)| == |s| - k
    ensures forall t :: 0 <= t < |s| - k ==> MapFrom(s, f, k)[t] == f(s[k + t], k + t)
    decreases |s| - k
  {
    if k < |s| {
      MapFromMeaning(s, f, k + 1);
      var rest := MapFrom(s, f, k + 1);
      assert MapFrom(s, f, k) == [f(s[k], k)] + rest;
      forall t | 0 < t < |s| - k
        ensures MapFrom(s, f, k)[t] == f(s[k + t], k + t)
      {
        assert MapFrom(s, f, k)[t] == rest[t - 1];
      }
    }
  }

  /** One result per item: result k is transform(s[k], k). */
  lemma MapMeaning<T, U>(s: seq<T>, f: Transform<T, U>)
    ensures |Map(s, f)| == |s|
    ensures forall k :: 0 <= k < |s| ==> Map(s, f)[k] == f(s[k], k)
  {
    MapFromMeaning(s, f, 0);
  }

  /** test/map.js: doubling, and the transform is handed the position. */
  lemma MapExamples()
    ensures Map([3, 5, 7], (x: int, i: nat) => x * 2) == [6, 10, 14]
    ensures Map([3, 5, 7], (x: int, i: nat) => (x, i)) == [(3, 0), (5, 1), (7, 2)]
  {
    MapMeaning([3, 5, 7], (x: int, i: nat) => x * 2);
    MapMeaning([3, 5, 7], (x: int, i: nat) => (x, i));
  }

  // ---------------------------------------------------------------- do

  /**
   * do(process) is map with a transform that calls process and returns its
   * item; process's effects are outside the model, so it is the identity.
   */
  function Do<T>(s: seq<T>): seq<T> {
    Map(s, (x: T, i: nat) => x)
  }

  /** do passes every item through unchanged. */
  lemma DoPassesThrough<T>(s: seq<T>)
    ensures Do(s) == s
  {
    MapMeaning(s, (x: T, i: nat) => x);
  }

  // ---------------------------------------------------------------- filter

  function FilterFrom<T>(s: seq<T>, p: Predicate<T>, k: nat): seq<T>
    requires k <= |s|
    decreases |s| - k
  {
    if k == |s| then []
    else if p(s[k], k) then [s[k]] + FilterFrom(s, p, k + 1)
    else FilterFrom(s, p, k + 1)
  }

  /** filter(predicate). */
  function Filter<T>(s: seq<T>, p: Predicate<T>): seq<T> {
    FilterFrom(s, p, 0)
  }

  /** The loop of filter: the predicate is called with every item and its position and yielded if accepted. */
  method ComputeFilter<T>(s: seq<T>, p: Predicate<T>) returns (out: seq<T>)
    ensures out == Filter(s, p)
  {
    out := [];
    var index := 0;
    while index < |s|
      invariant index <= |s|
      invariant out + FilterFrom(s, p, index) == Filter(s, p)
    {
      var item := s[index];
      var keep := p(item, index);
      index := index + 1;
      if keep {
        ghost var before := out;
        out := out + [item];
        AppendAssoc(before, [item], FilterFrom(s, p, index));
      }
    }
  }

  /** The positions from k on whose items the predicate accepts, in increasing order. */
  function KeptPositions<T>(s: seq<T>, p: Predicate<T>, k: nat): (ps: seq<nat>)
    requires k <= |s|
    ensures forall a, b :: 0 <= a < b < |ps| ==> ps[a] < ps[b]
    ensures forall t :: 0 <= t < |ps| ==> k <= ps[t] < |s| && p(s[ps[t]], ps[t])
    ensures forall m :: k <= m < |s| && p(s[m], m) ==> m in ps
    decreases |s| - k
  {
    if k == |s| then []
    else if p(s[k], k) then [k] + KeptPositions(s, p, k + 1)
    else KeptPositions(s, p, k + 1)
  }

  lemma {:induction false} FilterFromAt<T>(s: seq<T>, p: Predicate<T>, k: nat)
    requires k <= |s|
    ensures |FilterFrom(s, p, k)| == |KeptPositions(s, p, k)|
    ensures forall t :: 0 <= t < |FilterFrom(s, p, k)| ==> FilterFrom(s, p, k)[t] == s[KeptPositions(s, p, k)[t]]
    decreases |s| - k
  {
    if k < |s| {
      FilterFromAt(s, p, k + 1);
    }
  }

  /**
   * filter yields, in their original order, exactly the items at the
   * positions whose (value, index) the predicate accepts.
   */
  lemma FilterMeaning<T>(s: seq<T>, p: Predicate<T>)
    ensures |Filter(s, p)| == |KeptPositions(s, p, 0)| <= |s|
    ensures forall t :: 0 <= t < |Filter(s, p)| ==> Filter(s, p)[t] == s[KeptPositions(s, p, 0)[t]]
    ensures forall x :: x in Filter(s, p) <==> exists k :: 0 <= k < |s| && s[k] == x && p(s[k], k)
  {
    var ps := KeptPositions(s, p, 0);
    FilterFromAt(s, p, 0);
    StrictlyIncreasingLength(ps, |s|);
    forall x | x in Filter(s, p) ensures exists k :: 0 <= k < |s| && s[k] == x && p(s[k], k) {
      var t :| 0 <= t < |Filter(s, p)| && Filter(s, p)[t] == x;
      assert s[ps[t]] == x && p(s[ps[t]], ps[t]);
    }
    forall x | exists k :: 0 <= k < |s| && s[k] == x && p(s[k], k) ensures x in Filter(s, p) {
      var k :| 0 <= k < |s| && s[k] == x && p(s[k], k);
      var t :| 0 <= t < |ps| && ps[t] == k;
      assert Filter(s, p)[t] == x;
    }
  }

  /** A strictly increasing sequence of positions below n has at most n entries. */
  lemma {:induction false} StrictlyIncreasingLength(ps: seq<nat>, n: nat)
    requires forall a, b :: 0 <= a < b < |ps| ==> ps[a] < ps[b]
    requires forall t :: 0 <= t < |ps| ==> ps[t] < n
    ensures |ps| <= n
    decreases n
  {
    if |ps| > 0 {
      var init := ps[..|ps| - 1];
      assert forall t :: 0 <= t < |init| ==> init[t] < ps[|ps| - 1] < n;
      StrictlyIncreasingLength(init, n - 1);
    }
  }

  /** A predicate that accepts everything keeps everything. */
  lemma {:induction false} FilterAcceptAll<T>(s: seq<T>, p: Predicate<T>, k: nat)
    requires k <= |s|
    requires forall m :: 0 <= m < |s| ==> p(s[m], m)
    ensures FilterFrom(s, p, k) == s[k..]
    decreases |s| - k
  {
    if k < |s| {
      FilterAcceptAll(s, p, k + 1);
      assert s[k..] == [s[k]] + s[k + 1..];
    }
  }

  /** test/filter.js: the even items, and all of them when all are even. */
  lemma FilterExamples()
    ensures Filter([3, 4, 5, 6, 7], (x: int, i: nat) => x % 2 == 0) == [4, 6]
    ensures Filter([2, 4, 6, 8], (x: int, i: nat) => x % 2 == 0) == [2, 4, 6, 8]
  {
    FilterAcceptAll([2, 4, 6, 8], (x: int, i: nat) => x % 2 == 0, 0);
  }

  // ---------------------------------------------------------------- filterConsecutiveDuplicates

  /**
   * The items kept from position k on, when the last kept item is at
   * position last: each item is compared with the last kept one, both with
   * their positions, and kept when they differ.
   */
  function DedupFrom<T>(s: seq<T>, eq: Equals<T>, last: nat, k: nat): seq<T>
    requires last < k <= |s|
    decreases |s| - k
  {
    if k == |s| then []
    else if eq(s[last], s[k], last, k) then DedupFrom(s, eq, last, k + 1)
    else [s[k]] + DedupFrom(s, eq, k, k + 1)
  }

  /** filterConsecutiveDuplicates(equals): the first item always, then every item unequal to the last kept one. */
  function FilterConsecutiveDuplicates<T>(s: seq<T>, eq: Equals<T>): seq<T> {
    if |s| == 0 then [] else [s[0]] + DedupFrom(s, eq, 0, 1)
  }

  /** The equals calls made from position k on: (lastValue, item, lastValueIndex, index). */
  function DedupCallsFrom<T>(s: seq<T>, eq: Equals<T>, last: nat, k: nat): seq<(T, T, nat, nat)>
    requires last < k <= |s|
    decreases |s| - k
  {
    if k == |s| then []
    else [(s[last], s[k], last, k)] + DedupCallsFrom(s, eq, if eq(s[last], s[k], last, k) then last else k, k + 1)
  }

  /** The equals calls of one traversal. */
  function DedupCalls<T>(s: seq<T>, eq: Equals<T>): seq<(T, T, nat, nat)> {
    if |s| == 0 then [] else DedupCallsFrom(s, eq, 0, 1)
  }

  /**
   * The loop of filterConsecutiveDuplicates: lastValueIndex is -1 until the
   * first item is yielded; index starts at 1 and is advanced only by the
   * equals calls. `seen` records those calls.
   */
  method ComputeFilterConsecutiveDuplicates<T>(s: seq<T>, eq: Equals<T>) returns (out: seq<T>, seen: seq<(T, T, nat, nat)>)
    ensures out == FilterConsecutiveDuplicates(s, eq)
    ensures seen == DedupCalls(s, eq)
  {
    out := [];
    seen := [];
    var lastValue: Option<T> := None;
    var lastValueIndex: int := -1;
    var index: nat := 1;
    for position := 0 to |s|
      invariant position == 0 <==> lastValueIndex == -1
      invariant position == 0 ==> out == [] && seen == [] && index == 1
      invariant position > 0 ==> index == position && 0 <= lastValueIndex < position
      invariant position > 0 ==> lastValue == Some(s[lastValueIndex])
      invariant position > 0 ==>
        out + DedupFrom(s, eq, lastValueIndex, position) == FilterConsecutiveDuplicates(s, eq)
      invariant position > 0 ==>
        seen + DedupCallsFrom(s, eq, lastValueIndex, position) == DedupCalls(s, eq)
    {
      var item := s[position];
      if lastValueIndex == -1 {
        lastValueIndex := 0;
        lastValue := Some(item);
        out := out + [item];
      } else {
        ghost var before, beforeSeen, last: nat := out, seen, lastValueIndex;
        seen := seen + [(lastValue.value, item, lastValueIndex, index)];
        var same := eq(lastValue.value, item, lastValueIndex, index);
        index := index + 1;
        ghost var next: nat := if same then last else position;
        ghost var call := (s[last], item, last, position);
        assert DedupCallsFrom(s, eq, last, position) == [call] + DedupCallsFrom(s, eq, next, position + 1);
        AppendAssoc(beforeSeen, [call], DedupCallsFrom(s, eq, next, position + 1));
        if !same {
          lastValueIndex := index - 1;
          lastValue := Some(item);
          out := out + [item];
          AppendAssoc(before, [item], DedupFrom(s, eq, position, position + 1));
        }
      }
    }
  }

  /** No two neighbours of r are the same value. */
  ghost predicate NoAdjacentDuplicates<T>(r: seq<T>) {
    forall t :: 0 <= t < |r| - 1 ==> r[t] != r[t + 1]
  }

  lemma {:induction false} DedupFromSameValue<T>(s: seq<T>, last: nat, k: nat)
    requires last < k <= |s|
    ensures var r := DedupFrom(s, SameValue, last, k);
      && (|r| > 0 ==> r[0] != s[last])
      && NoAdjacentDuplicates(r)
      && {s[last]} + Elements(r) == {s[last]} + Elements(s[k..])
    decreases |s| - k
  {
    if k < |s| {
      ElementsSplit(s, k);
      if s[last] == s[k] {
        DedupFromSameValue(s, last, k + 1);
      } else {
        var rest := DedupFrom(s, SameValue, k, k + 1);
        DedupFromSameValue(s, k, k + 1);
        ElementsAppend([s[k]], rest);
        assert DedupFrom(s, SameValue, last, k) == [s[k]] + rest;
        assert forall t :: 1 <= t < 1 + |rest| ==> ([s[k]] + rest)[t] == rest[t - 1];
      }
    }
  }

  /**
   * With the default equality (Object.is, here ==) no two neighbours of the
   * result are equal and the result has exactly the values of the input.
   */
  lemma FilterConsecutiveDuplicatesSameValue<T>(s: seq<T>)
    ensures NoAdjacentDuplicates(FilterConsecutiveDuplicates(s, SameValue))
    ensures Elements(FilterConsecutiveDuplicates(s, SameValue)) == Elements(s)
  {
    if |s| > 0 {
      var rest := DedupFrom(s, SameValue, 0, 1);
      DedupFromSameValue(s, 0, 1);
      ElementsAppend([s[0]], rest);
      ElementsSplit(s, 0);
      assert s[0..] == s;
      assert forall t :: 1 <= t < 1 + |rest| ==> ([s[0]] + rest)[t] == rest[t - 1];
    }
  }

  /** Position n starts a run of equal items: it is the first, or differs from its left neighbour. */
  ghost function RunHead<T>(s: seq<T>): Predicate<T> {
    (x: T, n: nat) => n == 0 || n > |s| || s[n - 1] != x
  }

  /**
   * With the default equality the last kept item always has the value of
   * the item just before k, so an item is kept exactly when it differs from
   * its left neighbour.
   */
  lemma {:induction false} DedupFromIsRunHeads<T>(s: seq<T>, last: nat, k: nat)
    requires last < k <= |s| && s[last] == s[k - 1]
    ensures DedupFrom(s, SameValue, last, k) == FilterFrom(s, RunHead(s), k)
    decreases |s| - k
  {
    if k < |s| {
      assert RunHead(s)(s[k], k) == (s[k - 1] != s[k]);
      if s[last] == s[k] {
        assert FilterFrom(s, RunHead(s), k) == FilterFrom(s, RunHead(s), k + 1);
        DedupFromIsRunHeads(s, last, k + 1);
      } else {
        assert FilterFrom(s, RunHead(s), k) == [s[k]] + FilterFrom(s, RunHead(s), k + 1);
        DedupFromIsRunHeads(s, k, k + 1);
      }
    }
  }

  /**
   * With the default equality, filterConsecutiveDuplicates keeps exactly the
   * items that start a run: the first one and each one that differs from its
   * left neighbour (so [1, 2, 1] stays [1, 2, 1]).
   */
  lemma FilterConsecutiveDuplicatesIsRunHeads<T>(s: seq<T>)
    ensures FilterConsecutiveDuplicates(s, SameValue) == Filter(s, RunHead(s))
  {
    if |s| > 0 {
      DedupFromIsRunHeads(s, 0, 1);
      assert FilterFrom(s, RunHead(s), 0) == [s[0]] + FilterFrom(s, RunHead(s), 1);
    }
  }

  /** [1, 2, 1] keeps its non-adjacent repeat; [1, 1, 2, 2, 1] drops only the adjacent ones. */
  lemma FilterConsecutiveDuplicatesKeepsLaterRuns()
    ensures FilterConsecutiveDuplicates([1, 2, 1], SameValue) == [1, 2, 1]
    ensures FilterConsecutiveDuplicates([1, 1, 2, 2, 1], SameValue) == [1, 2, 1]
  {
  }

  /** Every kept item is an input item, and the first input item is always kept. */
  lemma {:induction false} DedupFromDrawsFromInput<T>(s: seq<T>, eq: Equals<T>, last: nat, k: nat)
    requires last < k <= |s|
    ensures |DedupFrom(s, eq, last, k)| <= |s| - k
    ensures Elements(DedupFrom(s, eq, last, k)) <= Elements(s[k..])
    decreases |s| - k
  {
    if k < |s| {
      ElementsSplit(s, k);
      var next := if eq(s[last], s[k], last, k) then last else k;
      DedupFromDrawsFromInput(s, eq, next, k + 1);
      ElementsAppend([s[k]], DedupFrom(s, eq, next, k + 1));
    }
  }

  lemma FilterConsecutiveDuplicatesDrawsFromInput<T>(s: seq<T>, eq: Equals<T>)
    ensures |FilterConsecutiveDuplicates(s, eq)| <= |s|
    ensures Elements(FilterConsecutiveDuplicates(s, eq)) <= Elements(s)
    ensures |s| > 0 ==> FilterConsecutiveDuplicates(s, eq)[0] == s[0]
  {
    if |s| > 0 {
      DedupFromDrawsFromInput(s, eq, 0, 1);
      ElementsAppend([s[0]], DedupFrom(s, eq, 0, 1));
      ElementsSplit(s, 0);
      assert s[0..] == s;
    }
  }

  /**
   * Call t compares the item at position t + 1, exactly once, with the last
   * kept item and its position.
   */
  lemma {:induction false} DedupCallsFromMeaning<T>(s: seq<T>, eq: Equals<T>, last: nat, k: nat)
    requires last < k <= |s|
    ensures |DedupCallsFrom(s, eq, last, k)| == |s| - k
    ensures forall t :: 0 <= t < |s| - k ==>
      var c := DedupCallsFrom(s, eq, last, k)[t];
      c.1 == s[k + t] && c.3 == k + t && c.2 < c.3 && c.0 == s[c.2]
    decreases |s| - k
  {
    if k < |s| {
      DedupCallsFromMeaning(s, eq, if eq(s[last], s[k], last, k) then last else k, k + 1);
    }
  }

  /** test/filterConsecutiveDuplicates.js: equals is called with values and positions as logged there. */
  lemma FilterConsecutiveDuplicatesCallbacks()
    ensures FilterConsecutiveDuplicates([3, 3, 5, 5, 5], SameValue) == [3, 5]
    ensures DedupCalls([3, 3, 5, 5, 5], SameValue) == [(3, 3, 0, 1), (3, 5, 0, 2), (5, 5, 2, 3), (5, 5, 2, 4)]
    ensures FilterConsecutiveDuplicates([2, 2, 4, 4, 2, 4], SameValue) == [2, 4, 2, 4]
  {
  }

  /** Items are compared with the last kept one, not with their neighbour. */
  lemma FilterConsecutiveDuplicatesUsesLastKept()
    ensures FilterConsecutiveDuplicates([1, 2, 3, 4], (a: int, b: int, i: nat, j: nat) => j == i + 1) == [1, 3]
  {
  }

  // ---------------------------------------------------------------- instance repeat

  /** iter.prototype.repeat(count): iter.repeat(this, count).flatten(). */
  function RepeatSequence<T>(s: seq<T>, count: nat): seq<T> {
    Concat(Repeat(s, count))
  }

  /** The unrolling iter.repeat(this, count).flatten() performs: one more copy in front. */
  lemma RepeatSequenceUnfold<T>(s: seq<T>, count: nat)
    requires count > 0
    ensures RepeatSequence(s, count) == s + RepeatSequence(s, count - 1)
  {
    assert Repeat(s, count)[1..] == Repeat(s, count - 1);
  }

  /** count copies of s: count * |s| items. */
  lemma {:induction false} RepeatSequenceLength<T>(s: seq<T>, count: nat)
    ensures |RepeatSequence(s, count)| == count * |s|
  {
    if count > 0 {
      RepeatSequenceUnfold(s, count);
      RepeatSequenceLength(s, count - 1);
      assert count * |s| == |s| + (count - 1) * |s|;
    }
  }

  /** Item k of copy q is s[k]. */
  lemma {:induction false} RepeatSequenceAt<T>(s: seq<T>, count: nat, q: nat, k: nat)
    requires q < count && k < |s|
    ensures q * |s| + k < |RepeatSequence(s, count)|
    ensures RepeatSequence(s, count)[q * |s| + k] == s[k]
  {
    RepeatSequenceUnfold(s, count);
    RepeatSequenceLength(s, count - 1);
    if q > 0 {
      RepeatSequenceAt(s, count - 1, q - 1, k);
      assert q * |s| + k == |s| + ((q - 1) * |s| + k);
    }
  }

  /** count copies of s, one after the other: item q|s| + k is s[k]. */
  lemma RepeatSequenceMeaning<T>(s: seq<T>, count: nat)
    ensures |RepeatSequence(s, count)| == count * |s|
    ensures forall q: nat, k: nat :: q < count && k < |s| ==>
      q * |s| + k < count * |s| && RepeatSequence(s, count)[q * |s| + k] == s[k]
  {
    RepeatSequenceLength(s, count);
    forall q: nat, k: nat | q < count && k < |s|
      ensures q * |s| + k < count * |s| && RepeatSequence(s, count)[q * |s| + k] == s[k]
    {
      RepeatSequenceAt(s, count, q, k);
    }
  }

  /** test/repeat.js: repeating twice, once and never. */
  lemma RepeatSequenceExamples()
    ensures RepeatSequence([3, 5, 7], 2) == [3, 5, 7, 3, 5, 7]
    ensures RepeatSequence([3, 5, 7], 1) == [3, 5, 7]
    ensures RepeatSequence([3, 7], 0) == []
  {
    ConcatSingle([3, 5, 7]);
    ConcatWithSource([3, 5, 7], [[3, 5, 7]]);
    ConcatSingle([3, 5, 7]);
    assert Repeat([3, 5, 7], 2) == [[3, 5, 7]] + [[3, 5, 7]];
  }
}
