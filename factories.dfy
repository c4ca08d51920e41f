/**
 * The iter constructors over finite inputs: iter.range with an end,
 * iter.repeat with a count, iter.concat and iter.zip. iter.values and iter()
 * wrap a given collection unchanged; a Dafny sequence stands for itself.
 */
module Factories {
  import opened Wrappers
  import opened Sequences

  // ---------------------------------------------------------------- range

  /** iter.range(start, end): start, start + 1, ... up to but excluding end. */
  function Range(start: int, end: int): seq<int>
    requires start <= end
    decreases end - start
  {
    if start == end then [] else [start] + Range(start + 1, end)
  }

  /** The loop `while (start !== end) yield start++`. */
  method ComputeRange(start: int, end: int) returns (out: seq<int>)
    requires start <= end
    ensures out == Range(start, end)
  {
    out := [];
    var current := start;
    while current != end
      invariant start <= current <= end
      invariant out + Range(current, end) == Range(start, end)
      decreases end - current
    {
      ghost var before := out;
      out := out + [current];
      current := current + 1;
      AppendAssoc(before, [current - 1], Range(current, end));
    }
  }

  /** The range holds end - start consecutive integers beginning at start. */
  lemma {:induction false} RangeMeaning(start: int, end: int)
    requires start <= end
    ensures |Range(start, end)| == end - start
    ensures forall k :: 0 <= k < end - start ==> Range(start, end)[k] == start + k
    decreases end - start
  {
    if start < end {
      RangeMeaning(start + 1, end);
    }
  }

  // ---------------------------------------------------------------- repeat

  /** iter.repeat(value, count). */
  function Repeat<T>(value: T, count: nat): seq<T> {
    if count == 0 then [] else [value] + Repeat(value, count - 1)
  }

  /** The loop `while (index++ !== count) yield value`. */
  method ComputeRepeat<T>(value: T, count: nat) returns (out: seq<T>)
    ensures out == Repeat(value, count)
  {
    out := [];
    var index := 0;
    while index != count
      invariant index <= count
      invariant out + Repeat(value, count - index) == Repeat(value, count)
      decreases count - index
    {
      ghost var before := out;
      out := out + [value];
      index := index + 1;
      AppendAssoc(before, [value], Repeat(value, count - index));
    }
  }

  /** count copies of value and nothing else. */
  lemma {:induction false} RepeatMeaning<T>(value: T, count: nat)
    ensures |Repeat(value, count)| == count
    ensures forall k :: 0 <= k < count ==> Repeat(value, count)[k] == value
  {
    if count > 0 {
      RepeatMeaning(value, count - 1);
    }
  }

  // ---------------------------------------------------------------- concat

  /** iter.concat(...iterables), and also flatten: every input's items, input by input. */
  function Concat<T>(ss: seq<seq<T>>): seq<T> {
    if |ss| == 0 then [] else ss[0] + Concat(ss[1..])
  }

  /** The sum of the input lengths. */
  function TotalLength<T>(ss: seq<seq<T>>): nat {
    if |ss| == 0 then 0 else |ss[0]| + TotalLength(ss[1..])
  }

  /** The loops `for (let iterable of iterables) yield* iterable`, one item at a time. */
  method ComputeConcat<T>(ss: seq<seq<T>>) returns (out: seq<T>)
    ensures out == Concat(ss)
  {
    out := [];
    for k := 0 to |ss|
      invariant out == Concat(ss[..k])
    {
      for m := 0 to |ss[k]|
        invariant out == Concat(ss[..k]) + ss[k][..m]
      {
        out := out + [ss[k][m]];
        assert ss[k][..m + 1] == ss[k][..m] + [ss[k][m]];
      }
      assert ss[k][..|ss[k]|] == ss[k];
      assert ss[..k + 1] == ss[..k] + [ss[k]];
      ConcatAppend(ss[..k], [ss[k]]);
      ConcatSingle(ss[k]);
    }
    assert ss[..|ss|] == ss;
  }

  /** Concatenating two lists of inputs concatenates their results. */
  lemma {:induction false} ConcatAppend<T>(a: seq<seq<T>>, b: seq<seq<T>>)
    ensures Concat(a + b) == Concat(a) + Concat(b)
  {
    if |a| == 0 {
      assert a + b == b;
    } else {
      assert (a + b)[1..] == a[1..] + b;
      ConcatAppend(a[1..], b);
      AppendAssoc(a[0], Concat(a[1..]), Concat(b));
    }
  }

  /** A single input is passed through unchanged. */
  lemma ConcatSingle<T>(s: seq<T>)
    ensures Concat([s]) == s
  {
    assert [s][1..] == [];
  }

  /** The output is as long as all the inputs together. */
  lemma {:induction false} ConcatLength<T>(ss: seq<seq<T>>)
    ensures |Concat(ss)| == TotalLength(ss)
  {
    if |ss| > 0 {
      ConcatLength(ss[1..]);
    }
  }

  /** iter.prototype.concat(...others) puts the source first. */
  lemma ConcatWithSource<T>(s: seq<T>, others: seq<seq<T>>)
    ensures Concat([s] + others) == s + Concat(others)
  {
    ConcatAppend([s], others);
    ConcatSingle(s);
  }

  // ---------------------------------------------------------------- zip

  /** The length of the longest input; 0 when there are none. */
  function MaxLength<T>(ss: seq<seq<T>>): (n: nat)
    ensures forall k :: 0 <= k < |ss| ==> |ss[k]| <= n
    ensures |ss| == 0 ==> n == 0
    ensures |ss| > 0 ==> exists k :: 0 <= k < |ss| && |ss[k]| == n
  {
    if |ss| == 0 then 0
    else
      var rest := MaxLength(ss[1..]);
      assert forall k :: 1 <= k < |ss| ==> ss[k] == ss[1..][k - 1];
      if |ss[0]| >= rest then |ss[0]| else rest
  }

  /** One zip tuple: what every input shows at position i, None for inputs that have ended. */
  function ZipRow<T>(ss: seq<seq<T>>, i: nat): seq<Option<T>> {
    seq(|ss|, k requires 0 <= k < |ss| => Slot(ss[k], i))
  }

  /** Some input still has an item at position i. */
  predicate AnyAt<T>(ss: seq<seq<T>>, i: nat) {
    exists k :: 0 <= k < |ss| && i < |ss[k]|
  }

  /** Tuples from position i on, as long as some input has not ended. */
  function ZipFrom<T>(ss: seq<seq<T>>, i: nat): seq<seq<Option<T>>>
    decreases MaxLength(ss) - i
  {
    if AnyAt(ss, i) then [ZipRow(ss, i)] + ZipFrom(ss, i + 1) else []
  }

  /** iter.zip(...iterables). */
  function Zip<T>(ss: seq<seq<T>>): seq<seq<Option<T>>> {
    ZipFrom(ss, 0)
  }

  /**
   * The loop of iter.zip: every round advances every input once and yields
   * the tuple if at least one input was not done.
   */
  method ComputeZip<T>(ss: seq<seq<T>>) returns (out: seq<seq<Option<T>>>)
    ensures out == Zip(ss)
  {
    out := [];
    var round := 0;
    while true
      invariant round <= MaxLength(ss)
      invariant out + ZipFrom(ss, round) == Zip(ss)
      decreases MaxLength(ss) - round
    {
      var result, atLeastOneNotDone := ComputeZipRow(ss, round);
      if atLeastOneNotDone {
        ghost var before := out;
        out := out + [result];
        round := round + 1;
        AppendAssoc(before, [result], ZipFrom(ss, round));
      } else {
        break;
      }
    }
  }

  /** One round of iter.zip: advance every input, noting whether any was not done. */
  method ComputeZipRow<T>(ss: seq<seq<T>>, round: nat) returns (result: seq<Option<T>>, atLeastOneNotDone: bool)
    ensures result == ZipRow(ss, round)
    ensures atLeastOneNotDone == AnyAt(ss, round)
  {
    atLeastOneNotDone := false;
    result := [];
    for k := 0 to |ss|
      invariant |result| == k
      invariant forall m :: 0 <= m < k ==> result[m] == Slot(ss[m], round)
      invariant atLeastOneNotDone <==> exists m :: 0 <= m < k && round < |ss[m]|
    {
      if round < |ss[k]| {
        result := result + [Some(ss[k][round])];
        atLeastOneNotDone := true;
      } else {
        result := result + [None];
      }
    }
  }

  /** There are as many tuples as the longest input has items. */
  lemma {:induction false} ZipFromLength<T>(ss: seq<seq<T>>, i: nat)
    requires i <= MaxLength(ss)
    ensures |ZipFrom(ss, i)| == MaxLength(ss) - i
    decreases MaxLength(ss) - i
  {
    if i < MaxLength(ss) {
      assert AnyAt(ss, i);
      ZipFromLength(ss, i + 1);
    } else {
      assert !AnyAt(ss, i);
    }
  }

  /** Tuple t of the rest holds position i + t of every input. */
  lemma {:induction false} ZipFromAt<T>(ss: seq<seq<T>>, i: nat, t: nat)
    requires i + t < MaxLength(ss)
    ensures t < |ZipFrom(ss, i)| && ZipFrom(ss, i)[t] == ZipRow(ss, i + t)
    decreases t
  {
    ZipFromLength(ss, i);
    assert AnyAt(ss, i) by {
      var k :| 0 <= k < |ss| && |ss[k]| == MaxLength(ss);
      assert i < |ss[k]|;
    }
    if t > 0 {
      ZipFromAt(ss, i + 1, t - 1);
    }
  }

  /**
   * zip yields max |ss[k]| tuples, each with one slot per input; slot k of
   * tuple i is ss[k][i], or None once input k has ended.
   */
  lemma ZipMeaning<T>(ss: seq<seq<T>>)
    ensures |Zip(ss)| == MaxLength(ss)
    ensures forall i, k :: 0 <= i < |Zip(ss)| && 0 <= k < |ss| ==>
      |Zip(ss)[i]| == |ss| && Zip(ss)[i][k] == (if i < |ss[k]| then Some(ss[k][i]) else None)
  {
    ZipFromLength(ss, 0);
    forall i | 0 <= i < MaxLength(ss) ensures Zip(ss)[i] == ZipRow(ss, i) {
      ZipFromAt(ss, 0, i);
    }
  }

  /** test/iter.zip.js: a shorter input leaves a hole in the later tuples. */
  lemma ZipLeavesHoles()
    ensures Zip([[5], [2, 9], [13, 14]]) == [[Some(5), Some(2), Some(13)], [None, Some(9), Some(14)]]
  {
    var ss := [[5], [2, 9], [13, 14]];
    ZipMeaning(ss);
    assert MaxLength(ss) == 2;
    assert Zip(ss)[0] == [Some(5), Some(2), Some(13)];
    assert Zip(ss)[1] == [None, Some(9), Some(14)];
  }
}
