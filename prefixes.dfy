/**
 * iter.prototype.take and iter.prototype.skip, with a predicate or a count.
 * A count n becomes the predicate the source builds from it: its counter is
 * decremented at every call, so on one traversal the call at position i
 * sees the counter at n - i.
 */
module Prefixes {
  import opened Callbacks
  import opened Sequences

  // ---------------------------------------------------------------- the prefix both operate on

  function PrefixLengthFrom<T>(s: seq<T>, p: Predicate<T>, k: nat): (n: nat)
    requires k <= |s|
    ensures k <= n <= |s|
    ensures forall i :: k <= i < n ==> p(s[i], i)
    ensures n < |s| ==> !p(s[n], n)
    decreases |s| - k
  {
    if k == |s| || !p(s[k], k) then k else PrefixLengthFrom(s, p, k + 1)
  }

  /** The length of the longest prefix whose every item satisfies p, each item checked at its position. */
  function PrefixLength<T>(s: seq<T>, p: Predicate<T>): (n: nat)
    ensures n <= |s|
    ensures forall i :: 0 <= i < n ==> p(s[i], i)
    ensures n < |s| ==> !p(s[n], n)
  {
    PrefixLengthFrom(s, p, 0)
  }

  /** The first position where p fails (or |s|) is the only length with those properties. */
  lemma PrefixLengthUnique<T>(s: seq<T>, p: Predicate<T>, n: nat)
    requires n <= |s|
    requires forall i :: 0 <= i < n ==> p(s[i], i)
    requires n < |s| ==> !p(s[n], n)
    ensures n == PrefixLength(s, p)
  {
    var m := PrefixLength(s, p);
    if n < m {
      assert false;
    } else if m < n {
      assert false;
    }
  }

  /** The predicate calls a single traversal makes: positions up to the first false one. */
  function CallCount<T>(s: seq<T>, p: Predicate<T>): nat {
    var n := PrefixLength(s, p);
    if n < |s| then n + 1 else |s|
  }

  // ---------------------------------------------------------------- take

  function TakeFrom<T>(s: seq<T>, p: Predicate<T>, k: nat): seq<T>
    requires k <= |s|
    decreases |s| - k
  {
    if k == |s| || !p(s[k], k) then [] else [s[k]] + TakeFrom(s, p, k + 1)
  }

  /** take(predicate): the items until the predicate first returns false. */
  function Take<T>(s: seq<T>, p: Predicate<T>): seq<T> {
    TakeFrom(s, p, 0)
  }

  /**
   * The loop of take: the predicate is called with each item and its
   * position, and the loop breaks at its first false. `seen` records the
   * (value, index) pairs the predicate was called with.
   */
  method ComputeTake<T>(s: seq<T>, p: Predicate<T>) returns (out: seq<T>, seen: seq<(T, nat)>)
    ensures out == Take(s, p)
    ensures |seen| == CallCount(s, p)
    ensures forall i :: 0 <= i < |seen| ==> seen[i] == (s[i], i)
  {
    out := [];
    seen := [];
    var index := 0;
    while index < |s|
      invariant index <= PrefixLength(s, p)
      invariant out + TakeFrom(s, p, index) == Take(s, p)
      invariant |seen| == index
      invariant forall i :: 0 <= i < index ==> seen[i] == (s[i], i)
    {
      var item := s[index];
      seen := seen + [(item, index)];
      var keep := p(item, index);
      index := index + 1;
      if !keep {
        break;
      }
      ghost var before := out;
      out := out + [item];
      AppendAssoc(before, [item], TakeFrom(s, p, index));
    }
  }

  lemma {:induction false} TakeFromIsSlice<T>(s: seq<T>, p: Predicate<T>, k: nat)
    requires k <= |s|
    ensures TakeFrom(s, p, k) == s[k..PrefixLengthFrom(s, p, k)]
    decreases |s| - k
  {
    if k < |s| && p(s[k], k) {
      TakeFromIsSlice(s, p, k + 1);
      assert s[k..PrefixLengthFrom(s, p, k)] == [s[k]] + s[k + 1..PrefixLengthFrom(s, p, k + 1)];
    }
  }

  /** take(p) is the longest prefix of s whose items all satisfy p. */
  lemma TakeIsLongestPrefix<T>(s: seq<T>, p: Predicate<T>)
    ensures Take(s, p) == s[..PrefixLength(s, p)]
  {
    TakeFromIsSlice(s, p, 0);
  }

  // ---------------------------------------------------------------- skip

  function SkipFrom<T>(s: seq<T>, p: Predicate<T>, k: nat): seq<T>
    requires k <= |s|
    decreases |s| - k
  {
    if k == |s| then [] else if p(s[k], k) then SkipFrom(s, p, k + 1) else s[k..]
  }

  /** skip(predicate): everything from the first item the predicate rejects. */
  function Skip<T>(s: seq<T>, p: Predicate<T>): seq<T> {
    SkipFrom(s, p, 0)
  }

  /**
   * The loop of skip: until doneSkipping is set the predicate is called and
   * accepted items are skipped; from the first rejected item on, every item
   * is yielded without a call.
   */
  method ComputeSkip<T>(s: seq<T>, p: Predicate<T>) returns (out: seq<T>, seen: seq<(T, nat)>)
    ensures out == Skip(s, p)
    ensures |seen| == CallCount(s, p)
    ensures forall i :: 0 <= i < |seen| ==> seen[i] == (s[i], i)
  {
    out := [];
    seen := [];
    var index := 0;
    var doneSkipping := false;
    var position := 0;
    while position < |s|
      invariant position <= |s|
      invariant !doneSkipping ==> index == position <= PrefixLength(s, p) && out == []
      invariant doneSkipping ==> index == PrefixLength(s, p) + 1 && index <= position
      invariant doneSkipping ==> out == s[PrefixLength(s, p)..position]
      invariant |seen| == index
      invariant forall i :: 0 <= i < index ==> seen[i] == (s[i], i)
    {
      var item := s[position];
      if !doneSkipping {
        seen := seen + [(item, index)];
        var skipping := p(item, index);
        index := index + 1;
        if skipping {
          position := position + 1;
          continue;
        }
        doneSkipping := true;
      }
      out := out + [item];
      position := position + 1;
    }
    SkipFromIsSuffix(s, p, 0);
  }

  lemma {:induction false} SkipFromIsSuffix<T>(s: seq<T>, p: Predicate<T>, k: nat)
    requires k <= |s|
    ensures SkipFrom(s, p, k) == s[PrefixLengthFrom(s, p, k)..]
    decreases |s| - k
  {
    if k < |s| && p(s[k], k) {
      SkipFromIsSuffix(s, p, k + 1);
    }
  }

  /** skip(p) drops exactly the prefix take(p) keeps. */
  lemma SkipDropsLongestPrefix<T>(s: seq<T>, p: Predicate<T>)
    ensures Skip(s, p) == s[PrefixLength(s, p)..]
  {
    SkipFromIsSuffix(s, p, 0);
  }

  /** Under the same predicate, take and skip split s in two. */
  lemma TakeThenSkip<T>(s: seq<T>, p: Predicate<T>)
    ensures Take(s, p) + Skip(s, p) == s
  {
    TakeIsLongestPrefix(s, p);
    SkipDropsLongestPrefix(s, p);
    assert s[..PrefixLength(s, p)] + s[PrefixLength(s, p)..] == s;
  }

  // ---------------------------------------------------------------- counted forms

  /** take(n): the source's `() => n-- !== 0`, seen at the call for position i. */
  function TakeCounter<T>(n: int): Predicate<T> {
    (x: T, i: nat) => n - i != 0
  }

  /** skip(n): the source's `() => n-- > 0`, seen at the call for position i. */
  function SkipCounter<T>(n: int): Predicate<T> {
    (x: T, i: nat) => n - i > 0
  }

  /**
   * take(n) yields the first min(n, |s|) items; a negative count never
   * reaches zero, so everything is taken.
   */
  lemma TakeCount<T>(s: seq<T>, n: int)
    ensures Take(s, TakeCounter(n)) == if 0 <= n < |s| then s[..n] else s
  {
    var p := TakeCounter<T>(n);
    var m := if 0 <= n < |s| then n else |s|;
    PrefixLengthUnique(s, p, m);
    TakeIsLongestPrefix(s, p);
  }

  /** skip(n) drops the first min(n, |s|) items, none for a count of zero or less. */
  lemma SkipCount<T>(s: seq<T>, n: int)
    ensures Skip(s, SkipCounter(n)) == if n <= 0 then s else if n < |s| then s[n..] else []
  {
    var p := SkipCounter<T>(n);
    var m := if n <= 0 then 0 else if n < |s| then n else |s|;
    PrefixLengthUnique(s, p, m);
    SkipDropsLongestPrefix(s, p);
  }

  /** For a count n >= 0 on one traversal, take(n) ++ skip(n) gives back s. */
  lemma TakeCountThenSkipCount<T>(s: seq<T>, n: nat)
    ensures Take(s, TakeCounter(n)) + Skip(s, SkipCounter(n)) == s
  {
    TakeCount(s, n);
    SkipCount(s, n);
    if n < |s| {
      assert s[..n] + s[n..] == s;
    }
  }

  /** The predicate of test/take.js and test/skip.js. */
  function IsEven(x: int, i: nat): bool {
    x % 2 == 0
  }

  /**
   * test/take.js and test/skip.js: over [4, 6, 7, 6] the predicate is called
   * with positions 0, 1 and 2 only, and the later even item stays on the
   * skipped side.
   */
  lemma TakeSkipEven()
    ensures Take([4, 6, 7, 6], IsEven) == [4, 6]
    ensures Skip([4, 6, 7, 6], IsEven) == [7, 6]
    ensures CallCount([4, 6, 7, 6], IsEven) == 3
  {
    var s := [4, 6, 7, 6];
    PrefixLengthUnique(s, IsEven, 2);
    TakeIsLongestPrefix(s, IsEven);
    SkipDropsLongestPrefix(s, IsEven);
  }

  /** test/take.js: counted takes of [3, 5, 7]. */
  lemma TakeCountExamples()
    ensures Take([3, 5, 7], TakeCounter(2)) == [3, 5]
    ensures Take([3, 5, 7], TakeCounter(5)) == [3, 5, 7]
    ensures Take([3, 5, 7], TakeCounter(0)) == []
  {
    TakeCount([3, 5, 7], 2);
    TakeCount([3, 5, 7], 5);
    TakeCount([3, 5, 7], 0);
  }
}
