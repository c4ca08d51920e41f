/**
 * iter.prototype.scan: the running combination of the items. With a seed
 * every item is combined, starting from the seed at index 0; without one (the
 * seed is undefined) the first item becomes the starting value and is not
 * yielded, so combine first sees index 1.
 */
module Scanning {
  import opened Wrappers
  import opened Callbacks
  import opened Sequences

  /** The results yielded from position k on, when the accumulated value so far is current. */
  function ScanFrom<T, U>(s: seq<T>, combine: Combine<U, T>, current: U, k: nat): seq<U>
    requires k <= |s|
    decreases |s| - k
  {
    if k == |s| then []
    else
      var next := combine(current, s[k], k);
      [next] + ScanFrom(s, combine, next, k + 1)
  }

  /** scan(combine, seed) with a seed: one result per item. */
  function ScanSeeded<T, U>(s: seq<T>, combine: Combine<U, T>, seed: U): seq<U> {
    ScanFrom(s, combine, seed, 0)
  }

  /** scan(combine, seed); None stands for an undefined seed. */
  function Scan<T>(s: seq<T>, combine: Combine<T, T>, seed: Option<T>): seq<T> {
    match seed
    case Some(v) => ScanSeeded(s, combine, v)
    case None => if |s| == 0 then [] else ScanFrom(s, combine, s[0], 1)
  }

  /** The loop of scan, with `current` undefined (None) until the first item or the seed sets it. */
  method ComputeScan<T>(s: seq<T>, combine: Combine<T, T>, seed: Option<T>) returns (out: seq<T>)
    ensures out == Scan(s, combine, seed)
  {
    out := [];
    var index := 0;
    var current := seed;
    while index < |s|
      invariant index <= |s|
      invariant index == 0 ==> current == seed && out == []
      invariant index > 0 ==> current.Some?
      invariant current.Some? ==> out + ScanFrom(s, combine, current.value, index) == Scan(s, combine, seed)
    {
      var item := s[index];
      if index == 0 && seed.None? {
        current := Some(item);
      } else {
        ghost var before := out;
        var next := combine(current.value, item, index);
        current := Some(next);
        out := out + [next];
        AppendAssoc(before, [next], ScanFrom(s, combine, next, index + 1));
      }
      index := index + 1;
    }
  }

  // ---------------------------------------------------------------- the reference fold

  /**
   * Folding s[lo..hi] into current, item by item, each combined with its
   * own position: the value after the item at position hi - 1.
   */
  function Combined<T, U>(s: seq<T>, combine: Combine<U, T>, current: U, lo: nat, hi: nat): U
    requires lo <= hi <= |s|
    decreases hi - lo
  {
    if hi == lo then current else combine(Combined(s, combine, current, lo, hi - 1), s[hi - 1], hi - 1)
  }

  /** Folding the first item into the start value first gives the same fold. */
  lemma {:induction false} CombinedFirst<T, U>(s: seq<T>, combine: Combine<U, T>, current: U, lo: nat, hi: nat)
    requires lo < hi <= |s|
    ensures Combined(s, combine, combine(current, s[lo], lo), lo + 1, hi) == Combined(s, combine, current, lo, hi)
    decreases hi - lo
  {
    if hi > lo + 1 {
      CombinedFirst(s, combine, current, lo, hi - 1);
    }
  }

  /** One result per remaining item. */
  lemma {:induction false} ScanFromLength<T, U>(s: seq<T>, combine: Combine<U, T>, current: U, k: nat)
    requires k <= |s|
    ensures |ScanFrom(s, combine, current, k)| == |s| - k
    decreases |s| - k
  {
    if k < |s| {
      ScanFromLength(s, combine, combine(current, s[k], k), k + 1);
    }
  }

  /** Result t from position k is the fold of s[k..k + t + 1] into current. */
  lemma {:induction false} ScanFromAt<T, U>(s: seq<T>, combine: Combine<U, T>, current: U, k: nat, t: nat)
    requires k + t < |s|
    ensures t < |ScanFrom(s, combine, current, k)|
    ensures ScanFrom(s, combine, current, k)[t] == Combined(s, combine, current, k, k + t + 1)
    decreases t
  {
    ScanFromLength(s, combine, current, k);
    if t > 0 {
      var next := combine(current, s[k], k);
      ScanFromAt(s, combine, next, k + 1, t - 1);
      CombinedFirst(s, combine, current, k, k + t + 1);
    }
  }

  lemma ScanFromMeaning<T, U>(s: seq<T>, combine: Combine<U, T>, current: U, k: nat)
    requires k <= |s|
    ensures |ScanFrom(s, combine, current, k)| == |s| - k
    ensures forall t :: 0 <= t < |s| - k ==>
      ScanFrom(s, combine, current, k)[t] == Combined(s, combine, current, k, k + t + 1)
  {
    ScanFromLength(s, combine, current, k);
    forall t | 0 <= t < |s| - k
      ensures ScanFrom(s, combine, current, k)[t] == Combined(s, combine, current, k, k + t + 1)
    {
      ScanFromAt(s, combine, current, k, t);
    }
  }

  /**
   * Seeded: one result per item; result t folds s[..t + 1] into the seed, so
   * the first result is combine(seed, s[0], 0).
   */
  lemma ScanSeededMeaning<T>(s: seq<T>, combine: Combine<T, T>, seed: T)
    ensures |Scan(s, combine, Some(seed))| == |s|
    ensures forall t :: 0 <= t < |s| ==> Scan(s, combine, Some(seed))[t] == Combined(s, combine, seed, 0, t + 1)
    ensures |s| > 0 ==> Scan(s, combine, Some(seed))[0] == combine(seed, s[0], 0)
  {
    ScanFromMeaning(s, combine, seed, 0);
  }

  /**
   * Unseeded: max(|s| - 1, 0) results; result t folds s[1..t + 2] into s[0],
   * so combine is first called with index 1.
   */
  lemma ScanUnseededMeaning<T>(s: seq<T>, combine: Combine<T, T>)
    ensures |Scan(s, combine, None)| == if |s| == 0 then 0 else |s| - 1
    ensures forall t :: 0 <= t < |s| - 1 ==> Scan(s, combine, None)[t] == Combined(s, combine, s[0], 1, t + 2)
    ensures |s| > 1 ==> Scan(s, combine, None)[0] == combine(s[0], s[1], 1)
  {
    if |s| > 0 {
      ScanFromMeaning(s, combine, s[0], 1);
    }
  }

  /** test/scan.js: running sums with and without a seed. */
  lemma ScanRunningSums()
    ensures Scan([3, 5, 7], (x: int, y: int, i: nat) => x + y, None) == [8, 15]
    ensures Scan([3, 5, 7], (x: int, y: int, i: nat) => x + y, Some(2)) == [5, 10, 17]
  {
  }
}
