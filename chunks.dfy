/**
 * iter.prototype.buffer and iter.prototype.window: consecutive chunks and
 * sliding windows. The size is any integer, as in the source: the
 * buffering loop only ever compares the pending length with it.
 */
module Chunks {
  import opened Sequences
  import opened Factories

  // ---------------------------------------------------------------- buffer

  /**
   * buffer(size): chunks of size items, the last one shorter. A size that a
   * non-empty chunk never reaches (size <= 0) keeps everything in one chunk.
   */
  function Buffer<T>(s: seq<T>, size: int): seq<seq<T>>
    decreases |s|
  {
    if |s| == 0 then []
    else if size <= 0 || |s| <= size then [s]
    else [s[..size]] + Buffer(s[size..], size)
  }

  /** Chunking a full pending chunk followed by the rest: that chunk, then the chunks of the rest. */
  lemma BufferFull<T>(c: seq<T>, t: seq<T>, size: int)
    requires size > 0 && |c| == size
    ensures Buffer(c + t, size) == [c] + Buffer(t, size)
  {
    if |t| > 0 {
      assert (c + t)[..size] == c;
      assert (c + t)[size..] == t;
    } else {
      assert c + t == c;
    }
  }

  /** The loop of buffer: push each item, yield and reset when the pending chunk reaches size, yield the rest. */
  method ComputeBuffer<T>(s: seq<T>, size: int) returns (out: seq<seq<T>>)
    ensures out == Buffer(s, size)
  {
    out := [];
    var result: seq<T> := [];
    var index := 0;
    assert result + s[index..] == s;
    while index < |s|
      invariant index <= |s|
      invariant size > 0 ==> |result| < size
      invariant out + Buffer(result + s[index..], size) == Buffer(s, size)
    {
      ghost var pending := result + s[index..];
      result := result + [s[index]];
      index := index + 1;
      assert pending == result + s[index..];
      if |result| == size {
        ghost var before := out;
        var chunk := result;
        BufferFull(chunk, s[index..], size);
        out := out + [chunk];
        result := [];
        assert result + s[index..] == s[index..];
        AppendAssoc(before, [chunk], Buffer(s[index..], size));
      }
    }
    assert result + s[index..] == result;
    if |result| != 0 {
      out := out + [result];
    }
  }

  /** Flattening the chunks gives back the input. */
  lemma {:induction false} BufferFlatten<T>(s: seq<T>, size: int)
    ensures Concat(Buffer(s, size)) == s
    decreases |s|
  {
    if |s| == 0 {
    } else if size <= 0 || |s| <= size {
      ConcatSingle(s);
    } else {
      var rest := Buffer(s[size..], size);
      BufferFlatten(s[size..], size);
      assert ([s[..size]] + rest)[1..] == rest;
      assert s[..size] + s[size..] == s;
    }
  }

  /**
   * For size > 0 every chunk is non-empty and at most size long, and all
   * but the last are exactly size long.
   */
  lemma {:induction false} BufferChunkSizes<T>(s: seq<T>, size: int)
    requires size > 0
    ensures forall k :: 0 <= k < |Buffer(s, size)| ==> 0 < |Buffer(s, size)[k]| <= size
    ensures forall k :: 0 <= k < |Buffer(s, size)| - 1 ==> |Buffer(s, size)[k]| == size
    decreases |s|
  {
    if |s| > size {
      var rest := Buffer(s[size..], size);
      BufferChunkSizes(s[size..], size);
      assert Buffer(s, size) == [s[..size]] + rest;
      assert forall k :: 1 <= k < |Buffer(s, size)| ==> Buffer(s, size)[k] == rest[k - 1];
    }
  }

  /** A size the chunk never reaches keeps the whole input in one chunk. */
  lemma BufferNonPositive<T>(s: seq<T>, size: int)
    requires size <= 0
    ensures Buffer(s, size) == if |s| == 0 then [] else [s]
  {
  }

  /** test/buffer.js: the extras are yielded in their own shorter chunk. */
  lemma BufferKeepsExtras()
    ensures Buffer([1, 2, 3, 1, 2, 3, 2, 3, 4, 5, 6], 3) == [[1, 2, 3], [1, 2, 3], [2, 3, 4], [5, 6]]
  {
    var s := [1, 2, 3, 1, 2, 3, 2, 3, 4, 5, 6];
    assert s[..3] == [1, 2, 3] && s[3..] == [1, 2, 3, 2, 3, 4, 5, 6];
    var s1 := s[3..];
    assert s1[..3] == [1, 2, 3] && s1[3..] == [2, 3, 4, 5, 6];
    var s2 := s1[3..];
    assert s2[..3] == [2, 3, 4] && s2[3..] == [5, 6];
    assert Buffer(s2[3..], 3) == [[5, 6]];
  }

  // ---------------------------------------------------------------- window

  /**
   * The windows yielded once the first n items have been consumed: one after
   * each later item that brings the buffer to size items.
   */
  function WindowFrom<T>(s: seq<T>, size: int, n: nat): seq<seq<T>>
    requires n <= |s|
    decreases |s| - n
  {
    if n == |s| then []
    else if size > 0 && n + 1 >= size then [s[n + 1 - size..n + 1]] + WindowFrom(s, size, n + 1)
    else WindowFrom(s, size, n + 1)
  }

  /** window(size). */
  function Window<T>(s: seq<T>, size: int): seq<seq<T>> {
    WindowFrom(s, size, 0)
  }

  /**
   * The loop of window: the buffer drops its oldest item (shift) before the
   * new one is pushed once it is full, and a copy is yielded whenever it
   * holds size items.
   */
  method ComputeWindow<T>(s: seq<T>, size: int) returns (out: seq<seq<T>>)
    ensures out == Window(s, size)
  {
    out := [];
    var result: seq<T> := [];
    var index := 0;
    ghost var lo := 0;
    while index < |s|
      invariant lo <= index <= |s|
      invariant result == s[lo..index]
      invariant size > 0 ==> lo == (if index < size then 0 else index - size)
      invariant size <= 0 ==> lo == 0
      invariant out + WindowFrom(s, size, index) == Window(s, size)
    {
      var item := s[index];
      if |result| == size {
        if |result| > 0 {
          // Array.prototype.shift on an empty buffer (size 0) changes nothing.
          assert result[1..] == s[lo + 1..index];
          result := result[1..];
          lo := lo + 1;
        }
        result := result + [item];
      } else {
        result := result + [item];
      }
      assert result == s[lo..index + 1];
      index := index + 1;
      if |result| == size {
        ghost var before := out;
        assert size > 0 && lo == index - size;
        assert WindowFrom(s, size, index - 1) == [s[index - size..index]] + WindowFrom(s, size, index);
        out := out + [result];
        AppendAssoc(before, [result], WindowFrom(s, size, index));
      } else {
        assert WindowFrom(s, size, index - 1) == WindowFrom(s, size, index);
      }
    }
  }

  /** The position of the last item of the first window yielded from n on: max(n, size - 1). */
  function FirstWindowEnd(size: int, n: nat): int {
    if n >= size - 1 then n else size - 1
  }

  /** From n on, |s| - FirstWindowEnd(size, n) windows are yielded, or none if that is not positive. */
  lemma {:induction false} WindowFromLength<T>(s: seq<T>, size: int, n: nat)
    requires size > 0 && n <= |s|
    ensures |WindowFrom(s, size, n)| == if |s| > FirstWindowEnd(size, n) then |s| - FirstWindowEnd(size, n) else 0
    decreases |s| - n
  {
    if n < |s| {
      WindowFromLength(s, size, n + 1);
    }
  }

  /** From n on, window t ends just after position FirstWindowEnd(size, n) + t and holds size items. */
  lemma {:induction false} WindowFromAt<T>(s: seq<T>, size: int, n: nat, t: nat)
    requires size > 0 && n <= |s| && t < |WindowFrom(s, size, n)|
    ensures FirstWindowEnd(size, n) + 1 + t <= |s|
    ensures WindowFrom(s, size, n)[t] == s[FirstWindowEnd(size, n) + 1 - size + t..FirstWindowEnd(size, n) + 1 + t]
    decreases |s| - n
  {
    WindowFromLength(s, size, n);
    if n + 1 >= size {
      if t > 0 {
        WindowFromAt(s, size, n + 1, t - 1);
      }
    } else {
      WindowFromAt(s, size, n + 1, t);
    }
  }

  /**
   * For size > 0, window yields max(|s| - size + 1, 0) arrays, the i-th one
   * s[i..i + size].
   */
  lemma WindowMeaning<T>(s: seq<T>, size: int)
    requires size > 0
    ensures |Window(s, size)| == if |s| >= size then |s| - size + 1 else 0
    ensures forall i :: 0 <= i < |Window(s, size)| ==> i + size <= |s| && Window(s, size)[i] == s[i..i + size]
  {
    WindowFromLength(s, size, 0);
    forall i | 0 <= i < |Window(s, size)|
      ensures i + size <= |s| && Window(s, size)[i] == s[i..i + size]
    {
      WindowFromAt(s, size, 0, i);
    }
  }

  /** A size the buffer never holds (size <= 0) yields nothing. */
  lemma {:induction false} WindowFromNonPositive<T>(s: seq<T>, size: int, n: nat)
    requires size <= 0 && n <= |s|
    ensures WindowFrom(s, size, n) == []
    decreases |s| - n
  {
    if n < |s| {
      WindowFromNonPositive(s, size, n + 1);
    }
  }

  lemma WindowNonPositive<T>(s: seq<T>, size: int)
    requires size <= 0
    ensures Window(s, size) == []
  {
    WindowFromNonPositive(s, size, 0);
  }

  /** test/window.js: one input item (of two needed) gives nothing; two give one window. */
  lemma WindowShortInputs()
    ensures Window([1], 2) == []
    ensures Window([1, 2], 2) == [[1, 2]]
  {
    WindowMeaning([1], 2);
    WindowMeaning([1, 2], 2);
    assert [1, 2][0..2] == [1, 2];
  }
}
