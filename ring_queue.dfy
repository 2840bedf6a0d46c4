/**
 * The growable ring-buffer queue of concurrent/queue/queue.go.
 *
 * The buffer `buf` holds the `count` queued elements starting at slot `head`
 * and wrapping around its end; `tail` is the next free slot. Indices wrap with
 * the bitwise modulus `x & (len(buf) - 1)`, which is reduction modulo
 * `len(buf)` only because the capacity stays a power of two: that is part of
 * the object invariant `Valid()`, and every operation preserves it.
 * The reader/writer lock only serialises callers and is not modelled.
 */
module RingQueue {
  import opened Bits

  /** The smallest capacity a queue may have; a power of two. */
  const MinQueueLen: nat := 16

  /**
   * When a power-of-two buffer above the minimum is a quarter full, twice the
   * count is half the capacity: again a power of two, and not below the minimum.
   */
  lemma QuarterFullHalves(len: nat, count: nat)
    requires IsPowerOfTwo(len) && len > MinQueueLen && count * 4 == len
    ensures 2 * count == len / 2 && IsPowerOfTwo(2 * count) && 2 * count >= MinQueueLen
  {
    HalfIsPowerOfTwo(len);
    EightAndSixteenArePowersOfTwo();
    PowerOfTwoAbove(2 * count, 8);
  }

  /** A count above a quarter of `4 * q` is still at least a quarter after one pop. */
  lemma AboveQuarterAfterPop(q: int, c: int)
    requires 4 * (c + 1) > 4 * q
    ensures 4 * c >= 4 * q
  {
  }

  /**
   * One successful pop, halving the capacity `len` when it leaves the buffer a
   * quarter full above the minimum, keeps the buffer more than a quarter full.
   */
  lemma PopKeepsCompact(len: nat, count: nat, newLen: nat)
    requires IsPowerOfTwo(len) && len >= MinQueueLen && count >= 1
    requires len == MinQueueLen || 4 * count > len
    requires newLen == if len > MinQueueLen && (count - 1) * 4 == len then len / 2 else len
    ensures newLen == MinQueueLen || 4 * (count - 1) > newLen
  {
    if newLen == len && len != MinQueueLen {
      PowerOfTwoQuarters(len);
      AboveQuarterAfterPop(len / 4, count - 1);
    }
  }

  /**
   * The index step `x & (n - 1)` of Push and Pop, on a power-of-two capacity
   * `n` and an index at most one lap past it: it wraps the index into `[0, n)`.
   * It is a method rather than a function so that its callers see only the
   * wrapped result, not the recursive unfolding of `BitAnd`, which keeps the
   * proofs of Push and Pop small.
   */
  method Mask(x: int, n: nat) returns (r: int)
    requires IsPowerOfTwo(n) && 0 <= x < 2 * n
    ensures r == Wrap(x, n)
  {
    MaskIsWrap(x, n);
    r := BitAnd(x, n - 1);
  }

  /**
   * `c` is laid out in the circular buffer `slots` from slot `start` onwards:
   * element `i` sits in slot `(start + i) mod |slots|`.
   */
  ghost predicate IsRing<T>(c: seq<T>, slots: seq<T>, start: int)
  {
    0 <= start < |slots| && |c| <= |slots| &&
    forall i :: 0 <= i < |c| ==> c[i] == slots[Wrap(start + i, |slots|)]
  }

  /** Writing the first free slot after a ring that is not full appends to it. */
  lemma RingPush<T>(c: seq<T>, slots: seq<T>, start: int, e: T)
    requires IsRing(c, slots, start) && |c| < |slots|
    ensures IsRing(c + [e], slots[Wrap(start + |c|, |slots|) := e], start)
  {
    var slots' := slots[Wrap(start + |c|, |slots|) := e];
    forall i | 0 <= i < |c| + 1 ensures (c + [e])[i] == slots'[Wrap(start + i, |slots|)] {
      if i < |c| {
        assert Wrap(start + i, |slots|) != Wrap(start + |c|, |slots|);
      }
    }
  }

  /** The front of a non-empty ring is its start slot; the rest starts one slot on. */
  lemma RingPop<T>(c: seq<T>, slots: seq<T>, start: int)
    requires IsRing(c, slots, start) && |c| > 0
    ensures c[0] == slots[start]
    ensures IsRing(c[1..], slots, Wrap(start + 1, |slots|))
  {
    var next := Wrap(start + 1, |slots|);
    forall i | 0 <= i < |c| - 1 ensures c[1..][i] == slots[Wrap(next + i, |slots|)] {
      assert Wrap(next + i, |slots|) == Wrap(start + 1 + i, |slots|);
    }
  }

  /** A ring that starts at slot 0 and has not wrapped is a prefix of its buffer. */
  lemma RingFromPrefix<T>(c: seq<T>, slots: seq<T>)
    requires |c| < |slots| && c == slots[..|c|]
    ensures IsRing(c, slots, 0)
  {
  }

  /**
   * Go's built-in `copy(dst[at:], src[lo:hi])`: copies as many elements as
   * fit in both and returns how many that was.
   */
  method Copy<T>(dst: array<T>, at: int, src: array<T>, lo: int, hi: int) returns (n: int)
    requires dst != src
    requires 0 <= at <= dst.Length && 0 <= lo <= hi <= src.Length
    modifies dst
    ensures n == if dst.Length - at < hi - lo then dst.Length - at else hi - lo
    ensures forall k :: 0 <= k < dst.Length ==>
      dst[k] == if at <= k < at + n then src[lo + k - at] else old(dst[k])
  {
    n := if dst.Length - at < hi - lo then dst.Length - at else hi - lo;
    var i := 0;
    while i < n
      invariant 0 <= i <= n
      invariant forall k :: 0 <= k < dst.Length ==>
        dst[k] == if at <= k < at + i then src[lo + k - at] else old(dst[k])
    {
      dst[at + i] := src[lo + i];
      i := i + 1;
    }
  }

  class Queue<T(0,==)> {
    /** The public view: the queued elements, front first. */
    ghost var Contents: seq<T>

    var buf: array<T>
    var head: int
    var tail: int
    var count: int

    /**
     * The representation invariant, and the abstraction: `Contents` is the
     * `count` slots of `buf` from `head` onwards, wrapping past the end.
     */
    ghost predicate Valid()
      reads this, buf
    {
      IsPowerOfTwo(buf.Length) && buf.Length >= MinQueueLen &&
      0 <= count <= buf.Length &&
      0 <= head < buf.Length && 0 <= tail < buf.Length &&
      tail == Wrap(head + count, buf.Length) &&
      |Contents| == count && IsRing(Contents, buf[..], head)
    }

    /**
     * Above the minimum capacity the buffer is always more than a quarter
     * full: growing doubles a full buffer and shrinking halves it as soon as
     * it reaches a quarter, so the capacity stays below four times the count.
     */
    ghost predicate Compact()
      reads this
    {
      buf.Length == MinQueueLen || 4 * count > buf.Length
    }

    /**
     * In terms of Go's operators: the invariant places `tail` at
     * `(head + count) % len(buf)`.
     */
    lemma TailIsModular()
      requires Valid()
      ensures tail == (head + count) % buf.Length
    {
      WrapIsMod(head + count, buf.Length);
    }

    /**
     * In terms of Go's operators: the i-th element lives at slot
     * `(head + i) & (len(buf) - 1)`, which is `(head + i) % len(buf)`.
     */
    lemma SlotsAreModular(i: int)
      requires Valid() && 0 <= i < count
      ensures Contents[i] == buf[BitAnd(head + i, buf.Length - 1)]
      ensures BitAnd(head + i, buf.Length - 1) == (head + i) % buf.Length
    {
      MaskIsWrap(head + i, buf.Length);
      WrapIsMod(head + i, buf.Length);
    }

    /** NewQueue: an empty queue over a buffer of the minimum capacity. */
    constructor ()
      ensures Valid() && Compact() && fresh(buf)
      ensures Contents == [] && buf.Length == MinQueueLen
    {
      buf := new T[MinQueueLen];
      head, tail, count := 0, 0, 0;
      Contents := [];
      EightAndSixteenArePowersOfTwo();
    }

    /** The number of queued elements. */
    function Size(): (n: int)
      reads this, buf
      requires Valid()
      ensures n == |Contents|
    {
      count
    }

    function Empty(): (e: bool)
      reads this, buf
      requires Valid()
      ensures e <==> Contents == []
    {
      Size() == 0
    }

    /**
     * Rebuilds the buffer at capacity `2 * count`, unwrapping the contents so
     * that they start at slot 0. The two call sites guarantee that the new
     * capacity is again a power of two of at least the minimum.
     */
    method Resize()
      requires Valid()
      requires IsPowerOfTwo(2 * count) && 2 * count >= MinQueueLen
      modifies this
      ensures Valid() && fresh(buf)
      ensures Contents == old(Contents)
      ensures buf.Length == 2 * old(count) && count == old(count)
      ensures head == 0 && tail == count
    {
      var len := buf.Length;
      var newBuf := new T[count * 2];
      if tail > head {
        var _ := Copy(newBuf, 0, buf, head, tail);
      } else {
        var n := Copy(newBuf, 0, buf, head, len);
        var _ := Copy(newBuf, n, buf, 0, tail);
      }
      assert newBuf[..count] == Contents;
      RingFromPrefix(Contents, newBuf[..]);
      head := 0;
      tail := count;
      buf := newBuf;
    }

    /**
     * Appends `elem`, first doubling the capacity when the buffer is full.
     */
    method Push(elem: T)
      requires Valid()
      modifies this, buf
      ensures Valid() && (buf == old(buf) || fresh(buf))
      ensures old(Compact()) ==> Compact()
      ensures Contents == old(Contents) + [elem]
      ensures count == old(count) + 1
      ensures head == if old(count) == old(buf.Length) then 0 else old(head)
      ensures buf.Length ==
        if old(count) == old(buf.Length) then 2 * old(buf.Length) else old(buf.Length)
    {
      ghost var len0, count0 := buf.Length, count;
      if count == buf.Length {
        DoubleIsPowerOfTwo(buf.Length);
        Resize();
      }
      ghost var slots := buf[..];
      RingPush(Contents, slots, head, elem);
      buf[tail] := elem;
      assert buf[..] == slots[tail := elem];
      tail := Mask(tail + 1, buf.Length);
      count := count + 1;
      Contents := Contents + [elem];
    }

    /** The front element; the source panics on an empty queue. */
    function Peek(): (v: T)
      reads this, buf
      requires Valid() && count > 0
      ensures v == Contents[0]
    {
      buf[head]
    }

    /**
     * The element at position `i`, where a negative `i` counts back from the
     * end (-1 is the last element); the source panics outside `-count <= i < count`.
     */
    function Get(i: int): (v: T)
      reads this, buf
      requires Valid() && -count <= i < count
      ensures 0 <= i ==> v == Contents[i]
      ensures i < 0 ==> v == Contents[count + i]
    {
      var j := if i < 0 then i + count else i;
      MaskIsWrap(head + j, buf.Length);
      buf[BitAnd(head + j, buf.Length - 1)]
    }

    /**
     * Removes and returns the front element, reporting false (and changing
     * nothing) on an empty queue. Halves the capacity once the buffer is down
     * to a quarter full, but never below the minimum.
     */
    method Pop() returns (v: T, ok: bool)
      requires Valid()
      modifies this
      ensures Valid() && (buf == old(buf) || fresh(buf))
      ensures ok <==> old(count) > 0
      ensures !ok ==> unchanged(this)
      ensures ok ==> v == old(Contents)[0] && Contents == old(Contents)[1..]
      ensures old(Compact()) ==> Compact()
      ensures ok ==> count == old(count) - 1
      ensures ok ==>
        (head == if buf.Length == old(buf.Length) then Wrap(old(head) + 1, old(buf.Length)) else 0)
      ensures buf.Length ==
        if ok && old(buf.Length) > MinQueueLen && (old(count) - 1) * 4 == old(buf.Length)
        then old(buf.Length) / 2 else old(buf.Length)
    {
      if count <= 0 {
        // Go returns the zero value of T here; the model leaves the value unspecified.
        v, ok := *, false;
        return;
      }
      ghost var len0, count0, wasCompact := buf.Length, count, Compact();
      RingPop(Contents, buf[..], head);
      v := buf[head];
      head := Mask(head + 1, buf.Length);
      count := count - 1;
      Contents := Contents[1..];
      assert Valid();
      if buf.Length > MinQueueLen && count * 4 == buf.Length {
        QuarterFullHalves(buf.Length, count);
        Resize();
      }
      if wasCompact {
        PopKeepsCompact(len0, count0, buf.Length);
        assert Compact();
      }
      ok := true;
    }

    /**
     * The position of the first element equal to `val`, or -1 when there is
     * none. Scans the contiguous run, or the run up to the end of the buffer
     * and then the wrapped run, counting positions in `idx`.
     */
    method Index(val: T) returns (r: int)
      requires Valid()
      ensures -1 <= r < |Contents|
      ensures r == -1 <==> val !in Contents
      ensures 0 <= r ==> Contents[r] == val && val !in Contents[..r]
    {
      if count <= 0 {
        return -1;
      }
      ghost var c := Contents;
      var len := buf.Length;
      var idx := 0;
      if tail > head {
        var i := head;
        while i < tail
          invariant head <= i <= tail && idx == i - head
          invariant forall k :: 0 <= k < idx ==> c[k] != val
        {
          assert c[idx] == buf[i];
          if buf[i] == val {
            return idx;
          }
          idx := idx + 1;
          i := i + 1;
        }
      } else {
        var i := head;
        while i < len
          invariant head <= i <= len && idx == i - head
          invariant forall k :: 0 <= k < idx ==> c[k] != val
        {
          assert c[idx] == buf[i];
          if buf[i] == val {
            return idx;
          }
          idx := idx + 1;
          i := i + 1;
        }
        i := 0;
        while i < tail
          invariant 0 <= i <= tail && idx == len - head + i
          invariant forall k :: 0 <= k < idx ==> c[k] != val
        {
          assert c[idx] == buf[i];
          if buf[i] == val {
            return idx;
          }
          idx := idx + 1;
          i := i + 1;
        }
      }
      assert idx == count;
      return -1;
    }
  }

  /** The producer side of the stress test: push the elements of `xs` in order. */
  method PushAll<T(0,==)>(q: Queue<T>, xs: seq<T>)
    requires q.Valid()
    modifies q, q.buf
    ensures q.Valid() && (q.buf == old(q.buf) || fresh(q.buf))
    ensures q.Contents == old(q.Contents) + xs
  {
    var i := 0;
    while i < |xs|
      invariant 0 <= i <= |xs|
      invariant q.Valid() && (q.buf == old(q.buf) || fresh(q.buf))
      invariant q.Contents == old(q.Contents) + xs[..i]
    {
      q.Push(xs[i]);
      assert xs[..i + 1] == xs[..i] + [xs[i]];
      i := i + 1;
    }
    assert xs[..i] == xs;
  }

  /**
   * The final drain of the stress test: pop until a pop reports the queue
   * empty, collecting the values in the order popped.
   */
  method Drain<T(0,==)>(q: Queue<T>) returns (ys: seq<T>)
    requires q.Valid()
    modifies q
    ensures q.Valid() && q.Contents == []
    ensures ys == old(q.Contents)
  {
    ys := [];
    var v, ok := q.Pop();
    while ok
      invariant q.Valid()
      invariant ok ==> ys + [v] + q.Contents == old(q.Contents)
      invariant !ok ==> ys == old(q.Contents) && q.Contents == []
      decreases |q.Contents| + (if ok then 1 else 0)
    {
      ys := ys + [v];
      v, ok := q.Pop();
    }
  }

  /**
   * The sequential claim of the stress test: push every element of `xs` onto
   * a new queue, then drain it. Every pop before the last succeeds, and the
   * values come back once each, in push order.
   */
  method PushAllThenDrain<T(0,==)>(xs: seq<T>) returns (ys: seq<T>)
    ensures ys == xs
  {
    var q := new Queue<T>();
    PushAll(q, xs);
    ys := Drain(q);
  }
}
