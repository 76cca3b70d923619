// IndexBounds: a half-open interval [startInclusive, endExclusive) of
// indices, with its length and the loops that walk it.

module IndexBounds {
  import opened JavaText

  const IntMin: int := -0x8000_0000
  const IntMax: int := 0x7FFF_FFFF

  predicate IsInt32(x: int) { IntMin <= x <= IntMax }

  datatype Bounds = Bounds(startInclusive: int, endExclusive: int)

  /**
   * Two `int`s that agree modulo 2^32 are equal: the 32-bit range holds one
   * representative of each residue.
   */
  lemma {:induction false} Int32Congruent(x: int, y: int)
    requires IsInt32(x) && IsInt32(y)
    requires (x - y) % 0x1_0000_0000 == 0
    ensures x == y
  {
  }

  /** Reducing a partial sum before adding to it does not change the reduced total. */
  lemma {:induction false} WrapAddWrap(x: int, d: int)
    ensures Int32(Int32(x) + d) == Int32(x + d)
  {
    var r1, w, r2 := Int32(Int32(x) + d), Int32(x), Int32(x + d);
    assert (r1 - (w + d)) % 0x1_0000_0000 == 0;
    assert (w - x) % 0x1_0000_0000 == 0;
    assert (r2 - (x + d)) % 0x1_0000_0000 == 0;
    assert r1 - r2 == (r1 - (w + d)) + (w - x) - (r2 - (x + d));
    Int32Congruent(r1, r2);
  }

  /** The 32-bit reduction keeps the parity of its argument. */
  lemma {:induction false} WrapKeepsParity(x: int)
    ensures Int32(x) % 2 == x % 2
  {
    var y := x + 0x8000_0000;
    var d := y / 0x1_0000_0000;
    assert Int32(x) == x - 0x1_0000_0000 * d;
    EvenShiftKeepsParity(x, 0x8000_0000 * d);
  }

  /** Subtracting an even amount keeps the parity. */
  lemma {:induction false} EvenShiftKeepsParity(x: int, e: int)
    ensures (x - 2 * e) % 2 == x % 2
  {
    var h := x / 2;
    assert x - 2 * e == 2 * (h - e) + x % 2;
  }

  /**
   * getEndInclusive(): one below the end, in 32-bit arithmetic; for an end of
   * Integer.MIN_VALUE the subtraction wraps to Integer.MAX_VALUE.
   */
  function EndInclusive(b: Bounds): (r: int)
    ensures IsInt32(r)
    ensures IsInt32(b.endExclusive) && b.endExclusive != IntMin ==> r + 1 == b.endExclusive
    ensures b.endExclusive == IntMin ==> r == IntMax
  {
    Int32(b.endExclusive - 1)
  }

  /** isEmpty() */
  predicate IsEmpty(b: Bounds)
  {
    b.startInclusive >= b.endExclusive
  }

  /** length(): the number of indices in the interval, never negative. */
  function Length(b: Bounds): (r: nat)
    ensures r == 0 <==> IsEmpty(b)
    ensures !IsEmpty(b) ==> b.startInclusive + r == b.endExclusive
  {
    if b.endExclusive - b.startInclusive > 0 then b.endExclusive - b.startInclusive else 0
  }

  /**
   * length() exactly as the source computes it: the difference is taken in
   * 32-bit `int` arithmetic before it is compared with 0.
   */
  function LengthAsWritten(b: Bounds): (r: int)
    requires IsInt32(b.startInclusive) && IsInt32(b.endExclusive)
    ensures r >= 0
    ensures IsInt32(b.endExclusive - b.startInclusive) ==> r == Length(b)
  {
    var d := Int32(b.endExclusive - b.startInclusive);
    if d > 0 then d else 0
  }

  /** For the interval [Integer.MIN_VALUE, 0) the 32-bit difference wraps and length() is 0, although the interval is not empty. */
  lemma {:induction false} LengthAsWrittenWrapsAround()
    ensures var b := Bounds(IntMin, 0);
      !IsEmpty(b) && LengthAsWritten(b) == 0 && Length(b) == 0x8000_0000
  {
    var b := Bounds(IntMin, 0);
    assert Int32(b.endExclusive - b.startInclusive) == IntMin;
  }

  /** The indices each() hands out: start, start + 1, ..., end - 1. */
  function Indices(b: Bounds): (r: seq<int>)
    ensures |r| == Length(b)
  {
    seq(Length(b), k requires 0 <= k < Length(b) => b.startInclusive + k)
  }

  /**
   * each(IntConsumer): the consumer sees exactly the indices of the interval,
   * in increasing order; the returned sequence is the list of those calls.
   */
  method Each(b: Bounds) returns (calls: seq<int>)
    ensures calls == Indices(b)
    ensures |calls| == Length(b)
    ensures forall k | 0 <= k < |calls| :: calls[k] == b.startInclusive + k
    ensures IsEmpty(b) ==> calls == []
  {
    calls := [];
    var i := b.startInclusive;
    while i < b.endExclusive
      invariant b.startInclusive <= i
      invariant i <= b.endExclusive || i == b.startInclusive
      invariant |calls| == i - b.startInclusive
      invariant forall k | 0 <= k < |calls| :: calls[k] == b.startInclusive + k
      decreases b.endExclusive - i
    {
      calls := calls + [i];
      i := i + 1;
    }
  }

  /**
   * each(IntUnaryOperator): starting at the start, each visited index `i` is
   * followed by `i + skipper(i)` while that is still below the end. The
   * source loops forever on a skip that is not positive, so positive skips
   * are what it asks of a caller.
   */
  method EachSkip(b: Bounds, skipper: int -> int) returns (calls: seq<int>)
    requires forall i | b.startInclusive <= i < b.endExclusive :: skipper(i) > 0
    ensures IsEmpty(b) <==> calls == []
    ensures |calls| <= Length(b)
    ensures forall k | 0 <= k < |calls| :: b.startInclusive <= calls[k] < b.endExclusive
    ensures |calls| > 0 ==> calls[0] == b.startInclusive
    ensures forall k | 0 <= k < |calls| - 1 :: calls[k + 1] == calls[k] + skipper(calls[k])
    ensures |calls| > 0 ==> calls[|calls| - 1] + skipper(calls[|calls| - 1]) >= b.endExclusive
  {
    calls := [];
    var i := b.startInclusive;
    while i < b.endExclusive
      invariant b.startInclusive <= i
      invariant calls == [] <==> i == b.startInclusive
      invariant |calls| <= i - b.startInclusive
      invariant |calls| > 0 ==> |calls| <= calls[|calls| - 1] - b.startInclusive + 1
      invariant forall k | 0 <= k < |calls| :: b.startInclusive <= calls[k] < i && calls[k] < b.endExclusive
      invariant |calls| > 0 ==> calls[0] == b.startInclusive
      invariant forall k | 0 <= k < |calls| - 1 :: calls[k + 1] == calls[k] + skipper(calls[k])
      invariant |calls| > 0 ==> i == calls[|calls| - 1] + skipper(calls[|calls| - 1])
      decreases b.endExclusive - i
    {
      calls := calls + [i];
      i := i + skipper(i);
    }
  }

  /** The index each(int, IntBinaryOperator) hands out at `current`: `initialIndex` plus the distance walked, as an `int`. */
  function IndexAt(b: Bounds, initialIndex: int, current: int): (r: int)
    ensures IsInt32(r)
  {
    Int32(initialIndex + (current - b.startInclusive))
  }

  /** Every recorded call sees the index for its position. */
  predicate IndexedCalls(calls: seq<(int, int)>, b: Bounds, initialIndex: int)
  {
    forall k | 0 <= k < |calls| :: calls[k].1 == IndexAt(b, initialIndex, calls[k].0)
  }

  lemma {:induction false} IndexedCallsSnoc(calls: seq<(int, int)>, b: Bounds, initialIndex: int, current: int, index: int)
    requires IndexedCalls(calls, b, initialIndex)
    requires index == IndexAt(b, initialIndex, current)
    ensures IndexedCalls(calls + [(current, index)], b, initialIndex)
  {
    var next := calls + [(current, index)];
    forall k | 0 <= k < |next|
      ensures next[k].1 == IndexAt(b, initialIndex, next[k].0)
    {
      if k < |calls| {
        assert next[k] == calls[k];
      }
    }
  }

  /** Moving `current` by a skip moves the index by the same skip, in 32-bit arithmetic. */
  lemma {:induction false} IndexAtAdvance(b: Bounds, initialIndex: int, current: int, skip: int)
    ensures IndexAt(b, initialIndex, current + skip) == Int32(IndexAt(b, initialIndex, current) + skip)
  {
    WrapAddWrap(initialIndex + (current - b.startInclusive), skip);
    assert initialIndex + (current - b.startInclusive) + skip == initialIndex + (current + skip - b.startInclusive);
  }

  /**
   * each(int, IntBinaryOperator): `current` walks the interval and `index`
   * starts at `initialIndex`; both advance by the same skip. `index += skip`
   * is 32-bit arithmetic, so the index the operator sees is `initialIndex`
   * plus the distance walked, reduced to an `int`. The operator's skips are
   * positive and keep `current + skip` within `int` range (see EachSkip).
   */
  method EachIndexed(b: Bounds, initialIndex: int, skipper: (int, int) -> int)
    returns (calls: seq<(int, int)>)
    requires IsInt32(initialIndex)
    requires forall c | b.startInclusive <= c < b.endExclusive :: skipper(c, IndexAt(b, initialIndex, c)) > 0
    ensures IsEmpty(b) <==> calls == []
    ensures IndexedCalls(calls, b, initialIndex)
    ensures forall k | 0 <= k < |calls| :: b.startInclusive <= calls[k].0 < b.endExclusive
    ensures |calls| > 0 ==> calls[0] == (b.startInclusive, initialIndex)
    ensures forall k | 0 <= k < |calls| - 1 ::
      calls[k + 1].0 == calls[k].0 + skipper(calls[k].0, calls[k].1)
    ensures |calls| > 0 ==>
      var last := calls[|calls| - 1]; last.0 + skipper(last.0, last.1) >= b.endExclusive
  {
    calls := [];
    var current, index := b.startInclusive, initialIndex;
    while current < b.endExclusive
      invariant IndexedLoop(b, initialIndex, skipper, calls, current, index)
      decreases b.endExclusive - current
    {
      calls, current, index := IndexedPass(b, initialIndex, skipper, calls, current, index);
    }
    IndexedLoopDone(b, initialIndex, skipper, calls, current, index);
  }

  /** One pass of that loop: record the call, then advance both variables by the operator's skip. */
  method IndexedPass(b: Bounds, initialIndex: int, skipper: (int, int) -> int, calls: seq<(int, int)>, current: int, index: int)
    returns (calls': seq<(int, int)>, current': int, index': int)
    requires IndexedLoop(b, initialIndex, skipper, calls, current, index) && current < b.endExclusive
    requires skipper(current, index) > 0
    ensures calls' == calls + [(current, index)]
    ensures current' == current + skipper(current, index)
    ensures index' == Int32(index + skipper(current, index))
    ensures IndexedLoop(b, initialIndex, skipper, calls', current', index')
  {
    var skip := skipper(current, index);
    IndexedLoopStep(b, initialIndex, skipper, calls, current, index);
    calls', current', index' := calls + [(current, index)], current + skip, Int32(index + skip);
  }

  /** When that loop stops, its invariant gives what each(int, IntBinaryOperator) promises. */
  lemma {:induction false} IndexedLoopDone(b: Bounds, initialIndex: int, skipper: (int, int) -> int, calls: seq<(int, int)>, current: int, index: int)
    requires IsInt32(initialIndex)
    requires IndexedLoop(b, initialIndex, skipper, calls, current, index) && current >= b.endExclusive
    ensures IsEmpty(b) <==> calls == []
    ensures IndexedCalls(calls, b, initialIndex)
    ensures forall k | 0 <= k < |calls| :: b.startInclusive <= calls[k].0 < b.endExclusive
    ensures |calls| > 0 ==> calls[0] == (b.startInclusive, initialIndex)
    ensures forall k | 0 <= k < |calls| - 1 ::
      calls[k + 1].0 == calls[k].0 + skipper(calls[k].0, calls[k].1)
    ensures |calls| > 0 ==>
      var last := calls[|calls| - 1]; last.0 + skipper(last.0, last.1) >= b.endExclusive
  {
    if |calls| > 0 {
      assert calls[0].1 == IndexAt(b, initialIndex, b.startInclusive);
    }
  }

  /** The invariant of the loop in each(int, IntBinaryOperator). */
  predicate IndexedLoop(b: Bounds, initialIndex: int, skipper: (int, int) -> int, calls: seq<(int, int)>, current: int, index: int)
  {
    && b.startInclusive <= current
    && index == IndexAt(b, initialIndex, current)
    && (calls == [] <==> current == b.startInclusive)
    && IndexedCalls(calls, b, initialIndex)
    && WalkedCalls(calls, b, skipper, current)
  }

  /** One pass of that loop keeps its invariant. */
  lemma {:induction false} IndexedLoopStep(b: Bounds, initialIndex: int, skipper: (int, int) -> int, calls: seq<(int, int)>, current: int, index: int)
    requires IndexedLoop(b, initialIndex, skipper, calls, current, index) && current < b.endExclusive
    requires skipper(current, index) > 0
    ensures var skip := skipper(current, index);
      IndexedLoop(b, initialIndex, skipper, calls + [(current, index)], current + skip, Int32(index + skip))
  {
    var skip := skipper(current, index);
    IndexedCallsSnoc(calls, b, initialIndex, current, index);
    WalkedCallsSnoc(calls, b, skipper, current, index);
    IndexAtAdvance(b, initialIndex, current, skip);
  }

  /**
   * The calls so far walk the interval from its start by the operator's
   * skips, and the last skip has brought `current` to where the loop stands.
   */
  predicate WalkedCalls(calls: seq<(int, int)>, b: Bounds, skipper: (int, int) -> int, current: int)
  {
    && (forall k | 0 <= k < |calls| :: b.startInclusive <= calls[k].0 < current && calls[k].0 < b.endExclusive)
    && (|calls| > 0 ==> calls[0].0 == b.startInclusive)
    && (forall k | 0 <= k < |calls| - 1 :: calls[k + 1].0 == calls[k].0 + skipper(calls[k].0, calls[k].1))
    && (|calls| > 0 ==> var last := calls[|calls| - 1]; current == last.0 + skipper(last.0, last.1))
  }

  lemma {:induction false} WalkedCallsSnoc(calls: seq<(int, int)>, b: Bounds, skipper: (int, int) -> int, current: int, index: int)
    requires WalkedCalls(calls, b, skipper, current) && b.startInclusive <= current < b.endExclusive
    requires calls == [] <==> current == b.startInclusive
    requires skipper(current, index) > 0
    ensures WalkedCalls(calls + [(current, index)], b, skipper, current + skipper(current, index))
  {
    var next := calls + [(current, index)];
    forall k | 0 <= k < |next| - 1
      ensures next[k + 1].0 == next[k].0 + skipper(next[k].0, next[k].1)
    {
      assert next[k] == calls[k];
      if k + 1 < |calls| {
        assert next[k + 1] == calls[k + 1];
      }
    }
    forall k | 0 <= k < |next|
      ensures b.startInclusive <= next[k].0 < current + skipper(current, index) && next[k].0 < b.endExclusive
    {
      if k < |calls| {
        assert next[k] == calls[k];
      }
    }
  }

  /**
   * The loop variable of each(IntUnaryOperator) as written, after `n` passes
   * with an operator that always answers `skip`: `i += skip` in 32-bit
   * arithmetic.
   */
  function SkipIndexAsWritten(start: int, skip: int, n: nat): (r: int)
    requires IsInt32(start)
    ensures IsInt32(r)
    ensures r == Int32(start + n * skip)
  {
    if n == 0 then start
    else
      var before := SkipIndexAsWritten(start, skip, n - 1);
      SkipStep(start, skip, n);
      Int32(before + skip)
  }

  /** One more `i += skip` in 32-bit arithmetic: the reduced start + n * skip. */
  lemma {:induction false} SkipStep(start: int, skip: int, n: nat)
    requires n > 0
    ensures Int32(Int32(start + (n - 1) * skip) + skip) == Int32(start + n * skip)
  {
    WrapAddWrap(start + (n - 1) * skip, skip);
    assert (n - 1) * skip + skip == n * skip;
  }

  /**
   * On [Integer.MAX_VALUE - 1, Integer.MAX_VALUE) with a skip of 2, the
   * as-written loop variable wraps to Integer.MIN_VALUE and never again
   * reaches the end, so each(IntUnaryOperator) does not return.
   * EachSkip, which adds without wrapping, makes the single call at
   * Integer.MAX_VALUE - 1 and stops.
   */
  lemma {:induction false} EachSkipAsWrittenNeverEnds(n: nat)
    ensures SkipIndexAsWritten(IntMax - 1, 2, 1) == IntMin
    ensures SkipIndexAsWritten(IntMax - 1, 2, n) < IntMax
  {
    var r := SkipIndexAsWritten(IntMax - 1, 2, n);
    WrapKeepsParity(IntMax - 1 + n * 2);
    assert (IntMax - 1 + n * 2) % 2 == 0;
    assert r != IntMax;
  }
}
