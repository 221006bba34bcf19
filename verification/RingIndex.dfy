/**
 Index arithmetic of the ring buffer, in the 32-bit unsigned terms of the code, and its meaning in
 terms of two ever-growing counters of accepted and released items.
 */
module RingIndex {
  import opened CInt

  /** `available()`: the signed difference of two unsigned indices, corrected by the buffer size. */
  function Available(inPos: nat, outPos: nat, n: nat): int {
    var avail := S32(inPos - outPos);
    if avail < 0 then avail + n else avail
  }

  /** `available_for_push()`. */
  function AvailableForPush(inPos: nat, outPos: nat, n: nat): int {
    var avail := S32(outPos - inPos) - 1;
    if avail < 0 then avail + n else avail
  }

  /** Length of the first contiguous block that `push_n` copies. */
  function PushFirst(inPos: nat, outPos: nat, n: nat, size: nat): nat
    requires inPos < n && outPos < n
  {
    Min(size, if outPos > inPos then outPos - 1 - inPos
              else if outPos == 0 then n - 1 - inPos
              else n - inPos)
  }

  /** Length of the second block, at the start of the buffer; `outPos - next - 1` may wrap around. */
  function PushSecond(inPos: nat, outPos: nat, n: nat, size: nat): nat
    requires inPos < n && outPos < n
  {
    var first := PushFirst(inPos, outPos, n, size);
    var next := (inPos + first) % n;
    Min(size - first, if outPos > 1 then U32(outPos - next - 1) else 0)
  }

  /** The slot that receives item `j` of a `push_n` whose first block has length `first`. */
  function PushSlot(inPos: nat, first: nat, j: nat): nat {
    if j < first then inPos + j else j - first
  }

  /** The index `push_n` finally stores. */
  function PushNext(inPos: nat, first: nat, second: nat, n: nat): nat
    requires n > 0
  {
    (inPos + first) % n + second
  }

  /** The slot `pop_n` reads for item `j` of `size`. */
  function PopSlot(outPos: nat, size: nat, n: nat, j: nat): nat
    requires outPos < n
  {
    var first := Min(size, n - outPos);
    if j < first then outPos + j else j - first
  }

  /** The slot of item number `c`: slots are used in turn, starting over after `n` of them. */
  function Slot(c: nat, n: nat): (slot: nat)
    requires n > 0
    ensures slot < n
  {
    c % n
  }

  /** The code's `% m_bufSize`, applied to an index moved by at most one lap. */
  lemma RemainderOnce(x: nat, n: nat)
    requires x < 2 * n
    ensures x % n == if x < n then x else x - n
  {
    if x < n { DivModUnique(x, n, 0, x); } else { DivModUnique(x, n, 1, x - n); }
  }

  lemma DivModUnique(x: int, n: int, q: int, r: int)
    requires n > 0 && x == q * n + r && 0 <= r < n
    ensures x / n == q && x % n == r
  {
    var q', r' := x / n, x % n;
    assert q' * n + r' == x && 0 <= r' < n;
    assert (q - q') * n == r' - r by { Distribute(q, q', n); }
    if q > q' {
      AtLeast(q - q', n);
    } else if q < q' {
      AtLeast(q' - q, n);
      Distribute(q', q, n);
    }
  }

  lemma Distribute(a: int, b: int, n: int)
    ensures (a - b) * n == a * n - b * n
  {
  }

  lemma AtLeast(d: int, n: int)
    requires d >= 1 && n > 0
    ensures d * n >= n
  {
  }

  /** Stepping a counter steps its slot, wrapping at the end of the buffer. */
  lemma SlotAdd(c: nat, k: nat, n: nat)
    requires n > 0 && k <= n
    ensures Slot(c + k, n) == if Slot(c, n) + k < n then Slot(c, n) + k else Slot(c, n) + k - n
    ensures (Slot(c, n) + k) % n == Slot(c + k, n)
  {
    var q, r := c / n, c % n;
    if r + k < n {
      DivModUnique(c + k, n, q, r + k);
      DivModUnique(r + k, n, 0, r + k);
    } else {
      DivModUnique(c + k, n, q + 1, r + k - n);
      DivModUnique(r + k, n, 1, r + k - n);
    }
  }

  /** Counters less than one lap apart have the same slot only if they are equal. */
  lemma SameSlot(a: nat, b: nat, n: nat)
    requires n > 0 && b <= a < b + n
    ensures Slot(a, n) == Slot(b, n) <==> a == b
  {
    hide Slot;
    SlotAdd(b, a - b, n);
  }

  /** The two counters behind a pair of indices: `inPos` is at most one lap less one ahead of `outPos`. */
  ghost predicate Counters(pushed: nat, popped: nat, n: nat) {
    0 < n <= TWO_31 && popped <= pushed < popped + n
  }

  /** `available()` is the distance of the counters. */
  lemma AvailableIsDistance(pushed: nat, popped: nat, n: nat)
    requires Counters(pushed, popped, n)
    ensures Available(Slot(pushed, n), Slot(popped, n), n) == pushed - popped
  {
    hide Slot;
    SlotAdd(popped, pushed - popped, n);
  }

  /** `available_for_push()` is the room left before the writer would meet the reader. */
  lemma AvailableForPushIsRoom(pushed: nat, popped: nat, n: nat)
    requires Counters(pushed, popped, n)
    ensures AvailableForPush(Slot(pushed, n), Slot(popped, n), n) == n - 1 - (pushed - popped)
  {
    hide Slot;
    SlotAdd(popped, pushed - popped, n);
  }

  /** `push_n` takes exactly the smaller of the request and the room; its slots and its final index
      are those of consecutive counters. */
  lemma PushBlocks(pushed: nat, popped: nat, n: nat, size: nat)
    requires Counters(pushed, popped, n)
    ensures
      var first := PushFirst(Slot(pushed, n), Slot(popped, n), n, size);
      var second := PushSecond(Slot(pushed, n), Slot(popped, n), n, size);
      && first + second == Min(size, n - 1 - (pushed - popped))
      && (first == 0 ==> second == 0)
      && (forall j: nat | j < first + second ::
            PushSlot(Slot(pushed, n), first, j) == Slot(pushed + j, n))
      && PushNext(Slot(pushed, n), first, second, n) == Slot(pushed + first + second, n)
  {
    hide Slot, PushFirst, PushSecond;
    var i, o := Slot(pushed, n), Slot(popped, n);
    var first, second := PushFirst(i, o, n, size), PushSecond(i, o, n, size);
    PushSizes(pushed, popped, n, size);
    RemainderOnce(i + first, n);
    forall j: nat | j < first + second
      ensures PushSlot(i, first, j) == Slot(pushed + j, n)
    {
      SlotAdd(pushed, j, n);
    }
    SlotAdd(pushed, first + second, n);
  }

  /** The blocks are the smaller of request and room together, and there is a second one only behind a first
      that ends with the buffer. */
  lemma PushSizes(pushed: nat, popped: nat, n: nat, size: nat)
    requires Counters(pushed, popped, n)
    ensures
      var i, o := Slot(pushed, n), Slot(popped, n);
      var first, second := PushFirst(i, o, n, size), PushSecond(i, o, n, size);
      && first + second == Min(size, n - 1 - (pushed - popped))
      && first + second < n
      && (first == 0 ==> second == 0)
      && i + first <= n
      && (second > 0 ==> i + first == n)
  {
    hide Slot;
    var i, o := Slot(pushed, n), Slot(popped, n);
    SlotAdd(popped, pushed - popped, n);
    RemainderOnce(i + PushFirst(i, o, n, size), n);
  }

  /** `pop_n` reads consecutive counters. */
  lemma PopSlots(popped: nat, n: nat, size: nat, j: nat)
    requires 0 < n && j < size < n
    ensures PopSlot(Slot(popped, n), size, n, j) == Slot(popped + j, n)
  {
    hide Slot;
    SlotAdd(popped, j, n);
  }
}
