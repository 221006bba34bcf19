/**
 The ring buffer run by one thread at a time: each operation refines an operation on the sequence of
 queued items. What interleaving adds is in SpscProtocol.
 */
module CircularQueue {
  import opened CInt
  import opened RingIndex

  /** What `for_each_requeue` and its reverse keep of a sequence: the items that the callback accepts,
      as the callback left them, in their order. A callback is a function of the item that says whether
      to keep it and what the item becomes. */
  function Kept<T>(fun: T -> (bool, T), s: seq<T>): (r: seq<T>)
    ensures |r| <= |s|
  {
    if s == [] then []
    else (if fun(s[0]).0 then [fun(s[0]).1] else []) + Kept(fun, s[1..])
  }

  lemma KeptNil<T>(fun: T -> (bool, T), s: seq<T>)
    requires s == []
    ensures Kept(fun, s) == []
  {
  }

  lemma KeptCons<T>(fun: T -> (bool, T), s: seq<T>)
    requires s != []
    ensures Kept(fun, s) == (if fun(s[0]).0 then [fun(s[0]).1] else []) + Kept(fun, s[1..])
  {
  }

  /** Keeping distributes over concatenation, so it does not matter from which end the items are visited. */
  lemma {:induction false} KeptConcat<T>(fun: T -> (bool, T), a: seq<T>, b: seq<T>)
    ensures Kept(fun, a + b) == Kept(fun, a) + Kept(fun, b)
  {
    hide Kept;
    if a == [] {
      KeptNil(fun, a);
      assert a + b == b;
    } else {
      KeptCons(fun, a);
      KeptCons(fun, a + b);
      assert (a + b)[1..] == a[1..] + b;
      KeptConcat(fun, a[1..], b);
    }
  }

  /** A callback that keeps everything unchanged leaves the sequence as it was. */
  lemma {:induction false} KeptAll<T>(fun: T -> (bool, T), s: seq<T>)
    requires forall x | x in s :: fun(x) == (true, x)
    ensures Kept(fun, s) == s
  {
    if s != [] {
      KeptAll(fun, s[1..]);
    }
  }

  /** The items between two indices of a ring. */
  ghost function Window<T>(buf: seq<T>, outPos: nat, inPos: nat): (s: seq<T>)
    requires outPos < |buf| && inPos < |buf|
    ensures |s| == if outPos <= inPos then inPos - outPos else inPos - outPos + |buf|
  {
    if outPos <= inPos then buf[outPos..inPos] else buf[outPos..] + buf[..inPos]
  }

  /** The index `k` steps after `pos`. */
  function Ahead(pos: nat, k: nat, n: nat): nat {
    if pos + k < n then pos + k else pos + k - n
  }

  /** The code's index steps: `k` may be `m_bufSize - 1`, a step back. */
  function Stepped(pos: nat, k: nat, n: nat): (p: nat)
    requires pos < n && k <= n
    ensures p == Ahead(pos, k, n) < n
  {
    RemainderOnce(pos + k, n);
    (pos + k) % n
  }

  /** Dropping from the front moves the read index. */
  lemma WindowDrop<T>(buf: seq<T>, outPos: nat, inPos: nat, k: nat)
    requires outPos < |buf| && inPos < |buf| && k <= |Window(buf, outPos, inPos)|
    ensures Ahead(outPos, k, |buf|) < |buf|
    ensures Window(buf, Ahead(outPos, k, |buf|), inPos) == Window(buf, outPos, inPos)[k..]
  {
  }

  /** The first `k` items lie in at most two blocks. */
  lemma WindowTake<T>(buf: seq<T>, outPos: nat, inPos: nat, k: nat)
    requires outPos < |buf| && inPos < |buf| && k <= |Window(buf, outPos, inPos)|
    ensures Window(buf, outPos, inPos)[..k] ==
      if outPos + k <= |buf| then buf[outPos..outPos + k] else buf[outPos..] + buf[..outPos + k - |buf|]
  {
  }

  /** The two blocks, the first up to the end of the buffer. */
  lemma WindowBlocks<T>(buf: seq<T>, outPos: nat, inPos: nat, k: nat, n: nat)
    requires outPos < |buf| && inPos < |buf| && k <= |Window(buf, outPos, inPos)| && k <= |buf|
    requires n == Min(k, |buf| - outPos)
    ensures Window(buf, outPos, inPos)[..k] == buf[outPos..outPos + n] + buf[..k - n]
  {
    hide Window;
    WindowTake(buf, outPos, inPos, k);
    if n < k { assert buf[outPos..outPos + n] == buf[outPos..]; }
  }

  /** Writing a block behind the write index appends it. */
  lemma WindowAppendBlock<T>(buf: seq<T>, outPos: nat, inPos: nat, a: seq<T>)
    requires outPos < |buf| && inPos + |a| <= |buf| && inPos < |buf|
    requires |Window(buf, outPos, inPos)| + |a| < |buf|
    ensures
      var buf' := buf[..inPos] + a + buf[inPos + |a|..];
      var next := Ahead(inPos, |a|, |buf|);
      next < |buf'| == |buf| && Window(buf', outPos, next) == Window(buf, outPos, inPos) + a
  {
  }

  /** Writing two blocks behind the write index, the second from slot 0, appends them. */
  lemma WindowAppend<T>(buf: seq<T>, outPos: nat, inPos: nat, a: seq<T>, b: seq<T>)
    requires outPos < |buf| && inPos < |buf|
    requires |Window(buf, outPos, inPos)| + |a| + |b| < |buf|
    requires inPos + |a| <= |buf| && (|b| > 0 ==> inPos + |a| == |buf|)
    ensures
      var buf' := buf[..inPos] + a + buf[inPos + |a|..];
      var buf'' := b + buf'[|b|..];
      var next := Ahead(inPos, |a| + |b|, |buf|);
      next < |buf''| == |buf| && Window(buf'', outPos, next) == Window(buf, outPos, inPos) + a + b
  {
    hide Window;
    WindowAppendBlock(buf, outPos, inPos, a);
    var buf' := buf[..inPos] + a + buf[inPos + |a|..];
    if |b| > 0 {
      WindowAppendBlock(buf', outPos, 0, b);
      assert buf'[..0] + b + buf'[0 + |b|..] == b + buf'[|b|..];
    } else {
      assert b + buf'[|b|..] == buf';
    }
  }

  /** The items of a window, slot by slot. */
  lemma WindowItems<T>(buf: seq<T>, outPos: nat, inPos: nat)
    requires outPos < |buf| && inPos < |buf|
    ensures var w := Window(buf, outPos, inPos);
      forall k: nat | k < |w| :: Ahead(outPos, k, |buf|) < |buf| && buf[Ahead(outPos, k, |buf|)] == w[k]
  {
  }

  /** Is `pos` one of the slots from `outPos` up to `inPos`? */
  predicate Inside(outPos: nat, inPos: nat, pos: nat) {
    if outPos <= inPos then outPos <= pos < inPos else pos >= outPos || pos < inPos
  }

  lemma WindowOutside<T>(buf: seq<T>, outPos: nat, inPos: nat, pos: nat, val: T)
    requires outPos < |buf| && inPos < |buf| && pos < |buf| && !Inside(outPos, inPos, pos)
    ensures Window(buf[pos := val], outPos, inPos) == Window(buf, outPos, inPos)
  {
  }

  /** Writing the slot before the read index and stepping back prepends. */
  lemma WindowPrepend<T>(buf: seq<T>, outPos: nat, inPos: nat, val: T)
    requires outPos < |buf| && inPos < |buf| && |Window(buf, outPos, inPos)| + 1 < |buf|
    ensures var p := Ahead(outPos, |buf| - 1, |buf|);
      p < |buf| && Window(buf[p := val], p, inPos) == [val] + Window(buf, outPos, inPos)
  {
  }

  lemma PrependInside<T>(buf: seq<T>, outPos: nat, inPos: nat)
    requires outPos < |buf| && inPos < |buf| && |Window(buf, outPos, inPos)| + 1 < |buf|
    ensures var p := Ahead(outPos, |buf| - 1, |buf|); p < |buf| && Inside(p, inPos, p)
  {
  }

  /** Writing the slot at the write index and stepping it forward appends. */
  lemma WindowSnoc<T>(buf: seq<T>, outPos: nat, inPos: nat, val: T)
    requires outPos < |buf| && inPos < |buf| && |Window(buf, outPos, inPos)| + 1 < |buf|
    ensures var next := Ahead(inPos, 1, |buf|);
      next < |buf| && Window(buf[inPos := val], outPos, next) == Window(buf, outPos, inPos) + [val]
  {
  }

  lemma {:induction false} KeptSnoc<T>(fun: T -> (bool, T), s: seq<T>)
    requires s != []
    ensures var last := fun(s[|s| - 1]);
      Kept(fun, s) == Kept(fun, s[..|s| - 1]) + (if last.0 then [last.1] else [])
  {
    hide Kept;
    var tail := [s[|s| - 1]];
    KeptConcat(fun, s[..|s| - 1], tail);
    KeptCons(fun, tail);
    KeptNil(fun, tail[1..]);
    assert s == s[..|s| - 1] + tail;
  }

  /** The blocks of `push_n` meet the needs of `WindowAppend` and take all that fits. */
  lemma PushBlocksFit(inPos: nat, outPos: nat, n: nat, size: nat)
    requires inPos < n <= TWO_31 && outPos < n
    ensures
      var used := if outPos <= inPos then inPos - outPos else inPos - outPos + n;
      var first := PushFirst(inPos, outPos, n, size);
      var second := PushSecond(inPos, outPos, n, size);
      && first + second == Min(size, n - 1 - used)
      && inPos + first <= n
      && (second > 0 ==> inPos + first == n)
      && (first == 0 ==> second == 0)
      && PushNext(inPos, first, second, n) == Ahead(inPos, first + second, n)
  {
    var first := PushFirst(inPos, outPos, n, size);
    RemainderOnce(inPos + first, n);
  }

  lemma TakeTwo<T>(s: seq<T>, i: nat, j: nat, before: seq<T>)
    requires i <= j <= |s|
    ensures before + s[..i] + s[i..j] == before + s[..j]
  {
  }

  /** `std::copy_n`. */
  method CopyN<T>(src: array<T>, from: nat, n: nat, dest: array<T>, to: nat)
    requires src != dest && from + n <= src.Length && to + n <= dest.Length
    modifies dest
    ensures dest[..] == old(dest[..to]) + src[from..from + n] + old(dest[to + n..])
  {
    for j := 0 to n
      invariant dest[..] == old(dest[..to]) + src[from..from + j] + old(dest[to + j..])
    {
      dest[to + j] := src[from + j];
    }
  }

  class Queue<T(0)> {
    const data: array<T>
    const defaultValue: T
    var inPos: nat
    var outPos: nat

    ghost predicate Valid() {
      0 < data.Length <= TWO_31
    }

    ghost predicate Ready()
      reads this
    {
      Valid() && inPos < data.Length && outPos < data.Length
    }

    /** The queued items, oldest first. */
    ghost function Contents(): (s: seq<T>)
      requires Ready()
      reads this, data
      ensures |s| == Size() < data.Length
    {
      Window(data[..], outPos, inPos)
    }

    ghost function Size(): nat
      requires Ready()
      reads this
    {
      if outPos <= inPos then inPos - outPos else inPos - outPos + data.Length
    }

    constructor (capacity: nat, defaultValue: T)
      requires capacity < TWO_31
      ensures Ready() && fresh(data) && Contents() == []
      ensures data.Length == capacity + 1 && this.defaultValue == defaultValue
    {
      data := new T[capacity + 1];
      this.defaultValue := defaultValue;
      inPos, outPos := 0, 0;
    }

    /** `available()` and `available_for_push()`. */
    method AvailableCount() returns (avail: int)
      requires Ready()
      ensures avail == |Contents()|
    {
      avail := Available(inPos, outPos, data.Length);
    }

    method AvailableForPushCount() returns (avail: int)
      requires Ready()
      ensures avail == data.Length - 1 - |Contents()|
    {
      avail := AvailableForPush(inPos, outPos, data.Length);
    }

    method Flush()
      requires Ready()
      modifies this`outPos
      ensures Ready() && Contents() == []
    {
      outPos := inPos;
    }

    method Peek() returns (val: T)
      requires Ready()
      ensures val == if Contents() == [] then defaultValue else Contents()[0]
    {
      if inPos == outPos { return defaultValue; }
      val := data[outPos];
    }

    method Push(val: T) returns (ok: bool)
      requires Ready()
      modifies this`inPos, data
      ensures Ready() && ok == (|old(Contents())| < data.Length - 1)
      ensures Contents() == if ok then old(Contents()) + [val] else old(Contents())
    {
      var next := Stepped(inPos, 1, data.Length);
      if next == outPos { return false; }
      data[inPos] := val;
      inPos := next;
      return true;
    }

    method Pop() returns (val: T)
      requires Ready()
      modifies this`outPos
      ensures Ready()
      ensures old(Contents()) == [] ==> val == defaultValue && Contents() == []
      ensures old(Contents()) != [] ==> [val] + Contents() == old(Contents())
    {
      if inPos == outPos { return defaultValue; }
      val := data[outPos];
      outPos := Stepped(outPos, 1, data.Length);
    }

    /** The two block copies of `push_n`: behind the write index, then from slot 0. */
    method CopyTwo(buffer: array<T>, first: nat, second: nat)
      requires Ready() && buffer != data && first + second <= buffer.Length
      requires inPos + first <= data.Length && second <= data.Length
      modifies data
      ensures
        var buf' := old(data[..inPos]) + buffer[..first] + old(data[inPos + first..]);
        data[..] == buffer[first..first + second] + buf'[second..]
    {
      CopyN(buffer, 0, first, data, inPos);
      CopyN(buffer, first, second, data, 0);
    }

    /** `push_n`: as many items as fit, from the front of the given buffer. */
    method PushN(buffer: array<T>, size: nat) returns (count: nat)
      requires Ready() && size <= buffer.Length && buffer != data
      modifies this`inPos, data
      ensures Ready() && count == Min(size, data.Length - 1 - |old(Contents())|)
      ensures Contents() == old(Contents()) + buffer[..count]
    {
      hide Window, PushFirst, PushSecond, PushNext;
      PushBlocksFit(inPos, outPos, data.Length, size);
      var blockSize := PushFirst(inPos, outPos, data.Length, size);
      if blockSize == 0 {
        assert Contents() + buffer[..0] == Contents();
        return 0;
      }
      var rest := PushSecond(inPos, outPos, data.Length, size);
      var next := PushNext(inPos, blockSize, rest, data.Length);
      WindowAppend(data[..], outPos, inPos, buffer[..blockSize], buffer[blockSize..blockSize + rest]);
      CopyTwo(buffer, blockSize, rest);
      inPos := next;
      count := blockSize + rest;
      TakeTwo(buffer[..], blockSize, count, old(Contents()));
    }

    /** The two block copies of `pop_n`: from the read index, then from slot 0. */
    method MoveTwo(buffer: array<T>, first: nat, second: nat)
      requires Ready() && buffer != data && first + second <= buffer.Length
      requires outPos + first <= data.Length && second <= data.Length
      modifies buffer
      ensures buffer[..first + second] == data[outPos..outPos + first] + data[..second]
      ensures buffer[first + second..] == old(buffer[first + second..])
    {
      CopyN(data, outPos, first, buffer, 0);
      CopyN(data, 0, second, buffer, first);
    }

    /** `pop_n`: as many items as there are, to the front of the given buffer. */
    method PopN(buffer: array<T>, size: nat) returns (count: nat)
      requires Ready() && size <= buffer.Length && buffer != data
      modifies this`outPos, buffer
      ensures Ready() && count == Min(size, |old(Contents())|)
      ensures buffer[..count] == old(Contents())[..count] && Contents() == old(Contents())[count..]
      ensures buffer[count..] == old(buffer[count..])
    {
      hide Window, Stepped, Available;
      ghost var s := Contents();
      var available := AvailableCount();
      count := Min(size, available);
      if count == 0 { return; }
      var n := Min(count, data.Length - outPos);
      WindowBlocks(data[..], outPos, inPos, count, n);
      MoveTwo(buffer, n, count - n);
      WindowDrop(data[..], outPos, inPos, count);
      outPos := Stepped(outPos, count, data.Length);
    }

    /** `for_each`: hands every item to the callback, oldest first; `visited` is what the callback gets. */
    method ForEach() returns (visited: seq<T>)
      requires Ready()
      modifies this`outPos
      ensures Ready() && Contents() == [] && visited == old(Contents())
    {
      hide Window, Stepped;
      ghost var c := Contents();
      visited := [];
      while outPos != inPos
        invariant Ready() && |visited| <= |c| && visited == c[..|visited|] && Contents() == c[|visited|..]
        decreases Size()
      {
        WindowItems(data[..], outPos, inPos);
        WindowDrop(data[..], outPos, inPos, 1);
        visited := visited + [data[outPos]];
        outPos := Stepped(outPos, 1, data.Length);
      }
    }

    /** The loop body of `for_each_rev_requeue`: the callback sees slot `pos`; if it keeps the item, the
        item moves in front of those kept so far, which start at `outPos1`. */
    method KeepAt(fun: T -> (bool, T), pos: nat, outPos1: nat) returns (kept: nat)
      requires Ready() && pos < data.Length && outPos1 < data.Length
      requires !Inside(outPos1, inPos, pos) && |Window(data[..], outPos1, inPos)| + 1 < data.Length
      modifies data
      ensures var (keep, val) := fun(old(data[pos]));
        && kept == (if keep then Ahead(outPos1, data.Length - 1, data.Length) else outPos1) < data.Length
        && Window(data[..], kept, inPos) == (if keep then [val] else []) + old(Window(data[..], outPos1, inPos))
      ensures forall k | 0 <= k < data.Length && k != pos && !Inside(kept, inPos, k) :: data[k] == old(data[k])
    {
      hide Window, Inside;
      ghost var before := data[..];
      var (keep, val) := fun(data[pos]);
      data[pos] := val;
      assert data[..] == before[pos := val];
      WindowOutside(before, outPos1, inPos, pos, val);
      kept := outPos1;
      if keep {
        WindowPrepend(data[..], outPos1, inPos, val);
        PrependInside(data[..], outPos1, inPos);
        kept := Stepped(outPos1, data.Length - 1, data.Length);
        if kept != pos { data[kept] := val; }
        assert data[..] == before[pos := val][kept := val];
      }
    }

    /** The loop invariant of `for_each_rev_requeue`: the `i` oldest of the items `c` are unvisited and
        in place, the kept ones of the rest lie between `outPos1` and the write index. */
    ghost predicate Packing(fun: T -> (bool, T), c: seq<T>, i: nat, pos: nat, outPos1: nat)
      reads this, data
    {
      && Ready()
      && i <= |c| < data.Length
      && inPos == Ahead(outPos, |c|, data.Length)
      && pos == Ahead(outPos, i, data.Length)
      && outPos1 < data.Length
      && Window(data[..], outPos1, inPos) == Kept(fun, c[i..])
      && (forall k: nat | k < i :: data[Ahead(outPos, k, data.Length)] == c[k])
    }

    /** One round of the loop of `for_each_rev_requeue`. */
    method VisitBefore(fun: T -> (bool, T), ghost c: seq<T>, ghost i: nat, pos: nat, outPos1: nat)
      returns (pos': nat, kept: nat)
      requires Packing(fun, c, i, pos, outPos1) && 0 < i
      modifies data
      ensures Packing(fun, c, i - 1, pos', kept)
    {
      hide Window, Kept, Stepped;
      KeptCons(fun, c[i - 1..]);
      pos' := Stepped(pos, data.Length - 1, data.Length);
      kept := KeepAt(fun, pos', outPos1);
    }

    /** `for_each_rev_requeue`: visits the items newest first and packs the kept ones against the write
        index; what remains is the kept items in their order. */
    method ForEachRevRequeue(fun: T -> (bool, T)) returns (any: bool)
      requires Ready()
      modifies this`outPos, data
      ensures Ready() && any == (old(Contents()) != [])
      ensures Contents() == Kept(fun, old(Contents()))
    {
      hide Window, Kept;
      ghost var c := Contents();
      if outPos == inPos {
        KeptNil(fun, c);
        return false;
      }
      ghost var i := |c|;
      var pos, outPos1 := inPos, inPos;
      WindowItems(data[..], outPos, inPos);
      KeptNil(fun, c[|c|..]);
      while true
        invariant 0 < i && Packing(fun, c, i, pos, outPos1) && outPos == old(outPos)
        decreases i
      {
        pos, outPos1 := VisitBefore(fun, c, i, pos, outPos1);
        i := i - 1;
        if pos == outPos {
          assert c[i..] == c;
          break;
        }
      }
      outPos := outPos1;
      return true;
    }

    /** `pop_requeue`: the oldest item becomes the newest. */
    method PopRequeue() returns (val: T)
      requires Ready()
      modifies this, data
      ensures Ready()
      ensures old(Contents()) == [] ==> val == defaultValue && Contents() == []
      ensures old(Contents()) != [] ==>
        val == old(Contents())[0] && Contents() == old(Contents())[1..] + [val]
    {
      hide Window, Stepped;
      if inPos == outPos { return defaultValue; }
      WindowItems(data[..], outPos, inPos);
      WindowDrop(data[..], outPos, inPos, 1);
      val := data[outPos];
      WindowSnoc(data[..], Ahead(outPos, 1, data.Length), inPos, val);
      data[inPos] := val;
      outPos := Stepped(outPos, 1, data.Length);
      inPos := Stepped(inPos, 1, data.Length);
    }

    /** The loop invariant of `for_each_requeue`: of the items `c`, those from `k` on are still queued up
        to the old write index `inPos0`; the kept ones of the rest follow behind it. */
    ghost predicate Requeueing(fun: T -> (bool, T), c: seq<T>, k: nat, inPos0: nat)
      reads this, data
    {
      && Ready()
      && k <= |c| < data.Length
      && inPos0 < data.Length
      && inPos0 == Ahead(outPos, |c| - k, data.Length)
      && inPos == Ahead(inPos0, |Kept(fun, c[..k])|, data.Length)
      && Window(data[..], outPos, inPos0) == c[k..]
      && Window(data[..], inPos0, inPos) == Kept(fun, c[..k])
    }

    /** One round of the loop of `for_each_requeue`. */
    method RequeueNext(fun: T -> (bool, T), ghost c: seq<T>, ghost k: nat, inPos0: nat)
      requires Requeueing(fun, c, k, inPos0) && k < |c|
      modifies this, data
      ensures Requeueing(fun, c, k + 1, inPos0)
    {
      hide Window, Kept, Stepped;
      KeptSnoc(fun, c[..k + 1]);
      assert c[..k + 1][..k] == c[..k] && c[k..][1..] == c[k + 1..];
      WindowItems(data[..], outPos, inPos0);
      WindowDrop(data[..], outPos, inPos0, 1);
      ghost var next := Ahead(outPos, 1, data.Length);
      var (keep, val) := fun(data[outPos]);
      WindowOutside(data[..], inPos0, inPos, outPos, val);
      WindowOutside(data[..], next, inPos0, outPos, val);
      data[outPos] := val;
      if keep {
        WindowSnoc(data[..], inPos0, inPos, val);
        WindowOutside(data[..], next, inPos0, inPos, val);
        data[inPos] := val;
        inPos := Stepped(inPos, 1, data.Length);
      }
      outPos := Stepped(outPos, 1, data.Length);
    }

    /** `for_each_requeue`, with no producer active: what remains is the kept items in their order, even
        when the queue was full. */
    method ForEachRequeue(fun: T -> (bool, T)) returns (any: bool)
      requires Ready()
      modifies this, data
      ensures Ready() && any == (old(Contents()) != [])
      ensures Contents() == Kept(fun, old(Contents()))
    {
      hide Window, Kept;
      ghost var c := Contents();
      var inPos0 := inPos;
      KeptNil(fun, c[..0]);
      if outPos == inPos0 {
        assert c[..0] == c;
        return false;
      }
      ghost var k := 0;
      while true
        invariant k < |c| && Requeueing(fun, c, k, inPos0)
        decreases |c| - k
      {
        RequeueNext(fun, c, k, inPos0);
        k := k + 1;
        if outPos == inPos0 {
          assert c[..k] == c;
          break;
        }
      }
      return true;
    }
  }
}
