/**
 The two-ended allocator behind a document: strings from the left, slots from the right, and a string whose
 length is not known in advance built over the whole of what is free between them.
 */
module MemoryPool {
  import opened Wrappers

  /** A block that was handed out. `Leaked` is free space that a string too long for it took along. */
  datatype Use = Chars | Slot | Leaked

  datatype Block = Block(start: nat, len: nat, use: Use)

  function Total(blocks: seq<Block>): nat {
    if blocks == [] then 0 else Total(blocks[..|blocks| - 1]) + blocks[|blocks| - 1].len
  }

  lemma TotalSnoc(blocks: seq<Block>, b: Block)
    ensures Total(blocks + [b]) == Total(blocks) + b.len
  {
    assert (blocks + [b])[..|blocks|] == blocks;
  }

  predicate Apart(a: Block, b: Block) {
    a.start + a.len <= b.start || b.start + b.len <= a.start
  }

  /** Strings lie in the left part and slots in the right one, no two share a byte, and together they are all
      of both parts. */
  predicate Laid(blocks: seq<Block>, left: nat, right: nat, capacity: nat) {
    && left <= right <= capacity
    && (forall i :: 0 <= i < |blocks| ==>
          if blocks[i].use == Slot then right <= blocks[i].start && blocks[i].start + blocks[i].len <= capacity
          else blocks[i].start + blocks[i].len <= left)
    && (forall i, j :: 0 <= i < j < |blocks| ==> Apart(blocks[i], blocks[j]))
    && Total(blocks) == left + (capacity - right)
  }

  lemma LaidMore(blocks: seq<Block>, left: nat, right: nat, capacity: nat, b: Block)
    requires Laid(blocks, left, right, capacity) && b.len <= right - left
    requires if b.use == Slot then b.start + b.len == right else b.start == left
    ensures
      if b.use == Slot then Laid(blocks + [b], left, right - b.len, capacity)
      else Laid(blocks + [b], left + b.len, right, capacity)
  {
    TotalSnoc(blocks, b);
    var more := blocks + [b];
    forall i, j | 0 <= i < j < |more| ensures Apart(more[i], more[j]) {
      if j < |blocks| { assert Apart(blocks[i], blocks[j]); }
    }
  }

  class MemoryPool {
    const buffer: array<char>
    var left: nat
    var right: nat
    ghost var blocks: seq<Block>

    /** No string is being built. */
    ghost predicate Valid()
      reads this
    {
      Laid(blocks, left, right, buffer.Length)
    }

    constructor (capacity: nat)
      ensures Valid() && fresh(buffer) && buffer.Length == capacity && Free() == capacity && blocks == []
    {
      buffer := new char[capacity];
      left, right, blocks := 0, capacity, [];
    }

    ghost function Free(): nat
      reads this
    {
      if left <= right then right - left else 0
    }

    /** The bytes handed out, to the byte. */
    method Size() returns (n: nat)
      requires Valid()
      ensures n == Total(blocks) == buffer.Length - Free()
    {
      n := left + buffer.Length - right;
    }

    method AllocFrozenString(n: nat) returns (s: Option<nat>)
      requires Valid()
      modifies this
      ensures Valid() && s.Some? == (n <= old(Free()))
      ensures s.Some? ==> blocks == old(blocks) + [Block(s.value, n, Chars)] && Free() == old(Free()) - n
      ensures s.Some? ==> s.value == old(left) && left == old(left) + n && right == old(right)
      ensures s.None? ==> unchanged(this)
    {
      if left + n > right { return None; }
      LaidMore(blocks, left, right, buffer.Length, Block(left, n, Chars));
      s := Some(left);
      blocks := blocks + [Block(left, n, Chars)];
      left := left + n;
    }

    method AllocRight(n: nat) returns (s: Option<nat>)
      requires Valid()
      modifies this
      ensures Valid() && s.Some? == (n <= old(Free()))
      ensures s.Some? ==> blocks == old(blocks) + [Block(s.value, n, Slot)] && Free() == old(Free()) - n
      ensures s.Some? ==> s.value == right == old(right) - n && left == old(left)
      ensures s.None? ==> unchanged(this)
    {
      if left + n > right { return None; }
      LaidMore(blocks, left, right, buffer.Length, Block(right - n, n, Slot));
      right := right - n;
      s := Some(right);
      blocks := blocks + [Block(right, n, Slot)];
    }

    /** Everything that is free, lent to a string to be built. */
    method AllocExpandableString() returns (start: nat, size: nat)
      requires Valid()
      modifies this`left
      ensures start == old(left) && size == old(Free()) && left == right
    {
      start, size := left, right - left;
      left := right;
    }

    /** Gives back what a finished string did not need. */
    method FreezeString(start: nat, size: nat, newSize: nat)
      requires left == right == start + size && newSize <= size && Laid(blocks, start, right, buffer.Length)
      modifies this
      ensures Valid() && blocks == old(blocks) + [Block(start, newSize, Chars)] && Free() == size - newSize
      ensures right == old(right)
    {
      LaidMore(blocks, start, right, buffer.Length, Block(start, newSize, Chars));
      left := left - (size - newSize);
      blocks := blocks + [Block(start, newSize, Chars)];
    }

    method Clear()
      modifies this
      ensures Valid() && blocks == [] && Free() == buffer.Length
    {
      left, right, blocks := 0, buffer.Length, [];
    }
  }

  /** A string being built in a pool. While it is, the pool has nothing free. */
  class StringBuilder {
    const pool: MemoryPool
    const start: nat
    const slotSize: nat
    var full: bool
    var size: nat
    ghost var appended: string

    ghost predicate Valid()
      reads this, pool, pool.buffer
    {
      && pool.left == pool.right == start + slotSize
      && Laid(pool.blocks, start, pool.right, pool.buffer.Length)
      && full == (|appended| > slotSize)
      && (!full ==> size == |appended| && pool.buffer[start..start + size] == appended)
    }

    constructor (pool: MemoryPool)
      requires pool.Valid()
      modifies pool`left
      ensures this.pool == pool && Valid() && appended == []
      ensures start == old(pool.left) && slotSize == old(pool.Free())
    {
      this.pool := pool;
      full, size, appended := false, 0, [];
      var s, n := pool.AllocExpandableString();
      start, slotSize := s, n;
    }

    method Append(c: char)
      requires Valid()
      modifies this, pool.buffer
      ensures Valid() && appended == old(appended) + [c] && unchanged(pool)
      ensures forall i :: 0 <= i < pool.buffer.Length && (i < start || start + slotSize <= i) ==>
        pool.buffer[i] == old(pool.buffer[i])
    {
      appended := appended + [c];
      if full { return; }
      if size >= slotSize {
        full := true;
        return;
      }
      pool.buffer[start + size] := c;
      size := size + 1;
    }

    /** The string ends with a NUL. It is there, and costs its characters and the NUL, exactly when that many
        bytes were free; a string that does not fit keeps all that was. */
    method Complete() returns (s: Option<nat>)
      requires Valid()
      modifies this, pool, pool.buffer
      ensures pool.Valid()
      ensures var n := |old(appended)| + 1;
        && s.Some? == (n <= slotSize)
        && (s.Some? ==>
            && s.value == start && start + n <= pool.buffer.Length
            && pool.buffer[start..start + n] == old(appended) + ['\0']
            && pool.blocks == old(pool.blocks) + [Block(start, n, Chars)]
            && pool.Free() == slotSize - n)
        && (s.None? ==> pool.blocks == old(pool.blocks) + [Block(start, slotSize, Leaked)] && pool.Free() == 0)
      ensures forall i :: 0 <= i < pool.buffer.Length && (i < start || start + slotSize <= i) ==>
        pool.buffer[i] == old(pool.buffer[i])
    {
      Append('\0');
      if full {
        LaidMore(pool.blocks, start, pool.right, pool.buffer.Length, Block(start, slotSize, Leaked));
        pool.blocks := pool.blocks + [Block(start, slotSize, Leaked)];
        return None;
      }
      pool.FreezeString(start, slotSize, size);
      return Some(start);
    }
  }

  /** A C string built character by character: it fits exactly when its characters and a NUL do, and no byte of
      any other block changes. */
  method BuildString(pool: MemoryPool, s: string) returns (r: Option<nat>)
    requires pool.Valid() && '\0' !in s
    modifies pool, pool.buffer
    ensures pool.Valid() && r.Some? == (|s| + 1 <= old(pool.Free()))
    ensures r.Some? ==>
      && r.value + |s| + 1 <= pool.buffer.Length
      && pool.buffer[r.value..r.value + |s| + 1] == s + ['\0']
      && pool.blocks == old(pool.blocks) + [Block(r.value, |s| + 1, Chars)]
      && pool.Free() == old(pool.Free()) - |s| - 1
    ensures r.None? ==>
      pool.Free() == 0 && pool.blocks == old(pool.blocks) + [Block(old(pool.left), old(pool.Free()), Leaked)]
    ensures forall i :: 0 <= i < pool.buffer.Length && (i < old(pool.left) || old(pool.right) <= i) ==>
      pool.buffer[i] == old(pool.buffer[i])
  {
    var builder := new StringBuilder(pool);
    ghost var start, free := builder.start, builder.slotSize;
    var i := 0;
    while i < |s|
      invariant i <= |s| && builder.Valid() && builder.appended == s[..i] && fresh(builder)
      invariant pool.blocks == old(pool.blocks)
      invariant forall k :: 0 <= k < pool.buffer.Length && (k < start || start + free <= k) ==>
        pool.buffer[k] == old(pool.buffer[k])
    {
      builder.Append(s[i]);
      i := i + 1;
    }
    assert s[..|s|] == s;
    r := builder.Complete();
  }
}
