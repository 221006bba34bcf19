/**
 Documents where they really are: values in slots, lists threaded through the slots by 16-bit offsets, strings in
 the same pool of memory. Copying a document from one such store to another, or within one.
 */
module DocumentStore {
  import opened Wrappers
  import opened JsonDocument
  import D = JsonDocument
  import P = MemoryPool
  import L = SlotList

  /** Slots are numbered in the order of their addresses; a list has its first slot and its last. */
  datatype List = List(head: Option<int>, tail: Option<int>)

  /** What a value holds: strings of its own lie in the pool, others elsewhere. */
  datatype Content =
    | Bare(tag: nat, bits: nat)
    | LinkedText(chars: string)
    | OwnedText(at: nat)
    | LinkedRaw(data: string)
    | OwnedRaw(at: nat, size: nat)
    | ArrayOf(list: List)
    | ObjectOf(list: List)

  datatype KeyPtr = LinkedKey(chars: string) | OwnedKey(at: nat)

  datatype Cell = Cell(content: Content, next: int, key: Option<KeyPtr>)

  /** A slot as `clear` leaves it. */
  const CLEARED := Cell(Bare(0, 0), 0, None)

  // ---- What is stored

  /** A C string between two bytes of a text. */
  predicate CString(text: string, at: nat, s: string, lo: nat, hi: nat) {
    && lo <= at && at + |s| + 1 <= hi <= |text|
    && text[at..at + |s|] == s && text[at + |s|] == '\0' && '\0' !in s
  }

  predicate Bytes(text: string, at: nat, s: string, lo: nat, hi: nat) {
    lo <= at && at + |s| <= hi <= |text| && text[at..at + |s|] == s
  }

  predicate KeyDenotes(text: string, k: Option<KeyPtr>, key: Option<Key>, lo: nat, hi: nat) {
    match key
    case None => k == None
    case Some(Key(chars, owned)) =>
      if owned then k.Some? && k.value.OwnedKey? && CString(text, k.value.at, chars, lo, hi)
      else k == Some(LinkedKey(chars))
  }

  /** What a value denotes that is no list. */
  predicate LeafDenotes(text: string, c: Content, v: Variant, lo: nat, hi: nat) {
    match v
    case Scalar(tag, bits) => c == Bare(tag, bits)
    case Text(chars, owned) =>
      if owned then c.OwnedText? && CString(text, c.at, chars, lo, hi) else c == LinkedText(chars)
    case Raw(data, owned) =>
      if owned then c.OwnedRaw? && c.size == |data| && Bytes(text, c.at, data, lo, hi) else c == LinkedRaw(data)
    case _ => false
  }

  /** Where the slot behind the `i`-th is. */
  function Behind(cells: seq<Cell>, i: nat): Option<int>
    requires i < |cells|
  {
    if cells[i].next == 0 then None else Some(i + cells[i].next)
  }

  /** The content denotes the document `v`, all of whose slots are among `own` and whose strings lie between two
      bytes: following the links as a reader does gives its lists. */
  predicate Denotes(cells: seq<Cell>, text: string, c: Content, v: Variant, own: set<nat>, lo: nat, hi: nat)
    decreases v
  {
    match v
    case Array(slots) => c.ArrayOf? && ListDenotes(cells, text, c.list.head, c.list.tail, slots, own, lo, hi)
    case Object(slots) => c.ObjectOf? && ListDenotes(cells, text, c.list.head, c.list.tail, slots, own, lo, hi)
    case _ => LeafDenotes(text, c, v, lo, hi)
  }

  predicate ListDenotes(
      cells: seq<Cell>, text: string, at: Option<int>, tail: Option<int>, slots: Slots, own: set<nat>, lo: nat, hi: nat)
    decreases slots
  {
    match slots
    case End => at == None
    case Slot(key, value, next) =>
      && at.Some? && 0 <= at.value < |cells| && at.value in own
      && (next.End? ==> tail == at)
      && KeyDenotes(text, cells[at.value].key, key, lo, hi)
      && Denotes(cells, text, cells[at.value].content, value, own, lo, hi)
      && ListDenotes(cells, text, Behind(cells, at.value), tail, next, own, lo, hi)
  }

  /** The same bytes between two bytes of two texts. */
  predicate SameText(text: string, text': string, lo: nat, hi: nat) {
    |text'| == |text| && forall k :: lo <= k < hi && k < |text| ==> text'[k] == text[k]
  }

  lemma StringStays(text: string, text': string, at: nat, s: string, lo: nat, hi: nat, lo': nat, hi': nat)
    requires SameText(text, text', lo, hi) && lo' <= lo && hi <= hi' <= |text|
    ensures CString(text, at, s, lo, hi) ==> CString(text', at, s, lo', hi')
    ensures Bytes(text, at, s, lo, hi) ==> Bytes(text', at, s, lo', hi')
  {
    if at + |s| <= hi && lo <= at { assert text'[at..at + |s|] == text[at..at + |s|]; }
  }

  lemma KeyStays(
      text: string, text': string, k: Option<KeyPtr>, key: Option<Key>, lo: nat, hi: nat, lo': nat, hi': nat)
    requires SameText(text, text', lo, hi) && lo' <= lo && hi <= hi' <= |text|
    ensures KeyDenotes(text, k, key, lo, hi) ==> KeyDenotes(text', k, key, lo', hi')
  {
    hide SameText, CString;
    if key.Some? && k.Some? && k.value.OwnedKey? {
      StringStays(text, text', k.value.at, key.value.chars, lo, hi, lo', hi');
    }
  }

  lemma LeafStays(text: string, text': string, c: Content, v: Variant, lo: nat, hi: nat, lo': nat, hi': nat)
    requires SameText(text, text', lo, hi) && lo' <= lo && hi <= hi' <= |text|
    ensures LeafDenotes(text, c, v, lo, hi) ==> LeafDenotes(text', c, v, lo', hi')
  {
    hide SameText, CString, Bytes;
    match v
    case Text(chars, _) => if c.OwnedText? { StringStays(text, text', c.at, chars, lo, hi, lo', hi'); }
    case Raw(data, _) => if c.OwnedRaw? { StringStays(text, text', c.at, data, lo, hi, lo', hi'); }
    case _ =>
  }

  /** What a document denotes depends on its own slots and bytes only. */
  lemma {:induction false} DenotesStays(
      cells: seq<Cell>, text: string, cells': seq<Cell>, text': string, c: Content, v: Variant, own: set<nat>,
      lo: nat, hi: nat)
    requires Denotes(cells, text, c, v, own, lo, hi)
    requires |cells'| == |cells| && forall i <- own :: i < |cells| ==> cells'[i] == cells[i]
    requires SameText(text, text', lo, hi) && hi <= |text|
    ensures Denotes(cells', text', c, v, own, lo, hi)
    decreases v
  {
    hide SameText, LeafDenotes;
    match v
    case Array(slots) => ListStays(cells, text, cells', text', c.list.head, c.list.tail, slots, own, lo, hi);
    case Object(slots) => ListStays(cells, text, cells', text', c.list.head, c.list.tail, slots, own, lo, hi);
    case _ => LeafStays(text, text', c, v, lo, hi, lo, hi);
  }

  lemma {:induction false} ListStays(
      cells: seq<Cell>, text: string, cells': seq<Cell>, text': string, at: Option<int>, tail: Option<int>, slots: Slots,
      own: set<nat>, lo: nat, hi: nat)
    requires ListDenotes(cells, text, at, tail, slots, own, lo, hi)
    requires |cells'| == |cells| && forall i <- own :: i < |cells| ==> cells'[i] == cells[i]
    requires SameText(text, text', lo, hi) && hi <= |text|
    ensures ListDenotes(cells', text', at, tail, slots, own, lo, hi)
    decreases slots
  {
    hide SameText, KeyDenotes, Denotes;
    if slots.Slot? {
      var cell := cells[at.value];
      KeyStays(text, text', cell.key, slots.key, lo, hi, lo, hi);
      DenotesStays(cells, text, cells', text', cell.content, slots.value, own, lo, hi);
      ListStays(cells, text, cells', text', Behind(cells, at.value), tail, slots.next, own, lo, hi);
    }
  }

  // ---- How a copy lies in memory

  /** The slots a value takes besides its own. */
  function Count(v: Variant): nat
    decreases v
  {
    match v
    case Array(slots) => CountSlots(slots)
    case Object(slots) => CountSlots(slots)
    case _ => 0
  }

  function CountSlots(slots: Slots): nat
    decreases slots
  {
    if slots.End? then 0 else 1 + Count(slots.value) + CountSlots(slots.next)
  }

  /** The slot of the last element, when the elements lie downwards from below `top`. */
  function LastAt(slots: Slots, top: int): int
    requires slots.Slot?
  {
    if slots.next.End? then top - 1 else LastAt(slots.next, top - 1 - Count(slots.value))
  }

  /** The content is that of a copy of `v` whose slots are exactly the `Count(v)` ones below `top`, each list's
      elements downwards and each followed by what is in it; links are offsets cut to 16 bits. */
  predicate Stored(cells: seq<Cell>, text: string, c: Content, v: Variant, top: int, lo: nat, hi: nat)
    decreases v
  {
    match v
    case Array(slots) => c.ArrayOf? && ListStored(cells, text, c.list, slots, top, lo, hi)
    case Object(slots) => c.ObjectOf? && ListStored(cells, text, c.list, slots, top, lo, hi)
    case _ => LeafDenotes(text, c, v, lo, hi)
  }

  predicate ListStored(cells: seq<Cell>, text: string, list: List, slots: Slots, top: int, lo: nat, hi: nat)
    decreases slots, 1
  {
    && list == (if slots.End? then List(None, None) else List(Some(top - 1), Some(LastAt(slots, top))))
    && ChainStored(cells, text, slots, top, 0, lo, hi)
  }

  /** The elements are there, the last one linked with `link`. */
  predicate ChainStored(cells: seq<Cell>, text: string, slots: Slots, top: int, link: int, lo: nat, hi: nat)
    decreases slots, 0
  {
    slots.Slot? ==>
      var i := top - 1;
      && 0 <= i < |cells|
      && KeyDenotes(text, cells[i].key, slots.key, lo, hi)
      && Stored(cells, text, cells[i].content, slots.value, i, lo, hi)
      && cells[i].next == (if slots.next.End? then link else L.S16(-1 - Count(slots.value)))
      && ChainStored(cells, text, slots.next, i - Count(slots.value), link, lo, hi)
  }

  /** The same slots below `top`. */
  predicate SameCells(cells: seq<Cell>, cells': seq<Cell>, from: int, top: int) {
    |cells'| == |cells| && forall i :: from <= i < top && 0 <= i < |cells| ==> cells'[i] == cells[i]
  }

  lemma {:induction false} StoredStays(
      cells: seq<Cell>, text: string, cells': seq<Cell>, text': string, c: Content, v: Variant, top: int,
      lo: nat, hi: nat, lo': nat, hi': nat)
    requires Stored(cells, text, c, v, top, lo, hi)
    requires SameCells(cells, cells', top - Count(v), top)
    requires SameText(text, text', lo, hi) && lo' <= lo && hi <= hi' <= |text|
    ensures Stored(cells', text', c, v, top, lo', hi')
    decreases v
  {
    hide SameText, LeafDenotes;
    match v
    case Array(slots) => ChainStays(cells, text, cells', text', slots, top, 0, lo, hi, lo', hi');
    case Object(slots) => ChainStays(cells, text, cells', text', slots, top, 0, lo, hi, lo', hi');
    case _ => LeafStays(text, text', c, v, lo, hi, lo', hi');
  }

  lemma {:induction false} ChainStays(
      cells: seq<Cell>, text: string, cells': seq<Cell>, text': string, slots: Slots, top: int, link: int,
      lo: nat, hi: nat, lo': nat, hi': nat)
    requires ChainStored(cells, text, slots, top, link, lo, hi)
    requires SameCells(cells, cells', top - CountSlots(slots), top)
    requires SameText(text, text', lo, hi) && lo' <= lo && hi <= hi' <= |text|
    ensures ChainStored(cells', text', slots, top, link, lo', hi')
    decreases slots
  {
    hide SameText, KeyDenotes, Stored, Count;
    if slots.Slot? {
      var i := top - 1;
      KeyStays(text, text', cells[i].key, slots.key, lo, hi, lo', hi');
      StoredStays(cells, text, cells', text', cells[i].content, slots.value, i, lo, hi, lo', hi');
      ChainStays(cells, text, cells', text', slots.next, i - Count(slots.value), link, lo, hi, lo', hi');
    }
  }

  lemma {:induction false} LastWithin(slots: Slots, top: int)
    requires slots.Slot?
    ensures top - CountSlots(slots) <= LastAt(slots, top) < top
  {
    if slots.next.Slot? { LastWithin(slots.next, top - 1 - Count(slots.value)); }
  }

  /** Linking the last element elsewhere changes nothing else. */
  lemma {:induction false} ChainRelinked(
      cells: seq<Cell>, cells': seq<Cell>, text: string, slots: Slots, top: int, link: int, link': int, lo: nat, hi: nat)
    requires slots.Slot? && ChainStored(cells, text, slots, top, link, lo, hi) && hi <= |text|
    requires |cells'| == |cells|
    requires forall i :: top - CountSlots(slots) <= i < top && 0 <= i < |cells| ==>
      cells'[i] == if i == LastAt(slots, top) then cells[i].(next := link') else cells[i]
    ensures ChainStored(cells', text, slots, top, link', lo, hi)
    decreases slots
  {
    hide KeyDenotes, Stored, Count;
    var i := top - 1;
    var after := i - Count(slots.value);
    if slots.next.Slot? { LastWithin(slots.next, after); }
    StoredStays(cells, text, cells', text, cells[i].content, slots.value, i, lo, hi, lo, hi);
    if slots.next.Slot? { ChainRelinked(cells, cells', text, slots.next, after, link, link', lo, hi); }
  }

  /** One list behind another. */
  function Glue(done: Slots, rest: Slots): Slots {
    if done.End? then rest else done.(next := Glue(done.next, rest))
  }

  lemma {:induction false} GlueEnd(done: Slots)
    ensures Glue(done, End) == done
  {
    if done.Slot? { GlueEnd(done.next); }
  }

  lemma {:induction false} GlueMore(done: Slots, key: Option<Key>, value: Variant, rest: Slots)
    ensures Glue(Glue(done, Slot(key, value, End)), rest) == Glue(done, Slot(key, value, rest))
    ensures CountSlots(Glue(done, Slot(key, value, End))) == CountSlots(done) + 1 + Count(value)
  {
    if done.Slot? { GlueMore(done.next, key, value, rest); }
  }

  /** A further element, to which the last one is linked. */
  lemma {:induction false} ChainMore(
      cells: seq<Cell>, text: string, done: Slots, key: Option<Key>, value: Variant, top: int, link: int,
      lo: nat, hi: nat)
    requires var i := top - CountSlots(done) - 1;
      && 0 <= i < |cells| && KeyDenotes(text, cells[i].key, key, lo, hi) && cells[i].next == link
      && Stored(cells, text, cells[i].content, value, i, lo, hi)
      && (done.Slot? ==> ChainStored(cells, text, done, top, L.S16(i - LastAt(done, top)), lo, hi))
    ensures ChainStored(cells, text, Glue(done, Slot(key, value, End)), top, link, lo, hi)
    ensures LastAt(Glue(done, Slot(key, value, End)), top) == top - CountSlots(done) - 1
    decreases done
  {
    hide KeyDenotes, Stored;
    if done.Slot? {
      var after := top - 1 - Count(done.value);
      if done.next.Slot? { LastWithin(done.next, after); }
      ChainMore(cells, text, done.next, key, value, after, link, lo, hi);
    }
  }

  // ---- When links are long enough

  /** Between an element and the next there are fewer slots than 16 bits can tell, all the way down. */
  predicate Near(v: Variant)
    decreases v
  {
    match v
    case Array(slots) => SlotsNear(slots)
    case Object(slots) => SlotsNear(slots)
    case _ => true
  }

  predicate SlotsNear(slots: Slots)
    decreases slots
  {
    slots.Slot? ==>
      Near(slots.value) && SlotsNear(slots.next) && (slots.next.Slot? ==> Count(slots.value) < 0x8000)
  }

  /** Every link leads to the element it should, all the way down. */
  predicate Reaches(cells: seq<Cell>, v: Variant, top: int)
    decreases v
  {
    match v
    case Array(slots) => SlotsReach(cells, slots, top)
    case Object(slots) => SlotsReach(cells, slots, top)
    case _ => true
  }

  predicate SlotsReach(cells: seq<Cell>, slots: Slots, top: int)
    decreases slots
  {
    slots.Slot? ==>
      var i := top - 1;
      var after := i - Count(slots.value);
      && 0 <= i < |cells|
      && Reaches(cells, slots.value, i)
      && (slots.next.Slot? ==> i + cells[i].next == after - 1)
      && SlotsReach(cells, slots.next, after)
  }

  /** MAIN (copies): all links of a copy lead to where they should exactly when no element is too far from the
      next. */
  lemma {:induction false} ReachesExactly(
      cells: seq<Cell>, text: string, c: Content, v: Variant, top: int, lo: nat, hi: nat)
    requires Stored(cells, text, c, v, top, lo, hi)
    ensures Reaches(cells, v, top) <==> Near(v)
    decreases v
  {
    match v
    case Array(slots) => SlotsReachExactly(cells, text, slots, top, lo, hi);
    case Object(slots) => SlotsReachExactly(cells, text, slots, top, lo, hi);
    case _ =>
  }

  lemma {:induction false} SlotsReachExactly(cells: seq<Cell>, text: string, slots: Slots, top: int, lo: nat, hi: nat)
    requires ChainStored(cells, text, slots, top, 0, lo, hi)
    ensures SlotsReach(cells, slots, top) <==> SlotsNear(slots)
    decreases slots
  {
    hide Stored, KeyDenotes, Count, L.S16;
    if slots.Slot? {
      var i := top - 1;
      L.S16Fits(-1 - Count(slots.value));
      ReachesExactly(cells, text, cells[i].content, slots.value, i, lo, hi);
      SlotsReachExactly(cells, text, slots.next, i - Count(slots.value), lo, hi);
    }
  }

  /** Then it denotes the document it is a copy of. */
  lemma {:induction false} StoredDenotes(
      cells: seq<Cell>, text: string, c: Content, v: Variant, top: int, own: set<nat>, lo: nat, hi: nat)
    requires Stored(cells, text, c, v, top, lo, hi) && Near(v)
    requires forall i :: top - Count(v) <= i < top && 0 <= i ==> i in own
    ensures Denotes(cells, text, c, v, own, lo, hi)
    decreases v
  {
    hide LeafDenotes;
    match v
    case Array(slots) => if slots.Slot? { ChainDenotes(cells, text, slots, top, own, lo, hi); }
    case Object(slots) => if slots.Slot? { ChainDenotes(cells, text, slots, top, own, lo, hi); }
    case _ =>
  }

  lemma {:induction false} ChainDenotes(
      cells: seq<Cell>, text: string, slots: Slots, top: int, own: set<nat>, lo: nat, hi: nat)
    requires slots.Slot? && ChainStored(cells, text, slots, top, 0, lo, hi) && SlotsNear(slots)
    requires forall i :: top - CountSlots(slots) <= i < top && 0 <= i ==> i in own
    ensures ListDenotes(cells, text, Some(top - 1), Some(LastAt(slots, top)), slots, own, lo, hi)
    decreases slots
  {
    hide Stored, KeyDenotes, Denotes, Near, L.S16, Count;
    var i := top - 1;
    L.S16Fits(-1 - Count(slots.value));
    StoredDenotes(cells, text, cells[i].content, slots.value, i, own, lo, hi);
    if slots.next.Slot? { ChainDenotes(cells, text, slots.next, i - Count(slots.value), own, lo, hi); }
  }

  // ---- Copying

  /** A copy with elements made before put in front. */
  function InFront(done: Slots, c: Copy<Slots>): Copy<Slots> {
    Copy(Glue(done, c.made), c.ok, c.free)
  }

  lemma SameAsItself(text: string, lo: nat, hi: nat)
    ensures SameText(text, text, lo, hi)
  {
  }

  lemma EmptyValue(cells: seq<Cell>, text: string, top: int, left: nat)
    ensures Stored(cells, text, Bare(0, 0), Scalar(NULL, 0), top, left, left)
    ensures Count(Scalar(NULL, 0)) == 0
  {
  }

  function Between(a: nat, b: nat): (s: set<nat>)
    ensures forall i: nat :: i in s <==> a <= i < b
    decreases b - a
  {
    if a < b then {a} + Between(a + 1, b) else {}
  }

  lemma EmptyStored(cells: seq<Cell>, text: string, top: int, lo: nat, hi: nat)
    ensures ListStored(cells, text, List(None, None), End, top, lo, hi)
  {
  }

  lemma CopyNone(free: nat, slotSize: nat)
    ensures CopySlots(End, free, slotSize) == Copy(End, true, free)
  {
  }

  /** A list is copied element by element. */
  lemma CopyStep(slots: Slots, free: nat, slotSize: nat)
    requires slots.Slot?
    ensures
      var e := CopySlots(Slot(slots.key, slots.value, End), free, slotSize);
      && (e.made.Slot? ==> e.made.next == End)
      && (e.ok ==> e.made.Slot?)
      && CopySlots(slots, free, slotSize) ==
           if e.ok then InFront(e.made, CopySlots(slots.next, e.free, slotSize)) else e
  {
    hide D.CopyVariant;
    CopyNone(free, slotSize);
    if free >= slotSize + KeyUsage(slots.key) {
      var v := D.CopyVariant(slots.value, free - slotSize - KeyUsage(slots.key), slotSize);
      CopyNone(v.free, slotSize);
      GlueNone(CopySlots(slots.next, v.free, slotSize).made);
    }
  }

  lemma GlueNone(rest: Slots)
    ensures Glue(End, rest) == rest
  {
  }

  /** What copying one element comes to. */
  lemma CopyOne(key: Option<Key>, value: Variant, free: nat, slotSize: nat)
    ensures CopySlots(Slot(key, value, End), free, slotSize) ==
      if free < slotSize then Copy(End, false, free)
      else if free - slotSize < KeyUsage(key) then Copy(Slot(None, Scalar(NULL, 0), End), false, free - slotSize)
      else
        var v := D.CopyVariant(value, free - slotSize - KeyUsage(key), slotSize);
        Copy(Slot(key, v.made, End), v.ok, v.free)
  {
    hide D.CopyVariant;
  }

  lemma {:induction false} GlueTwo(a: Slots, b: Slots, c: Slots)
    ensures Glue(Glue(a, b), c) == Glue(a, Glue(b, c))
  {
    if a.Slot? { GlueTwo(a.next, b, c); }
  }

  predicate IsList(c: Content) {
    c.ArrayOf? || c.ObjectOf?
  }

  /** The other list in a value of the same kind. */
  function Relisted(c: Content, list: List): Content
    requires IsList(c)
  {
    if c.ArrayOf? then ArrayOf(list) else ObjectOf(list)
  }

  /** Slots that differ in their lists only. */
  predicate SameKind(a: Cell, b: Cell) {
    a.next == b.next && a.key == b.key && a.content.ArrayOf? == b.content.ArrayOf?
    && a.content.ObjectOf? == b.content.ObjectOf?
  }

  lemma SavedString(text: string, at: nat, s: string, text': string, dup: nat)
    requires CString(text, at, s, 0, |text|)
    requires dup + |s| + 1 <= |text'| && text'[dup..dup + |s| + 1] == text[at..at + |s| + 1]
    ensures CString(text', dup, s, dup, dup + |s| + 1)
  {
    assert text'[dup..dup + |s|] == text'[dup..dup + |s| + 1][..|s|];
    assert text[at..at + |s|] == text[at..at + |s| + 1][..|s|];
    assert text'[dup..dup + |s| + 1][|s|] == text[at..at + |s| + 1][|s|];
  }

  lemma SavedBytes(text: string, at: nat, s: string, text': string, dup: nat)
    requires Bytes(text, at, s, 0, |text|)
    requires dup + |s| <= |text'| && text'[dup..dup + |s|] == text[at..at + |s|]
    ensures Bytes(text', dup, s, dup, dup + |s|)
  {
  }

  /** A memory pool and the slots at its right end. Slots of `cells` from those on are values outside the pool. */
  class Store {
    const pool: P.MemoryPool
    const slotSize: nat
    const extra: nat
    const cells: array<Cell>
    var top: nat

    ghost predicate Valid()
      reads this, pool
    {
      && pool.Valid() && pool.left <= pool.buffer.Length && extra < slotSize && top <= cells.Length
      && pool.right == extra + top * slotSize
    }

    constructor (slotSize: nat, extra: nat, slots: nat, others: nat)
      requires extra < slotSize
      ensures Valid() && fresh(pool) && fresh(pool.buffer) && fresh(cells) && this.slotSize == slotSize && top == slots
      ensures cells.Length == slots + others && pool.Free() == extra + slots * slotSize && pool.left == 0
    {
      assert 0 <= slots * slotSize;
      pool := new P.MemoryPool(extra + slots * slotSize);
      cells := new Cell[slots + others](_ => CLEARED);
      this.slotSize, this.extra, top := slotSize, extra, slots;
    }

    /** The other store is this one, or shares no memory with it. */
    ghost predicate Separate(src: Store) {
      src == this || (src.cells != cells && src.pool != pool && src.pool.buffer != pool.buffer)
    }

    /** `allocVariant`. */
    method AllocVariant() returns (slot: Option<nat>)
      requires Valid()
      modifies this`top, pool
      ensures Valid() && slot.Some? == (slotSize <= old(pool.Free())) && pool.left == old(pool.left)
      ensures slot.Some? ==>
        slot == Some(top) && top == old(top) - 1 && pool.Free() == old(pool.Free()) - slotSize
        && pool.blocks == old(pool.blocks) + [P.Block(pool.right, slotSize, P.Slot)]
      ensures slot.None? ==> top == old(top) && unchanged(pool)
    {
      var s := pool.AllocRight(slotSize);
      if s.None? { return None; }
      assert top > 0 && (top - 1) * slotSize == top * slotSize - slotSize;
      top := top - 1;
      return Some(top);
    }

    /** `allocFrozenString` and the copy of `n` bytes into it. */
    method Save(src: Store, at: nat, n: nat) returns (dup: Option<nat>)
      requires Valid() && Separate(src) && at + n <= src.pool.buffer.Length && (src == this ==> at + n <= pool.left)
      modifies pool, pool.buffer
      ensures Valid() && dup.Some? == (n <= old(pool.Free()))
      ensures dup.Some? ==>
        && dup == Some(old(pool.left)) && pool.left == old(pool.left) + n <= pool.buffer.Length
        && pool.Free() == old(pool.Free()) - n
        && pool.buffer[dup.value..dup.value + n] == old(src.pool.buffer[at..at + n])
        && pool.blocks == old(pool.blocks) + [P.Block(dup.value, n, P.Chars)]
      ensures dup.None? ==> unchanged(pool)
      ensures forall k :: 0 <= k < old(pool.left) && k < pool.buffer.Length ==> pool.buffer[k] == old(pool.buffer[k])
    {
      dup := pool.AllocFrozenString(n);
      if dup.Some? { MemCopy(pool.buffer, dup.value, src.pool.buffer, at, n); }
    }

    /** What may be copied into the value at `at`: slots `own` and bytes below `hi` of the source, the value not among
        them. */
    ghost predicate Copyable(src: Store, at: nat, own: set<nat>, hi: nat)
      reads this, src, pool, src.pool
    {
      && Separate(src) && src.Valid() && hi <= src.pool.left
      && top <= at < cells.Length
      && forall i <- own :: i < src.cells.Length && (src == this ==> top <= i && i != at)
    }

    /** The key of a new slot. */
    method SetKey(slot: nat, src: Store, k: Option<KeyPtr>, ghost key: Option<Key>, ghost hi: nat) returns (ok: bool)
      requires Valid() && Separate(src) && src.Valid() && hi <= src.pool.left && slot < cells.Length
      requires KeyDenotes(src.pool.buffer[..], k, key, 0, hi) && cells[slot].key == None
      modifies pool, pool.buffer, cells
      ensures Valid() && ok == (KeyUsage(key) <= old(pool.Free()))
      ensures ok ==> pool.Free() == old(pool.Free()) - KeyUsage(key)
      ensures KeyDenotes(pool.buffer[..], cells[slot].key, if ok then key else None, old(pool.left), pool.left)
      ensures old(pool.left) <= pool.left && (!ok ==> pool.left == old(pool.left) && pool.Free() == old(pool.Free()))
      ensures old(pool.blocks) <= pool.blocks
      ensures cells[..] == old(cells[..])[slot := old(cells[slot]).(key := cells[slot].key)]
      ensures SameText(old(pool.buffer[..]), pool.buffer[..], 0, old(pool.left))
    {
      hide P.Laid;
      match k
      case None => ok := true;
      case Some(LinkedKey(_)) =>
        cells[slot] := cells[slot].(key := k);
        ok := true;
      case Some(OwnedKey(from)) =>
        ghost var text, chars := src.pool.buffer[..], key.value.chars;
        var n := StrLen(src.pool.buffer, from, chars, 0, hi);
        var dup := Save(src, from, n + 1);
        if dup.None? { return false; }
        SavedString(text, from, chars, pool.buffer[..], dup.value);
        cells[slot] := cells[slot].(key := Some(OwnedKey(dup.value)));
        ok := true;
    }

    /** `setOwnedString`, with a copy of a string of the source. */
    method SetOwnedText(at: nat, src: Store, from: nat, ghost chars: string, ghost hi: nat) returns (ok: bool)
      requires Valid() && Separate(src) && src.Valid() && hi <= src.pool.left && at < cells.Length
      requires CString(src.pool.buffer[..], from, chars, 0, hi)
      modifies pool, pool.buffer, cells
      ensures Valid() && ok == (|chars| + 1 <= old(pool.Free())) && old(pool.left) <= pool.left
      ensures pool.Free() == if ok then old(pool.Free()) - |chars| - 1 else old(pool.Free())
      ensures var made := if ok then Text(chars, true) else Scalar(NULL, 0);
        LeafDenotes(pool.buffer[..], cells[at].content, made, old(pool.left), pool.left)
      ensures old(pool.blocks) <= pool.blocks
      ensures cells[..] == old(cells[..])[at := old(cells[at]).(content := cells[at].content)]
      ensures SameText(old(pool.buffer[..]), pool.buffer[..], 0, old(pool.left))
    {
      hide P.Laid;
      ghost var text := src.pool.buffer[..];
      var n := StrLen(src.pool.buffer, from, chars, 0, hi);
      var dup := Save(src, from, n + 1);
      ok := dup.Some?;
      if ok { SavedString(text, from, chars, pool.buffer[..], dup.value); }
      cells[at] := cells[at].(content := if ok then OwnedText(dup.value) else Bare(0, 0));
    }

    /** `setOwnedRaw`. */
    method SetOwnedRaw(at: nat, src: Store, from: nat, size: nat, ghost data: string, ghost hi: nat) returns (ok: bool)
      requires Valid() && Separate(src) && src.Valid() && hi <= src.pool.left && at < cells.Length
      requires size == |data| && Bytes(src.pool.buffer[..], from, data, 0, hi)
      modifies pool, pool.buffer, cells
      ensures Valid() && ok == (size <= old(pool.Free())) && old(pool.left) <= pool.left
      ensures pool.Free() == if ok then old(pool.Free()) - size else old(pool.Free())
      ensures var made := if ok then Raw(data, true) else Scalar(NULL, 0);
        LeafDenotes(pool.buffer[..], cells[at].content, made, old(pool.left), pool.left)
      ensures old(pool.blocks) <= pool.blocks
      ensures cells[..] == old(cells[..])[at := old(cells[at]).(content := cells[at].content)]
      ensures SameText(old(pool.buffer[..]), pool.buffer[..], 0, old(pool.left))
    {
      hide P.Laid;
      ghost var text := src.pool.buffer[..];
      var dup := Save(src, from, size);
      ok := dup.Some?;
      if ok { SavedBytes(text, from, data, pool.buffer[..], dup.value); }
      cells[at] := cells[at].(content := if ok then OwnedRaw(dup.value, size) else Bare(0, 0));
    }

    /** `copyFrom` of a value that is no list. */
    method CopyLeaf(at: nat, src: Store, c: Content, ghost v: Variant, ghost hi: nat) returns (ok: bool)
      requires Valid() && Separate(src) && src.Valid() && hi <= src.pool.left && at < cells.Length
      requires LeafDenotes(src.pool.buffer[..], c, v, 0, hi)
      modifies pool, pool.buffer, cells
      ensures Valid() && old(pool.left) <= pool.left
      ensures var copy := D.CopyVariant(v, old(pool.Free()), slotSize);
        && ok == copy.ok && pool.Free() == copy.free
        && LeafDenotes(pool.buffer[..], cells[at].content, copy.made, old(pool.left), pool.left)
      ensures old(pool.blocks) <= pool.blocks
      ensures cells[..] == old(cells[..])[at := old(cells[at]).(content := cells[at].content)]
      ensures SameText(old(pool.buffer[..]), pool.buffer[..], 0, old(pool.left))
    {
      hide P.Laid, CString, Bytes;
      if c.OwnedText? {
        ok := SetOwnedText(at, src, c.at, v.chars, hi);
      } else if c.OwnedRaw? {
        ok := SetOwnedRaw(at, src, c.at, c.size, v.data, hi);
      } else {
        cells[at] := cells[at].(content := c);
        ok := true;
      }
    }

    /** The list at `at` is a copy of `done`, in all slots below `top0` and in bytes from `lo` on. */
    ghost predicate ListAt(at: nat, done: Slots, top0: nat, lo: nat)
      reads this, cells, pool, pool.buffer
    {
      && top0 <= at < cells.Length && top == top0 - CountSlots(done)
      && IsList(cells[at].content)
      && ListStored(cells[..], pool.buffer[..], cells[at].content.list, done, top0, lo, pool.left)
    }

    /** The list has a further slot, which is still empty. */
    ghost predicate Opened(at: nat, done: Slots, top0: nat, lo: nat)
      reads this, cells, pool, pool.buffer
    {
      && top0 <= at < cells.Length && top == top0 - CountSlots(done) - 1
      && IsList(cells[at].content)
      && cells[at].content.list == List(Some(top0 - 1), Some(top))
      && (done.Slot? ==>
            ChainStored(cells[..], pool.buffer[..], done, top0, L.S16(top - LastAt(done, top0)), lo, pool.left))
    }

    /** `addSlot`. */
    method AddSlot(at: nat, ghost done: Slots, ghost top0: nat, ghost lo: nat) returns (slot: Option<nat>)
      requires Valid() && ListAt(at, done, top0, lo)
      modifies this`top, pool, cells
      ensures Valid() && slot.Some? == (slotSize <= old(pool.Free())) && pool.left == old(pool.left)
      ensures old(pool.blocks) <= pool.blocks
      ensures slot.None? ==> ListAt(at, done, top0, lo) && pool.Free() == old(pool.Free())
      ensures slot.Some? ==>
        && slot == Some(top) && Opened(at, done, top0, lo) && cells[top] == CLEARED
        && pool.Free() == old(pool.Free()) - slotSize
      ensures SameKind(cells[at], old(cells[at]))
      ensures forall i :: top0 <= i < cells.Length && i != at ==> cells[i] == old(cells[i])
    {
      hide ChainStored, L.S16, P.Laid, Count;
      slot := AllocVariant();
      if slot.None? { return; }
      var list := cells[at].content.list;
      ghost var before := cells[..];
      if list.tail.Some? {
        LastWithin(done, top0);
        var tail := list.tail.value;
        cells[tail] := cells[tail].(next := L.S16(top - tail));
        cells[at] := cells[at].(content := Relisted(cells[at].content, List(list.head, Some(top))));
      } else {
        cells[at] := cells[at].(content := Relisted(cells[at].content, List(Some(top), Some(top))));
      }
      cells[top] := CLEARED;
      if done.Slot? {
        ChainRelinked(before, cells[..], pool.buffer[..], done, top0, 0, L.S16(top - LastAt(done, top0)), lo, pool.left);
      }
    }

    /** The further slot holds its key and its value: the list is longer by one. */
    lemma Appended(at: nat, done: Slots, key: Option<Key>, value: Variant, slot: nat, top0: nat, lo: nat)
      requires top0 <= at < cells.Length && slot == top0 - CountSlots(done) - 1 && top == slot - Count(value)
      requires IsList(cells[at].content) && cells[at].content.list == List(Some(top0 - 1), Some(slot))
      requires cells[slot].next == 0
      requires done.Slot? ==>
        ChainStored(cells[..], pool.buffer[..], done, top0, L.S16(slot - LastAt(done, top0)), lo, pool.left)
      requires KeyDenotes(pool.buffer[..], cells[slot].key, key, lo, pool.left)
      requires Stored(cells[..], pool.buffer[..], cells[slot].content, value, slot, lo, pool.left)
      ensures ListAt(at, Glue(done, Slot(key, value, End)), top0, lo)
    {
      hide ChainStored, KeyDenotes, Stored, L.S16, Count;
      ChainMore(cells[..], pool.buffer[..], done, key, value, top0, 0, lo, pool.left);
      GlueMore(done, key, value, End);
    }

    /** What the parts of an element keep of each other. */
    lemma Finished(
        at: nat, done: Slots, key: Option<Key>, value: Variant, slot: nat, top0: nat, lo: nat, cells1: seq<Cell>,
        text1: string, left1: nat, text2: string, left2: nat)
      requires top0 <= at < cells.Length && slot == top0 - CountSlots(done) - 1 && top == slot - Count(value)
      requires IsList(cells[at].content) && cells[at].content.list == List(Some(top0 - 1), Some(slot))
      requires lo <= left1 <= left2 <= pool.left <= pool.buffer.Length == |text1| == |text2|
      requires done.Slot? ==> ChainStored(cells1, text1, done, top0, L.S16(slot - LastAt(done, top0)), lo, left1)
      requires SameCells(cells1, cells[..], top0 - CountSlots(done), top0)
      requires SameText(text1, pool.buffer[..], lo, left1) && SameText(text2, pool.buffer[..], left1, left2)
      requires cells[slot].next == 0 && KeyDenotes(text2, cells[slot].key, key, left1, left2)
      requires Stored(cells[..], pool.buffer[..], cells[slot].content, value, slot, left2, pool.left)
      ensures ListAt(at, Glue(done, Slot(key, value, End)), top0, lo)
    {
      hide ChainStored, KeyDenotes, Stored, L.S16, Count, SameText;
      var now, text := cells[..], pool.buffer[..];
      assert SameText(text, text, left2, pool.left) by { SameAsItself(text, left2, pool.left); }
      KeyStays(text2, text, cells[slot].key, key, left1, left2, lo, pool.left);
      StoredStays(now, text, now, text, cells[slot].content, value, slot, left2, pool.left, lo, pool.left);
      if done.Slot? {
        ChainStays(cells1, text1, now, text, done, top0, L.S16(slot - LastAt(done, top0)), lo, left1, lo, pool.left);
      }
      Appended(at, done, key, value, slot, top0, lo);
    }

    /** One turn of the loop of `copyFrom`: a further slot, its key and its value. */
    method CopyElement(at: nat, src: Store, from: nat, ghost key: Option<Key>, ghost value: Variant, ghost own: set<nat>,
                       ghost hi: nat, ghost done: Slots, ghost top0: nat, ghost lo: nat) returns (ok: bool)
      requires Valid() && Copyable(src, at, own, hi) && ListAt(at, done, top0, lo) && lo <= pool.left
      requires forall i <- own :: src == this ==> top0 <= i
      requires from in own
      requires KeyDenotes(src.pool.buffer[..], src.cells[from].key, key, 0, hi)
      requires Denotes(src.cells[..], src.pool.buffer[..], src.cells[from].content, value, own, 0, hi)
      modifies this`top, pool, pool.buffer, cells
      ensures Valid() && top <= old(top) && old(pool.left) <= pool.left && old(pool.blocks) <= pool.blocks
      ensures var e := CopySlots(Slot(key, value, End), old(pool.Free()), slotSize);
        ok == e.ok && pool.Free() == e.free && ListAt(at, Glue(done, e.made), top0, lo)
      ensures SameKind(cells[at], old(cells[at]))
      ensures forall i :: top0 <= i < cells.Length && i != at ==> cells[i] == old(cells[i])
      ensures SameText(old(pool.buffer[..]), pool.buffer[..], 0, old(pool.left))
      decreases value, 1
    {
      hide Denotes, KeyDenotes, Stored, ChainStored, Count, P.Laid, L.S16, D.CopyVariant, CopySlots, LastAt;
      ghost var cells0, text0 := src.cells[..], src.pool.buffer[..];
      var sourceKey, source := src.cells[from].key, src.cells[from].content;
      GlueEnd(done);
      CopyOne(key, value, pool.Free(), slotSize);
      var added := AddSlot(at, done, top0, lo);
      if added.None? { return false; }
      var slot := added.value;
      ghost var cells1, text1, left1 := cells[..], pool.buffer[..], pool.left;
      ok := SetKey(slot, src, sourceKey, key, hi);
      ghost var text2, left2 := pool.buffer[..], pool.left;
      if !ok {
        EmptyValue(cells[..], text2, slot, left2);
        Finished(at, done, None, Scalar(NULL, 0), slot, top0, lo, cells1, text1, left1, text2, left2);
        return;
      }
      DenotesStays(cells0, text0, src.cells[..], src.pool.buffer[..], source, value, own, 0, hi);
      ghost var made := D.CopyVariant(value, pool.Free(), slotSize).made;
      ok := CopyVariant(slot, src, source, value, own, hi);
      Finished(at, done, key, made, slot, top0, lo, cells1, text1, left1, text2, left2);
    }

    /** `copyFrom` of a list. */
    method CopyList(at: nat, src: Store, list: List, ghost slots: Slots, ghost own: set<nat>, ghost hi: nat)
      returns (ok: bool)
      requires Valid() && Copyable(src, at, own, hi)
      requires ListDenotes(src.cells[..], src.pool.buffer[..], list.head, list.tail, slots, own, 0, hi)
      requires IsList(cells[at].content) && cells[at].content.list == List(None, None)
      modifies this`top, pool, pool.buffer, cells
      ensures Valid() && top <= old(top) && old(pool.left) <= pool.left && old(pool.blocks) <= pool.blocks
      ensures var copy := CopySlots(slots, old(pool.Free()), slotSize);
        ok == copy.ok && pool.Free() == copy.free && ListAt(at, copy.made, old(top), old(pool.left))
      ensures SameKind(cells[at], old(cells[at]))
      ensures forall i :: old(top) <= i < cells.Length && i != at ==> cells[i] == old(cells[i])
      ensures SameText(old(pool.buffer[..]), pool.buffer[..], 0, old(pool.left))
      decreases slots, 1
    {
      hide Denotes, KeyDenotes, Stored, ChainStored, Count, P.Laid, CopySlots;
      ghost var cells0, text0, top0, lo, free0 := src.cells[..], src.pool.buffer[..], top, pool.left, pool.Free();
      ghost var done, rest := End, slots;
      var s := list.head;
      EmptyStored(cells[..], pool.buffer[..], top0, lo, pool.left);
      while s.Some?
        invariant Valid() && top <= top0 && lo <= pool.left && old(pool.blocks) <= pool.blocks
        invariant rest == slots || rest < slots
        invariant ListDenotes(cells0, text0, s, list.tail, rest, own, 0, hi)
        invariant CopySlots(slots, free0, slotSize) == InFront(done, CopySlots(rest, pool.Free(), slotSize))
        invariant ListAt(at, done, top0, lo)
        invariant SameKind(cells[at], old(cells[at]))
        invariant forall i :: top0 <= i < cells.Length && i != at ==> cells[i] == old(cells[i])
        invariant SameText(old(pool.buffer[..]), pool.buffer[..], 0, lo)
        invariant src.Valid() && hi <= src.pool.left
        invariant |text0| == src.pool.buffer.Length && SameText(text0, src.pool.buffer[..], 0, hi)
        invariant forall i <- own :: src.cells[i] == cells0[i]
        decreases rest
      {
        var from: nat := s.value;
        KeyStays(text0, src.pool.buffer[..], cells0[from].key, rest.key, 0, hi, 0, hi);
        DenotesStays(cells0, text0, src.cells[..], src.pool.buffer[..], cells0[from].content, rest.value, own, 0, hi);
        CopyStep(rest, pool.Free(), slotSize);
        ghost var e := CopySlots(Slot(rest.key, rest.value, End), pool.Free(), slotSize);
        var next := src.cells[from].next;
        ok := CopyElement(at, src, from, rest.key, rest.value, own, hi, done, top0, lo);
        if !ok { return; }
        GlueTwo(done, e.made, CopySlots(rest.next, pool.Free(), slotSize).made);
        done, rest := Glue(done, e.made), rest.next;
        s := if next == 0 then None else Some(from + next);
      }
      CopyNone(pool.Free(), slotSize);
      GlueEnd(done);
      ok := true;
    }

    /** `copyFrom` of a value. */
    method CopyVariant(at: nat, src: Store, c: Content, ghost v: Variant, ghost own: set<nat>, ghost hi: nat)
      returns (ok: bool)
      requires Valid() && Copyable(src, at, own, hi)
      requires Denotes(src.cells[..], src.pool.buffer[..], c, v, own, 0, hi)
      modifies this`top, pool, pool.buffer, cells
      ensures Valid() && top <= old(top) && old(pool.left) <= pool.left && old(pool.blocks) <= pool.blocks
      ensures var copy := D.CopyVariant(v, old(pool.Free()), slotSize);
        && ok == copy.ok && pool.Free() == copy.free && top == old(top) - Count(copy.made)
        && Stored(cells[..], pool.buffer[..], cells[at].content, copy.made, old(top), old(pool.left), pool.left)
      ensures cells[at] == old(cells[at]).(content := cells[at].content)
      ensures forall i :: old(top) <= i < cells.Length && i != at ==> cells[i] == old(cells[i])
      ensures SameText(old(pool.buffer[..]), pool.buffer[..], 0, old(pool.left))
      decreases v, 0
    {
      hide ChainStored, P.Laid, CopySlots, ListDenotes;
      ghost var cells0, text0 := src.cells[..], src.pool.buffer[..];
      if IsList(c) {
        cells[at] := cells[at].(content := Relisted(c, List(None, None)));
        ListStays(cells0, text0, src.cells[..], src.pool.buffer[..], c.list.head, c.list.tail, v.slots, own, 0, hi);
        ok := CopyList(at, src, c.list, v.slots, own, hi);
      } else {
        ok := CopyLeaf(at, src, c, v, hi);
      }
    }

    /** MAIN (copies): copying the value at `from` of a store into the value at `at` of this one, which may be the
        same store. It succeeds exactly when the memory that the source uses is free, and takes exactly that. The
        copy's slots and strings are all newly taken, so it shares nothing with the source or any other document;
        everything that was there before is as it was, so the source still denotes its document; and if no element
        is too far from the next, the copy denotes the same one. */
    method CopyFrom(at: nat, src: Store, from: nat, ghost v: Variant, ghost own: set<nat>) returns (ok: bool)
      requires Valid() && Copyable(src, at, own, src.pool.left)
      requires from < src.cells.Length && (src == this ==> top <= from && from != at)
      requires Denotes(src.cells[..], src.pool.buffer[..], src.cells[from].content, v, own, 0, src.pool.left)
      modifies this`top, pool, pool.buffer, cells
      ensures Valid() && ok == (Usage(v, slotSize) <= old(pool.Free())) && old(pool.blocks) <= pool.blocks
      ensures ok ==>
        && pool.Free() == old(pool.Free()) - Usage(v, slotSize) && top == old(top) - Count(v)
        && (Reaches(cells[..], v, old(top)) <==> Near(v))
        && (Near(v) ==>
              Denotes(cells[..], pool.buffer[..], cells[at].content, v, Between(top, old(top)),
                      old(pool.left), pool.left))
      ensures Denotes(src.cells[..], src.pool.buffer[..], src.cells[from].content, v, own, 0, old(src.pool.left))
      ensures cells[at] == old(cells[at]).(content := cells[at].content)
      ensures forall i :: old(top) <= i < cells.Length && i != at ==> cells[i] == old(cells[i])
      ensures SameText(old(pool.buffer[..]), pool.buffer[..], 0, old(pool.left))
    {
      hide Denotes, Stored, Count, Near, Reaches, Usage, P.Laid, D.CopyVariant;
      ghost var cells0, text0, hi, top0, lo := src.cells[..], src.pool.buffer[..], src.pool.left, top, pool.left;
      CopyIsExact(v, pool.Free(), slotSize);
      var content := src.cells[from].content;
      ok := CopyVariant(at, src, content, v, own, hi);
      DenotesStays(cells0, text0, src.cells[..], src.pool.buffer[..], content, v, own, 0, hi);
      if ok {
        ReachesExactly(cells[..], pool.buffer[..], cells[at].content, v, top0, lo, pool.left);
        if Near(v) {
          StoredDenotes(cells[..], pool.buffer[..], cells[at].content, v, top0, Between(top, top0), lo, pool.left);
        }
      }
    }
  }

  /** `memcpy`. */
  method MemCopy(buffer: array<char>, d: nat, source: array<char>, at: nat, n: nat)
    requires d + n <= buffer.Length && at + n <= source.Length && (source == buffer ==> at + n <= d)
    modifies buffer
    ensures buffer[d..d + n] == old(source[at..at + n])
    ensures forall k :: 0 <= k < buffer.Length && (k < d || d + n <= k) ==> buffer[k] == old(buffer[k])
  {
    for i := 0 to n
      invariant buffer[d..d + i] == old(source[at..at + i])
      invariant forall k :: 0 <= k < buffer.Length && (k < d || d + i <= k) ==> buffer[k] == old(buffer[k])
    {
      buffer[d + i] := source[at + i];
      assert buffer[d..d + i + 1] == buffer[d..d + i] + [buffer[d + i]];
      assert old(source[at..at + i + 1]) == old(source[at..at + i]) + [old(source[at + i])];
    }
  }

  /** `strlen`. */
  method StrLen(buffer: array<char>, at: nat, ghost s: string, ghost lo: nat, ghost hi: nat) returns (n: nat)
    requires CString(buffer[..], at, s, lo, hi)
    ensures n == |s|
  {
    n := 0;
    NulAt(buffer[..], at, s, 0, lo, hi);
    while buffer[at + n] != '\0'
      invariant n <= |s| && at + |s| < buffer.Length && (buffer[at + n] == '\0' <==> n == |s|)
      decreases |s| - n
    {
      n := n + 1;
      NulAt(buffer[..], at, s, n, lo, hi);
    }
  }

  lemma NulAt(text: string, at: nat, s: string, n: nat, lo: nat, hi: nat)
    requires CString(text, at, s, lo, hi) && n <= |s|
    ensures text[at + n] == '\0' <==> n == |s|
  {
    if n < |s| { assert text[at..at + |s|][n] == s[n] && s[n] in s; }
  }
}
