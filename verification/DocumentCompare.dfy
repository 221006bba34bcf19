/**
 Comparing documents where they lie, by walking their slots. Two references to the same value are equal at once,
 before anything in it is looked at; that makes a difference when an object repeats a key.
 */
module DocumentCompare {
  import opened Wrappers
  import opened JsonDocument
  import opened DocumentStore

  // ---- What comparing comes to

  /** Where the slot behind `at` is, if there is one. */
  function Follow(cells: seq<Cell>, at: Option<int>): Option<int> {
    if at.Some? && 0 <= at.value < |cells| then Behind(cells, at.value) else None
  }

  function HeadOf(cells: seq<Cell>, at: int): Option<int> {
    if 0 <= at < |cells| && IsList(cells[at].content) then cells[at].content.list.head else None
  }

  /** Where the first slot with a key is. */
  function FindAt(cells: seq<Cell>, at: Option<int>, slots: Slots, key: string): Option<int>
    decreases slots
  {
    match slots
    case End => None
    case Slot(k, _, next) => if k.Some? && k.value.chars == key then at else FindAt(cells, Follow(cells, at), next, key)
  }

  /** The values at two places compared: that is one value, or equal ones. `same` tells whether both places are in the
      same store. */
  predicate EqualsAt(a: seq<Cell>, i: int, v: Variant, b: seq<Cell>, j: int, w: Variant, same: bool)
    decreases v
  {
    (same && i == j) ||
    match (v, w)
    case (Array(s), Array(t)) => ElementsAt(a, HeadOf(a, i), s, b, HeadOf(b, j), t, same)
    case (Object(s), Object(t)) => MembersAt(a, HeadOf(a, i), s, b, HeadOf(b, j), t, same) && Size(s) == Size(t)
    case _ => Equals(v, w)
  }

  /** `equalsArray`: once both walks are at the same slot, or both at the end, the rest is equal. */
  predicate ElementsAt(
      a: seq<Cell>, x: Option<int>, s: Slots, b: seq<Cell>, y: Option<int>, t: Slots, same: bool)
    decreases s
  {
    (same && x == y) ||
    match (s, t)
    case (End, End) => true
    case (Slot(_, v, s'), Slot(_, w, t')) =>
      x.Some? && y.Some? && EqualsAt(a, x.value, v, b, y.value, w, same)
      && ElementsAt(a, Follow(a, x), s', b, Follow(b, y), t', same)
    case _ => false
  }

  /** `equalsObject`, but for the count. */
  predicate MembersAt(
      a: seq<Cell>, x: Option<int>, s: Slots, b: seq<Cell>, head: Option<int>, t: Slots, same: bool)
    decreases s
  {
    match s
    case End => true
    case Slot(k, v, next) =>
      && x.Some? && k.Some? && Get(t, k.value.chars).Some? && FindAt(b, head, t, k.value.chars).Some?
      && EqualsAt(a, x.value, v, b, FindAt(b, head, t, k.value.chars).value, Get(t, k.value.chars).value, same)
      && MembersAt(a, Follow(a, x), next, b, head, t, same)
  }

  /** MAIN (comparing): a document compared with itself is equal, whatever is in it. */
  lemma EqualsWhereItIs(a: seq<Cell>, i: int, v: Variant)
    ensures EqualsAt(a, i, v, a, i, v, true)
  {
  }

  /** The slots of a list, for as long as it is one. */
  lemma ListStarts(
      cells: seq<Cell>, text: string, at: Option<int>, tail: Option<int>, slots: Slots, own: set<nat>, lo: nat, hi: nat)
    requires ListDenotes(cells, text, at, tail, slots, own, lo, hi)
    ensures slots.Slot? <==> at.Some?
    ensures slots.Slot? ==>
      && 0 <= at.value < |cells| && at.value in own && Follow(cells, at) == Behind(cells, at.value)
      && Denotes(cells, text, cells[at.value].content, slots.value, own, lo, hi)
      && ListDenotes(cells, text, Follow(cells, at), tail, slots.next, own, lo, hi)
  {
    hide Denotes, KeyDenotes;
  }

  lemma {:induction false} FindsSlot(
      cells: seq<Cell>, text: string, at: Option<int>, tail: Option<int>, slots: Slots, own: set<nat>, lo: nat, hi: nat,
      key: string)
    requires ListDenotes(cells, text, at, tail, slots, own, lo, hi)
    ensures var y, found := FindAt(cells, at, slots, key), Get(slots, key);
      && (y.Some? <==> found.Some?)
      && (y.Some? ==>
            0 <= y.value < |cells| && y.value in own
            && Denotes(cells, text, cells[y.value].content, found.value, own, lo, hi))
    decreases slots
  {
    hide Denotes, KeyDenotes;
    if slots.Slot? {
      ListStarts(cells, text, at, tail, slots, own, lo, hi);
      FindsSlot(cells, text, Follow(cells, at), tail, slots.next, own, lo, hi, key);
    }
  }

  /** No slot of one document is a slot of the other. */
  predicate Apart(same: bool, i: int, own: set<nat>, j: int, own': set<nat>) {
    same ==> i != j && own !! own'
  }

  /** MAIN (comparing): documents that share no slot are equal where they are exactly when they are equal as trees. */
  lemma {:induction false} EqualsApart(
      a: seq<Cell>, text: string, i: nat, v: Variant, own: set<nat>, b: seq<Cell>, text': string, j: nat, w: Variant,
      own': set<nat>, hi: nat, hi': nat, same: bool)
    requires i < |a| && Denotes(a, text, a[i].content, v, own, 0, hi)
    requires j < |b| && Denotes(b, text', b[j].content, w, own', 0, hi') && Apart(same, i, own, j, own')
    ensures EqualsAt(a, i, v, b, j, w, same) <==> Equals(v, w)
    decreases v
  {
    hide ListDenotes, LeafDenotes;
    match (v, w)
    case (Array(s), Array(t)) =>
      ElementsApart(a, text, a[i].content.list.head, a[i].content.list.tail, s, own,
                    b, text', b[j].content.list.head, b[j].content.list.tail, t, own', hi, hi', same);
    case (Object(s), Object(t)) =>
      MembersApart(a, text, a[i].content.list.head, a[i].content.list.tail, s, own,
                   b, text', b[j].content.list.head, b[j].content.list.tail, t, own', hi, hi', same);
    case _ =>
  }

  lemma {:induction false} ElementsApart(
      a: seq<Cell>, text: string, x: Option<int>, tail: Option<int>, s: Slots, own: set<nat>, b: seq<Cell>,
      text': string, y: Option<int>, tail': Option<int>, t: Slots, own': set<nat>, hi: nat, hi': nat, same: bool)
    requires ListDenotes(a, text, x, tail, s, own, 0, hi) && ListDenotes(b, text', y, tail', t, own', 0, hi')
    requires same ==> own !! own'
    ensures ElementsAt(a, x, s, b, y, t, same) <==> EqualElements(s, t)
    decreases s
  {
    hide ListDenotes, Denotes, Equals, EqualsAt, Follow;
    ListStarts(a, text, x, tail, s, own, 0, hi);
    ListStarts(b, text', y, tail', t, own', 0, hi');
    if s.Slot? && t.Slot? {
      EqualsApart(a, text, x.value, s.value, own, b, text', y.value, t.value, own', hi, hi', same);
      ElementsApart(a, text, Follow(a, x), tail, s.next, own, b, text', Follow(b, y), tail', t.next, own', hi, hi', same);
    }
  }

  lemma {:induction false} MembersApart(
      a: seq<Cell>, text: string, x: Option<int>, tail: Option<int>, s: Slots, own: set<nat>, b: seq<Cell>,
      text': string, head: Option<int>, tail': Option<int>, t: Slots, own': set<nat>, hi: nat, hi': nat, same: bool)
    requires ListDenotes(a, text, x, tail, s, own, 0, hi) && ListDenotes(b, text', head, tail', t, own', 0, hi')
    requires same ==> own !! own'
    ensures MembersAt(a, x, s, b, head, t, same) <==> MembersFound(s, t)
    decreases s
  {
    hide ListDenotes, Denotes, Equals, EqualsAt, Follow, FindAt;
    ListStarts(a, text, x, tail, s, own, 0, hi);
    if s.Slot? {
      if s.key.Some? {
        var key := s.key.value.chars;
        FindsSlot(b, text', head, tail', t, own', 0, hi', key);
        var y := FindAt(b, head, t, key);
        if y.Some? {
          EqualsApart(a, text, x.value, s.value, own, b, text', y.value, Get(t, key).value, own', hi, hi', same);
        }
      }
      MembersApart(a, text, Follow(a, x), tail, s.next, own, b, text', head, tail', t, own', hi, hi', same);
    }
  }

  /** Two copies of a document that share no slot are equal where they are exactly when the document is tidy. */
  lemma CopiesEqualWhenTidy(
      a: seq<Cell>, text: string, i: nat, v: Variant, own: set<nat>, b: seq<Cell>, text': string, j: nat,
      own': set<nat>, hi: nat, hi': nat, same: bool)
    requires i < |a| && Denotes(a, text, a[i].content, v, own, 0, hi) && Keyed(v)
    requires j < |b| && Denotes(b, text', b[j].content, v, own', 0, hi') && Apart(same, i, own, j, own')
    ensures EqualsAt(a, i, v, b, j, v, same) <==> Tidy(v)
  {
    hide EqualsAt, Denotes, Equals, Tidy;
    EqualsApart(a, text, i, v, own, b, text', j, v, own', hi, hi', same);
    EqualsItsCopy(v);
  }

  /** Documents with unique keys that share no slot are equal where they are exactly when they say the same. */
  lemma SameMeaningApart(
      a: seq<Cell>, text: string, i: nat, v: Variant, own: set<nat>, b: seq<Cell>, text': string, j: nat, w: Variant,
      own': set<nat>, hi: nat, hi': nat, same: bool)
    requires i < |a| && Denotes(a, text, a[i].content, v, own, 0, hi) && UniqueKeys(v)
    requires j < |b| && Denotes(b, text', b[j].content, w, own', 0, hi') && UniqueKeys(w) && Apart(same, i, own, j, own')
    ensures EqualsAt(a, i, v, b, j, w, same) <==> MeaningOf(v) == MeaningOf(w)
  {
    hide EqualsAt, Denotes, Equals, UniqueKeys, MeaningOf;
    EqualsApart(a, text, i, v, own, b, text', j, w, own', hi, hi', same);
    EqualsIsSameMeaning(v, w);
  }

  /** A document that is equal as a tree is so where it is, whatever slots the two share. */
  lemma {:induction false} EqualsStays(
      a: seq<Cell>, text: string, i: nat, v: Variant, own: set<nat>, b: seq<Cell>, text': string, j: nat, w: Variant,
      own': set<nat>, hi: nat, hi': nat, same: bool)
    requires i < |a| && Denotes(a, text, a[i].content, v, own, 0, hi)
    requires j < |b| && Denotes(b, text', b[j].content, w, own', 0, hi') && Equals(v, w)
    ensures EqualsAt(a, i, v, b, j, w, same)
    decreases v
  {
    hide ListDenotes, LeafDenotes;
    match (v, w)
    case (Array(s), Array(t)) =>
      ElementsStay(a, text, a[i].content.list.head, a[i].content.list.tail, s, own,
                   b, text', b[j].content.list.head, b[j].content.list.tail, t, own', hi, hi', same);
    case (Object(s), Object(t)) =>
      MembersStay(a, text, a[i].content.list.head, a[i].content.list.tail, s, own,
                  b, text', b[j].content.list.head, b[j].content.list.tail, t, own', hi, hi', same);
    case _ =>
  }

  lemma {:induction false} ElementsStay(
      a: seq<Cell>, text: string, x: Option<int>, tail: Option<int>, s: Slots, own: set<nat>, b: seq<Cell>,
      text': string, y: Option<int>, tail': Option<int>, t: Slots, own': set<nat>, hi: nat, hi': nat, same: bool)
    requires ListDenotes(a, text, x, tail, s, own, 0, hi) && ListDenotes(b, text', y, tail', t, own', 0, hi')
    requires EqualElements(s, t)
    ensures ElementsAt(a, x, s, b, y, t, same)
    decreases s
  {
    hide ListDenotes, Denotes, Equals, EqualsAt, Follow;
    ListStarts(a, text, x, tail, s, own, 0, hi);
    ListStarts(b, text', y, tail', t, own', 0, hi');
    if s.Slot? {
      EqualsStays(a, text, x.value, s.value, own, b, text', y.value, t.value, own', hi, hi', same);
      ElementsStay(a, text, Follow(a, x), tail, s.next, own, b, text', Follow(b, y), tail', t.next, own', hi, hi', same);
    }
  }

  lemma {:induction false} MembersStay(
      a: seq<Cell>, text: string, x: Option<int>, tail: Option<int>, s: Slots, own: set<nat>, b: seq<Cell>,
      text': string, head: Option<int>, tail': Option<int>, t: Slots, own': set<nat>, hi: nat, hi': nat, same: bool)
    requires ListDenotes(a, text, x, tail, s, own, 0, hi) && ListDenotes(b, text', head, tail', t, own', 0, hi')
    requires MembersFound(s, t)
    ensures MembersAt(a, x, s, b, head, t, same)
    decreases s
  {
    hide ListDenotes, Denotes, Equals, EqualsAt, Follow, FindAt;
    ListStarts(a, text, x, tail, s, own, 0, hi);
    if s.Slot? {
      var key := s.key.value.chars;
      FindsSlot(b, text', head, tail', t, own', 0, hi', key);
      var y := FindAt(b, head, t, key);
      EqualsStays(a, text, x.value, s.value, own, b, text', y.value, Get(t, key).value, own', hi, hi', same);
      MembersStay(a, text, Follow(a, x), tail, s.next, own, b, text', head, tail', t, own', hi, hi', same);
    }
  }

  // ---- Comparing as it runs

  /** Reading a C string. */
  method ReadString(buffer: array<char>, at: nat, ghost s: string, ghost hi: nat) returns (r: string)
    requires CString(buffer[..], at, s, 0, hi)
    ensures r == s
  {
    var n := 0;
    r := [];
    NulAt(buffer[..], at, s, 0, 0, hi);
    while buffer[at + n] != '\0'
      invariant n <= |s| && at + |s| < buffer.Length && r == s[..n] && (buffer[at + n] == '\0' <==> n == |s|)
      decreases |s| - n
    {
      assert buffer[..][at..at + |s|][n] == s[n];
      r := r + [buffer[at + n]];
      n := n + 1;
      NulAt(buffer[..], at, s, n, 0, hi);
    }
  }

  /** `strcmp`, for equality. */
  method StrEqual(buffer: array<char>, at: nat, other: array<char>, at': nat, ghost s: string, ghost t: string,
                  ghost hi: nat, ghost hi': nat) returns (eq: bool)
    requires CString(buffer[..], at, s, 0, hi) && CString(other[..], at', t, 0, hi')
    ensures eq == (s == t)
  {
    var n := 0;
    CharAt(buffer[..], at, s, 0, hi);
    CharAt(other[..], at', t, 0, hi');
    while buffer[at + n] == other[at' + n] && buffer[at + n] != '\0'
      invariant n <= |s| && n <= |t| && at + |s| < buffer.Length && at' + |t| < other.Length && s[..n] == t[..n]
      invariant buffer[at + n] == (s + ['\0'])[n] && other[at' + n] == (t + ['\0'])[n]
      invariant '\0' !in s && '\0' !in t
      decreases |s| - n
    {
      NulEnds(s, n);
      NulEnds(t, n);
      assert s[..n + 1] == s[..n] + [s[n]] && t[..n + 1] == t[..n] + [t[n]];
      n := n + 1;
      CharAt(buffer[..], at, s, n, hi);
      CharAt(other[..], at', t, n, hi');
    }
    eq := buffer[at + n] == other[at' + n];
    NulEnds(s, n);
    NulEnds(t, n);
    assert s[..|s|] == s && t[..|t|] == t;
  }

  lemma NulEnds(s: string, n: nat)
    requires '\0' !in s && n <= |s|
    ensures (s + ['\0'])[n] == '\0' <==> n == |s|
  {
    if n < |s| { assert s[n] in s; }
  }

  lemma CharAt(text: string, at: nat, s: string, n: nat, hi: nat)
    requires CString(text, at, s, 0, hi) && n <= |s|
    ensures text[at + n] == (s + ['\0'])[n]
  {
    if n < |s| { assert text[at..at + |s|][n] == s[n]; }
  }

  /** `memcmp`, for equality. */
  method MemEqual(buffer: array<char>, at: nat, other: array<char>, at': nat, size: nat) returns (eq: bool)
    requires at + size <= buffer.Length && at' + size <= other.Length
    ensures eq == (buffer[at..at + size] == other[at'..at' + size])
  {
    for n := 0 to size
      invariant buffer[at..at + n] == other[at'..at' + n]
    {
      if buffer[at + n] != other[at' + n] {
        assert buffer[at..at + size][n] != other[at'..at' + size][n];
        return false;
      }
      assert buffer[at..at + n + 1] == buffer[at..at + n] + [buffer[at + n]];
      assert other[at'..at' + n + 1] == other[at'..at' + n] + [other[at' + n]];
    }
    return true;
  }

  /** A key, whoever owns it. */
  method KeyString(a: Store, k: KeyPtr, ghost key: Key, ghost hi: nat) returns (r: string)
    requires KeyDenotes(a.pool.buffer[..], Some(k), Some(key), 0, hi)
    ensures r == key.chars
  {
    match k
    case LinkedKey(chars) => r := chars;
    case OwnedKey(at) => r := ReadString(a.pool.buffer, at, key.chars, hi);
  }

  /** `getSlot`, by key. */
  method GetSlot(a: Store, head: Option<int>, key: string, ghost tail: Option<int>, ghost slots: Slots,
                 ghost own: set<nat>, ghost hi: nat) returns (slot: Option<int>)
    requires ListDenotes(a.cells[..], a.pool.buffer[..], head, tail, slots, own, 0, hi)
    ensures slot == FindAt(a.cells[..], head, slots, key)
  {
    hide Denotes, KeyDenotes;
    slot := head;
    ghost var rest := slots;
    ghost var cells, text := a.cells[..], a.pool.buffer[..];
    ListStarts(cells, text, slot, tail, rest, own, 0, hi);
    while slot.Some?
      invariant ListDenotes(cells, text, slot, tail, rest, own, 0, hi) && (rest.Slot? <==> slot.Some?)
      invariant FindAt(cells, slot, rest, key) == FindAt(cells, head, slots, key)
      decreases rest
    {
      var cell := a.cells[slot.value];
      if cell.key.Some? {
        KeyThere(text, cell.key, rest.key, hi);
        var found := KeyString(a, cell.key.value, rest.key.value, hi);
        if found == key { return; }
      } else {
        KeyThere(text, cell.key, rest.key, hi);
      }
      slot, rest := if cell.next == 0 then None else Some(slot.value + cell.next), rest.next;
      ListStarts(cells, text, slot, tail, rest, own, 0, hi);
    }
  }

  lemma KeyThere(text: string, k: Option<KeyPtr>, key: Option<Key>, hi: nat)
    requires KeyDenotes(text, k, key, 0, hi)
    ensures k.Some? <==> key.Some?
  {
  }

  /** `size`. */
  method ListSize(a: Store, head: Option<int>, ghost tail: Option<int>, ghost slots: Slots, ghost own: set<nat>,
                  ghost hi: nat) returns (n: nat)
    requires ListDenotes(a.cells[..], a.pool.buffer[..], head, tail, slots, own, 0, hi)
    ensures n == Size(slots)
  {
    hide Denotes, KeyDenotes;
    n := 0;
    var slot := head;
    ghost var rest := slots;
    ghost var cells, text := a.cells[..], a.pool.buffer[..];
    while slot.Some?
      invariant ListDenotes(cells, text, slot, tail, rest, own, 0, hi) && n + Size(rest) == Size(slots)
      decreases rest
    {
      ListStarts(cells, text, slot, tail, rest, own, 0, hi);
      var next := a.cells[slot.value].next;
      slot, rest, n := if next == 0 then None else Some(slot.value + next), rest.next, n + 1;
    }
  }

  /** `equals` of values that are no lists. */
  method LeafEquals(a: Store, c: Content, b: Store, d: Content, ghost v: Variant, ghost w: Variant, ghost hi: nat,
                    ghost hi': nat) returns (eq: bool)
    requires LeafDenotes(a.pool.buffer[..], c, v, 0, hi) && LeafDenotes(b.pool.buffer[..], d, w, 0, hi')
    ensures eq == Equals(v, w)
  {
    match c
    case Bare(tag, bits) => eq := d.Bare? && d.tag == tag && (tag == NULL || d.bits == bits);
    case LinkedText(chars) => eq := d == c;
    case LinkedRaw(data) => eq := d == c;
    case OwnedText(at) =>
      if !d.OwnedText? { return false; }
      eq := StrEqual(a.pool.buffer, at, b.pool.buffer, d.at, v.chars, w.chars, hi, hi');
    case OwnedRaw(at, size) =>
      if !d.OwnedRaw? || d.size != size { return false; }
      eq := MemEqual(a.pool.buffer, at, b.pool.buffer, d.at, size);
      assert a.pool.buffer[..][at..at + size] == a.pool.buffer[at..at + size];
      assert b.pool.buffer[..][d.at..d.at + size] == b.pool.buffer[d.at..d.at + size];
    case _ => eq := false;
  }

  /** `variantEquals`, of the values at two places: the same place is equal at once. */
  method VariantEquals(a: Store, i: nat, b: Store, j: nat, ghost v: Variant, ghost own: set<nat>, ghost w: Variant,
                       ghost own': set<nat>, ghost hi: nat, ghost hi': nat) returns (eq: bool)
    requires i < a.cells.Length && Denotes(a.cells[..], a.pool.buffer[..], a.cells[i].content, v, own, 0, hi)
    requires j < b.cells.Length && Denotes(b.cells[..], b.pool.buffer[..], b.cells[j].content, w, own', 0, hi')
    requires Keyed(v)
    ensures eq == EqualsAt(a.cells[..], i, v, b.cells[..], j, w, a == b)
    decreases v, 1
  {
    hide ListDenotes, ElementsAt, MembersAt;
    if a == b && i == j { return true; }
    var c, d := a.cells[i].content, b.cells[j].content;
    if c.ArrayOf? && d.ArrayOf? {
      eq := ArrayEquals(a, c.list, b, d.list, v.slots, own, w.slots, own', hi, hi');
    } else if c.ObjectOf? && d.ObjectOf? {
      eq := ObjectEquals(a, c.list, b, d.list, v.slots, own, w.slots, own', hi, hi');
    } else if IsList(c) || IsList(d) {
      eq := false;
    } else {
      eq := LeafEquals(a, c, b, d, v, w, hi, hi');
    }
  }

  /** `equalsArray`. */
  method ArrayEquals(a: Store, list: List, b: Store, other: List, ghost s: Slots, ghost own: set<nat>, ghost t: Slots,
                     ghost own': set<nat>, ghost hi: nat, ghost hi': nat) returns (eq: bool)
    requires ListDenotes(a.cells[..], a.pool.buffer[..], list.head, list.tail, s, own, 0, hi)
    requires ListDenotes(b.cells[..], b.pool.buffer[..], other.head, other.tail, t, own', 0, hi')
    requires SlotsKeyed(s, false)
    ensures eq == ElementsAt(a.cells[..], list.head, s, b.cells[..], other.head, t, a == b)
    decreases s, 0
  {
    hide Denotes, KeyDenotes, EqualsAt, ListDenotes, Keyed;
    var s1, s2 := list.head, other.head;
    ghost var rest, rest' := s, t;
    ghost var cells, text, cells', text' := a.cells[..], a.pool.buffer[..], b.cells[..], b.pool.buffer[..];
    while true
      invariant ListDenotes(cells, text, s1, list.tail, rest, own, 0, hi)
      invariant ListDenotes(cells', text', s2, other.tail, rest', own', 0, hi')
      invariant SlotsKeyed(rest, false) && (rest == s || rest < s)
      invariant ElementsAt(cells, s1, rest, cells', s2, rest', a == b)
        == ElementsAt(cells, list.head, s, cells', other.head, t, a == b)
      decreases rest
    {
      ListStarts(cells, text, s1, list.tail, rest, own, 0, hi);
      ListStarts(cells', text', s2, other.tail, rest', own', 0, hi');
      if s1 == None && s2 == None { return true; }
      if a == b && s1 == s2 { return true; }
      if s1 == None || s2 == None { return false; }
      eq := VariantEquals(a, s1.value, b, s2.value, rest.value, own, rest'.value, own', hi, hi');
      if !eq { return; }
      var next, next' := a.cells[s1.value].next, b.cells[s2.value].next;
      s1 := if next == 0 then None else Some(s1.value + next);
      s2 := if next' == 0 then None else Some(s2.value + next');
      rest, rest' := rest.next, rest'.next;
    }
  }

  /** `equalsObject`. */
  method ObjectEquals(a: Store, list: List, b: Store, other: List, ghost s: Slots, ghost own: set<nat>, ghost t: Slots,
                      ghost own': set<nat>, ghost hi: nat, ghost hi': nat) returns (eq: bool)
    requires ListDenotes(a.cells[..], a.pool.buffer[..], list.head, list.tail, s, own, 0, hi)
    requires ListDenotes(b.cells[..], b.pool.buffer[..], other.head, other.tail, t, own', 0, hi')
    requires SlotsKeyed(s, true)
    ensures eq == (MembersAt(a.cells[..], list.head, s, b.cells[..], other.head, t, a == b) && Size(s) == Size(t))
    decreases s, 0
  {
    hide Denotes, KeyDenotes, EqualsAt, ListDenotes, FindAt, Keyed;
    var slot, count := list.head, 0;
    ghost var rest := s;
    ghost var cells, text, cells', text' := a.cells[..], a.pool.buffer[..], b.cells[..], b.pool.buffer[..];
    ListStarts(cells, text, slot, list.tail, rest, own, 0, hi);
    while slot.Some?
      invariant ListDenotes(cells, text, slot, list.tail, rest, own, 0, hi) && (rest.Slot? <==> slot.Some?)
      invariant SlotsKeyed(rest, true) && (rest == s || rest < s) && count + Size(rest) == Size(s)
      invariant MembersAt(cells, slot, rest, cells', other.head, t, a == b)
        == MembersAt(cells, list.head, s, cells', other.head, t, a == b)
      decreases rest
    {
      ListStarts(cells, text, slot, list.tail, rest, own, 0, hi);
      KeyHere(cells, text, slot, list.tail, rest, own, hi);
      var cell := a.cells[slot.value];
      var key := KeyString(a, cell.key.value, rest.key.value, hi);
      FindsSlot(cells', text', other.head, other.tail, t, own', 0, hi', key);
      var v2 := GetSlot(b, other.head, key, other.tail, t, own', hi');
      if v2 == None { return false; }
      eq := VariantEquals(a, slot.value, b, v2.value, rest.value, own, Get(t, key).value, own', hi, hi');
      if !eq { return; }
      count := count + 1;
      slot, rest := if cell.next == 0 then None else Some(slot.value + cell.next), rest.next;
      ListStarts(cells, text, slot, list.tail, rest, own, 0, hi);
    }
    var size := ListSize(b, other.head, other.tail, t, own', hi');
    eq := count == size;
  }

  lemma KeyHere(
      cells: seq<Cell>, text: string, at: Option<int>, tail: Option<int>, slots: Slots, own: set<nat>, hi: nat)
    requires ListDenotes(cells, text, at, tail, slots, own, 0, hi) && slots.Slot? && slots.key.Some?
    ensures at.Some? && 0 <= at.value < |cells| && cells[at.value].key.Some?
    ensures KeyDenotes(text, cells[at.value].key, slots.key, 0, hi)
  {
    hide Denotes;
  }

  // ---- Measuring

  /** `memoryUsage`. */
  method MemoryUsage(a: Store, c: Content, ghost v: Variant, ghost own: set<nat>, ghost hi: nat) returns (n: nat)
    requires Denotes(a.cells[..], a.pool.buffer[..], c, v, own, 0, hi)
    ensures n == Usage(v, a.slotSize)
    decreases v, 1
  {
    hide ListDenotes;
    if c.OwnedText? {
      var length := StrLen(a.pool.buffer, c.at, v.chars, 0, hi);
      n := length + 1;
    } else if c.OwnedRaw? {
      n := c.size;
    } else if IsList(c) {
      n := ListUsage(a, c.list, v.slots, own, hi);
    } else {
      n := 0;
    }
  }

  method ListUsage(a: Store, list: List, ghost slots: Slots, ghost own: set<nat>, ghost hi: nat) returns (total: nat)
    requires ListDenotes(a.cells[..], a.pool.buffer[..], list.head, list.tail, slots, own, 0, hi)
    ensures total == SlotsUsage(slots, a.slotSize)
    decreases slots, 0
  {
    hide Denotes, Usage, ListDenotes, KeyDenotes;
    total := 0;
    var slot := list.head;
    ghost var rest := slots;
    ghost var cells, text := a.cells[..], a.pool.buffer[..];
    ListStarts(cells, text, slot, list.tail, rest, own, 0, hi);
    while slot.Some?
      invariant ListDenotes(cells, text, slot, list.tail, rest, own, 0, hi) && (rest.Slot? <==> slot.Some?)
      invariant rest == slots || rest < slots
      invariant total + SlotsUsage(rest, a.slotSize) == SlotsUsage(slots, a.slotSize)
      decreases rest
    {
      ListStarts(cells, text, slot, list.tail, rest, own, 0, hi);
      var cell := a.cells[slot.value];
      var used := MemoryUsage(a, cell.content, rest.value, own, hi);
      var key := OwnedKeyUsage(a, slot.value, rest, list.tail, own, hi);
      total := total + a.slotSize + used + key;
      slot, rest := if cell.next == 0 then None else Some(slot.value + cell.next), rest.next;
      ListStarts(cells, text, slot, list.tail, rest, own, 0, hi);
    }
  }

  method OwnedKeyUsage(a: Store, slot: int, ghost rest: Slots, ghost tail: Option<int>, ghost own: set<nat>, ghost hi: nat)
    returns (n: nat)
    requires ListDenotes(a.cells[..], a.pool.buffer[..], Some(slot), tail, rest, own, 0, hi)
    ensures rest.Slot? && n == KeyUsage(rest.key)
  {
    hide Denotes;
    n := 0;
    var key := a.cells[slot].key;
    if key.Some? && key.value.OwnedKey? {
      var length := StrLen(a.pool.buffer, key.value.at, rest.key.value.chars, 0, hi);
      n := length + 1;
    }
  }

  /** `nesting`. */
  method MeasureNesting(a: Store, c: Content, ghost v: Variant, ghost own: set<nat>, ghost hi: nat) returns (n: nat)
    requires Denotes(a.cells[..], a.pool.buffer[..], c, v, own, 0, hi)
    ensures n == Nesting(v)
    decreases v, 1
  {
    hide ListDenotes;
    n := 0;
    if IsList(c) { n := ListNesting(a, c.list, v.slots, own, hi); }
  }

  method ListNesting(a: Store, list: List, ghost slots: Slots, ghost own: set<nat>, ghost hi: nat) returns (n: nat)
    requires ListDenotes(a.cells[..], a.pool.buffer[..], list.head, list.tail, slots, own, 0, hi)
    ensures n == SlotsNesting(slots) + 1
    decreases slots, 0
  {
    hide Denotes, ListDenotes, Nesting;
    var most := 0;
    var slot := list.head;
    ghost var rest := slots;
    ghost var cells, text := a.cells[..], a.pool.buffer[..];
    ListStarts(cells, text, slot, list.tail, rest, own, 0, hi);
    while slot.Some?
      invariant ListDenotes(cells, text, slot, list.tail, rest, own, 0, hi) && (rest.Slot? <==> slot.Some?)
      invariant rest == slots || rest < slots
      invariant (if most > SlotsNesting(rest) then most else SlotsNesting(rest)) == SlotsNesting(slots)
      decreases rest
    {
      ListStarts(cells, text, slot, list.tail, rest, own, 0, hi);
      var cell := a.cells[slot.value];
      var child := MeasureNesting(a, cell.content, rest.value, own, hi);
      if child > most { most := child; }
      slot, rest := if cell.next == 0 then None else Some(slot.value + cell.next), rest.next;
      ListStarts(cells, text, slot, list.tail, rest, own, 0, hi);
    }
    n := most + 1;
  }
}
