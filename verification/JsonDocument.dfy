/**
 Documents as they are stored: values that own their strings or only point at them. Copying a document into a
 pool, and comparing two.
 */
module JsonDocument {
  import opened Wrappers

  const NULL: nat := 0

  /** A value; `Scalar` is null, a boolean or an integer, told by its type tag and bits; the bits of a null are what
      was left behind. */
  datatype Variant =
    | Scalar(tag: nat, bits: nat)
    | Text(chars: string, owned: bool)
    | Raw(data: string, owned: bool)
    | Array(slots: Slots)
    | Object(slots: Slots)

  datatype Key = Key(chars: string, owned: bool)

  /** The slots of a list, in order; those of an array have no key. */
  datatype Slots = End | Slot(key: Option<Key>, value: Variant, next: Slots)

  // ---- Copying

  /** `memoryUsage`: the bytes a value takes besides its own slot, for slots of `slotSize` bytes. */
  function Usage(v: Variant, slotSize: nat): nat
    decreases v
  {
    match v
    case Scalar(_, _) => 0
    case Text(chars, owned) => if owned then |chars| + 1 else 0
    case Raw(data, owned) => if owned then |data| else 0
    case Array(slots) => SlotsUsage(slots, slotSize)
    case Object(slots) => SlotsUsage(slots, slotSize)
  }

  function SlotsUsage(slots: Slots, slotSize: nat): nat
    decreases slots
  {
    match slots
    case End => 0
    case Slot(key, value, next) =>
      slotSize + KeyUsage(key) + Usage(value, slotSize) + SlotsUsage(next, slotSize)
  }

  function KeyUsage(key: Option<Key>): nat {
    if key.Some? && key.value.owned then |key.value.chars| + 1 else 0
  }

  /** All slots of a document, and the strings it owns, its keys among them: their characters. */
  function Parts(v: Variant): (nat, seq<nat>)
    decreases v
  {
    match v
    case Text(chars, true) => (0, [|chars| + 1])
    case Raw(data, true) => (0, [|data|])
    case Array(slots) => SlotParts(slots)
    case Object(slots) => SlotParts(slots)
    case _ => (0, [])
  }

  function SlotParts(slots: Slots): (nat, seq<nat>)
    decreases slots
  {
    match slots
    case End => (0, [])
    case Slot(key, value, next) =>
      var (n, sizes) := Parts(value);
      var (m, more) := SlotParts(next);
      (1 + n + m, (match key case Some(Key(chars, true)) => [|chars| + 1] case _ => []) + sizes + more)
  }

  function Sum(sizes: seq<nat>): nat {
    if sizes == [] then 0 else sizes[0] + Sum(sizes[1..])
  }

  lemma {:induction false} SumAppend(a: seq<nat>, b: seq<nat>)
    ensures Sum(a + b) == Sum(a) + Sum(b)
    decreases |a|
  {
    if a == [] {
      assert a + b == b;
    } else {
      assert (a + b)[1..] == a[1..] + b;
      SumAppend(a[1..], b);
    }
  }

  /** The memory a document uses: its slots, and each string it owns with its NUL. */
  lemma {:induction false} UsageAddsUp(v: Variant, slotSize: nat)
    ensures var (n, sizes) := Parts(v); Usage(v, slotSize) == n * slotSize + Sum(sizes)
    decreases v
  {
    match v
    case Array(slots) => SlotsUsageAddsUp(slots, slotSize);
    case Object(slots) => SlotsUsageAddsUp(slots, slotSize);
    case _ =>
  }

  lemma {:induction false} SlotsUsageAddsUp(slots: Slots, slotSize: nat)
    ensures var (n, sizes) := SlotParts(slots); SlotsUsage(slots, slotSize) == n * slotSize + Sum(sizes)
    decreases slots
  {
    if slots.Slot? {
      UsageAddsUp(slots.value, slotSize);
      SlotsUsageAddsUp(slots.next, slotSize);
      var (n, sizes) := Parts(slots.value);
      var (m, more) := SlotParts(slots.next);
      var own: seq<nat> := match slots.key case Some(Key(chars, true)) => [|chars| + 1] case _ => [];
      SumAppend(own + sizes, more);
      SumAppend(own, sizes);
      assert (1 + n + m) * slotSize == slotSize + n * slotSize + m * slotSize;
    }
  }

  /** What copying made, whether it succeeded, and the bytes left free. */
  datatype Copy<T> = Copy(made: T, ok: bool, free: nat)

  /** `copyFrom` of a value. A string that does not fit leaves null. */
  function CopyVariant(v: Variant, free: nat, slotSize: nat): Copy<Variant>
    decreases v
  {
    match v
    case Scalar(_, _) => Copy(v, true, free)
    case Text(chars, owned) =>
      if !owned then Copy(v, true, free)
      else if |chars| + 1 <= free then Copy(v, true, free - |chars| - 1)
      else Copy(Scalar(NULL, 0), false, free)
    case Raw(data, owned) =>
      if !owned then Copy(v, true, free)
      else if |data| <= free then Copy(v, true, free - |data|)
      else Copy(Scalar(NULL, 0), false, free)
    case Array(slots) =>
      var c := CopySlots(slots, free, slotSize);
      Copy(Array(c.made), c.ok, c.free)
    case Object(slots) =>
      var c := CopySlots(slots, free, slotSize);
      Copy(Object(c.made), c.ok, c.free)
  }

  /** `copyFrom` of a list: a slot, its key if that is owned, its value, and so on until something does not
      fit. A slot whose key does not fit stays without one. */
  function CopySlots(slots: Slots, free: nat, slotSize: nat): Copy<Slots>
    decreases slots
  {
    match slots
    case End => Copy(End, true, free)
    case Slot(key, value, next) =>
      if free < slotSize then Copy(End, false, free)
      else if free - slotSize < KeyUsage(key) then Copy(Slot(None, Scalar(NULL, 0), End), false, free - slotSize)
      else
        var v := CopyVariant(value, free - slotSize - KeyUsage(key), slotSize);
        if !v.ok then Copy(Slot(key, v.made, End), false, v.free)
        else
          var more := CopySlots(next, v.free, slotSize);
          Copy(Slot(key, v.made, more.made), more.ok, more.free)
  }

  /** MAIN (documents): a copy succeeds exactly when the memory the source uses is free, takes exactly that
      much, and is the source. */
  lemma {:induction false} CopyIsExact(v: Variant, free: nat, slotSize: nat)
    ensures var c := CopyVariant(v, free, slotSize);
      (c.ok <==> Usage(v, slotSize) <= free) && (c.ok ==> c.made == v && c.free == free - Usage(v, slotSize))
    decreases v
  {
    match v
    case Array(slots) => CopySlotsIsExact(slots, free, slotSize);
    case Object(slots) => CopySlotsIsExact(slots, free, slotSize);
    case _ =>
  }

  lemma {:induction false} CopySlotsIsExact(slots: Slots, free: nat, slotSize: nat)
    ensures var c := CopySlots(slots, free, slotSize);
      && (c.ok <==> SlotsUsage(slots, slotSize) <= free)
      && (c.ok ==> c.made == slots && c.free == free - SlotsUsage(slots, slotSize))
    decreases slots
  {
    if slots.Slot? && free >= slotSize + KeyUsage(slots.key) {
      var left := free - slotSize - KeyUsage(slots.key);
      CopyIsExact(slots.value, left, slotSize);
      var v := CopyVariant(slots.value, left, slotSize);
      if v.ok { CopySlotsIsExact(slots.next, v.free, slotSize); }
    }
  }

  /** How deep lists nest. */
  function Nesting(v: Variant): nat
    decreases v
  {
    match v
    case Array(slots) => SlotsNesting(slots) + 1
    case Object(slots) => SlotsNesting(slots) + 1
    case _ => 0
  }

  function SlotsNesting(slots: Slots): nat
    decreases slots
  {
    if slots.End? then 0
    else
      var first, others := Nesting(slots.value), SlotsNesting(slots.next);
      if first > others then first else others
  }

  /** The position in a list of each value on the way leads to a list. */
  predicate ListAt(v: Variant, path: seq<nat>)
    decreases |path|
  {
    && (v.Array? || v.Object?)
    && (path == [] || (path[0] < Size(v.slots) && ListAt(Nth(v.slots, path[0]), path[1..])))
  }

  function Nth(slots: Slots, n: nat): Variant
    requires n < Size(slots)
    decreases slots
  {
    if n == 0 then slots.value else Nth(slots.next, n - 1)
  }

  /** A value nests deeper than `k` exactly when some `k` steps into it lead to a list. */
  lemma NestingByPaths(v: Variant, k: nat)
    ensures Nesting(v) > k <==> exists path :: |path| == k && ListAt(v, path)
  {
    if Nesting(v) > k {
      var path := DeepestPath(v);
      PathPrefix(v, path, k);
    }
    forall path | |path| == k && ListAt(v, path) ensures Nesting(v) > k {
      NestingBounds(v, path);
    }
  }

  lemma {:induction false} NestingBounds(v: Variant, path: seq<nat>)
    requires ListAt(v, path)
    ensures Nesting(v) > |path|
    decreases |path|
  {
    if path != [] {
      NthNesting(v.slots, path[0]);
      NestingBounds(Nth(v.slots, path[0]), path[1..]);
    }
  }

  lemma {:induction false} NthNesting(slots: Slots, n: nat)
    requires n < Size(slots)
    ensures Nesting(Nth(slots, n)) <= SlotsNesting(slots)
    decreases slots
  {
    if n > 0 { NthNesting(slots.next, n - 1); }
  }

  lemma {:induction false} DeepestPath(v: Variant) returns (path: seq<nat>)
    requires Nesting(v) > 0
    ensures |path| == Nesting(v) - 1 && ListAt(v, path)
    decreases v, 1
  {
    if Nesting(v) == 1 {
      path := [];
    } else {
      var n, deeper := DeepestSlot(v.slots);
      path := [n] + deeper;
      assert path[1..] == deeper;
    }
  }

  lemma {:induction false} DeepestSlot(slots: Slots) returns (n: nat, path: seq<nat>)
    requires SlotsNesting(slots) > 0
    ensures n < Size(slots) && |path| == SlotsNesting(slots) - 1 && ListAt(Nth(slots, n), path)
    decreases slots
  {
    if Nesting(slots.value) == SlotsNesting(slots) {
      path := DeepestPath(slots.value);
      n := 0;
    } else {
      n, path := DeepestSlot(slots.next);
      n := n + 1;
    }
  }

  lemma {:induction false} PathPrefix(v: Variant, path: seq<nat>, k: nat)
    requires ListAt(v, path) && k <= |path|
    ensures ListAt(v, path[..k])
    decreases |path|
  {
    if k > 0 {
      PathPrefix(Nth(v.slots, path[0]), path[1..], k - 1);
      assert path[1..][..k - 1] == path[..k][1..];
    }
  }

  // ---- Comparing

  /** The value of the first slot with a key. */
  function Get(slots: Slots, key: string): (found: Option<Variant>)
    ensures found.Some? ==> found.value < slots
  {
    match slots
    case End => None
    case Slot(k, v, next) => if k.Some? && k.value.chars == key then Some(v) else Get(next, key)
  }

  function Size(slots: Slots): nat {
    if slots.End? then 0 else 1 + Size(slots.next)
  }

  /** `equals`, of values that are stored apart: a string that is owned and one that is not are of different types,
      and all nulls are equal. */
  predicate Equals(v: Variant, w: Variant)
    decreases v
  {
    match (v, w)
    case (Scalar(t, b), Scalar(u, c)) => t == u && (t == NULL || b == c)
    case (Text(s, o), Text(t, p)) => o == p && s == t
    case (Raw(s, o), Raw(t, p)) => o == p && s == t
    case (Array(s), Array(t)) => EqualElements(s, t)
    case (Object(s), Object(t)) => MembersFound(s, t) && Size(s) == Size(t)
    case _ => false
  }

  predicate EqualElements(s: Slots, t: Slots)
    decreases s
  {
    match (s, t)
    case (End, End) => true
    case (Slot(_, v, s'), Slot(_, w, t')) => Equals(v, w) && EqualElements(s', t')
    case _ => false
  }

  /** Every member of `s` equals what `t` has under its key. */
  predicate MembersFound(s: Slots, t: Slots)
    decreases s
  {
    match s
    case End => true
    case Slot(k, v, next) =>
      k.Some? && Get(t, k.value.chars).Some? && Equals(v, Get(t, k.value.chars).value) && MembersFound(next, t)
  }

  /** Objects' slots have keys and arrays' have none, all the way down. */
  predicate Keyed(v: Variant)
    decreases v
  {
    match v
    case Array(slots) => SlotsKeyed(slots, false)
    case Object(slots) => SlotsKeyed(slots, true)
    case _ => true
  }

  predicate SlotsKeyed(slots: Slots, keys: bool)
    decreases slots
  {
    slots.Slot? ==> slots.key.Some? == keys && Keyed(slots.value) && SlotsKeyed(slots.next, keys)
  }

  /** No member contradicts an earlier one of its key, all the way down. Values behind a key that came before
      are only compared with the first of it, and need not be tidy themselves. */
  predicate Tidy(v: Variant)
    decreases v
  {
    match v
    case Array(slots) => ElementsTidy(slots)
    case Object(slots) => MembersTidy(slots, {}, slots)
    case _ => true
  }

  predicate ElementsTidy(slots: Slots)
    decreases slots
  {
    slots.Slot? ==> Tidy(slots.value) && ElementsTidy(slots.next)
  }

  /** Of the slots `rest` of the list `all`, behind those with the keys `seen`: a first of its key is tidy, and
      a repetition equals the first. */
  predicate MembersTidy(rest: Slots, seen: set<string>, all: Slots)
    decreases rest
  {
    rest.Slot? && rest.key.Some? ==>
      var key := rest.key.value.chars;
      if key in seen then
        Get(all, key).Some? && Equals(rest.value, Get(all, key).value) && MembersTidy(rest.next, seen, all)
      else
        Tidy(rest.value) && MembersTidy(rest.next, seen + {key}, all)
  }

  /** MAIN (documents): a document equals a separate copy of itself exactly when it is tidy. */
  lemma {:induction false} EqualsItsCopy(v: Variant)
    requires Keyed(v)
    ensures Equals(v, v) <==> Tidy(v)
    decreases v
  {
    match v
    case Array(slots) => ElementsEqualCopies(slots);
    case Object(slots) => MembersFindCopies(slots, {}, slots);
    case _ =>
  }

  lemma {:induction false} ElementsEqualCopies(slots: Slots)
    requires SlotsKeyed(slots, false)
    ensures EqualElements(slots, slots) <==> ElementsTidy(slots)
    decreases slots
  {
    if slots.Slot? {
      EqualsItsCopy(slots.value);
      ElementsEqualCopies(slots.next);
    }
  }

  lemma {:induction false} MembersFindCopies(rest: Slots, seen: set<string>, all: Slots)
    requires SlotsKeyed(rest, true)
    requires forall key :: if key in seen then Get(all, key).Some? else Get(all, key) == Get(rest, key)
    ensures MembersFound(rest, all) <==> MembersTidy(rest, seen, all)
    decreases rest
  {
    hide Equals, Tidy;
    if rest.Slot? {
      var key := rest.key.value.chars;
      EqualsItsCopy(rest.value);
      assert Get(rest, key) == Some(rest.value);
      var seen' := seen + {key};
      forall k ensures if k in seen' then Get(all, k).Some? else Get(all, k) == Get(rest.next, k) {
        if k != key { assert Get(rest, k) == Get(rest.next, k); }
      }
      MembersFindCopies(rest.next, if key in seen then seen else seen', all);
    }
  }

  /** Keys occur once in every object, all the way down. */
  predicate UniqueKeys(v: Variant)
    decreases v
  {
    match v
    case Array(slots) => SlotsUnique(slots, false)
    case Object(slots) => SlotsUnique(slots, true)
    case _ => true
  }

  predicate SlotsUnique(slots: Slots, keys: bool)
    decreases slots
  {
    slots.Slot? ==>
      && slots.key.Some? == keys
      && (keys ==> Get(slots.next, slots.key.value.chars) == None)
      && UniqueKeys(slots.value) && SlotsUnique(slots.next, keys)
  }

  /** The keys of the slots. */
  function Keys(slots: Slots): set<string> {
    if slots.End? then {} else Keys(slots.next) + if slots.key.Some? then {slots.key.value.chars} else {}
  }

  lemma {:induction false} KeysAreFound(slots: Slots, key: string)
    ensures Get(slots, key).Some? <==> key in Keys(slots)
  {
    if slots.Slot? { KeysAreFound(slots.next, key); }
  }

  lemma {:induction false} KeysCount(slots: Slots)
    requires SlotsUnique(slots, true)
    ensures |Keys(slots)| == Size(slots)
  {
    if slots.Slot? {
      KeysCount(slots.next);
      KeysAreFound(slots.next, slots.key.value.chars);
    }
  }

  lemma {:induction false} KeysWithin(s: Slots, t: Slots)
    requires MembersFound(s, t)
    ensures Keys(s) <= Keys(t)
  {
    if s.Slot? {
      KeysWithin(s.next, t);
      KeysAreFound(t, s.key.value.chars);
    }
  }

  lemma SameKeys(a: set<string>, b: set<string>)
    requires a <= b && |a| == |b|
    ensures a == b
  {
    assert b == a + (b - a);
  }

  /** What is found under a key: that member is equal to the other's. */
  lemma {:induction false} FoundEquals(s: Slots, t: Slots, key: string)
    requires MembersFound(s, t) && Get(s, key).Some?
    ensures Get(t, key).Some? && Equals(Get(s, key).value, Get(t, key).value)
  {
    hide Equals;
    if s.key.value.chars != key { FoundEquals(s.next, t, key); }
  }

  lemma {:induction false} GetSmaller(s: Slots, key: string)
    requires Get(s, key).Some?
    ensures SlotsKeyed(s, true) ==> Keyed(Get(s, key).value)
    ensures SlotsUnique(s, true) ==> UniqueKeys(Get(s, key).value)
  {
    if s.key.None? || s.key.value.chars != key { GetSmaller(s.next, key); }
  }

  /** Objects that correspond have the same keys, all the way down through the first members of each key. */
  predicate Alike(v: Variant, w: Variant)
    decreases v
  {
    match (v, w)
    case (Array(s), Array(t)) => ElementsAlike(s, t)
    case (Object(s), Object(t)) =>
      Keys(s) == Keys(t)
      && forall key <- Keys(s) ::
           Get(s, key).Some? && Get(t, key).Some? ==> Alike(Get(s, key).value, Get(t, key).value)
    case _ => true
  }

  predicate ElementsAlike(s: Slots, t: Slots)
    decreases s
  {
    s.Slot? && t.Slot? ==> Alike(s.value, t.value) && ElementsAlike(s.next, t.next)
  }

  /** MAIN (documents): of a document that equals another, the other equals it exactly when the other is tidy
      and their objects have the same keys. */
  lemma EqualsTurned(v: Variant, w: Variant)
    requires Keyed(v) && Keyed(w) && Equals(v, w)
    ensures Equals(w, v) <==> Tidy(w) && Alike(v, w)
  {
    hide Equals, Tidy, Alike;
    EqualsItsCopy(w);
    if Equals(w, v) {
      EqualsTransitive(w, v, w);
      EqualIsAlike(v, w);
    }
    if Equals(w, w) && Alike(v, w) { AlikeEquals(v, w); }
  }

  /** Documents that equal each other have the same keys. */
  lemma {:induction false} EqualIsAlike(v: Variant, w: Variant)
    requires Equals(v, w) && Equals(w, v)
    ensures Alike(v, w)
    decreases v
  {
    match (v, w)
    case (Array(s), Array(t)) => ElementsEqualAreAlike(s, t);
    case (Object(s), Object(t)) =>
      KeysWithin(s, t);
      KeysWithin(t, s);
      forall key | key in Keys(s) && Get(s, key).Some? && Get(t, key).Some?
        ensures Alike(Get(s, key).value, Get(t, key).value)
      {
        FoundEquals(s, t, key);
        FoundEquals(t, s, key);
        EqualIsAlike(Get(s, key).value, Get(t, key).value);
      }
    case _ =>
  }

  lemma {:induction false} ElementsEqualAreAlike(s: Slots, t: Slots)
    requires EqualElements(s, t) && EqualElements(t, s)
    ensures ElementsAlike(s, t)
    decreases s
  {
    hide Equals, Alike;
    if s.Slot? {
      EqualIsAlike(s.value, t.value);
      ElementsEqualAreAlike(s.next, t.next);
    }
  }

  lemma {:induction false} AlikeEquals(v: Variant, w: Variant)
    requires Equals(v, w) && Equals(w, w) && Alike(v, w)
    ensures Equals(w, v)
    decreases v, 0
  {
    match (v, w)
    case (Array(s), Array(t)) => ElementsAlikeEqual(s, t);
    case (Object(s), Object(t)) => MembersAlikeFound(t, s, t);
    case _ =>
  }

  lemma {:induction false} ElementsAlikeEqual(s: Slots, t: Slots)
    requires EqualElements(s, t) && EqualElements(t, t) && ElementsAlike(s, t)
    ensures EqualElements(t, s)
    decreases s
  {
    hide Equals, Alike;
    if s.Slot? {
      AlikeEquals(s.value, t.value);
      ElementsAlikeEqual(s.next, t.next);
    }
  }

  /** Each of the slots `rest` equals the first of its key in `t`, and that the first of it in `s`. */
  lemma {:induction false} MembersAlikeFound(rest: Slots, s: Slots, t: Slots)
    requires MembersFound(rest, t) && MembersFound(s, t) && MembersFound(t, t) && Alike(Object(s), Object(t))
    ensures MembersFound(rest, s)
    decreases s, rest
  {
    hide Equals;
    if rest.Slot? {
      var key := rest.key.value.chars;
      KeysAreFound(t, key);
      KeysAreFound(s, key);
      FoundEquals(s, t, key);
      FoundEquals(t, t, key);
      AlikeEquals(Get(s, key).value, Get(t, key).value);
      EqualsTransitive(rest.value, Get(t, key).value, Get(s, key).value);
      MembersAlikeFound(rest.next, s, t);
    }
  }

  /** MAIN (documents): on documents whose objects have unique keys, comparing is symmetric. */
  lemma EqualsSymmetric(v: Variant, w: Variant)
    requires UniqueKeys(v) && UniqueKeys(w) && Equals(v, w)
    ensures Equals(w, v)
  {
    hide Equals, Tidy, Alike, UniqueKeys;
    UniqueIsTidy(v);
    UniqueIsTidy(w);
    UniqueIsAlike(v, w);
    EqualsTurned(v, w);
  }

  lemma {:induction false} UniqueIsAlike(v: Variant, w: Variant)
    requires UniqueKeys(v) && UniqueKeys(w) && Equals(v, w)
    ensures Alike(v, w)
    decreases v
  {
    match (v, w)
    case (Array(s), Array(t)) => ElementsUniqueAlike(s, t);
    case (Object(s), Object(t)) =>
      KeysCount(s);
      KeysCount(t);
      KeysWithin(s, t);
      SameKeys(Keys(s), Keys(t));
      forall key | key in Keys(s) && Get(s, key).Some? && Get(t, key).Some?
        ensures Alike(Get(s, key).value, Get(t, key).value)
      {
        FoundEquals(s, t, key);
        GetSmaller(s, key);
        GetSmaller(t, key);
        UniqueIsAlike(Get(s, key).value, Get(t, key).value);
      }
    case _ =>
  }

  lemma {:induction false} ElementsUniqueAlike(s: Slots, t: Slots)
    requires SlotsUnique(s, false) && SlotsUnique(t, false) && EqualElements(s, t)
    ensures ElementsAlike(s, t)
    decreases s
  {
    hide Equals, Alike;
    if s.Slot? {
      UniqueIsAlike(s.value, t.value);
      ElementsUniqueAlike(s.next, t.next);
    }
  }

  /** With keys that repeat it is not: two members named `a` equal `a` and `b`, and not the other way. */
  lemma RepeatedKeysAreOneWay()
    ensures
      var one := Scalar(6, 1);
      var k := Some(Key("a", false));
      var twice := Object(Slot(k, one, Slot(k, one, End)));
      var other := Object(Slot(k, one, Slot(Some(Key("b", false)), Scalar(6, 2), End)));
      Equals(twice, other) && !Equals(other, twice)
  {
    var one := Scalar(6, 1);
    var k := Some(Key("a", false));
    var twice := Slot(k, one, Slot(k, one, End));
    var other := Slot(k, one, Slot(Some(Key("b", false)), Scalar(6, 2), End));
    assert Get(other, "a") == Some(one) && Get(twice, "b") == None;
    assert MembersFound(Slot(k, one, End), other) && MembersFound(twice, other);
    assert !MembersFound(other.next, twice) && !MembersFound(other, twice);
  }

  /** An object that names `a` twice, with different values, does not equal a separate copy of itself. */
  lemma CopyContradicts()
    ensures
      var k := Some(Key("a", false));
      var v := Object(Slot(k, Scalar(6, 1), Slot(k, Scalar(6, 2), End)));
      !Equals(v, v) && !Tidy(v)
  {
    var k := Some(Key("a", false));
    var rest := Slot(k, Scalar(6, 2), End);
    var all := Slot(k, Scalar(6, 1), rest);
    assert Get(all, "a") == Some(Scalar(6, 1));
    assert !MembersFound(rest, all);
    EqualsItsCopy(Object(all));
  }

  /** MAIN (documents): comparing is transitive, on all documents. */
  lemma {:induction false} EqualsTransitive(u: Variant, v: Variant, w: Variant)
    requires Equals(u, v) && Equals(v, w)
    ensures Equals(u, w)
    decreases u
  {
    match (u, v, w)
    case (Array(r), Array(s), Array(t)) => ElementsTransitive(r, s, t);
    case (Object(r), Object(s), Object(t)) => MembersTransitive(r, s, t);
    case _ =>
  }

  lemma {:induction false} ElementsTransitive(r: Slots, s: Slots, t: Slots)
    requires EqualElements(r, s) && EqualElements(s, t)
    ensures EqualElements(r, t)
    decreases r
  {
    hide Equals;
    if r.Slot? {
      EqualsTransitive(r.value, s.value, t.value);
      ElementsTransitive(r.next, s.next, t.next);
    }
  }

  lemma {:induction false} MembersTransitive(r: Slots, s: Slots, t: Slots)
    requires MembersFound(r, s) && MembersFound(s, t)
    ensures MembersFound(r, t)
    decreases r
  {
    hide Equals;
    if r.Slot? {
      var key := r.key.value.chars;
      FoundEquals(s, t, key);
      EqualsTransitive(r.value, Get(s, key).value, Get(t, key).value);
      MembersTransitive(r.next, s, t);
    }
  }

  lemma {:induction false} UniqueIsTidy(v: Variant)
    requires UniqueKeys(v)
    ensures Keyed(v) && Tidy(v)
    decreases v
  {
    match v
    case Array(slots) => ElementsUnique(slots);
    case Object(slots) => MembersUnique(slots, {}, slots);
    case _ =>
  }

  lemma {:induction false} ElementsUnique(slots: Slots)
    requires SlotsUnique(slots, false)
    ensures SlotsKeyed(slots, false) && ElementsTidy(slots)
    decreases slots
  {
    if slots.Slot? {
      UniqueIsTidy(slots.value);
      ElementsUnique(slots.next);
    }
  }

  lemma {:induction false} MembersUnique(rest: Slots, seen: set<string>, all: Slots)
    requires SlotsUnique(rest, true) && forall key <- seen :: Get(rest, key) == None
    ensures SlotsKeyed(rest, true) && MembersTidy(rest, seen, all)
    decreases rest
  {
    hide Equals, Tidy, UniqueKeys;
    if rest.Slot? {
      var key := rest.key.value.chars;
      assert Get(rest, key) == Some(rest.value);
      UniqueIsTidy(rest.value);
      forall k | k in seen + {key} ensures Get(rest.next, k) == None {
        if k in seen { assert Get(rest, k) == None; }
      }
      MembersUnique(rest.next, seen + {key}, all);
    }
  }

  /** MAIN (documents): a successful copy equals its source, both ways, exactly when the source is tidy; so when
      its keys are unique. */
  lemma CopyEqualsSource(v: Variant, free: nat, slotSize: nat)
    requires Keyed(v) && Usage(v, slotSize) <= free
    ensures var c := CopyVariant(v, free, slotSize);
      && c.ok && (Equals(c.made, v) <==> Tidy(v)) && (Equals(v, c.made) <==> Tidy(v))
      && (UniqueKeys(v) ==> Equals(c.made, v))
  {
    hide Equals, CopyVariant, Usage, UniqueKeys;
    CopyIsExact(v, free, slotSize);
    if UniqueKeys(v) { UniqueIsTidy(v); }
    EqualsItsCopy(v);
  }

  // ---- What comparing compares

  /** What a document says, apart from how it says it: a type and its bits, characters and whether they are owned, a
      sequence of elements, or what each key stands for. */
  datatype Meaning =
    | Plain(tag: nat, bits: nat)
    | Chars(chars: string, owned: bool)
    | Data(data: string, owned: bool)
    | Sequence(elements: seq<Meaning>)
    | Mapping(members: map<string, Meaning>)

  function MeaningOf(v: Variant): Meaning
    decreases v
  {
    match v
    case Scalar(tag, bits) => Plain(tag, if tag == NULL then 0 else bits)
    case Text(chars, owned) => Chars(chars, owned)
    case Raw(data, owned) => Data(data, owned)
    case Array(slots) => Sequence(ElementMeanings(slots))
    case Object(slots) => Mapping(MemberMeanings(slots))
  }

  function ElementMeanings(slots: Slots): seq<Meaning>
    decreases slots
  {
    if slots.End? then [] else [MeaningOf(slots.value)] + ElementMeanings(slots.next)
  }

  /** The first member of a key is the one that counts. */
  function MemberMeanings(slots: Slots): map<string, Meaning>
    decreases slots
  {
    if slots.End? then map[]
    else if slots.key.None? then MemberMeanings(slots.next)
    else MemberMeanings(slots.next)[slots.key.value.chars := MeaningOf(slots.value)]
  }

  lemma {:induction false} FoundMeans(slots: Slots, key: string)
    ensures var found := Get(slots, key); var members := MemberMeanings(slots);
      if found.Some? then key in members && members[key] == MeaningOf(found.value) else key !in members
  {
    hide MeaningOf;
    if slots.Slot? { FoundMeans(slots.next, key); }
  }

  /** MAIN (documents): documents whose objects have unique keys are equal exactly when they say the same. */
  lemma {:induction false} EqualsIsSameMeaning(v: Variant, w: Variant)
    requires UniqueKeys(v) && UniqueKeys(w)
    ensures Equals(v, w) <==> MeaningOf(v) == MeaningOf(w)
    decreases v, 1
  {
    match (v, w)
    case (Array(s), Array(t)) => ElementsMeanSame(s, t);
    case (Object(s), Object(t)) =>
      KeysCount(s);
      KeysCount(t);
      if Equals(v, w) { EqualObjectsMeanSame(s, t); }
      if MeaningOf(v) == MeaningOf(w) {
        MeaningKeys(s);
        MeaningKeys(t);
        MembersMeanSame(s, t);
      }
    case _ =>
  }

  lemma {:induction false} ElementsMeanSame(s: Slots, t: Slots)
    requires SlotsUnique(s, false) && SlotsUnique(t, false)
    ensures EqualElements(s, t) <==> ElementMeanings(s) == ElementMeanings(t)
    decreases s
  {
    hide Equals, MeaningOf;
    if s.Slot? && t.Slot? {
      EqualsIsSameMeaning(s.value, t.value);
      ElementsMeanSame(s.next, t.next);
      var a, b := ElementMeanings(s), ElementMeanings(t);
      assert a[1..] == ElementMeanings(s.next) && b[1..] == ElementMeanings(t.next);
    }
  }

  lemma {:induction false} MeaningKeys(slots: Slots)
    ensures MemberMeanings(slots).Keys == Keys(slots)
  {
    if slots.Slot? { MeaningKeys(slots.next); }
  }

  lemma {:induction false} EqualObjectsMeanSame(s: Slots, t: Slots)
    requires SlotsUnique(s, true) && SlotsUnique(t, true) && MembersFound(s, t) && Size(s) == Size(t)
    ensures MemberMeanings(s) == MemberMeanings(t)
    decreases s, 2
  {
    hide Equals, MeaningOf, MembersFound, UniqueKeys;
    KeysCount(s);
    KeysCount(t);
    KeysWithin(s, t);
    SameKeys(Keys(s), Keys(t));
    MeaningKeys(s);
    MeaningKeys(t);
    forall key | key in Keys(s) ensures MemberMeanings(s)[key] == MemberMeanings(t)[key] {
      KeysAreFound(s, key);
      FoundEquals(s, t, key);
      GetSmaller(s, key);
      GetSmaller(t, key);
      EqualsIsSameMeaning(Get(s, key).value, Get(t, key).value);
      FoundMeans(s, key);
      FoundMeans(t, key);
    }
  }

  /** Members that mean in `t` what they mean here are found there. */
  lemma {:induction false} MembersMeanSame(rest: Slots, t: Slots)
    requires SlotsUnique(rest, true) && SlotsUnique(t, true)
    requires forall key <- MemberMeanings(rest) ::
      key in MemberMeanings(t) && MemberMeanings(t)[key] == MemberMeanings(rest)[key]
    ensures MembersFound(rest, t)
    decreases rest
  {
    hide Equals, MeaningOf;
    if rest.Slot? {
      var key := rest.key.value.chars;
      FoundMeans(t, key);
      FoundMeans(rest.next, key);
      GetSmaller(t, key);
      assert key in MemberMeanings(rest);
      EqualsIsSameMeaning(rest.value, Get(t, key).value);
      MembersMeanSame(rest.next, t);
    }
  }
}
