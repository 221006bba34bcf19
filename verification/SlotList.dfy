/**
 A list threaded through slots by 16-bit offsets from one slot to the next, in the order a sequence has.
 */
module SlotList {
  import opened CInt
  import opened Wrappers

  /** Conversion to int16_t. */
  function S16(x: int): int {
    if x % TWO_16 < 0x8000 then x % TWO_16 else x % TWO_16 - TWO_16
  }

  predicate Fits(x: int) {
    -0x8000 <= x < 0x8000
  }

  /** An offset survives exactly when it fits. */
  lemma S16Fits(x: int)
    ensures S16(x) == x <==> Fits(x)
  {
    if Fits(x) { assert x % TWO_16 == if x >= 0 then x else x + TWO_16; }
  }

  /** The slots of `chain`, each pointing at the next by its offset, the last by none. */
  predicate Linked(chain: seq<nat>, offsets: seq<int>) {
    && Within(chain, |offsets|)
    && (forall i, j :: 0 <= i < j < |chain| ==> chain[i] != chain[j])
    && (forall i :: 0 <= i < |chain| - 1 ==> chain[i] + offsets[chain[i]] == chain[i + 1])
    && (chain != [] ==> offsets[chain[|chain| - 1]] == 0)
  }

  function Without(chain: seq<nat>, k: nat): seq<nat>
    requires k < |chain|
  {
    chain[..k] + chain[k + 1..]
  }

  lemma LinkedNext(chain: seq<nat>, offsets: seq<int>, i: nat)
    requires Linked(chain, offsets) && i < |chain|
    ensures i + 1 < |chain| ==> offsets[chain[i]] != 0 && chain[i] + offsets[chain[i]] == chain[i + 1]
    ensures i + 1 == |chain| ==> offsets[chain[i]] == 0
  {
    if i + 1 < |chain| { assert chain[i] != chain[i + 1]; }
  }

  lemma LinkedMore(chain: seq<nat>, offsets: seq<int>, slot: nat, linked: seq<int>)
    requires Linked(chain, offsets) && slot < |offsets| && slot !in chain
    requires linked == (
      if chain == [] then offsets[slot := 0]
      else offsets[chain[|chain| - 1] := slot as int - chain[|chain| - 1]][slot := 0])
    ensures Linked(chain + [slot], linked)
  {
    var more := chain + [slot];
    forall i, j | 0 <= i < j < |more| ensures more[i] != more[j] {
      if j == |chain| { assert more[i] in chain; }
    }
    forall i | 0 <= i < |more| - 1 ensures more[i] + linked[more[i]] == more[i + 1] {
      assert chain[i] in chain;
      if i < |chain| - 1 { assert chain[i] != chain[|chain| - 1]; }
    }
  }

  /** Taking the `k`-th slot out: the one before it points past it. */
  lemma LinkedWithout(chain: seq<nat>, offsets: seq<int>, k: nat, linked: seq<int>)
    requires Linked(chain, offsets) && k < |chain|
    requires linked == (
      if k == 0 then offsets
      else offsets[chain[k - 1] := if k + 1 < |chain| then chain[k + 1] as int - chain[k - 1] else 0])
    ensures Linked(Without(chain, k), linked)
  {
    var less := Without(chain, k);
    forall i | 0 <= i < |less| - 1 ensures less[i] + linked[less[i]] == less[i + 1] {
      var at := if i < k then i else i + 1;
      assert less[i] == chain[at];
      if k > 0 && i != k - 1 { assert chain[at] != chain[k - 1]; }
    }
    if less != [] && k > 0 && k < |chain| - 1 { assert chain[|chain| - 1] != chain[k - 1]; }
  }

  /** An offset cut to 16 bits leads elsewhere. */
  lemma OffsetLost(chain: seq<nat>, slot: nat, offsets: seq<int>)
    requires chain != [] && Within(chain, |offsets|)
    requires offsets[chain[|chain| - 1]] != slot as int - chain[|chain| - 1]
    ensures !Linked(chain + [slot], offsets)
  {
    var more := chain + [slot];
    if Linked(more, offsets) { LinkedNext(more, offsets, |chain| - 1); }
  }

  lemma GapLost(chain: seq<nat>, k: nat, offsets: seq<int>)
    requires 0 < k < |chain| - 1 && Within(chain, |offsets|)
    requires offsets[chain[k - 1]] != chain[k + 1] as int - chain[k - 1]
    ensures !Linked(Without(chain, k), offsets)
  {
    var less := Without(chain, k);
    if Linked(less, offsets) { LinkedNext(less, offsets, k - 1); }
  }

  /** Taking the middle one out of three slots that lie 20000 apart loses the last. */
  lemma MiddleOfThreeLost()
    ensures
      var chain := [0, 20000, 40000];
      var offsets := seq(40001, i => if i < 40000 then 20000 else 0);
      Linked(chain, offsets) && !Linked(Without(chain, 1), offsets[0 := S16(40000)])
  {
    var chain := [0, 20000, 40000];
    var offsets := seq(40001, i => if i < 40000 then 20000 else 0);
    GapLost(chain, 1, offsets[0 := S16(40000)]);
  }

  lemma LinkedWithin(chain: seq<nat>, offsets: seq<int>)
    requires Linked(chain, offsets)
    ensures Within(chain, |offsets|)
  {
  }

  predicate Within(chain: seq<nat>, size: nat) {
    forall i :: 0 <= i < |chain| ==> chain[i] < size
  }

  function ValuesAt<T>(chain: seq<nat>, values: seq<T>): (r: seq<T>)
    requires Within(chain, |values|)
    ensures |r| == |chain| && forall i :: 0 <= i < |chain| ==> r[i] == values[chain[i]]
  {
    if chain == [] then [] else ValuesAt(chain[..|chain| - 1], values) + [values[chain[|chain| - 1]]]
  }

  lemma ValuesMore<T>(chain: seq<nat>, values: seq<T>, slot: nat, value: T)
    requires Within(chain, |values|) && slot < |values| && slot !in chain
    ensures Within(chain + [slot], |values|)
    ensures ValuesAt(chain + [slot], values[slot := value]) == ValuesAt(chain, values) + [value]
  {
    forall i | 0 <= i < |chain| ensures chain[i] != slot {
      assert chain[i] in chain;
    }
  }

  lemma ValuesWithout<T>(chain: seq<nat>, values: seq<T>, k: nat)
    requires Within(chain, |values|) && k < |chain|
    ensures Within(Without(chain, k), |values|)
    ensures var all := ValuesAt(chain, values); ValuesAt(Without(chain, k), values) == all[..k] + all[k + 1..]
  {
  }

  class SlotList<T> {
    const offsets: array<int>
    const values: array<T>
    var head: Option<nat>
    var tail: Option<nat>
    ghost var chain: seq<nat>

    ghost predicate Valid()
      reads this, offsets
    {
      && offsets.Length == values.Length && offsets as object != values
      && Linked(chain, offsets[..])
      && head == (if chain == [] then None else Some(chain[0]))
      && tail == (if chain == [] then None else Some(chain[|chain| - 1]))
    }

    /** The values in the order of the list. */
    ghost function Contents(): seq<T>
      requires Valid()
      reads this, offsets, values
    {
      ValuesAt(chain, values[..])
    }

    constructor (offsets: array<int>, values: array<T>)
      requires offsets.Length == values.Length && offsets as object != values
      ensures Valid() && chain == [] && this.offsets == offsets && this.values == values
    {
      this.offsets, this.values := offsets, values;
      head, tail, chain := None, None, [];
    }

    /** `next`: the slot behind the `i`-th, if its offset is not zero. */
    method Next(slot: nat, ghost i: nat) returns (next: Option<nat>)
      requires Valid() && i < |chain| && chain[i] == slot
      ensures next == if i + 1 < |chain| then Some(chain[i + 1]) else None
    {
      LinkedNext(chain, offsets[..], i);
      if offsets[slot] == 0 { return None; }
      var behind: nat := slot + offsets[slot];
      return Some(behind);
    }

    /** `addSlot`, for a slot newly taken from the pool: the list grows by it exactly when it lies within 16 bits
        of the last. */
    method AddSlot(slot: nat, value: T)
      requires Valid() && slot < offsets.Length && slot !in chain
      modifies this, offsets, values
      ensures chain == old(chain) + [slot]
      ensures Valid() <==> old(tail.Some? ==> Fits(slot as int - tail.value))
      ensures Valid() ==> Contents() == old(Contents()) + [value]
      ensures forall i :: 0 <= i < offsets.Length && i !in chain ==> offsets[i] == old(offsets[i]) && values[i] == old(values[i])
    {
      hide ValuesAt, Linked;
      ghost var before, had := offsets[..], values[..];
      LinkedWithin(chain, before);
      if tail.Some? {
        S16Fits(slot as int - tail.value);
        offsets[tail.value] := S16(slot as int - tail.value);
        tail := Some(slot);
      } else {
        head, tail := Some(slot), Some(slot);
      }
      offsets[slot] := 0;
      assert offsets[..] == if chain == [] then before[slot := 0]
        else before[chain[|chain| - 1] := S16(slot as int - chain[|chain| - 1])][slot := 0];
      values[slot] := value;
      if chain == [] || Fits(slot as int - chain[|chain| - 1]) {
        LinkedMore(chain, before, slot, offsets[..]);
      } else {
        OffsetLost(chain, slot, offsets[..]);
      }
      assert values[..] == had[slot := value];
      ValuesMore(chain, had, slot, value);
      chain := chain + [slot];
    }

    /** `getSlot`, by position. */
    method GetSlot(index: nat) returns (slot: Option<nat>)
      requires Valid() && (head.Some? || index == 0)
      ensures slot == if index < |chain| then Some(chain[index]) else None
    {
      slot := head;
      var distance := index;
      while distance > 0
        invariant 0 <= distance <= index && (head.Some? ==> index - distance < |chain|)
        invariant head.Some? ==> slot == Some(chain[index - distance])
        invariant head.None? ==> distance == 0 && slot == None
        decreases distance
      {
        distance := distance - 1;
        slot := Next(slot.value, index - distance - 1);
        if slot.None? { return; }
      }
    }

    /** `getPreviousSlot`. */
    method GetPreviousSlot(target: nat, ghost k: nat) returns (previous: Option<nat>)
      requires Valid() && k < |chain| && chain[k] == target
      ensures previous == if k == 0 then None else Some(chain[k - 1])
    {
      var current := head;
      ghost var i: nat := 0;
      while current.Some?
        invariant i <= |chain| && (i < |chain| ==> current == Some(chain[i])) && (i == |chain| ==> current == None)
        invariant forall j :: 0 < j <= i && j < |chain| ==> chain[j] != target
        decreases |chain| - i
      {
        var next := Next(current.value, i);
        if next == Some(target) { return current; }
        current := next;
        i := i + 1;
      }
      return None;
    }

    /** `remove`, for a slot of the list: the list closes over it exactly when its neighbours lie within 16 bits
        of each other. */
    method Remove(slot: nat, ghost k: nat)
      requires Valid() && k < |chain| && chain[k] == slot
      modifies this, offsets
      ensures chain == Without(old(chain), k)
      ensures Valid() <==> old(0 < k < |chain| - 1 ==> Fits(chain[k + 1] as int - chain[k - 1]))
      ensures Valid() ==> Contents() == old(Contents())[..k] + old(Contents())[k + 1..]
    {
      hide ValuesAt, Linked;
      ghost var before := offsets[..];
      LinkedWithin(chain, before);
      var prev := GetPreviousSlot(slot, k);
      var next := Next(slot, k);
      if prev.Some? {
        if next.Some? { S16Fits(next.value as int - prev.value); }
        offsets[prev.value] := if next.Some? then S16(next.value as int - prev.value) else 0;
      } else {
        head := next;
      }
      if next.None? { tail := prev; }
      assert offsets[..] == if k == 0 then before
        else before[chain[k - 1] := if k + 1 < |chain| then S16(chain[k + 1] as int - chain[k - 1]) else 0];
      if 0 < k < |chain| - 1 && !Fits(chain[k + 1] as int - chain[k - 1]) {
        GapLost(chain, k, offsets[..]);
      } else {
        LinkedWithout(chain, before, k, offsets[..]);
      }
      chain := Without(chain, k);
      ValuesWithout(old(chain), values[..], k);
    }

    method Size() returns (n: nat)
      requires Valid()
      ensures n == |chain| == |Contents()|
    {
      n := 0;
      var slot: Option<nat> := head;
      while slot.Some?
        invariant n <= |chain| && (n < |chain| ==> slot == Some(chain[n])) && (n == |chain| ==> slot == None)
        decreases |chain| - n
      {
        slot := Next(slot.value, n);
        n := n + 1;
      }
    }
  }
}
