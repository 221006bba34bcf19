/**
 The 16-bit CRC of the line protocol: the byte-wise update is eight shifts of the register whose feedback is
 0x8408, and what changes of a message it cannot miss.
 */
module Crc16 {

  /** `crc16_update`. */
  function Update(crc: bv16, data: bv16): bv16 {
    var d := data ^ (crc & 0xFF);
    Spread(d ^ ((d << 4) & 0xFF), crc)
  }

  function Spread(d: bv16, crc: bv16): bv16 {
    ((d << 8) | ((crc >> 8) & 0xFF)) ^ (d >> 4) ^ (d << 3)
  }

  /** One shift of the register. */
  function Shift(crc: bv16): bv16 {
    if crc & 1 == 1 then (crc >> 1) ^ 0x8408 else crc >> 1
  }

  /** The shift undone. */
  function Unshift(crc: bv16): bv16 {
    if crc & 0x8000 != 0 then ((crc ^ 0x8408) << 1) | 1 else crc << 1
  }

  function Shift4(crc: bv16): bv16 {
    Shift(Shift(Shift(Shift(crc))))
  }

  function Shift8(crc: bv16): bv16 {
    Shift4(Shift4(crc))
  }

  function Unshift4(crc: bv16): bv16 {
    Unshift(Unshift(Unshift(Unshift(crc))))
  }

  lemma ShiftUndone(crc: bv16)
    ensures Unshift(Shift(crc)) == crc
  {
  }

  lemma Shift4Undone(crc: bv16)
    ensures Unshift4(Shift4(crc)) == crc
  {
    hide Shift, Unshift;
    ShiftUndone(crc);
    ShiftUndone(Shift(crc));
    ShiftUndone(Shift(Shift(crc)));
    ShiftUndone(Shift(Shift(Shift(crc))));
  }

  /** Eight shifts tell any two registers apart. */
  lemma Shift8Injective(a: bv16, b: bv16)
    ensures Shift8(a) == Shift8(b) ==> a == b
  {
    hide Shift4, Unshift4;
    Shift4Undone(a);
    Shift4Undone(b);
    Shift4Undone(Shift4(a));
    Shift4Undone(Shift4(b));
  }

  /** A shift feeds the lowest bit back at three places. */
  lemma ShiftOnce(x: bv16)
    ensures Shift(x) == (x >> 1) ^ ((x & 1) << 15) ^ ((x & 1) << 10) ^ ((x & 1) << 3)
  {
    if x & 1 != 1 { assert x & 1 == 0; }
  }

  lemma OnceMore(x: bv16, y: bv16)
    requires y == (x >> 1) ^ ((x & 1) << 15) ^ ((x & 1) << 10) ^ ((x & 1) << 3)
    ensures (y >> 1) ^ ((y & 1) << 15) ^ ((y & 1) << 10) ^ ((y & 1) << 3) ==
      (x >> 2) ^ ((x & 3) << 14) ^ ((x & 3) << 9) ^ ((x & 3) << 2)
  {
  }

  /** Two shifts feed the low two bits back. */
  lemma Shift2Is(x: bv16)
    ensures Shift(Shift(x)) == (x >> 2) ^ ((x & 3) << 14) ^ ((x & 3) << 9) ^ ((x & 3) << 2)
  {
    hide Shift;
    ShiftOnce(x);
    ShiftOnce(Shift(x));
    OnceMore(x, Shift(x));
  }

  lemma TwiceMore(x: bv16, y: bv16)
    requires y == (x >> 2) ^ ((x & 3) << 14) ^ ((x & 3) << 9) ^ ((x & 3) << 2)
    ensures (y >> 2) ^ ((y & 3) << 14) ^ ((y & 3) << 9) ^ ((y & 3) << 2) ==
      (x >> 4) ^ ((x & 0xF) << 12) ^ ((x & 0xF) << 7) ^ (x & 0xF)
  {
  }

  /** Four shifts feed the low four bits back at three places. */
  lemma Shift4Is(x: bv16)
    ensures Shift4(x) == (x >> 4) ^ ((x & 0xF) << 12) ^ ((x & 0xF) << 7) ^ (x & 0xF)
  {
    hide Shift;
    Shift2Is(x);
    Shift2Is(Shift(Shift(x)));
    TwiceMore(x, Shift(Shift(x)));
  }

  /** The low byte with its low half added to its high half. */
  function Fold(x: bv16): bv16 {
    (x & 0xFF) ^ ((x << 4) & 0xF0)
  }

  function High(x: bv16): bv16 {
    x >> 8
  }

  /** Where a folded byte is fed back. */
  function Tail(f: bv16): bv16 {
    (f << 8) ^ (f << 3) ^ (f >> 4)
  }

  function Plus(a: bv16, b: bv16): bv16 {
    a ^ b
  }

  lemma PlusIs(a: bv16, b: bv16)
    ensures Plus(a, b) == a ^ b
  {
  }

  lemma FoldIs(x: bv16)
    ensures Fold(x) == (x & 0xFF) ^ ((x << 4) & 0xF0)
  {
  }

  lemma HighIs(x: bv16)
    ensures High(x) == x >> 8
  {
  }

  lemma TailIs(f: bv16)
    ensures Tail(f) == (f << 8) ^ (f << 3) ^ (f >> 4)
  {
  }

  lemma FourRaw(x: bv16, y: bv16, f: bv16)
    requires y == (x >> 4) ^ ((x & 0xF) << 12) ^ ((x & 0xF) << 7) ^ (x & 0xF)
    requires f == (x & 0xFF) ^ ((x << 4) & 0xF0)
    ensures (y >> 4) ^ ((y & 0xF) << 12) ^ ((y & 0xF) << 7) ^ (y & 0xF) == (x >> 8) ^ ((f << 8) ^ (f << 3) ^ (f >> 4))
  {
  }

  lemma Shift8Raw(x: bv16, f: bv16)
    requires f == (x & 0xFF) ^ ((x << 4) & 0xF0)
    ensures Shift8(x) == Plus(x >> 8, (f << 8) ^ (f << 3) ^ (f >> 4))
  {
    hide Shift4, Plus;
    Shift4Is(x);
    Shift4Is(Shift4(x));
    FourRaw(x, Shift4(x), f);
    PlusIs(x >> 8, (f << 8) ^ (f << 3) ^ (f >> 4));
  }

  /** Eight shifts feed the low byte, folded, back. */
  lemma Shift8Is(x: bv16)
    ensures Shift8(x) == Plus(High(x), Tail(Fold(x)))
  {
    hide Shift8, Fold, Plus;
    FoldIs(x);
    Shift8Raw(x, Fold(x));
  }

  lemma SpreadRaw(e: bv16, crc: bv16, h: bv16, t: bv16)
    requires h == crc >> 8 && t == (e << 8) ^ (e << 3) ^ (e >> 4)
    ensures ((e << 8) | ((crc >> 8) & 0xFF)) ^ (e >> 4) ^ (e << 3) == h ^ t
  {
  }

  lemma SpreadIs(e: bv16, crc: bv16)
    ensures Spread(e, crc) == Plus(High(crc), Tail(e))
  {
    hide High, Tail, Plus;
    HighIs(crc);
    TailIs(e);
    SpreadRaw(e, crc, High(crc), Tail(e));
    PlusIs(High(crc), Tail(e));
  }

  lemma ByteIn(crc: bv16, data: bv16, x: bv16)
    requires data <= 0xFF && x == crc ^ data
    ensures x >> 8 == crc >> 8
    ensures (data ^ (crc & 0xFF)) ^ (((data ^ (crc & 0xFF)) << 4) & 0xFF) == (x & 0xFF) ^ ((x << 4) & 0xF0)
  {
  }

  lemma UpdateSpreads(crc: bv16, data: bv16, x: bv16)
    requires data <= 0xFF && x == crc ^ data
    ensures Update(crc, data) == Spread(Fold(x), crc) && High(x) == High(crc)
  {
    hide Fold, Spread, High;
    FoldIs(x);
    HighIs(x);
    HighIs(crc);
    ByteIn(crc, data, x);
  }

  /** MAIN (CRC): the byte-wise update is the byte put in and eight shifts. */
  lemma UpdateIsEightShifts(crc: bv16, data: bv16)
    requires data <= 0xFF
    ensures Update(crc, data) == Shift8(crc ^ data)
  {
    hide Shift8, Fold, Spread, Update, High, Tail, Plus;
    var x := crc ^ data;
    UpdateSpreads(crc, data, x);
    SpreadIs(Fold(x), crc);
    Shift8Is(x);
  }

  /** A register with two bytes put in. */
  function Word(crc: bv16, a: bv16, b: bv16): bv16 {
    Plus(Plus(crc, a), b << 8)
  }

  lemma UpdatePlus(crc: bv16, data: bv16)
    requires data <= 0xFF
    ensures Update(crc, data) == Shift8(Plus(crc, data))
  {
    hide Shift8, Update;
    UpdateIsEightShifts(crc, data);
  }

  lemma HighAbove(x: bv16, b: bv16)
    requires b <= 0xFF
    ensures (x ^ (b << 8)) >> 8 == (x >> 8) ^ b
  {
  }

  lemma LowBelow(x: bv16, b: bv16, y: bv16, f: bv16, g: bv16)
    requires y == x ^ (b << 8) && f == (x & 0xFF) ^ ((x << 4) & 0xF0) && g == (y & 0xFF) ^ ((y << 4) & 0xF0)
    ensures f == g
  {
  }

  /** A byte put in after eight shifts is a byte put in eight places higher before them. */
  lemma ByteBefore(x: bv16, b: bv16)
    requires b <= 0xFF
    ensures Plus(Shift8(x), b) == Shift8(Plus(x, b << 8))
  {
    hide Shift8, Fold, High, Tail, Plus;
    var y := Plus(x, b << 8);
    Shift8Is(x);
    Shift8Is(y);
    HighTakes(x, b);
    FoldStays(x, b, y);
    PlusRegroups(High(x), Tail(Fold(x)), b);
    PlusCommutes(Tail(Fold(x)), b);
    PlusRegroups(High(x), b, Tail(Fold(x)));
  }

  lemma HighTakes(x: bv16, b: bv16)
    requires b <= 0xFF
    ensures High(Plus(x, b << 8)) == Plus(High(x), b)
  {
    hide High, Plus;
    PlusIs(x, b << 8);
    HighIs(x);
    HighIs(Plus(x, b << 8));
    HighAbove(x, b);
    PlusIs(High(x), b);
  }

  lemma FoldStays(x: bv16, b: bv16, y: bv16)
    requires y == Plus(x, b << 8)
    ensures Fold(y) == Fold(x)
  {
    hide Fold, Plus;
    PlusIs(x, b << 8);
    FoldIs(x);
    FoldIs(y);
    LowBelow(x, b, y, Fold(x), Fold(y));
  }

  /** Two bytes are sixteen shifts of the register with both put in. */
  lemma TwoBytes(crc: bv16, a: bv16, b: bv16)
    requires a <= 0xFF && b <= 0xFF
    ensures Update(Update(crc, a), b) == Shift8(Shift8(Word(crc, a, b)))
  {
    hide Shift8, Update, Plus;
    UpdatePlus(crc, a);
    UpdatePlus(Update(crc, a), b);
    ByteBefore(Plus(crc, a), b);
  }

  lemma SameWord(crc: bv16, a: bv16, b: bv16, c: bv16, d: bv16)
    requires a <= 0xFF && b <= 0xFF && c <= 0xFF && d <= 0xFF
    requires Word(crc, a, b) == Word(crc, c, d)
    ensures a == c && b == d
  {
    hide Plus;
    PlusRegroups(crc, a, b << 8);
    PlusRegroups(crc, c, d << 8);
    PlusCancels(crc, Plus(a, b << 8), Plus(c, d << 8));
    LowHigh(a, b);
    LowHigh(c, d);
  }

  lemma LowHigh(a: bv16, b: bv16)
    requires a <= 0xFF && b <= 0xFF
    ensures Plus(a, b << 8) & 0xFF == a && Plus(a, b << 8) >> 8 == b
  {
  }

  /** The CRC of a message, from a register. */
  function Crc(message: seq<bv8>, crc: bv16): bv16
    decreases |message|
  {
    if message == [] then crc else Crc(message[1..], Update(crc, message[0] as bv16))
  }

  lemma {:induction false} CrcSplits(p: seq<bv8>, m: seq<bv8>, crc: bv16)
    ensures Crc(p + m, crc) == Crc(m, Crc(p, crc))
    decreases |p|
  {
    hide Update;
    if p == [] {
      assert p + m == m;
    } else {
      assert (p + m)[1..] == p[1..] + m;
      CrcSplits(p[1..], m, Update(crc, p[0] as bv16));
    }
  }

  lemma Byte(b: bv8)
    ensures b as bv16 <= 0xFF
  {
  }

  /** Equal bytes keep unequal registers unequal. */
  lemma {:induction false} CrcInjective(m: seq<bv8>, a: bv16, b: bv16)
    requires Crc(m, a) == Crc(m, b)
    ensures a == b
    decreases |m|
  {
    hide Update, Shift8;
    if m != [] {
      var d := m[0] as bv16;
      Byte(m[0]);
      CrcInjective(m[1..], Update(a, d), Update(b, d));
      UpdateIsEightShifts(a, d);
      UpdateIsEightShifts(b, d);
      Shift8Injective(a ^ d, b ^ d);
      Cancels(a, b, d);
    }
  }

  lemma Cancels(a: bv16, b: bv16, d: bv16)
    ensures a ^ d == b ^ d ==> a == b
  {
  }

  lemma CrcOfTwo(a: bv8, b: bv8, crc: bv16)
    ensures Crc([a, b], crc) == Update(Update(crc, a as bv16), b as bv16)
  {
    hide Update;
    assert [a, b][1..] == [b] && [b][1..] == [];
    var x := Update(crc, a as bv16);
    var y := Update(x, b as bv16);
    assert Crc([], y) == y;
    assert Crc([b], x) == y;
    assert Crc([a, b], crc) == Crc([b], x);
  }

  /** MAIN (CRC): in a message of any length, any change within two consecutive bytes changes the CRC. */
  lemma BurstChangesCrc(before: seq<bv8>, a: bv8, b: bv8, c: bv8, d: bv8, after: seq<bv8>, crc: bv16)
    requires a != c || b != d
    ensures Crc(before + [a, b] + after, crc) != Crc(before + [c, d] + after, crc)
  {
    hide Crc, Update, Shift8;
    var x := Crc(before, crc);
    CrcSplits(before + [a, b], after, crc);
    CrcSplits(before + [c, d], after, crc);
    CrcSplits(before, [a, b], crc);
    CrcSplits(before, [c, d], crc);
    CrcOfTwo(a, b, x);
    CrcOfTwo(c, d, x);
    if Crc(before + [a, b] + after, crc) == Crc(before + [c, d] + after, crc) {
      CrcInjective(after, Crc([a, b], x), Crc([c, d], x));
      PairTold(x, a, b, c, d);
      assert false;
    }
  }

  lemma PairTold(crc: bv16, a: bv8, b: bv8, c: bv8, d: bv8)
    requires Update(Update(crc, a as bv16), b as bv16) == Update(Update(crc, c as bv16), d as bv16)
    ensures a == c && b == d
  {
    hide Update, Shift8, Word;
    Byte(a);
    Byte(b);
    Byte(c);
    Byte(d);
    var a', b', c', d' := a as bv16, b as bv16, c as bv16, d as bv16;
    TwoBytes(crc, a', b');
    TwoBytes(crc, c', d');
    var x, y := Word(crc, a', b'), Word(crc, c', d');
    Shift8Injective(Shift8(x), Shift8(y));
    Shift8Injective(x, y);
    SameWord(crc, a', b', c', d');
    SameByte(a, c);
    SameByte(b, d);
  }

  lemma SameByte(a: bv8, b: bv8)
    ensures a as bv16 == b as bv16 ==> a == b
  {
  }

  function Bit(x: bv16, i: nat): bv16
    requires i < 16
  {
    (x >> i) & 1
  }

  /** The sum of the bits from the `i`-th on, modulo 2. */
  function SumFrom(x: bv16, i: nat): bv16
    requires i <= 16
    decreases 16 - i
  {
    if i == 16 then 0 else Plus(Bit(x, i), SumFrom(x, i + 1))
  }

  /** The sum of all bits, modulo 2. */
  function Parity(x: bv16): bv16 {
    SumFrom(x, 0)
  }

  lemma BitShifted(x: bv16, i: nat)
    requires i < 16
    ensures Bit(x >> 1, i) == if i < 15 then Bit(x, i + 1) else 0
  {
    if
    case i == 0 => case i == 1 => case i == 2 => case i == 3 => case i == 4 => case i == 5 => case i == 6 =>
    case i == 7 => case i == 8 => case i == 9 => case i == 10 => case i == 11 => case i == 12 => case i == 13 =>
    case i == 14 => case i == 15 =>
  }

  lemma BitAdds(x: bv16, y: bv16, i: nat)
    requires i < 16
    ensures Bit(Plus(x, y), i) == Plus(Bit(x, i), Bit(y, i))
  {
    ShiftAdds(x, y, i);
    LowBitAdds(x >> i, y >> i);
  }

  lemma LowBitAdds(x: bv16, y: bv16)
    ensures (x ^ y) & 1 == (x & 1) ^ (y & 1)
  {
  }

  lemma ShiftAdds(x: bv16, y: bv16, i: nat)
    requires i < 16
    ensures (x ^ y) >> i == (x >> i) ^ (y >> i)
  {
    if
    case i == 0 => case i == 1 => case i == 2 => case i == 3 => case i == 4 => case i == 5 => case i == 6 =>
    case i == 7 => case i == 8 => case i == 9 => case i == 10 => case i == 11 => case i == 12 => case i == 13 =>
    case i == 14 => case i == 15 =>
  }

  lemma {:induction false} SumShifted(x: bv16, y: bv16, i: nat)
    requires i < 16 && y == x >> 1
    ensures SumFrom(y, i) == SumFrom(x, i + 1)
    decreases 16 - i
  {
    hide Bit, Plus;
    BitShifted(x, i);
    PlusNothing(0);
    if i < 15 { SumShifted(x, y, i + 1); }
  }

  lemma {:induction false} SumAdds(x: bv16, y: bv16, i: nat)
    requires i <= 16
    ensures SumFrom(Plus(x, y), i) == Plus(SumFrom(x, i), SumFrom(y, i))
    decreases 16 - i
  {
    hide Bit, Plus;
    if i == 16 {
      PlusNothing(0);
    } else {
      BitAdds(x, y, i);
      SumAdds(x, y, i + 1);
      Exchange(Bit(x, i), Bit(y, i), SumFrom(x, i + 1), SumFrom(y, i + 1));
    }
  }

  lemma Exchange(a: bv16, b: bv16, c: bv16, d: bv16)
    ensures Plus(Plus(a, b), Plus(c, d)) == Plus(Plus(a, c), Plus(b, d))
  {
    hide Plus;
    PlusRegroups(a, b, Plus(c, d));
    PlusRegroups(b, c, d);
    PlusCommutes(b, c);
    PlusRegroups(c, b, d);
    PlusRegroups(a, c, Plus(b, d));
  }

  lemma PlusNothing(x: bv16)
    ensures Plus(x, 0) == x && Plus(0, x) == x
  {
  }

  lemma PlusCommutes(a: bv16, b: bv16)
    ensures Plus(a, b) == Plus(b, a)
  {
  }

  lemma PlusRegroups(a: bv16, b: bv16, c: bv16)
    ensures Plus(Plus(a, b), c) == Plus(a, Plus(b, c))
  {
  }

  lemma PlusCancels(d: bv16, a: bv16, b: bv16)
    ensures Plus(d, a) == Plus(d, b) ==> a == b
  {
  }

  /** The update is linear in register and byte. */
  lemma UpdateAdds(x: bv16, e: bv16, data: bv16)
    requires data <= 0xFF
    ensures Update(Plus(x, e), data) == Plus(Update(x, data), Update(e, 0))
  {
    hide Shift8, Plus, Update;
    UpdatePlus(Plus(x, e), data);
    UpdatePlus(x, data);
    UpdatePlus(e, 0);
    PlusNothing(e);
    PlusRegroups(x, e, data);
    PlusCommutes(e, data);
    PlusRegroups(x, data, e);
    Shift8IsLinear(Plus(x, data), e);
  }

  lemma Shift8IsLinear(a: bv16, b: bv16)
    ensures Shift8(Plus(a, b)) == Plus(Shift8(a), Shift8(b))
  {
    hide Shift4, Plus;
    Shift4IsLinear(a, b);
    Shift4IsLinear(Shift4(a), Shift4(b));
  }

  lemma Shift4IsLinear(a: bv16, b: bv16)
    ensures Shift4(Plus(a, b)) == Plus(Shift4(a), Shift4(b))
  {
    hide Shift, Plus;
    ShiftIsLinear(a, b);
    ShiftIsLinear(Shift(a), Shift(b));
    ShiftIsLinear(Shift(Shift(a)), Shift(Shift(b)));
    ShiftIsLinear(Shift(Shift(Shift(a))), Shift(Shift(Shift(b))));
  }

  lemma ShiftIsLinear(a: bv16, b: bv16)
    ensures Shift(Plus(a, b)) == Plus(Shift(a), Shift(b))
  {
    hide Shift, Plus, Feedback;
    ShiftIs(a);
    ShiftIs(b);
    ShiftIs(Plus(a, b));
    HalfAdds(a, b);
    FeedbackAdds(a, b);
    Exchange(a >> 1, b >> 1, Feedback(a), Feedback(b));
  }

  lemma HalfAdds(a: bv16, b: bv16)
    ensures Plus(a, b) >> 1 == Plus(a >> 1, b >> 1)
  {
    hide Plus;
    PlusIs(a, b);
    PlusIs(a >> 1, b >> 1);
    HalfXors(a, b);
  }

  lemma HalfXors(a: bv16, b: bv16)
    ensures (a ^ b) >> 1 == (a >> 1) ^ (b >> 1)
  {
  }

  function Feedback(x: bv16): bv16 {
    if x & 1 == 1 then 0x8408 else 0
  }

  lemma FeedbackAdds(a: bv16, b: bv16)
    ensures Feedback(Plus(a, b)) == Plus(Feedback(a), Feedback(b))
  {
    LowBitAdds(a, b);
  }

  lemma ParityAdds(x: bv16, y: bv16)
    ensures Parity(Plus(x, y)) == Plus(Parity(x), Parity(y))
  {
    hide SumFrom, Plus;
    SumAdds(x, y, 0);
  }

  lemma ShiftIs(x: bv16)
    ensures Shift(x) == Plus(x >> 1, Feedback(x))
    ensures Bit(x, 0) == if x & 1 == 1 then 1 else 0
  {
  }

  /** The feedback has an odd number of bits, so a shift keeps the parity. */
  lemma ShiftKeepsParity(x: bv16)
    ensures Parity(Shift(x)) == Parity(x)
  {
    hide SumFrom, Bit, Plus, Shift;
    ShiftIs(x);
    SumShifted(x, x >> 1, 0);
    SumStep(x);
    FeedbackIsOdd();
    ParityAdds(x >> 1, Feedback(x));
    PlusCommutes(SumFrom(x, 1), Bit(x, 0));
  }

  lemma SumStep(x: bv16)
    ensures Parity(x) == Plus(Bit(x, 0), SumFrom(x, 1))
  {
    hide Bit, Plus;
  }

  lemma FeedbackIsOdd()
    ensures Parity(0x8408) == 1 && Parity(0) == 0
  {
    var x: bv16 := 0x8408;
    assert SumFrom(x, 14) == 1 && SumFrom(0, 14) == 0;
    assert SumFrom(x, 12) == 1 && SumFrom(0, 12) == 0;
    assert SumFrom(x, 10) == 0 && SumFrom(0, 10) == 0;
    assert SumFrom(x, 8) == 0 && SumFrom(0, 8) == 0;
    assert SumFrom(x, 6) == 0 && SumFrom(0, 6) == 0;
    assert SumFrom(x, 4) == 0 && SumFrom(0, 4) == 0;
    assert SumFrom(x, 2) == 1 && SumFrom(0, 2) == 0;
  }

  lemma Shift4KeepsParity(x: bv16)
    ensures Parity(Shift4(x)) == Parity(x)
  {
    hide Shift, Parity;
    ShiftKeepsParity(x);
    ShiftKeepsParity(Shift(x));
    ShiftKeepsParity(Shift(Shift(x)));
    ShiftKeepsParity(Shift(Shift(Shift(x))));
  }

  lemma UpdateParity(crc: bv16, data: bv16)
    requires data <= 0xFF
    ensures Parity(Update(crc, data)) == Plus(Parity(crc), Parity(data))
  {
    hide Parity, Shift4, Update, Plus;
    UpdatePlus(crc, data);
    ParityAdds(crc, data);
    Shift4KeepsParity(Plus(crc, data));
    Shift4KeepsParity(Shift4(Plus(crc, data)));
  }

  /** The sum of all bits of a message, modulo 2. */
  function MessageParity(m: seq<bv8>): bv16 {
    if m == [] then 0 else Plus(Parity(m[0] as bv16), MessageParity(m[1..]))
  }

  lemma {:induction false} CrcParity(m: seq<bv8>, crc: bv16)
    ensures Parity(Crc(m, crc)) == Plus(Parity(crc), MessageParity(m))
    decreases |m|
  {
    hide Parity, Update, Plus;
    if m == [] {
      PlusNothing(Parity(crc));
    } else {
      Byte(m[0]);
      UpdateParity(crc, m[0] as bv16);
      CrcParity(m[1..], Update(crc, m[0] as bv16));
      PlusRegroups(Parity(crc), Parity(m[0] as bv16), MessageParity(m[1..]));
    }
  }

  /** MAIN (CRC): messages of any lengths that differ in an odd number of bits have different CRCs. */
  lemma OddChangesShow(m: seq<bv8>, n: seq<bv8>, crc: bv16)
    requires MessageParity(m) != MessageParity(n)
    ensures Crc(m, crc) != Crc(n, crc)
  {
    hide Crc, Parity, MessageParity, Plus;
    CrcParity(m, crc);
    CrcParity(n, crc);
    PlusCancels(Parity(crc), MessageParity(m), MessageParity(n));
  }
}
