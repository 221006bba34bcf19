/**
 The line protocol around the CRC: a sender that frames each line with the CRC of what it sent, and two
 receivers, one that checks a line and one that also takes it apart in place.
 Lines are bytes; a receiver's message is a C string, which ends before its first zero.
 */
module CrcLine {
  import opened Crc16

  const BAR: bv8 := 0x7C
  const COLON: bv8 := 0x3A
  const CR: bv8 := 13
  const LF: bv8 := 10
  const START: bv16 := 0xFFFF

  // ---- The sender

  function HexDigit(n: bv16): bv8
    requires n < 16
  {
    if n < 10 then 0x30 + n as bv8 else 0x37 + n as bv8
  }

  function Nibble(crc: bv16, shift: nat): (n: bv16)
    requires shift in {0, 4, 8, 12}
    ensures n < 16
  {
    (crc >> shift) & 0xF
  }

  /** Upper-case hexadecimal, without leading zeros. */
  function Hex(crc: bv16): (s: seq<bv8>)
    ensures 1 <= |s| <= 4
  {
    var d0, d1, d2, d3 := HexDigit(Nibble(crc, 0)), HexDigit(Nibble(crc, 4)), HexDigit(Nibble(crc, 8)), HexDigit(Nibble(crc, 12));
    if crc >= 0x1000 then [d3, d2, d1, d0]
    else if crc >= 0x100 then [d2, d1, d0]
    else if crc >= 0x10 then [d1, d0]
    else [d0]
  }

  /** A body with its CRC behind a bar. */
  function Framed(body: seq<bv8>): seq<bv8> {
    body + ([BAR] + Hex(Crc(body, START)))
  }

  /** `CheckStream`, unbuffered. */
  class CheckStream {
    var crc: bv16
    var sent: seq<bv8>

    constructor ()
      ensures crc == START && sent == []
    {
      crc, sent := START, [];
    }

    /** A carriage return sends the CRC and ends the line, and the line feed behind it is dropped. */
    method Write(data: bv8)
      modifies this
      ensures data == CR ==> crc == START && sent == old(sent) + ([BAR] + Hex(old(crc)) + [CR, LF])
      ensures data == LF ==> crc == old(crc) && sent == old(sent)
      ensures data != CR && data != LF ==> crc == Update(old(crc), data as bv16) && sent == old(sent) + [data]
    {
      if data == CR {
        sent := sent + ([BAR] + Hex(crc) + [CR, LF]);
        crc := START;
      } else if data != LF {
        crc := Update(crc, data as bv16);
        sent := sent + [data];
      }
    }

    /** A line written byte by byte is sent as its frame and a line end, and the sender starts afresh. */
    method WriteLine(body: seq<bv8>)
      requires crc == START && CR !in body && LF !in body
      modifies this
      ensures crc == START && sent == old(sent) + Framed(body) + [CR, LF]
    {
      hide Update, Hex, Crc;
      assert body[..0] == [];
      CrcNothing();
      for i := 0 to |body|
        invariant crc == Crc(body[..i], START) && sent == old(sent) + body[..i]
      {
        CrcSnoc(body, i);
        assert body[i] in body;
        Write(body[i]);
      }
      assert body[..|body|] == body;
      Write(CR);
      Write(LF);
    }
  }

  const DIGITS: seq<bv8> := [0x31, 0x32, 0x33, 0x34, 0x35, 0x36, 0x37, 0x38, 0x39]

  /** The check value of this CRC, and the frame of one known line: "123456789|6F91". */
  lemma KnownLine()
    ensures Crc(DIGITS, 0xFFFF) == 0x6F91
    ensures Framed(DIGITS) == DIGITS + [0x7C, 0x36, 0x46, 0x39, 0x31]
  {
    hide Crc, Update;
    DigitUpdates();
    CrcByte(DIGITS, 0, 0xFFFF, 0x2F8D);
    CrcByte(DIGITS, 1, 0x2F8D, 0x4D53);
    CrcByte(DIGITS, 2, 0x4D53, 0x634B);
    CrcByte(DIGITS, 3, 0x634B, 0x8B13);
    CrcByte(DIGITS, 4, 0x8B13, 0x44BF);
    CrcByte(DIGITS, 5, 0x44BF, 0x198D);
    CrcByte(DIGITS, 6, 0x198D, 0x1AC8);
    CrcByte(DIGITS, 7, 0x1AC8, 0xF795);
    CrcByte(DIGITS, 8, 0xF795, 0x6F91);
    assert DIGITS[0..] == DIGITS && DIGITS[9..] == [];
    CrcEmpty(0x6F91);
  }

  lemma DigitUpdates()
    ensures Update(0xFFFF, 0x31) == 0x2F8D
    ensures Update(0x2F8D, 0x32) == 0x4D53
    ensures Update(0x4D53, 0x33) == 0x634B
    ensures Update(0x634B, 0x34) == 0x8B13
    ensures Update(0x8B13, 0x35) == 0x44BF
    ensures Update(0x44BF, 0x36) == 0x198D
    ensures Update(0x198D, 0x37) == 0x1AC8
    ensures Update(0x1AC8, 0x38) == 0xF795
    ensures Update(0xF795, 0x39) == 0x6F91
  {
  }

  lemma CrcByte(message: seq<bv8>, k: nat, crc: bv16, next: bv16)
    requires k < |message| && next == Update(crc, message[k] as bv16)
    ensures Crc(message[k..], crc) == Crc(message[k + 1..], next)
  {
    assert message[k..][1..] == message[k + 1..];
  }

  lemma CrcEmpty(crc: bv16)
    ensures Crc([], crc) == crc
  {
  }

  lemma CrcNothing()
    ensures Crc([], START) == START
  {
  }

  lemma CrcSnoc(body: seq<bv8>, i: nat)
    requires i < |body|
    ensures Crc(body[..i + 1], START) == Update(Crc(body[..i], START), body[i] as bv16)
  {
    hide Update;
    assert body[..i + 1] == body[..i] + [body[i]];
    CrcSplits(body[..i], [body[i]], START);
    assert [body[i]][1..] == [];
  }

  // ---- What the receivers read

  /** The value of a hexadecimal digit, or none. */
  predicate IsHex(c: bv8) {
    (0x30 <= c <= 0x39) || (0x41 <= c <= 0x46) || (0x61 <= c <= 0x66)
  }

  function HexValue(c: bv8): bv32
    requires IsHex(c)
  {
    if c <= 0x39 then (c - 0x30) as bv32 else if c <= 0x46 then (c - 0x37) as bv32 else (c - 0x57) as bv32
  }

  /** The digits at the head of `s` behind `value`, stopping at `limit` when they reach it. */
  function DigitsValue(s: seq<bv8>, value: bv32, limit: bv32): bv32
    decreases |s|
  {
    if s == [] || !IsHex(s[0]) then value
    else if value >= 0x0800_0000 then limit
    else DigitsValue(s[1..], (value << 4) | HexValue(s[0]), limit)
  }

  predicate IsBlank(c: bv8) {
    c == 32 || 9 <= c <= 13
  }

  function SkipBlanks(s: seq<bv8>): seq<bv8> {
    if s != [] && IsBlank(s[0]) then SkipBlanks(s[1..]) else s
  }

  /** `strtol` in base 16, and the low 16 bits of it: blanks, a sign, a prefix, digits. A number beyond the
      32 bits of a `long` is the largest or the smallest one. */
  function Given(s: seq<bv8>): bv16 {
    var t := SkipBlanks(s);
    var negative := t != [] && t[0] == 0x2D;
    var u := if t != [] && (t[0] == 0x2D || t[0] == 0x2B) then t[1..] else t;
    var v := if |u| > 2 && u[0] == 0x30 && (u[1] == 0x78 || u[1] == 0x58) && IsHex(u[2]) then u[2..] else u;
    var value := DigitsValue(v, 0, if negative then 0x8000_0000 else 0x7FFF_FFFF);
    ((if negative then -value else value) & 0xFFFF) as bv16
  }

  /** A `char` is signed here, so a byte of eight bits is extended by its sign. */
  function Extended(c: bv8): bv16 {
    if c >= 0x80 then 0xFF00 | c as bv16 else c as bv16
  }

  /** The CRC the receivers compute. */
  function ReceivedCrc(m: seq<bv8>, crc: bv16): bv16
    decreases |m|
  {
    if m == [] then crc else ReceivedCrc(m[1..], Update(crc, Extended(m[0])))
  }

  /** What `checksumOk` decides from the rest of a message. */
  predicate ChecksumOk(m: seq<bv8>, crc: bv16)
    decreases |m|
  {
    m != [] && if m[0] == BAR then Given(m[1..]) == crc else ChecksumOk(m[1..], Update(crc, Extended(m[0])))
  }

  /** The C string in a buffer from a position on. */
  function CString(s: seq<bv8>, from: nat): seq<bv8>
    requires from <= |s|
    decreases |s| - from
  {
    if from == |s| || s[from] == 0 then [] else [s[from]] + CString(s, from + 1)
  }

  /** `checksumOk`; on demand the message is cut off at the bar. */
  method CheckMessage(message: array<bv8>, remove: bool) returns (ok: bool)
    requires 0 in message[..]
    modifies message
    ensures ok == ChecksumOk(old(CString(message[..], 0)), START)
    ensures !remove ==> message[..] == old(message[..])
    ensures remove ==> CString(message[..], 0) == BeforeBar(old(CString(message[..], 0)))
  {
    hide ChecksumOk, Update, Given;
    ghost var whole := message[..];
    var crc := START;
    var index: nat := 0;
    while true
      invariant index <= |whole| && message[..] == whole && 0 in whole[index..]
      invariant ChecksumOk(CString(whole, 0), START) == ChecksumOk(CString(whole, index), crc)
      invariant forall i :: 0 <= i < index ==> whole[i] != 0 && whole[i] != BAR
      decreases |whole| - index
    {
      var c := message[index];
      CheckStep(CString(whole, index), crc);
      if c == 0 {
        PlainString(whole, index);
        return false;
      }
      if c == BAR {
        var crcGiven := Given(CString(message[..], index + 1));
        ok := crcGiven == crc;
        if remove { message[index] := 0; }
        BarString(whole, index);
        PlainString(whole[index := 0], index);
        return;
      }
      crc := Update(crc, Extended(c));
      index := index + 1;
    }
  }

  lemma CheckStep(m: seq<bv8>, crc: bv16)
    ensures ChecksumOk(m, crc) ==
      (m != [] && if m[0] == BAR then Given(m[1..]) == crc else ChecksumOk(m[1..], Update(crc, Extended(m[0]))))
  {
    hide Update, Given;
  }

  /** What is before the first bar. */
  function BeforeBar(m: seq<bv8>): seq<bv8> {
    if m == [] || m[0] == BAR then [] else [m[0]] + BeforeBar(m[1..])
  }

  lemma {:induction false} StringUpTo(s: seq<bv8>, from: nat, k: nat)
    requires from <= k < |s| && s[k] == 0 && forall i :: from <= i < k ==> s[i] != 0
    ensures CString(s, from) == s[from..k]
    decreases k - from
  {
    if from < k { StringUpTo(s, from + 1, k); }
  }

  lemma {:induction false} NoBarBefore(m: seq<bv8>, k: nat)
    requires k <= |m| && (forall i :: 0 <= i < k ==> m[i] != BAR) && (k == |m| || m[k] == BAR)
    ensures BeforeBar(m) == m[..k]
    decreases k
  {
    if k > 0 { NoBarBefore(m[1..], k - 1); }
  }

  lemma PlainString(s: seq<bv8>, k: nat)
    requires k < |s| && s[k] == 0 && forall i :: 0 <= i < k ==> s[i] != 0 && s[i] != BAR
    ensures CString(s, 0) == s[..k] && BeforeBar(CString(s, 0)) == s[..k]
  {
    StringUpTo(s, 0, k);
    NoBarBefore(s[..k], k);
  }

  lemma {:induction false} StringFrom(s: seq<bv8>, from: nat, k: nat)
    requires from <= k <= |s| && forall i :: from <= i < k ==> s[i] != 0
    ensures CString(s, from) == s[from..k] + CString(s, k)
    decreases k - from
  {
    if from < k { StringFrom(s, from + 1, k); }
  }

  lemma BarString(s: seq<bv8>, k: nat)
    requires k < |s| && s[k] == BAR && forall i :: 0 <= i < k ==> s[i] != 0 && s[i] != BAR
    ensures BeforeBar(CString(s, 0)) == s[..k]
  {
    StringFrom(s, 0, k);
    var m := CString(s, 0);
    assert CString(s, k)[0] == BAR;
    assert m[..k] == s[..k];
    NoBarBefore(m, k);
  }

  // ---- A framed line passes

  lemma DigitValue(n: bv16)
    requires n < 16
    ensures IsHex(HexDigit(n)) && HexValue(HexDigit(n)) == n as bv32 && !IsBlank(HexDigit(n))
    ensures HexDigit(n) != 0x2D && HexDigit(n) != 0x2B && HexDigit(n) != 0x78 && HexDigit(n) != 0x58
    ensures n != 0 ==> HexDigit(n) != 0x30
    ensures HexDigit(n) < 0x80 && HexDigit(n) != 0 && HexDigit(n) != BAR && HexDigit(n) != COLON
  {
  }

  lemma DigitsMore(d: bv8, t: seq<bv8>, value: bv32, limit: bv32)
    requires IsHex(d) && value < 0x0800_0000
    ensures DigitsValue([d] + t, value, limit) == DigitsValue(t, (value << 4) | HexValue(d), limit)
  {
    assert ([d] + t)[1..] == t;
  }

  lemma DigitsDone(value: bv32, limit: bv32)
    ensures DigitsValue([], value, limit) == value
  {
  }

  function Put(value: bv32, n: bv16): bv32 {
    (value << 4) | n as bv32
  }

  lemma Nibbles(crc: bv16)
    ensures var n0, n1, n2, n3 := Nibble(crc, 0), Nibble(crc, 4), Nibble(crc, 8), Nibble(crc, 12);
      && Put(Put(Put(Put(0, n3), n2), n1), n0) == crc as bv32
      && (crc < 0x1000 ==> n3 == 0)
      && (crc < 0x100 ==> n3 == 0 && n2 == 0)
      && (crc < 0x10 ==> n3 == 0 && n2 == 0 && n1 == 0)
      && (crc >= 0x1000 ==> n3 != 0) && (0x100 <= crc < 0x1000 ==> n2 != 0) && (0x10 <= crc < 0x100 ==> n1 != 0)
  {
    hide Put, Nibble;
    NibbleIs(crc);
    NibblesSpell(crc, crc & 0xF, (crc >> 4) & 0xF, (crc >> 8) & 0xF, (crc >> 12) & 0xF);
    NibblesEnd(crc);
  }

  lemma NibbleIs(crc: bv16)
    ensures Nibble(crc, 0) == crc & 0xF && Nibble(crc, 4) == (crc >> 4) & 0xF
    ensures Nibble(crc, 8) == (crc >> 8) & 0xF && Nibble(crc, 12) == (crc >> 12) & 0xF
  {
  }

  lemma NibblesSpell(crc: bv16, n0: bv16, n1: bv16, n2: bv16, n3: bv16)
    requires n0 == crc & 0xF && n1 == (crc >> 4) & 0xF && n2 == (crc >> 8) & 0xF && n3 == (crc >> 12) & 0xF
    ensures Put(Put(Put(Put(0, n3), n2), n1), n0) == crc as bv32
  {
  }

  lemma NibblesEnd(crc: bv16)
    ensures crc < 0x1000 <==> (crc >> 12) & 0xF == 0
    ensures crc < 0x100 ==> (crc >> 8) & 0xF == 0
    ensures crc < 0x10 ==> (crc >> 4) & 0xF == 0
    ensures 0x100 <= crc < 0x1000 ==> (crc >> 8) & 0xF != 0
    ensures 0x10 <= crc < 0x100 ==> (crc >> 4) & 0xF != 0
  {
  }

  lemma PutStays(value: bv32, n: bv16)
    requires value < 0x1000 && n < 16
    ensures Put(value, n) < 0x10000 && (value < 0x100 ==> Put(value, n) < 0x1000)
    ensures (value < 0x10 ==> Put(value, n) < 0x100) && (value == 0 ==> Put(value, n) < 0x10)
  {
  }

  lemma PutZero()
    ensures Put(0, 0) == 0
  {
  }

  /** Reading a digit behind a small value. */
  lemma DigitRead(value: bv32, n: bv16, t: seq<bv8>, limit: bv32)
    requires value < 0x1000 && n < 16
    ensures DigitsValue([HexDigit(n)] + t, value, limit) == DigitsValue(t, Put(value, n), limit)
  {
    hide HexDigit, HexValue, IsHex, DigitsValue;
    DigitValue(n);
    DigitsMore(HexDigit(n), t, value, limit);
  }

  lemma HexDigitsRead(crc: bv16, limit: bv32)
    ensures DigitsValue(Hex(crc), 0, limit) == crc as bv32
  {
    hide HexDigit, DigitsValue, Put, Nibble;
    Nibbles(crc);
    PutZero();
    var n0, n1, n2, n3 := Nibble(crc, 0), Nibble(crc, 4), Nibble(crc, 8), Nibble(crc, 12);
    var d0, d1, d2, d3 := HexDigit(n0), HexDigit(n1), HexDigit(n2), HexDigit(n3);
    var v3 := Put(0, n3);
    PutStays(0, n3);
    var v2 := Put(v3, n2);
    PutStays(v3, n2);
    var v1 := Put(v2, n1);
    PutStays(v2, n1);
    DigitRead(v1, n0, [], limit);
    DigitRead(v2, n1, [d0], limit);
    DigitRead(v3, n2, [d1, d0], limit);
    DigitRead(0, n3, [d2, d1, d0], limit);
    DigitsDone(Put(v1, n0), limit);
    assert [d0] + [] == [d0] && [d1] + [d0] == [d1, d0] && [d2] + [d1, d0] == [d2, d1, d0];
    assert [d3] + [d2, d1, d0] == [d3, d2, d1, d0];
  }

  lemma LowWord(crc: bv16)
    ensures ((crc as bv32) & 0xFFFF) as bv16 == crc
  {
  }

  /** A printed CRC reads back. */
  lemma HexReadsBack(crc: bv16)
    ensures Given(Hex(crc)) == crc
  {
    hide HexDigit, DigitsValue, Nibble;
    HexDigitsRead(crc, 0x7FFF_FFFF);
    LowWord(crc);
    Nibbles(crc);
    HexStarts(crc);
    var s := Hex(crc);
    assert SkipBlanks(s) == s;
  }

  /** The letters of hexadecimal digits in upper case. */
  function Upper(s: seq<bv8>): seq<bv8> {
    if s == [] then [] else [if 0x61 <= s[0] <= 0x66 then s[0] - 0x20 else s[0]] + Upper(s[1..])
  }

  lemma UpperDigit(c: bv8)
    ensures var u := if 0x61 <= c <= 0x66 then c - 0x20 else c; IsHex(u) == IsHex(c) && (IsHex(c) ==> HexValue(u) == HexValue(c))
  {
  }

  lemma {:induction false} CaseDoesNotMatter(s: seq<bv8>, value: bv32, limit: bv32)
    ensures DigitsValue(Upper(s), value, limit) == DigitsValue(s, value, limit)
    decreases |s|
  {
    hide IsHex, HexValue;
    if s != [] {
      UpperDigit(s[0]);
      var u := Upper(s);
      assert u[1..] == Upper(s[1..]);
      if IsHex(s[0]) && value < 0x0800_0000 { CaseDoesNotMatter(s[1..], (value << 4) | HexValue(s[0]), limit); }
    }
  }

  /** Space, tabulators, line feed, form feed and carriage return. */
  predicate White(s: seq<bv8>) {
    forall i :: 0 <= i < |s| ==> s[i] == 32 || s[i] == 9 || s[i] == 10 || s[i] == 11 || s[i] == 12 || s[i] == 13
  }

  lemma {:induction false} BlanksSkipped(blanks: seq<bv8>, s: seq<bv8>)
    requires White(blanks) && s != [] && !IsBlank(s[0])
    ensures SkipBlanks(blanks + s) == s
    decreases |blanks|
  {
    if blanks == [] {
      assert blanks + s == s;
    } else {
      assert (blanks + s)[0] == blanks[0] && (blanks + s)[1..] == blanks[1..] + s;
      BlanksSkipped(blanks[1..], s);
    }
  }

  lemma GivenDigits(s: seq<bv8>, t: seq<bv8>)
    requires SkipBlanks(s) == t && t != [] && t[0] != 0x2D && t[0] != 0x2B && (|t| > 1 ==> t[0] != 0x30)
    ensures Given(s) == (DigitsValue(t, 0, 0x7FFF_FFFF) & 0xFFFF) as bv16
  {
    hide DigitsValue, SkipBlanks;
  }

  lemma GivenPrefixed(s: seq<bv8>, t: seq<bv8>)
    requires SkipBlanks(s) == [0x30, 0x78] + t && t != [] && IsHex(t[0])
    ensures Given(s) == (DigitsValue(t, 0, 0x7FFF_FFFF) & 0xFFFF) as bv16
  {
    hide DigitsValue, SkipBlanks, IsHex;
    assert ([0x30, 0x78] + t)[2..] == t;
  }

  /** A CRC is read in either case, behind any blanks, with or without a prefix. */
  lemma SpellingsRead(crc: bv16, blanks: seq<bv8>, digits: seq<bv8>)
    requires Upper(digits) == Hex(crc) && White(blanks)
    ensures Given(blanks + digits) == crc && Given(blanks + ([0x30, 0x78] + digits)) == crc
  {
    hide HexDigit, DigitsValue, Nibble, Hex, IsHex, IsBlank, White, Given, SkipBlanks, Upper;
    HexDigitsRead(crc, 0x7FFF_FFFF);
    CaseDoesNotMatter(digits, 0, 0x7FFF_FFFF);
    LowWord(crc);
    HexStarts(crc);
    UpperLength(digits);
    UpperStart(digits);
    BlanksSkipped(blanks, digits);
    BlanksSkipped(blanks, [0x30, 0x78] + digits);
    GivenDigits(blanks + digits, digits);
    GivenPrefixed(blanks + ([0x30, 0x78] + digits), digits);
  }

  /** What a spelled CRC begins with. */
  lemma UpperStart(digits: seq<bv8>)
    requires digits != [] && |Upper(digits)| == |digits|
    requires IsHex(Upper(digits)[0]) && (|digits| > 1 ==> Upper(digits)[0] != 0x30)
    ensures !IsBlank(digits[0]) && digits[0] != 0x2D && digits[0] != 0x2B && !IsBlank(0x30) && IsHex(digits[0])
    ensures |digits| > 1 ==> digits[0] != 0x30
  {
    UpperDigit(digits[0]);
  }

  lemma {:induction false} UpperLength(s: seq<bv8>)
    ensures |Upper(s)| == |s|
  {
    if s != [] { UpperLength(s[1..]); }
  }

  lemma HexStarts(crc: bv16)
    ensures var s := Hex(crc);
      && !IsBlank(s[0]) && s[0] != 0x2D && s[0] != 0x2B
      && (|s| > 1 ==> s[0] != 0x30)
      && forall c <- s :: IsHex(c) && c < 0x80 && c != 0 && c != BAR && c != COLON
  {
    hide HexDigit, Nibble, IsHex, IsBlank;
    Nibbles(crc);
    DigitValue(Nibble(crc, 0));
    DigitValue(Nibble(crc, 4));
    DigitValue(Nibble(crc, 8));
    DigitValue(Nibble(crc, 12));
  }

  /** Seven bits, and neither the end of a string nor the bar. */
  predicate Plain(m: seq<bv8>) {
    forall c <- m :: c < 0x80 && c != 0 && c != BAR
  }

  lemma {:induction false} ReceivedIsSent(m: seq<bv8>, crc: bv16)
    requires Plain(m)
    ensures ReceivedCrc(m, crc) == Crc(m, crc)
    decreases |m|
  {
    hide Update;
    if m != [] {
      assert m[0] in m && forall c <- m[1..] :: c in m;
      ReceivedIsSent(m[1..], Update(crc, m[0] as bv16));
    }
  }

  lemma {:induction false} OkAtBar(body: seq<bv8>, rest: seq<bv8>, crc: bv16)
    requires BAR !in body
    ensures ChecksumOk(body + ([BAR] + rest), crc) <==> Given(rest) == ReceivedCrc(body, crc)
    decreases |body|
  {
    hide Update, Given;
    var m := body + ([BAR] + rest);
    if body == [] {
      assert m == [BAR] + rest && m[1..] == rest;
    } else {
      assert m[0] == body[0] && body[0] in body && m[1..] == body[1..] + ([BAR] + rest);
      OkAtBar(body[1..], rest, Update(crc, Extended(body[0])));
    }
  }

  /** MAIN (line): a framed line of seven-bit characters passes the check, and once any two consecutive
      characters of it have been changed to others of the kind, it fails. */
  lemma FrameChecks(before: seq<bv8>, a: bv8, b: bv8, c: bv8, d: bv8, after: seq<bv8>)
    requires Plain(before + [a, b] + after) && Plain(before + [c, d] + after)
    ensures var body, changed := before + [a, b] + after, before + [c, d] + after;
      && ChecksumOk(Framed(body), START)
      && (ChecksumOk(changed + ([BAR] + Hex(Crc(body, START))), START) <==> a == c && b == d)
  {
    hide ChecksumOk, Given, Hex, Crc, ReceivedCrc;
    var body, changed := before + [a, b] + after, before + [c, d] + after;
    HexReadsBack(Crc(body, START));
    ReceivedIsSent(body, START);
    ReceivedIsSent(changed, START);
    OkAtBar(body, Hex(Crc(body, START)), START);
    OkAtBar(changed, Hex(Crc(body, START)), START);
    if a != c || b != d { BurstChangesCrc(before, a, b, c, d, after, START); }
  }

  lemma {:induction false} ReceivedSplits(p: seq<bv8>, m: seq<bv8>, crc: bv16)
    ensures ReceivedCrc(p + m, crc) == ReceivedCrc(m, ReceivedCrc(p, crc))
    decreases |p|
  {
    hide Update;
    if p == [] {
      assert p + m == m;
    } else {
      assert (p + m)[1..] == p[1..] + m;
      ReceivedSplits(p[1..], m, Update(crc, Extended(p[0])));
    }
  }

  // ---- Bytes of eight bits

  /** What the sign of a byte adds to a register. */
  const SIGN: bv16 := 0xF7F0

  lemma SignAdds(crc: bv16, c: bv8)
    ensures Update(crc, Extended(c)) == Plus(Update(crc, c as bv16), if c >= 0x80 then SIGN else 0)
  {
    hide Spread, Plus, Update;
    var data := c as bv16;
    if c >= 0x80 {
      Byte(c);
      SignExtends(data);
      UpdateSpreads(crc, data);
      UpdateSpreads(crc, Plus(data, 0xFF00));
      SignedData(crc, data);
      SignSpreads(Mixed(crc, data), crc);
    } else {
      PlusNothing(Update(crc, data));
    }
  }

  /** The byte of a register and the data, with its low half added to its high half. */
  function Mixed(crc: bv16, data: bv16): bv16 {
    (data ^ (crc & 0xFF)) ^ (((data ^ (crc & 0xFF)) << 4) & 0xFF)
  }

  lemma UpdateSpreads(crc: bv16, data: bv16)
    ensures Update(crc, data) == Spread(Mixed(crc, data), crc)
  {
    hide Spread;
  }

  lemma SignExtends(data: bv16)
    requires data <= 0xFF
    ensures 0xFF00 | data == Plus(data, 0xFF00)
  {
  }

  lemma SignedData(crc: bv16, data: bv16)
    ensures Mixed(crc, Plus(data, 0xFF00)) == Plus(Mixed(crc, data), 0xFF00)
  {
  }

  lemma SignSpreads(d: bv16, crc: bv16)
    ensures Spread(Plus(d, 0xFF00), crc) == Plus(Spread(d, crc), SIGN)
  {
  }

  /** By how much the register of a receiver, which extends the sign of a `char`, is off from the sender's,
      after the bytes `m` from being off by `e`: it depends on nothing but where the bytes of eight bits are. */
  function Off(m: seq<bv8>, e: bv16): bv16
    decreases |m|
  {
    if m == [] then e else Off(m[1..], Plus(Update(e, 0), if m[0] >= 0x80 then SIGN else 0))
  }

  lemma {:induction false} ReceivedIsOff(m: seq<bv8>, x: bv16, e: bv16)
    ensures ReceivedCrc(m, Plus(x, e)) == Plus(Crc(m, x), Off(m, e))
    decreases |m|
  {
    hide Update, Plus, Extended;
    if m != [] {
      var data, sign := m[0] as bv16, if m[0] >= 0x80 then SIGN else 0;
      Byte(m[0]);
      SignAdds(Plus(x, e), m[0]);
      UpdateAdds(x, e, data);
      PlusRegroups(Update(x, data), Update(e, 0), sign);
      ReceivedIsOff(m[1..], Update(x, data), Plus(Update(e, 0), sign));
    }
  }

  /** MAIN (line): a framed line, of any bytes but the bar, passes the check exactly when its bytes of eight
      bits leave the receiver's register where the sender's is. */
  lemma FramePassesExactly(body: seq<bv8>)
    requires BAR !in body
    ensures ChecksumOk(Framed(body), START) <==> Off(body, 0) == 0
  {
    hide ChecksumOk, Given, Hex, Crc, ReceivedCrc, Off, Plus;
    HexReadsBack(Crc(body, START));
    OkAtBar(body, Hex(Crc(body, START)), START);
    ReceivedIsOff(body, START, 0);
    PlusNothing(START);
    PlusNothing(Crc(body, START));
    PlusCancels(Crc(body, START), Off(body, 0), 0);
  }

  function EightBits(m: seq<bv8>): nat {
    if m == [] then 0 else (if m[0] >= 0x80 then 1 else 0) + EightBits(m[1..])
  }

  /** `SIGN` has an odd number of bits, so each byte of eight bits turns the parity of what the register is off
      by. */
  lemma {:induction false} OffParity(m: seq<bv8>, e: bv16)
    ensures Parity(Off(m, e)) == Plus(Parity(e), if EightBits(m) % 2 == 1 then 1 else 0)
    decreases |m|
  {
    hide Update, Plus, Parity;
    if m == [] {
      PlusNothing(Parity(e));
    } else {
      var sign: bv16 := if m[0] >= 0x80 then SIGN else 0;
      OffParity(m[1..], Plus(Update(e, 0), sign));
      ParityAdds(Update(e, 0), sign);
      UpdateParity(e, 0);
      SignIsOdd();
      PlusNothing(Parity(e));
      TurnTwice(Parity(e));
      PlusNothing(Plus(Parity(e), 1));
    }
  }

  lemma TurnTwice(p: bv16)
    ensures Plus(Plus(p, 1), 1) == p == Plus(p, 0)
  {
  }

  lemma SignBit(i: nat)
    requires i < 16
    ensures Bit(SIGN, i) == if i < 4 || i == 11 then 0 else 1
  {
    if
    case i == 0 => case i == 1 => case i == 2 => case i == 3 => case i == 4 => case i == 5 => case i == 6 =>
    case i == 7 => case i == 8 => case i == 9 => case i == 10 => case i == 11 => case i == 12 => case i == 13 =>
    case i == 14 => case i == 15 =>
  }

  lemma BitsAdd()
    ensures Plus(0, 0) == 0 && Plus(0, 1) == 1 && Plus(1, 0) == 1 && Plus(1, 1) == 0
  {
  }

  lemma {:induction false} SignSum(i: nat)
    requires i <= 16
    ensures SumFrom(SIGN, i) == if i in {5, 7, 9, 11, 12, 14, 16} then 0 else 1
    decreases 16 - i
  {
    hide Bit, Plus, SIGN;
    if i < 16 {
      SignSum(i + 1);
      SignBit(i);
      BitsAdd();
    }
  }

  lemma SignIsOdd()
    ensures Parity(SIGN) == 1 && Parity(0) == 0
  {
    hide SumFrom;
    FeedbackIsOdd();
    SignSum(0);
  }

  /** A framed line with an odd number of bytes of eight bits always fails. */
  lemma EightBitsFail(body: seq<bv8>)
    requires BAR !in body && EightBits(body) % 2 == 1
    ensures !ChecksumOk(Framed(body), START)
  {
    hide ChecksumOk, Off, Parity, Plus;
    FramePassesExactly(body);
    OffParity(body, 0);
    SignIsOdd();
    OneIsNotNothing();
  }

  lemma OneIsNotNothing()
    ensures Plus(0, 1) == 1
  {
  }

  lemma {:induction false} PlainIsNotOff(m: seq<bv8>)
    requires Plain(m)
    ensures Off(m, 0) == 0 && BAR !in m
  {
    hide Update, Plus;
    if m != [] {
      assert m[0] in m && forall c <- m[1..] :: c in m;
      NothingStays();
      PlainIsNotOff(m[1..]);
    }
  }

  lemma NothingStays()
    ensures Plus(Update(0, 0), 0) == 0
  {
  }

  lemma FramePasses(body: seq<bv8>)
    requires Plain(body)
    ensures ChecksumOk(Framed(body), START)
  {
    hide ChecksumOk, Off;
    PlainIsNotOff(body);
    FramePassesExactly(body);
  }
}
