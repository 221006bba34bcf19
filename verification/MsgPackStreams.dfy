/**
 The MessagePack writer and reader as they run: a visitor that sends bytes and counts them, and a reader that
 takes bytes from its input, counts its nesting limit down and up, and grows lists at their end.
 */
module MsgPackStreams {
  import opened CInt
  import opened JsonText
  import opened MsgPack
  import RingIndex
  import opened Wrappers

  // ---- What is written in front of what follows it

  lemma {:induction false} BigEndianSplits(n: nat, k: nat, t: seq<byte>, tail: seq<byte>)
    ensures BigEndian(n, k, t + tail) == BigEndian(n, k, t) + tail
    decreases k
  {
    if k > 0 {
      assert [n % 256] + (t + tail) == ([n % 256] + t) + tail;
      BigEndianSplits(n / 256, k - 1, [n % 256] + t, tail);
    }
  }

  lemma {:induction false} CodeSplits(code: byte, n: nat, k: nat, t: seq<byte>, tail: seq<byte>)
    ensures [code] + BigEndian(n, k, t + tail) == ([code] + BigEndian(n, k, t)) + tail
  {
    BigEndianSplits(n, k, t, tail);
  }

  lemma PositiveSplits(n: nat, longLong: bool, t: seq<byte>, tail: seq<byte>)
    ensures EncodePositive(n, longLong, t + tail) == EncodePositive(n, longLong, t) + tail
  {
    hide BigEndian;
    if n <= 0x7F { BigEndianSplits(n, 1, t, tail); }
    else if n <= 0xFF { CodeSplits(0xCC, n, 1, t, tail); }
    else if n <= 0xFFFF { CodeSplits(0xCD, n, 2, t, tail); }
    else if n <= 0xFFFF_FFFF { CodeSplits(0xCE, n, 4, t, tail); }
    else { CodeSplits(0xCF, n, 8, t, tail); }
  }

  lemma NegativeSplits(n: nat, longLong: bool, t: seq<byte>, tail: seq<byte>)
    ensures EncodeNegative(n, longLong, t + tail) == EncodeNegative(n, longLong, t) + tail
  {
    hide BigEndian, Span;
    var (code, k) := if n <= 0x20 then (0, 1) else if n <= 0x80 then (0xD0, 1) else if n <= 0x8000 then (0xD1, 2)
      else if n <= 0x8000_0000 then (0xD2, 4) else (0xD3, 8);
    var negated := if n <= Span(k) then Span(k) - n else 0;
    BigEndianSplits(negated, k, t, tail);
    CodeSplits(code, negated, k, t, tail);
  }

  lemma {:induction false} BytesSplit(s: string, t: seq<byte>, tail: seq<byte>)
    ensures Bytes(s, t + tail) == Bytes(s, t) + tail
  {
    if s != "" { BytesSplit(s[1..], t, tail); }
  }

  lemma StringSplits(s: string, t: seq<byte>, tail: seq<byte>)
    ensures EncodeString(s, t + tail) == EncodeString(s, t) + tail
  {
    hide BigEndian, Bytes;
    var n, body := |s|, Bytes(s, t);
    BytesSplit(s, t, tail);
    if n < 0x20 { assert [0xA0 + n] + (body + tail) == ([0xA0 + n] + body) + tail; }
    else if n < 0x100 { CodeSplits(0xD9, n, 1, body, tail); }
    else if n < 0x10000 { CodeSplits(0xDA, n, 2, body, tail); }
    else { CodeSplits(0xDB, n, 4, body, tail); }
  }

  lemma HeadSplits(n: nat, short: byte, long: byte, t: seq<byte>, tail: seq<byte>)
    requires short <= 0xF0 && long < 0xFF
    ensures ListHead(n, short, long, t + tail) == ListHead(n, short, long, t) + tail
  {
    hide BigEndian;
    if n < 0x10 { assert [short + n] + (t + tail) == ([short + n] + t) + tail; }
    else if n < 0x10000 { CodeSplits(long, n, 2, t, tail); }
    else { CodeSplits(long + 1, n, 4, t, tail); }
  }

  lemma {:induction false} EncodeSplits(v: Json, longLong: bool, t: seq<byte>, tail: seq<byte>)
    ensures Encode(v, longLong, t + tail) == Encode(v, longLong, t) + tail
    decreases v
  {
    hide EncodePositive, EncodeNegative, EncodeString, ListHead;
    match v
    case Null => assert [0xC0] + (t + tail) == ([0xC0] + t) + tail;
    case Bool(flag) => var b: byte := if flag then 0xC3 else 0xC2; assert [b] + (t + tail) == ([b] + t) + tail;
    case Positive(n) => PositiveSplits(n, longLong, t, tail);
    case Negative(n) => NegativeSplits(n, longLong, t, tail);
    case Text(chars) => StringSplits(chars, t, tail);
    case Array(es) =>
      ElementsSplit(es, longLong, t, tail);
      HeadSplits(Count(es), 0x90, 0xDC, EncodeElements(es, longLong, t), tail);
    case Object(ms) =>
      MembersSplit(ms, longLong, t, tail);
      HeadSplits(MembersCount(ms), 0x80, 0xDE, EncodeMembers(ms, longLong, t), tail);
  }

  lemma {:induction false} ElementsSplit(es: Elements, longLong: bool, t: seq<byte>, tail: seq<byte>)
    ensures EncodeElements(es, longLong, t + tail) == EncodeElements(es, longLong, t) + tail
    decreases es
  {
    hide Encode;
    if es.Element? {
      ElementsSplit(es.next, longLong, t, tail);
      EncodeSplits(es.value, longLong, EncodeElements(es.next, longLong, t), tail);
    }
  }

  lemma {:induction false} MembersSplit(ms: Members, longLong: bool, t: seq<byte>, tail: seq<byte>)
    ensures EncodeMembers(ms, longLong, t + tail) == EncodeMembers(ms, longLong, t) + tail
    decreases ms
  {
    hide Encode, EncodeString;
    if ms.Member? {
      MembersSplit(ms.next, longLong, t, tail);
      EncodeSplits(ms.value, longLong, EncodeMembers(ms.next, longLong, t), tail);
      StringSplits(ms.key, Encode(ms.value, longLong, EncodeMembers(ms.next, longLong, t)), tail);
    }
  }

  lemma Wrote(out: seq<byte>, s: seq<byte>, left: seq<byte>, whole: seq<byte>)
    requires out + (s + left) == whole
    ensures (out + s) + left == whole
  {
  }

  lemma ElementStep(es: Elements, longLong: bool)
    requires es.Element?
    ensures EncodeElements(es, longLong, []) == Encode(es.value, longLong, []) + EncodeElements(es.next, longLong, [])
  {
    hide Encode;
    var left := EncodeElements(es.next, longLong, []);
    EncodeSplits(es.value, longLong, [], left);
    assert [] + left == left;
  }

  lemma MemberStep(ms: Members, longLong: bool)
    requires ms.Member?
    ensures EncodeMembers(ms, longLong, []) ==
      EncodeString(ms.key, []) + (Encode(ms.value, longLong, []) + EncodeMembers(ms.next, longLong, []))
  {
    hide Encode, EncodeString;
    var left := EncodeMembers(ms.next, longLong, []);
    EncodeSplits(ms.value, longLong, [], left);
    StringSplits(ms.key, [], Encode(ms.value, longLong, []) + left);
    assert [] + left == left;
    assert [] + (Encode(ms.value, longLong, []) + left) == Encode(ms.value, longLong, []) + left;
  }

  lemma HeadFirst(n: nat, short: byte, long: byte, tail: seq<byte>)
    requires short <= 0xF0 && long < 0xFF
    ensures ListHead(n, short, long, tail) == ListHead(n, short, long, []) + tail
  {
    HeadSplits(n, short, long, [], tail);
    assert [] + tail == tail;
  }

  /** `MsgPackSerializer`. */
  class MsgPackSerializer {
    var written: seq<byte>
    var bytesWritten: nat
    const longLong: bool

    ghost predicate Counted()
      reads this
    {
      bytesWritten == |written|
    }

    constructor (longLong: bool)
      ensures Counted() && written == [] && this.longLong == longLong
    {
      written, bytesWritten, this.longLong := [], 0, longLong;
    }

    method WriteBytes(s: seq<byte>)
      requires Counted()
      modifies this
      ensures Counted() && written == old(written) + s
    {
      written, bytesWritten := written + s, bytesWritten + |s|;
    }

    /** The low `size` bytes of `value`, turned from the machine's order to most significant first. */
    method WriteInteger(value: nat, size: nat)
      requires Counted() && size > 0
      modifies this
      ensures Counted() && written == old(written) + BigEndian(value, size, [])
    {
      var bytes: seq<byte>, rest, left := [], value, size;
      while left > 0
        invariant left <= size && BigEndian(rest, left, bytes) == BigEndian(value, size, [])
        invariant Counted() && written == old(written)
        decreases left
      {
        bytes, rest, left := [rest % 256] + bytes, rest / 256, left - 1;
      }
      WriteBytes(bytes);
    }

    method WriteCoded(code: byte, value: nat, size: nat)
      requires Counted() && size > 0
      modifies this
      ensures Counted() && written == old(written) + ([code] + BigEndian(value, size, []))
    {
      WriteBytes([code]);
      WriteInteger(value, size);
    }

    method VisitPositiveInteger(n: nat)
      requires Counted()
      modifies this
      ensures Counted() && written == old(written) + EncodePositive(n, longLong, [])
    {
      hide BigEndian;
      if n <= 0x7F { WriteInteger(n, 1); }
      else if n <= 0xFF { WriteCoded(0xCC, n, 1); }
      else if n <= 0xFFFF { WriteCoded(0xCD, n, 2); }
      else if n <= 0xFFFF_FFFF { WriteCoded(0xCE, n, 4); }
      else if longLong { WriteCoded(0xCF, n, 8); }
    }

    /** The magnitude is negated in the unsigned type, and cut to the width written. */
    method VisitNegativeInteger(n: nat)
      requires Counted() && n <= MaxPositive(longLong)
      modifies this
      ensures Counted() && written == old(written) + EncodeNegative(n, longLong, [])
    {
      hide BigEndian;
      Spans();
      var negated := if n == 0 then 0 else MaxPositive(longLong) + 1 - n;
      if n <= 0x20 {
        CutNegated(n, 1, longLong);
        WriteInteger(negated, 1);
      } else if n <= 0x80 {
        CutNegated(n, 1, longLong);
        WriteCoded(0xD0, negated, 1);
      } else if n <= 0x8000 {
        CutNegated(n, 2, longLong);
        WriteCoded(0xD1, negated, 2);
      } else if n <= 0x8000_0000 {
        CutNegated(n, 4, longLong);
        WriteCoded(0xD2, negated, 4);
      } else if longLong {
        CutNegated(n, 8, longLong);
        WriteCoded(0xD3, negated, 8);
      }
    }

    method VisitString(s: string)
      requires Counted()
      modifies this
      ensures Counted() && written == old(written) + EncodeString(s, [])
    {
      hide BigEndian, Bytes, EncodeString;
      StringIs(s);
      var n, bytes := |s|, BytesOf(s);
      if n < 0x20 { WriteBytes([0xA0 + n]); }
      else if n < 0x100 { WriteCoded(0xD9, n, 1); }
      else if n < 0x10000 { WriteCoded(0xDA, n, 2); }
      else { WriteCoded(0xDB, n, 4); }
      WriteBytes(bytes);
    }

    method WriteListHead(n: nat, short: byte, long: byte)
      requires Counted() && short <= 0xF0 && long < 0xFF
      modifies this
      ensures Counted() && written == old(written) + ListHead(n, short, long, [])
    {
      hide BigEndian;
      if n < 0x10 { WriteBytes([short + n]); }
      else if n < 0x10000 { WriteCoded(long, n, 2); }
      else { WriteCoded(long + 1, n, 4); }
    }

    method Visit(v: Json)
      requires Counted() && Representable(v, MaxPositive(longLong))
      modifies this
      ensures Counted() && written == old(written) + Encode(v, longLong, [])
      decreases v, 0
    {
      hide EncodePositive, EncodeNegative, EncodeString, ListHead, EncodeElements, EncodeMembers;
      match v
      case Null => WriteBytes([0xC0]);
      case Bool(flag) => WriteBytes([if flag then 0xC3 else 0xC2]);
      case Positive(n) => VisitPositiveInteger(n);
      case Negative(n) => VisitNegativeInteger(n);
      case Text(chars) => VisitString(chars);
      case Array(es) => VisitArray(es);
      case Object(ms) => VisitObject(ms);
    }

    method VisitArray(head: Elements)
      requires Counted() && ElementsRepresentable(head, MaxPositive(longLong))
      modifies this
      ensures Counted() && written == old(written) + Encode(Array(head), longLong, [])
      decreases head, 1
    {
      hide Encode, EncodeElements, ListHead, Representable, MaxPositive;
      ArrayIs(head, longLong);
      ghost var whole := old(written) + Encode(Array(head), longLong, []);
      Wrote(written, ListHead(Count(head), 0x90, 0xDC, []), EncodeElements(head, longLong, []), whole);
      WriteListHead(Count(head), 0x90, 0xDC);
      var slot := head;
      while slot.Element?
        invariant slot == head || slot < head
        invariant Counted() && ElementsRepresentable(slot, MaxPositive(longLong))
        invariant written + EncodeElements(slot, longLong, []) == whole
        decreases slot
      {
        ElementStep(slot, longLong);
        Wrote(written, Encode(slot.value, longLong, []), EncodeElements(slot.next, longLong, []), whole);
        Visit(slot.value);
        slot := slot.next;
      }
      NothingLeft(longLong);
    }

    method VisitObject(head: Members)
      requires Counted() && MembersRepresentable(head, MaxPositive(longLong))
      modifies this
      ensures Counted() && written == old(written) + Encode(Object(head), longLong, [])
      decreases head, 1
    {
      hide Encode, EncodeMembers, ListHead, Representable, MaxPositive, EncodeString;
      ObjectIs(head, longLong);
      ghost var whole := old(written) + Encode(Object(head), longLong, []);
      Wrote(written, ListHead(MembersCount(head), 0x80, 0xDE, []), EncodeMembers(head, longLong, []), whole);
      WriteListHead(MembersCount(head), 0x80, 0xDE);
      var slot := head;
      while slot.Member?
        invariant slot == head || slot < head
        invariant Counted() && MembersRepresentable(slot, MaxPositive(longLong))
        invariant written + EncodeMembers(slot, longLong, []) == whole
        decreases slot
      {
        MemberStep(slot, longLong);
        ghost var value, left := Encode(slot.value, longLong, []), EncodeMembers(slot.next, longLong, []);
        Wrote(written, EncodeString(slot.key, []), value + left, whole);
        VisitString(slot.key);
        Wrote(written, value, left, whole);
        Visit(slot.value);
        slot := slot.next;
      }
      NothingLeft(longLong);
    }
  }

  function BytesOf(s: string): (b: seq<byte>)
    ensures b == Bytes(s, [])
  {
    if s == "" then [] else [s[0] as int % 256] + BytesOf(s[1..])
  }

  lemma NothingLeft(longLong: bool)
    ensures EncodeElements(NoElements, longLong, []) == [] && EncodeMembers(NoMembers, longLong, []) == []
  {
  }

  lemma ArrayIs(es: Elements, longLong: bool)
    ensures Encode(Array(es), longLong, []) == ListHead(Count(es), 0x90, 0xDC, []) + EncodeElements(es, longLong, [])
  {
    hide ListHead, EncodeElements;
    HeadFirst(Count(es), 0x90, 0xDC, EncodeElements(es, longLong, []));
  }

  lemma ObjectIs(ms: Members, longLong: bool)
    ensures Encode(Object(ms), longLong, []) ==
      ListHead(MembersCount(ms), 0x80, 0xDE, []) + EncodeMembers(ms, longLong, [])
  {
    hide ListHead, EncodeMembers;
    HeadFirst(MembersCount(ms), 0x80, 0xDE, EncodeMembers(ms, longLong, []));
  }

  lemma {:induction false} CodeFirst(n: nat, k: nat, tail: seq<byte>)
    ensures BigEndian(n, k, tail) == BigEndian(n, k, []) + tail
  {
    BigEndianSplits(n, k, [], tail);
    assert [] + tail == tail;
  }

  function StringHead(n: nat): seq<byte> {
    if n < 0x20 then [0xA0 + n]
    else if n < 0x100 then [0xD9] + BigEndian(n, 1, [])
    else if n < 0x10000 then [0xDA] + BigEndian(n, 2, [])
    else [0xDB] + BigEndian(n, 4, [])
  }

  lemma {:induction false} StringIs(s: string)
    ensures EncodeString(s, []) == StringHead(|s|) + Bytes(s, [])
  {
    hide BigEndian, Bytes;
    var n, body := |s|, Bytes(s, []);
    if 0x20 <= n < 0x100 { CodeFirst(n, 1, body); }
    else if 0x100 <= n < 0x10000 { CodeFirst(n, 2, body); }
    else if n >= 0x10000 { CodeFirst(n, 4, body); }
  }

  /** The low bytes of the negated magnitude are its two's complement in that width. */
  lemma CutNegated(n: nat, k: nat, longLong: bool)
    requires k in {1, 2, 4} || (k == 8 && longLong)
    requires n <= Span(k) && n <= MaxPositive(longLong)
    ensures BigEndian(if n == 0 then 0 else MaxPositive(longLong) + 1 - n, k, []) == Negated(n, k, [])
  {
    Spans();
    LowBytes(if n == 0 then 0 else MaxPositive(longLong) + 1 - n, Span(k) - n, k, []);
  }

  lemma {:induction false} LowBytes(a: nat, b: nat, k: nat, tail: seq<byte>)
    requires a % Span(k) == b % Span(k)
    ensures BigEndian(a, k, tail) == BigEndian(b, k, tail)
    decreases k
  {
    if k > 0 {
      LowByte(a, Span(k - 1));
      LowByte(b, Span(k - 1));
      LowBytes(a / 256, b / 256, k - 1, [a % 256] + tail);
    }
  }

  lemma LowByte(a: nat, m: nat)
    requires m > 0
    ensures a % 256 == a % (256 * m) % 256 && a / 256 % m == a % (256 * m) / 256
  {
    var q, r := a / (256 * m), a % (256 * m);
    assert a == 256 * (m * q) + r;
    assert a / 256 == m * q + r / 256 && a % 256 == r % 256;
    assert 0 <= r / 256 < m;
    RingIndex.DivModUnique(a / 256, m, q, r / 256);
  }

  // ---- The reader

  /** A method's error code, its result and the bytes then left, against what is decoded. */
  predicate Agrees<T(==)>(d: Decoded<T>, err: Option<Error>, value: T, rest: seq<byte>) {
    match d
    case Ok(v, r) => err == None && value == v && rest == r
    case Err(e) => err == Some(e)
  }

  function Grown(grown: seq<Json>, d: Decoded<Elements>): Decoded<Elements> {
    if d.Ok? then Ok(Onto(grown, d.value), d.rest) else d
  }

  function MembersGrown(grown: seq<(string, Json)>, d: Decoded<Members>): Decoded<Members> {
    if d.Ok? then Ok(MembersOnto(grown, d.value), d.rest) else d
  }

  lemma ElementsBegin(s: seq<byte>, n: nat, limit: nat, longLong: bool, grown: seq<Json>)
    ensures Grown(grown, DecodeElements(s, n, limit, longLong)) ==
      if n == 0 then Ok(Onto(grown, NoElements), s)
      else
        var v := Decode(s, limit, longLong);
        if v.Err? then Err(v.error)
        else Grown(grown + [v.value], DecodeElements(v.rest, n - 1, limit, longLong))
  {
    hide Decode, Onto;
    if n > 0 {
      var v := Decode(s, limit, longLong);
      if v.Ok? {
        var more := DecodeElements(v.rest, n - 1, limit, longLong);
        if more.Ok? { OntoOneMore(grown, v.value, more.value); }
      }
    }
  }

  lemma OntoNothing(d: Decoded<Elements>)
    ensures Grown([], d) == d
  {
  }

  lemma MembersOntoNothing(d: Decoded<Members>)
    ensures MembersGrown([], d) == d
  {
  }

  /** A key and its value. */
  function DecodeMember(s: seq<byte>, limit: nat, longLong: bool): (d: Decoded<(string, Json)>)
    ensures d.Ok? ==> |d.rest| < |s|
  {
    var key := DecodeKey(s);
    if key.Err? then Err(key.error)
    else
      var v := Decode(key.rest, limit, longLong);
      if v.Err? then Err(v.error) else Ok((key.value, v.value), v.rest)
  }

  lemma MembersBegin(s: seq<byte>, n: nat, limit: nat, longLong: bool, grown: seq<(string, Json)>)
    ensures MembersGrown(grown, DecodeMembers(s, n, limit, longLong)) ==
      if n == 0 then Ok(MembersOnto(grown, NoMembers), s)
      else
        var m := DecodeMember(s, limit, longLong);
        if m.Err? then Err(m.error)
        else MembersGrown(grown + [m.value], DecodeMembers(m.rest, n - 1, limit, longLong))
  {
    hide Decode, DecodeKey, MembersOnto;
    if n > 0 {
      var m := DecodeMember(s, limit, longLong);
      if m.Ok? {
        var more := DecodeMembers(m.rest, n - 1, limit, longLong);
        if more.Ok? { MembersOntoOneMore(grown, m.value.0, m.value.1, more.value); }
      }
    }
  }

  /** `MsgPackDeserializer`. After an error the nesting limit is left as it was when the error was met. */
  class MsgPackDeserializer {
    const input: seq<byte>
    var next: nat
    var nestingLimit: nat
    const longLong: bool

    ghost predicate Valid()
      reads this
    {
      next <= |input|
    }

    ghost function Rest(): seq<byte>
      requires Valid()
      reads this
    {
      input[next..]
    }

    constructor (input: seq<byte>, nestingLimit: nat, longLong: bool)
      ensures Valid() && Rest() == input && this.nestingLimit == nestingLimit && this.longLong == longLong
    {
      this.input, this.nestingLimit, this.longLong := input, nestingLimit, longLong;
      next := 0;
    }

    method ReadByte() returns (ok: bool, b: byte)
      requires Valid()
      modifies this`next
      ensures Valid() && ok == (old(Rest()) != [])
      ensures if ok then b == old(Rest())[0] && Rest() == old(Rest())[1..] else Rest() == old(Rest())
    {
      if next == |input| { return false, 0; }
      b := input[next];
      next := next + 1;
      ok := true;
    }

    /** An unsigned integer of `size` bytes, most significant first. */
    method ReadInteger(size: nat) returns (err: Option<Error>, value: nat)
      requires Valid()
      modifies this`next
      ensures Valid() && Agrees(ReadUnsigned(old(Rest()), size), err, value, Rest())
    {
      value := 0;
      var left: nat := size;
      while left > 0
        invariant Valid() && left <= size
        invariant ReadOnto(old(Rest()), size, 0) == ReadOnto(Rest(), left, value)
        decreases left
      {
        var ok, b := ReadByte();
        if !ok { return Some(IncompleteInput), 0; }
        value, left := 256 * value + b, left - 1;
      }
      err := None;
    }

    method ReadCharacters(n: nat) returns (err: Option<Error>, built: string)
      requires Valid()
      modifies this`next
      ensures Valid() && Agrees(ReadChars(old(Rest()), n), err, built, Rest())
    {
      built := "";
      var left: nat := n;
      CharsBegin(ReadChars(Rest(), n));
      while left > 0
        invariant Valid() && left <= n
        invariant ReadChars(old(Rest()), n) == CharsGrown(built, ReadChars(Rest(), left))
        decreases left
      {
        ghost var here := Rest();
        var ok, c := ReadByte();
        if !ok { return Some(IncompleteInput), built; }
        CharsMore(built, here, left);
        built, left := built + [c as char], left - 1;
      }
      assert built + "" == built;
      err := None;
    }

    method ReadString(size: nat) returns (err: Option<Error>, s: string)
      requires Valid()
      modifies this`next
      ensures Valid() && Agrees(ReadSizedChars(old(Rest()), size), err, s, Rest())
    {
      hide ReadUnsigned, ReadChars;
      var n;
      s := "";
      err, n := ReadInteger(size);
      if err != None { return; }
      err, s := ReadCharacters(n);
    }

    method ParseKey() returns (err: Option<Error>, key: string)
      requires Valid()
      modifies this`next
      ensures Valid() && Agrees(DecodeKey(old(Rest())), err, key, Rest())
    {
      hide ReadChars, ReadSizedChars;
      var ok, code := ReadByte();
      if !ok { return Some(IncompleteInput), ""; }
      if 0xA0 <= code < 0xC0 { err, key := ReadCharacters(code - 0xA0); }
      else if code == 0xD9 { err, key := ReadString(1); }
      else if code == 0xDA { err, key := ReadString(2); }
      else if code == 0xDB { err, key := ReadString(4); }
      else { return Some(NotSupported), ""; }
    }

    method ParseNumber(size: nat, signed: bool) returns (err: Option<Error>, v: Json)
      requires Valid()
      modifies this`next
      ensures Valid() && Agrees(MsgPack.ReadInteger(old(Rest()), size, signed), err, v, Rest())
    {
      hide ReadUnsigned;
      var value;
      err, value := ReadInteger(size);
      v := if signed then Signed(value, size) else Positive(value);
    }

    method ParseArray(n: nat) returns (err: Option<Error>, v: Json)
      requires Valid()
      modifies this
      ensures Valid() && Agrees(DecodeArray(old(Rest()), n, old(nestingLimit), longLong), err, v, Rest())
      ensures err == None ==> nestingLimit == old(nestingLimit)
      decreases |Rest()|, 2, n
    {
      hide DecodeElements, Onto, Decode;
      if nestingLimit == 0 { return Some(TooDeep), Null; }
      nestingLimit := nestingLimit - 1;
      var limit := nestingLimit;
      var grown: seq<Json>, left: nat := [], n;
      OntoNothing(DecodeElements(Rest(), n, limit, longLong));
      while left > 0
        invariant Valid() && left <= n && nestingLimit == limit && |Rest()| <= |old(Rest())|
        invariant left == n || |Rest()| < |old(Rest())|
        invariant DecodeElements(old(Rest()), n, limit, longLong) == Grown(grown, DecodeElements(Rest(), left, limit, longLong))
        decreases left
      {
        ElementsBegin(Rest(), left, limit, longLong, grown);
        var value;
        err, value := Parse();
        if err != None { return err, Null; }
        grown, left := grown + [value], left - 1;
      }
      ElementsBegin(Rest(), 0, limit, longLong, grown);
      nestingLimit := nestingLimit + 1;
      return None, Array(Onto(grown, NoElements));
    }

    method ParseObject(n: nat) returns (err: Option<Error>, v: Json)
      requires Valid()
      modifies this
      ensures Valid() && Agrees(DecodeObject(old(Rest()), n, old(nestingLimit), longLong), err, v, Rest())
      ensures err == None ==> nestingLimit == old(nestingLimit)
      decreases |Rest()|, 2, n
    {
      hide DecodeMembers, DecodeMember, MembersOnto, Decode;
      if nestingLimit == 0 { return Some(TooDeep), Null; }
      nestingLimit := nestingLimit - 1;
      var limit := nestingLimit;
      var grown: seq<(string, Json)>, left: nat := [], n;
      MembersOntoNothing(DecodeMembers(Rest(), n, limit, longLong));
      while left > 0
        invariant Valid() && left <= n && nestingLimit == limit && |Rest()| <= |old(Rest())|
        invariant left == n || |Rest()| < |old(Rest())|
        invariant DecodeMembers(old(Rest()), n, limit, longLong) == MembersGrown(grown, DecodeMembers(Rest(), left, limit, longLong))
        decreases left
      {
        MembersBegin(Rest(), left, limit, longLong, grown);
        var member;
        err, member := ParseMember();
        if err != None { return err, Null; }
        grown, left := grown + [member], left - 1;
      }
      MembersBegin(Rest(), 0, limit, longLong, grown);
      nestingLimit := nestingLimit + 1;
      return None, Object(MembersOnto(grown, NoMembers));
    }

    method ParseMember() returns (err: Option<Error>, member: (string, Json))
      requires Valid()
      modifies this
      ensures Valid() && Agrees(DecodeMember(old(Rest()), old(nestingLimit), longLong), err, member, Rest())
      ensures err == None ==> nestingLimit == old(nestingLimit)
      decreases |Rest()|, 1
    {
      hide DecodeKey, Decode;
      member := ("", Null);
      var key, value;
      err, key := ParseKey();
      if err != None { return; }
      err, value := Parse();
      member := (key, value);
    }

    method Parse() returns (err: Option<Error>, v: Json)
      requires Valid()
      modifies this
      ensures Valid() && Agrees(Decode(old(Rest()), old(nestingLimit), longLong), err, v, Rest())
      ensures err == None ==> nestingLimit == old(nestingLimit)
      decreases |Rest()|, 0
    {
      hide DecodeArray, DecodeObject, ReadChars, ReadSizedChars, ReadUnsigned, MsgPack.ReadInteger;
      var ok, code := ReadByte();
      if !ok { return Some(IncompleteInput), Null; }
      if code < 0x80 { return None, Positive(code); }
      if code >= 0xE0 { return None, Negative(0x100 - code); }
      if 0xA0 <= code < 0xC0 || 0xD9 <= code <= 0xDB {
        var chars;
        if code < 0xC0 { err, chars := ReadCharacters(code - 0xA0); }
        else { err, chars := ReadString(if code == 0xDB then 4 else code - 0xD8); }
        v := Text(chars);
      } else if 0x90 <= code < 0xA0 {
        err, v := ParseArray(code - 0x90);
      } else if code < 0x90 {
        err, v := ParseObject(code - 0x80);
      } else if code == 0xC0 {
        return None, Null;
      } else if code == 0xC2 || code == 0xC3 {
        return None, Bool(code == 0xC3);
      } else if code == 0xCC || code == 0xD0 {
        err, v := ParseNumber(1, code == 0xD0);
      } else if code == 0xCD || code == 0xD1 {
        err, v := ParseNumber(2, code == 0xD1);
      } else if code == 0xCE || code == 0xD2 {
        err, v := ParseNumber(4, code == 0xD2);
      } else if (code == 0xCF || code == 0xD3) && longLong {
        err, v := ParseNumber(8, code == 0xD3);
      } else if code == 0xCA || code == 0xCB {
        return Some(IsFloat), Null;
      } else if 0xDC <= code <= 0xDF {
        var n;
        err, n := ReadInteger(if code == 0xDC || code == 0xDE then 2 else 4);
        if err != None { return err, Null; }
        if code <= 0xDD { err, v := ParseArray(n); } else { err, v := ParseObject(n); }
      } else {
        return Some(NotSupported), Null;
      }
    }
  }

  function CharsGrown(prefix: string, d: Decoded<string>): Decoded<string> {
    if d.Ok? then Ok(prefix + d.value, d.rest) else d
  }

  lemma CharsBegin(d: Decoded<string>)
    ensures CharsGrown("", d) == d
  {
    if d.Ok? { assert "" + d.value == d.value; }
  }

  lemma {:induction false} CharsMore(prefix: string, s: seq<byte>, n: nat)
    requires s != [] && n > 0
    ensures CharsGrown(prefix, ReadChars(s, n)) == CharsGrown(prefix + [s[0] as char], ReadChars(s[1..], n - 1))
  {
    var more := ReadChars(s[1..], n - 1);
    if more.Ok? { assert prefix + ([s[0] as char] + more.value) == (prefix + [s[0] as char]) + more.value; }
  }
}
