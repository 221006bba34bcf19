/**
 MessagePack: the writer and the reader of documents without floats, and what comes back.
 Encodings are written in front of what follows them.
 */
module MsgPack {
  import opened CInt
  import opened JsonText

  datatype Error =
    | IncompleteInput | NotSupported | TooDeep
    | IsFloat // a float, which is not followed further

  datatype Decoded<T> = Ok(value: T, rest: seq<byte>) | Err(error: Error)

  const TWO_63: nat := 0x8000_0000_0000_0000
  const TWO_64: nat := 0x1_0000_0000_0000_0000

  /** 256 to the `k`-th. */
  function Span(k: nat): (r: nat)
    ensures r > 0
  {
    if k == 0 then 1 else 256 * Span(k - 1)
  }

  /** The low `k` bytes of `n`, most significant first. */
  function BigEndian(n: nat, k: nat, tail: seq<byte>): seq<byte> {
    if k == 0 then tail else BigEndian(n / 256, k - 1, [n % 256] + tail)
  }

  /** An unsigned integer of `k` bytes. */
  function ReadUnsigned(s: seq<byte>, k: nat): (d: Decoded<nat>)
    ensures d.Ok? ==> |d.rest| <= |s|
  {
    ReadOnto(s, k, 0)
  }

  function ReadOnto(s: seq<byte>, k: nat, high: nat): (d: Decoded<nat>)
    ensures d.Ok? ==> |d.rest| <= |s|
    decreases k
  {
    if k == 0 then Ok(high, s)
    else if s == [] then Err(IncompleteInput)
    else ReadOnto(s[1..], k - 1, 256 * high + s[0])
  }

  // ---- The writer

  function EncodePositive(n: nat, longLong: bool, tail: seq<byte>): seq<byte> {
    if n <= 0x7F then BigEndian(n, 1, tail)
    else if n <= 0xFF then [0xCC] + BigEndian(n, 1, tail)
    else if n <= 0xFFFF then [0xCD] + BigEndian(n, 2, tail)
    else if n <= 0xFFFF_FFFF then [0xCE] + BigEndian(n, 4, tail)
    else if longLong then [0xCF] + BigEndian(n, 8, tail)
    else tail
  }

  /** The negative of `n` in `k` bytes of two's complement. */
  function Negated(n: nat, k: nat, tail: seq<byte>): seq<byte> {
    BigEndian(if n <= Span(k) then Span(k) - n else 0, k, tail)
  }

  /** Without 64-bit integers a magnitude beyond 2^31 writes nothing; with them, one beyond 2^63 writes a
      positive number. */
  function EncodeNegative(n: nat, longLong: bool, tail: seq<byte>): seq<byte> {
    if n <= 0x20 then Negated(n, 1, tail)
    else if n <= 0x80 then [0xD0] + Negated(n, 1, tail)
    else if n <= 0x8000 then [0xD1] + Negated(n, 2, tail)
    else if n <= 0x8000_0000 then [0xD2] + Negated(n, 4, tail)
    else if longLong then [0xD3] + Negated(n, 8, tail)
    else tail
  }

  function Bytes(s: string, tail: seq<byte>): seq<byte> {
    if s == "" then tail else [s[0] as int % 256] + Bytes(s[1..], tail)
  }

  function EncodeString(s: string, tail: seq<byte>): seq<byte> {
    var n := |s|;
    var body := Bytes(s, tail);
    if n < 0x20 then [0xA0 + n] + body
    else if n < 0x100 then [0xD9] + BigEndian(n, 1, body)
    else if n < 0x10000 then [0xDA] + BigEndian(n, 2, body)
    else [0xDB] + BigEndian(n, 4, body)
  }

  /** The head of a list of `n`: its size in the code, or behind it in two or four bytes. */
  function ListHead(n: nat, short: byte, long: byte, tail: seq<byte>): seq<byte>
    requires short <= 0xF0 && long < 0xFF
  {
    if n < 0x10 then [short + n] + tail
    else if n < 0x10000 then [long] + BigEndian(n, 2, tail)
    else [long + 1] + BigEndian(n, 4, tail)
  }

  function Encode(v: Json, longLong: bool, tail: seq<byte>): seq<byte>
    decreases v
  {
    match v
    case Null => [0xC0] + tail
    case Bool(flag) => [if flag then 0xC3 else 0xC2] + tail
    case Positive(n) => EncodePositive(n, longLong, tail)
    case Negative(n) => EncodeNegative(n, longLong, tail)
    case Text(chars) => EncodeString(chars, tail)
    case Array(es) => ListHead(Count(es), 0x90, 0xDC, EncodeElements(es, longLong, tail))
    case Object(ms) => ListHead(MembersCount(ms), 0x80, 0xDE, EncodeMembers(ms, longLong, tail))
  }

  function EncodeElements(es: Elements, longLong: bool, tail: seq<byte>): seq<byte>
    decreases es
  {
    if es.NoElements? then tail else Encode(es.value, longLong, EncodeElements(es.next, longLong, tail))
  }

  function EncodeMembers(ms: Members, longLong: bool, tail: seq<byte>): seq<byte>
    decreases ms
  {
    if ms.NoMembers? then tail
    else EncodeString(ms.key, Encode(ms.value, longLong, EncodeMembers(ms.next, longLong, tail)))
  }

  // ---- The reader

  function Signed(u: nat, k: nat): Json {
    if 2 * u < Span(k) then Positive(u) else Negative(if u <= Span(k) then Span(k) - u else 0)
  }

  function ReadInteger(s: seq<byte>, k: nat, signed: bool): (d: Decoded<Json>)
    ensures d.Ok? ==> |d.rest| <= |s|
  {
    var u := ReadUnsigned(s, k);
    if u.Err? then Err(u.error) else Ok(if signed then Signed(u.value, k) else Positive(u.value), u.rest)
  }

  /** `n` characters. */
  function ReadChars(s: seq<byte>, n: nat): (d: Decoded<string>)
    ensures d.Ok? ==> |d.rest| <= |s|
    decreases n
  {
    if n == 0 then Ok("", s)
    else if s == [] then Err(IncompleteInput)
    else
      var more := ReadChars(s[1..], n - 1);
      if more.Ok? then Ok([s[0] as char] + more.value, more.rest) else more
  }

  /** A size of `k` bytes, and that many characters. */
  function ReadSizedChars(s: seq<byte>, k: nat): (d: Decoded<string>)
    ensures d.Ok? ==> |d.rest| <= |s|
  {
    var n := ReadUnsigned(s, k);
    if n.Err? then Err(n.error) else ReadChars(n.rest, n.value)
  }

  function DecodeKey(s: seq<byte>): (d: Decoded<string>)
    ensures d.Ok? ==> |d.rest| <= |s|
  {
    if s == [] then Err(IncompleteInput)
    else if 0xA0 <= s[0] < 0xC0 then ReadChars(s[1..], s[0] - 0xA0)
    else if s[0] == 0xD9 then ReadSizedChars(s[1..], 1)
    else if s[0] == 0xDA then ReadSizedChars(s[1..], 2)
    else if s[0] == 0xDB then ReadSizedChars(s[1..], 4)
    else Err(NotSupported)
  }

  function AsText(d: Decoded<string>): Decoded<Json> {
    if d.Ok? then Ok(Text(d.value), d.rest) else Err(d.error)
  }

  /** A value, with room for lists to nest `limit` deep. */
  function Decode(s: seq<byte>, limit: nat, longLong: bool): (d: Decoded<Json>)
    ensures d.Ok? ==> |d.rest| < |s|
    decreases |s|, 0
  {
    if s == [] then Err(IncompleteInput)
    else
      var code, rest := s[0], s[1..];
      if code < 0x80 then Ok(Positive(code), rest)
      else if code >= 0xE0 then Ok(Negative(0x100 - code), rest)
      else if code >= 0xA0 && code < 0xC0 then AsText(ReadChars(rest, code - 0xA0))
      else if code >= 0x90 && code < 0xA0 then DecodeArray(rest, code - 0x90, limit, longLong)
      else if code < 0x90 then DecodeObject(rest, code - 0x80, limit, longLong)
      else if code == 0xC0 then Ok(Null, rest)
      else if code == 0xC2 then Ok(Bool(false), rest)
      else if code == 0xC3 then Ok(Bool(true), rest)
      else if code == 0xCC then ReadInteger(rest, 1, false)
      else if code == 0xCD then ReadInteger(rest, 2, false)
      else if code == 0xCE then ReadInteger(rest, 4, false)
      else if code == 0xCF && longLong then ReadInteger(rest, 8, false)
      else if code == 0xD0 then ReadInteger(rest, 1, true)
      else if code == 0xD1 then ReadInteger(rest, 2, true)
      else if code == 0xD2 then ReadInteger(rest, 4, true)
      else if code == 0xD3 && longLong then ReadInteger(rest, 8, true)
      else if code == 0xCA || code == 0xCB then Err(IsFloat)
      else if code == 0xD9 then AsText(ReadSizedChars(rest, 1))
      else if code == 0xDA then AsText(ReadSizedChars(rest, 2))
      else if code == 0xDB then AsText(ReadSizedChars(rest, 4))
      else if code == 0xDC || code == 0xDD then
        var n := ReadUnsigned(rest, if code == 0xDC then 2 else 4);
        if n.Err? then Err(n.error) else DecodeArray(n.rest, n.value, limit, longLong)
      else if code == 0xDE || code == 0xDF then
        var n := ReadUnsigned(rest, if code == 0xDE then 2 else 4);
        if n.Err? then Err(n.error) else DecodeObject(n.rest, n.value, limit, longLong)
      else Err(NotSupported)
  }

  function DecodeArray(s: seq<byte>, n: nat, limit: nat, longLong: bool): (d: Decoded<Json>)
    ensures d.Ok? ==> |d.rest| <= |s|
    decreases |s|, 2, n
  {
    if limit == 0 then Err(TooDeep)
    else
      var es := DecodeElements(s, n, limit - 1, longLong);
      if es.Ok? then Ok(Array(es.value), es.rest) else Err(es.error)
  }

  function DecodeElements(s: seq<byte>, n: nat, limit: nat, longLong: bool): (d: Decoded<Elements>)
    ensures d.Ok? ==> |d.rest| <= |s|
    decreases |s|, 1, n
  {
    if n == 0 then Ok(NoElements, s)
    else
      var v := Decode(s, limit, longLong);
      if v.Err? then Err(v.error)
      else
        var more := DecodeElements(v.rest, n - 1, limit, longLong);
        if more.Ok? then Ok(Element(v.value, more.value), more.rest) else more
  }

  function DecodeObject(s: seq<byte>, n: nat, limit: nat, longLong: bool): (d: Decoded<Json>)
    ensures d.Ok? ==> |d.rest| <= |s|
    decreases |s|, 2, n
  {
    if limit == 0 then Err(TooDeep)
    else
      var ms := DecodeMembers(s, n, limit - 1, longLong);
      if ms.Ok? then Ok(Object(ms.value), ms.rest) else Err(ms.error)
  }

  function DecodeMembers(s: seq<byte>, n: nat, limit: nat, longLong: bool): (d: Decoded<Members>)
    ensures d.Ok? ==> |d.rest| <= |s|
    decreases |s|, 1, n
  {
    if n == 0 then Ok(NoMembers, s)
    else
      var key := DecodeKey(s);
      if key.Err? then Err(key.error)
      else
        var v := Decode(key.rest, limit, longLong);
        if v.Err? then Err(v.error)
        else
          var more := DecodeMembers(v.rest, n - 1, limit, longLong);
          if more.Ok? then Ok(Member(key.value, v.value, more.value), more.rest) else more
  }

  // ---- Reading back what was written

  lemma Spans()
    ensures Span(1) == 0x100 && Span(2) == 0x10000 && Span(4) == 0x1_0000_0000 && Span(8) == TWO_64
  {
    assert Span(2) == 256 * Span(1);
    assert Span(4) == 256 * (256 * Span(2));
    assert Span(6) == 256 * (256 * Span(4));
    assert Span(8) == 256 * (256 * Span(6));
  }

  lemma Head(b: byte, tail: seq<byte>)
    ensures ([b] + tail)[0] == b && ([b] + tail)[1..] == tail
  {
  }

  lemma {:induction false} ReadsOntoBigEndian(n: nat, k: nat, more: nat, tail: seq<byte>)
    requires n < Span(k)
    ensures ReadOnto(BigEndian(n, k, tail), k + more, 0) == ReadOnto(tail, more, n)
    decreases k
  {
    if k > 0 {
      Head(n % 256, tail);
      ReadsOntoBigEndian(n / 256, k - 1, more + 1, [n % 256] + tail);
    }
  }

  /** An integer of `k` bytes reads back. */
  lemma ReadsBigEndian(n: nat, k: nat, tail: seq<byte>)
    requires n < Span(k)
    ensures ReadUnsigned(BigEndian(n, k, tail), k) == Ok(n, tail)
  {
    ReadsOntoBigEndian(n, k, 0, tail);
  }

  lemma OneByte(n: nat, tail: seq<byte>)
    ensures BigEndian(n, 1, tail) == [n % 256] + tail
  {
    assert BigEndian(n / 256, 0, [n % 256] + tail) == [n % 256] + tail;
  }

  /** The codes of integers. */
  lemma IntegerCode(code: byte, k: nat, signed: bool, rest: seq<byte>, limit: nat, longLong: bool)
    requires (code, k, signed) in {(0xCC, 1, false), (0xCD, 2, false), (0xCE, 4, false), (0xCF, 8, false),
                                   (0xD0, 1, true), (0xD1, 2, true), (0xD2, 4, true), (0xD3, 8, true)}
    requires k == 8 ==> longLong
    ensures Decode([code] + rest, limit, longLong) == ReadInteger(rest, k, signed)
  {
    hide ReadInteger;
    Head(code, rest);
  }

  function MaxPositive(longLong: bool): nat {
    if longLong then TWO_64 - 1 else 0xFFFF_FFFF
  }

  lemma PositiveReadsBack(n: nat, limit: nat, longLong: bool, tail: seq<byte>)
    requires n <= MaxPositive(longLong)
    ensures Decode(EncodePositive(n, longLong, tail), limit, longLong) == Ok(Positive(n), tail)
  {
    hide Decode, Span, BigEndian, ReadUnsigned;
    Spans();
    if n <= 0x7F {
      OneByte(n, tail);
      FixedPositive(n, tail, limit, longLong);
    } else {
      var (code, k) := if n <= 0xFF then (0xCC, 1) else if n <= 0xFFFF then (0xCD, 2)
        else if n <= 0xFFFF_FFFF then (0xCE, 4) else (0xCF, 8);
      ReadsBigEndian(n, k, tail);
      IntegerCode(code, k, false, BigEndian(n, k, tail), limit, longLong);
    }
  }

  lemma FixedPositive(n: byte, tail: seq<byte>, limit: nat, longLong: bool)
    requires n <= 0x7F
    ensures Decode([n] + tail, limit, longLong) == Ok(Positive(n), tail)
  {
    Head(n, tail);
  }

  lemma FixedNegative(code: byte, tail: seq<byte>, limit: nat, longLong: bool)
    requires code >= 0xE0
    ensures Decode([code] + tail, limit, longLong) == Ok(Negative(0x100 - code), tail)
  {
    Head(code, tail);
  }

  /** The most negative magnitude that reads back. */
  function MaxNegative(longLong: bool): nat {
    if longLong then TWO_63 else 0x8000_0000
  }

  /** What a written negative reads back as: itself, but zero loses its sign, and a magnitude beyond 2^63
      comes back as its complement. */
  function ReadBackNegative(n: nat): Json
    requires n <= TWO_64
  {
    if n == 0 then Positive(0) else if n <= TWO_63 then Negative(n) else Positive(TWO_64 - n)
  }

  lemma NegativeReadsBack(n: nat, limit: nat, longLong: bool, tail: seq<byte>)
    requires n <= if longLong then TWO_64 - 1 else 0x8000_0000
    ensures Decode(EncodeNegative(n, longLong, tail), limit, longLong) == Ok(ReadBackNegative(n), tail)
  {
    hide Decode, Span, BigEndian, ReadUnsigned;
    Spans();
    if n <= 0x20 {
      OneByte(0x100 - n, tail);
      if n == 0 { FixedPositive(0, tail, limit, longLong); } else { FixedNegative(0x100 - n, tail, limit, longLong); }
    } else {
      var (code, k) := if n <= 0x80 then (0xD0, 1) else if n <= 0x8000 then (0xD1, 2)
        else if n <= 0x8000_0000 then (0xD2, 4) else (0xD3, 8);
      ReadsBigEndian(Span(k) - n, k, tail);
      IntegerCode(code, k, true, BigEndian(Span(k) - n, k, tail), limit, longLong);
    }
  }

  /** MAIN (MessagePack): among the magnitudes an unsigned integer holds, exactly those from 1 to the largest
      signed one come back negative and unchanged. */
  lemma {:induction false} NegativesThatSurvive(n: nat, limit: nat, longLong: bool, tail: seq<byte>)
    requires n <= MaxPositive(longLong)
    ensures Decode(EncodeNegative(n, longLong, tail), limit, longLong) == Ok(Negative(n), tail)
      <==> 1 <= n <= MaxNegative(longLong)
  {
    hide Decode;
    if longLong || n <= 0x8000_0000 { NegativeReadsBack(n, limit, longLong, tail); }
  }

  predicate Bytewise(s: string) {
    |s| < 0x1_0000_0000 && forall c <- s :: c != NUL && c as int < 256
  }

  lemma {:induction false} CharsReadBack(s: string, tail: seq<byte>)
    requires forall c <- s :: c as int < 256
    ensures ReadChars(Bytes(s, tail), |s|) == Ok(s, tail)
  {
    if s != "" {
      assert s[0] in s && (s[0] as int % 256) as char == s[0];
      forall c | c in s[1..] ensures c as int < 256 { assert c in s; }
      Head(s[0] as int % 256, Bytes(s[1..], tail));
      CharsReadBack(s[1..], tail);
      assert s == [s[0]] + s[1..];
    }
  }

  lemma StringCode(code: byte, rest: seq<byte>, limit: nat, longLong: bool)
    requires 0xA0 <= code < 0xC0 || 0xD9 <= code <= 0xDB
    ensures DecodeKey([code] + rest) == (
      if code < 0xC0 then ReadChars(rest, code - 0xA0) else ReadSizedChars(rest, if code == 0xDB then 4 else code - 0xD8))
    ensures Decode([code] + rest, limit, longLong) == AsText(DecodeKey([code] + rest))
  {
    hide ReadChars, ReadSizedChars;
    Head(code, rest);
  }

  lemma StringReadsBack(s: string, limit: nat, longLong: bool, tail: seq<byte>)
    requires Bytewise(s)
    ensures DecodeKey(EncodeString(s, tail)) == Ok(s, tail)
    ensures Decode(EncodeString(s, tail), limit, longLong) == Ok(Text(s), tail)
  {
    hide Decode, DecodeKey, Span, BigEndian, ReadUnsigned, ReadChars, Bytes;
    Spans();
    var n, body := |s|, Bytes(s, tail);
    CharsReadBack(s, tail);
    if n < 0x20 {
      StringCode(0xA0 + n, body, limit, longLong);
    } else {
      var (code, k) := if n < 0x100 then (0xD9, 1) else if n < 0x10000 then (0xDA, 2) else (0xDB, 4);
      ReadsBigEndian(n, k, body);
      StringCode(code, BigEndian(n, k, body), limit, longLong);
    }
  }

  // ---- Whole documents

  /** What the writer can write and the reader read: sizes of 32 bits, strings of bytes without NUL, and
      magnitudes within the signed range. */
  predicate Encodable(v: Json, longLong: bool) {
    match v
    case Positive(n) => n <= MaxPositive(longLong)
    case Negative(n) => n <= MaxNegative(longLong)
    case Text(chars) => Bytewise(chars)
    case Array(es) => Count(es) < 0x1_0000_0000 && ElementsEncodable(es, longLong)
    case Object(ms) => MembersCount(ms) < 0x1_0000_0000 && MembersEncodable(ms, longLong)
    case _ => true
  }

  predicate ElementsEncodable(es: Elements, longLong: bool) {
    es.Element? ==> Encodable(es.value, longLong) && ElementsEncodable(es.next, longLong)
  }

  predicate MembersEncodable(ms: Members, longLong: bool) {
    ms.Member? ==> Bytewise(ms.key) && Encodable(ms.value, longLong) && MembersEncodable(ms.next, longLong)
  }

  /** The document with its negative zeros made positive. */
  function Normal(v: Json): Json {
    match v
    case Negative(n) => if n == 0 then Positive(0) else v
    case Array(es) => Array(NormalElements(es))
    case Object(ms) => Object(NormalMembers(ms))
    case _ => v
  }

  function NormalElements(es: Elements): Elements {
    if es.NoElements? then es else Element(Normal(es.value), NormalElements(es.next))
  }

  function NormalMembers(ms: Members): Members {
    if ms.NoMembers? then ms else Member(ms.key, Normal(ms.value), NormalMembers(ms.next))
  }

  function Expected<T>(nesting: nat, limit: nat, value: T, rest: seq<byte>): Decoded<T> {
    if nesting <= limit then Ok(value, rest) else Err(TooDeep)
  }

  lemma ListCode(n: nat, isArray: bool, tail: seq<byte>, limit: nat, longLong: bool)
    requires n < 0x1_0000_0000
    ensures Decode(if isArray then ListHead(n, 0x90, 0xDC, tail) else ListHead(n, 0x80, 0xDE, tail), limit, longLong)
      == if isArray then DecodeArray(tail, n, limit, longLong) else DecodeObject(tail, n, limit, longLong)
  {
    hide DecodeArray, DecodeObject, Span, BigEndian, ReadUnsigned;
    Spans();
    var short, long := if isArray then 0x90 else 0x80, if isArray then 0xDC else 0xDE;
    if n < 0x10 {
      Head(short + n, tail);
    } else {
      var k := if n < 0x10000 then 2 else 4;
      ReadsBigEndian(n, k, tail);
      Head(if k == 2 then long else long + 1, BigEndian(n, k, tail));
    }
  }

  /** MAIN (MessagePack): reading what was written of a document, whatever bytes follow it, gives the same
      document but for the sign of zeros and leaves exactly those bytes, when its lists nest at most `limit`
      deep, and otherwise reports that they are too deep. */
  lemma {:induction false} ReadsBack(v: Json, limit: nat, longLong: bool, tail: seq<byte>)
    requires Encodable(v, longLong)
    ensures Decode(Encode(v, longLong, tail), limit, longLong) == Expected(Nesting(v), limit, Normal(v), tail)
    decreases v
  {
    hide Decode, EncodePositive, EncodeNegative, EncodeString, ListHead;
    match v
    case Null => SimpleReadsBack(v, limit, longLong, tail);
    case Bool(_) => SimpleReadsBack(v, limit, longLong, tail);
    case Positive(n) => PositiveReadsBack(n, limit, longLong, tail);
    case Negative(n) => NegativeReadsBack(n, limit, longLong, tail);
    case Text(chars) => StringReadsBack(chars, limit, longLong, tail);
    case Array(es) =>
      ListCode(Count(es), true, EncodeElements(es, longLong, tail), limit, longLong);
      if limit > 0 { ElementsReadBack(es, limit - 1, longLong, tail); }
    case Object(ms) =>
      ListCode(MembersCount(ms), false, EncodeMembers(ms, longLong, tail), limit, longLong);
      if limit > 0 { MembersReadBack(ms, limit - 1, longLong, tail); }
  }

  lemma SimpleReadsBack(v: Json, limit: nat, longLong: bool, tail: seq<byte>)
    requires v.Null? || v.Bool?
    ensures Decode(Encode(v, longLong, tail), limit, longLong) == Ok(v, tail)
  {
    Head(if v.Null? then 0xC0 else if v.flag then 0xC3 else 0xC2, tail);
  }

  lemma {:induction false} ElementsReadBack(es: Elements, limit: nat, longLong: bool, tail: seq<byte>)
    requires ElementsEncodable(es, longLong)
    ensures DecodeElements(EncodeElements(es, longLong, tail), Count(es), limit, longLong)
      == Expected(ElementsNesting(es), limit, NormalElements(es), tail)
    decreases es
  {
    hide Decode, Encode, Nesting, Normal;
    if es.Element? {
      ReadsBack(es.value, limit, longLong, EncodeElements(es.next, longLong, tail));
      ElementsReadBack(es.next, limit, longLong, tail);
    }
  }

  lemma {:induction false} MembersReadBack(ms: Members, limit: nat, longLong: bool, tail: seq<byte>)
    requires MembersEncodable(ms, longLong)
    ensures DecodeMembers(EncodeMembers(ms, longLong, tail), MembersCount(ms), limit, longLong)
      == Expected(MembersNesting(ms), limit, NormalMembers(ms), tail)
    decreases ms
  {
    hide Decode, Encode, Nesting, Normal, EncodeString, DecodeKey;
    if ms.Member? {
      var rest := EncodeMembers(ms.next, longLong, tail);
      StringReadsBack(ms.key, limit, longLong, Encode(ms.value, longLong, rest));
      ReadsBack(ms.value, limit, longLong, rest);
      MembersReadBack(ms.next, limit, longLong, tail);
    }
  }

  // ---- Integers as the format defines them

  /** How many bytes follow the code of an integer; less than none if it is the code of something else. */
  function Width(code: byte): int {
    if code < 0x80 || code >= 0xE0 then 0
    else if code == 0xCC || code == 0xD0 then 1
    else if code == 0xCD || code == 0xD1 then 2
    else if code == 0xCE || code == 0xD2 then 4
    else if code == 0xCF || code == 0xD3 then 8
    else -1
  }

  /** Bytes as an unsigned number, most significant first. */
  function Magnitude(s: seq<byte>): nat {
    if s == [] then 0 else 256 * Magnitude(s[..|s| - 1]) + s[|s| - 1] as int
  }

  predicate IsInteger(s: seq<byte>) {
    s != [] && Width(s[0]) >= 0 && |s| == 1 + Width(s[0])
  }

  /** The number an integer stands for: within its code, unsigned, or two's complement, told by the top bit. */
  function Said(s: seq<byte>): int
    requires IsInteger(s)
  {
    var u := Magnitude(s[1..]);
    if s[0] < 0x80 then s[0] as int
    else if s[0] >= 0xE0 then s[0] as int - 256
    else if s[0] < 0xD0 || s[1] < 128 then u
    else if s[0] == 0xD0 then u - 0x100
    else if s[0] == 0xD1 then u - 0x1_0000
    else if s[0] == 0xD2 then u - 0x1_0000_0000
    else u - 0x1_0000_0000_0000_0000
  }

  function Number(v: Json): int {
    match v case Positive(n) => n case Negative(n) => -(n as int) case _ => 0
  }

  lemma Distribute(a: nat, b: nat, sp: nat)
    ensures (256 * a + b) * sp == a * (256 * sp) + b * sp
  {
    assert (256 * a) * sp == a * (256 * sp);
  }

  /** The first byte weighs most. */
  lemma {:induction false} MagnitudeFront(s: seq<byte>)
    requires s != []
    ensures Magnitude(s) == s[0] * Span(|s| - 1) + Magnitude(s[1..])
    ensures Magnitude(s[1..]) < Span(|s| - 1) && Magnitude(s) < Span(|s|)
    decreases |s|
  {
    if |s| == 1 {
      assert s[..0] == [] && s[1..] == [];
      assert Span(0) == 1;
    } else {
      var n := |s| - 1;
      MagnitudeFront(s[..n]);
      assert s[..n][1..] == s[1..][..n - 1];
      assert s[1..] != [] && s[1..][n - 1] == s[n];
      FrontStep(s[0], Magnitude(s[..n][1..]), s[n], Span(n - 1));
    }
  }

  lemma FrontStep(first: nat, m: nat, last: nat, sp: nat)
    requires first < 256 && last < 256 && m < sp
    ensures 256 * (first * sp + m) + last == first * (256 * sp) + (256 * m + last)
    ensures 256 * m + last < 256 * sp
    ensures first * (256 * sp) + (256 * m + last) < 256 * (256 * sp)
  {
    Distribute(first, 0, sp);
    assert first * (256 * sp) <= 255 * (256 * sp);
  }

  lemma {:induction false} ReadsMagnitude(s: seq<byte>, rest: seq<byte>, high: nat)
    ensures ReadOnto(s + rest, |s|, high) == Ok(high * Span(|s|) + Magnitude(s), rest)
    decreases |s|
  {
    if s == [] {
      assert s + rest == rest;
    } else {
      var b: nat := s[0];
      assert (s + rest)[1..] == s[1..] + rest;
      ReadsMagnitude(s[1..], rest, 256 * high + b);
      MagnitudeFront(s);
      Distribute(high, b, Span(|s| - 1));
    }
  }

  /** MAIN (MessagePack): every integer of every format is read as the number it stands for; 64-bit ones only where
      the reader has them. */
  lemma IntegersAreRead(s: seq<byte>, rest: seq<byte>, limit: nat, longLong: bool)
    requires IsInteger(s)
    ensures var d := Decode(s + rest, limit, longLong);
      if |s| == 9 && !longLong then d == Err(NotSupported)
      else d.Ok? && (d.value.Positive? || d.value.Negative?) && Number(d.value) == Said(s) && d.rest == rest
  {
    hide ReadOnto, Span, Magnitude, DecodeArray, DecodeObject, ReadChars, ReadSizedChars;
    var k := |s| - 1;
    assert (s + rest)[0] == s[0] && (s + rest)[1..] == s[1..] + rest;
    if k > 0 && (k < 8 || longLong) {
      ReadsMagnitude(s[1..], rest, 0);
      IntegerCode(s[0], k, s[0] >= 0xD0, s[1..] + rest, limit, longLong);
      assert s + rest == [s[0]] + (s[1..] + rest);
      TopBit(s[1..]);
    } else if k == 0 {
      assert s + rest == [s[0]] + rest;
      if s[0] < 0x80 { FixedPositive(s[0], rest, limit, longLong); } else { FixedNegative(s[0], rest, limit, longLong); }
    }
  }

  /** The top bit tells the halves of what `k` bytes hold apart. */
  lemma TopBit(s: seq<byte>)
    requires |s| in {1, 2, 4, 8}
    ensures s[0] < 128 <==> 2 * Magnitude(s) < Span(|s|)
    ensures Magnitude(s) < Span(|s|)
    ensures Span(|s|) == if |s| == 1 then 0x100 else if |s| == 2 then 0x1_0000 else if |s| == 4 then 0x1_0000_0000
      else 0x1_0000_0000_0000_0000
  {
    hide Magnitude;
    Spans();
    MagnitudeFront(s);
    var b: nat, sp := s[0], Span(|s| - 1);
    assert Span(|s|) == 256 * sp;
    if b < 128 { assert b * sp <= 127 * sp; } else { assert b * sp >= 128 * sp; }
  }

  lemma {:induction false} BigEndianLength(n: nat, k: nat, tail: seq<byte>)
    ensures |BigEndian(n, k, tail)| == k + |tail|
  {
    if k > 0 { BigEndianLength(n / 256, k - 1, [n % 256] + tail); }
  }

  /** MAIN (MessagePack): integers are written in the shortest format that holds them. */
  lemma IntegersAreShortest(s: seq<byte>, longLong: bool)
    requires IsInteger(s) && -(MaxNegative(longLong) as int) <= Said(s) <= MaxPositive(longLong)
    ensures var n := Said(s);
      if n >= 0 then |EncodePositive(n, longLong, [])| <= |s| else |EncodeNegative(-n, longLong, [])| <= |s|
  {
    hide BigEndian, Span, Magnitude;
    var n := Said(s);
    if |s| > 1 { TopBit(s[1..]); }
    if n >= 0 {
      BigEndianLength(n, if n <= 0xFF then 1 else if n <= 0xFFFF then 2 else if n <= 0xFFFF_FFFF then 4 else 8, []);
    } else {
      var k := if -n <= 0x80 then 1 else if -n <= 0x8000 then 2 else if -n <= 0x8000_0000 then 4 else 8;
      BigEndianLength(if -n <= Span(k) then Span(k) + n else 0, k, []);
    }
  }

  /** What each kind of value begins with: the first bytes of the format's table. */
  lemma FirstBytes(v: Json, longLong: bool, n: nat)
    requires match v case Text(s) => n == |s| case Array(es) => n == Count(es) case Object(ms) => n == MembersCount(ms) case _ => true
    requires n < 0x1_0000_0000 && !v.Positive? && !v.Negative?
    ensures
      var two := [n / 256, n % 256];
      var four := [n / 0x100_0000, n / 0x1_0000 % 256, n / 256 % 256, n % 256];
      var head: seq<nat> := match v
        case Null => [0xC0]
        case Bool(flag) => if flag then [0xC3] else [0xC2]
        case Text(_) =>
          if n < 32 then [0xA0 + n] else if n < 256 then [0xD9, n] else if n < 65536 then [0xDA] + two else [0xDB] + four
        case Array(_) => if n < 16 then [0x90 + n] else if n < 65536 then [0xDC] + two else [0xDD] + four
        case Object(_) => if n < 16 then [0x80 + n] else if n < 65536 then [0xDE] + two else [0xDF] + four
        case _ => [];
      var text := Encode(v, longLong, []);
      |head| <= |text| && forall i :: 0 <= i < |head| ==> text[i] == head[i]
  {
    hide Bytes, EncodeElements, EncodeMembers, BigEndian;
    match v
    case Text(s) => Sizes(n, Bytes(s, []));
    case Array(es) => Sizes(n, EncodeElements(es, longLong, []));
    case Object(ms) => Sizes(n, EncodeMembers(ms, longLong, []));
    case _ =>
  }

  lemma Sizes(n: nat, tail: seq<byte>)
    requires n < 0x1_0000_0000
    ensures n < 256 ==> BigEndian(n, 1, tail) == [n] + tail
    ensures n < 65536 ==> BigEndian(n, 2, tail) == [n / 256, n % 256] + tail
    ensures BigEndian(n, 4, tail) == [n / 0x100_0000, n / 0x1_0000 % 256, n / 256 % 256, n % 256] + tail
  {
    hide BigEndian;
    OneByte(n, tail);
    TwoBytes(n, tail);
    FourBytes(n, tail);
    Quotients(n);
  }

  lemma Quotients(n: nat)
    requires n < 0x1_0000_0000
    ensures n / 256 / 256 == n / 0x1_0000 && n / 256 / 256 / 256 == n / 0x100_0000 && n / 0x100_0000 < 256
  {
  }

  lemma TwoBytes(n: nat, tail: seq<byte>)
    ensures BigEndian(n, 2, tail) == [n / 256 % 256, n % 256] + tail
  {
    OneByte(n / 256, [n % 256] + tail);
    assert [n / 256 % 256] + ([n % 256] + tail) == [n / 256 % 256, n % 256] + tail;
  }

  lemma FourBytes(n: nat, tail: seq<byte>)
    ensures BigEndian(n, 4, tail) ==
      [n / 256 / 256 / 256 % 256, n / 256 / 256 % 256, n / 256 % 256, n % 256] + tail
  {
    var low := [n / 256 % 256, n % 256] + tail;
    TwoBytes(n / 256 / 256, low);
    assert BigEndian(n, 4, tail) == BigEndian(n / 256, 3, [n % 256] + tail);
    assert BigEndian(n / 256, 3, [n % 256] + tail) == BigEndian(n / 256 / 256, 2, [n / 256 % 256] + ([n % 256] + tail));
    assert [n / 256 % 256] + ([n % 256] + tail) == low;
  }

  lemma {:induction false} BytesLength(s: string, tail: seq<byte>)
    ensures |Bytes(s, tail)| == |s| + |tail|
  {
    if s != "" { BytesLength(s[1..], tail); }
  }

  lemma {:induction false} CharsLength(s: seq<byte>, n: nat)
    ensures var d := ReadChars(s, n); d.Ok? ==> |d.value| == n && |s| == n + |d.rest|
    decreases n
  {
    if n > 0 && s != [] { CharsLength(s[1..], n - 1); }
  }

  lemma DigitBelow(high: nat, b: nat, sp: nat)
    requires b < 256
    ensures (256 * high + b + 1) * sp <= (high + 1) * (256 * sp)
  {
    Distribute(high, b + 1, sp);
    assert (b + 1) * sp <= 256 * sp;
    assert (high + 1) * (256 * sp) == high * (256 * sp) + 256 * sp;
  }

  lemma {:induction false} UnsignedLength(s: seq<byte>, k: nat, high: nat)
    ensures var d := ReadOnto(s, k, high); d.Ok? ==> |s| == k + |d.rest| && d.value < (high + 1) * Span(k)
    decreases k
  {
    if k > 0 && s != [] {
      UnsignedLength(s[1..], k - 1, 256 * high + s[0]);
      DigitBelow(high, s[0], Span(k - 1));
    }
  }

  /** Strings too: nothing shorter reads as the same characters. */
  lemma StringsAreShortest(s: seq<byte>)
    requires DecodeKey(s).Ok? && DecodeKey(s).rest == []
    ensures |EncodeString(DecodeKey(s).value, [])| <= |s|
  {
    hide ReadChars, ReadOnto, Bytes, BigEndian, Span;
    var chars := DecodeKey(s).value;
    Spans();
    BytesLength(chars, []);
    var n, body := |chars|, Bytes(chars, []);
    BigEndianLength(n, if n < 0x100 then 1 else if n < 0x10000 then 2 else 4, body);
    if s[0] < 0xC0 {
      CharsLength(s[1..], s[0] - 0xA0);
    } else {
      var k := if s[0] == 0xD9 then 1 else if s[0] == 0xDA then 2 else 4;
      UnsignedLength(s[1..], k, 0);
      var size := ReadUnsigned(s[1..], k);
      CharsLength(size.rest, size.value);
    }
  }

  // ---- Truncated input

  /** `cut` is what reading the first `n` bytes of `s` gives, when reading all of it gives `d`: the same, or that input
      is incomplete, if `n` ends before what was read did. */
  ghost predicate Local<T>(s: seq<byte>, d: Decoded<T>, n: nat, cut: Decoded<T>) {
    d.Ok? && n <= |s| ==>
      && |d.rest| <= |s|
      && var used := |s| - |d.rest|;
         d.rest == s[used..] && cut == if n < used then Err(IncompleteInput) else Ok(d.value, s[used..n])
  }

  lemma {:induction false} UnsignedLocal(s: seq<byte>, k: nat, high: nat, n: nat)
    requires n <= |s|
    ensures Local(s, ReadOnto(s, k, high), n, ReadOnto(s[..n], k, high))
    decreases k
  {
    var d, c := ReadOnto(s, k, high), ReadOnto(s[..n], k, high);
    if k == 0 {
      assert s[0..] == s && s[0..n] == s[..n];
    } else if s == [] {
      NotLocal(s, d, n, c);
    } else {
      hide Local;
      var m := Past(n, 1);
      UnsignedLocal(s[1..], k - 1, 256 * high + s[0], m);
      if n > 0 { assert s[..n][1..] == s[1..][..m]; }
      ByteThen(s, d, n, c, ReadOnto(s[1..][..m], k - 1, 256 * high + s[0]));
    }
  }

  lemma {:induction false} CharsLocal(s: seq<byte>, k: nat, n: nat)
    requires n <= |s|
    ensures Local(s, ReadChars(s, k), n, ReadChars(s[..n], k))
    decreases k
  {
    if k > 0 && s != [] {
      CharsLocal(s[1..], k - 1, if n > 0 then n - 1 else 0);
      if n > 0 { assert s[..n][1..] == s[1..][..n - 1]; }
    }
  }

  function Past(n: nat, used: nat): (m: nat) {
    if used <= n then n - used else 0
  }

  /** Something read behind a first part. */
  lemma LocalThen<A, B>(
      s: seq<byte>, a: Decoded<A>, n: nat, a': Decoded<A>, b: Decoded<B>, b': Decoded<B>, d: Decoded<B>, c: Decoded<B>)
    requires n <= |s| && Local(s, a, n, a')
    requires a.Ok? ==> Local(a.rest, b, Past(n, |s| - |a.rest|), b')
    requires d == if a.Err? then Err(a.error) else b
    requires c == if a'.Err? then Err(a'.error) else b'
    ensures Local(s, d, n, c)
  {
    if d.Ok? {
      var used := |s| - |a.rest|;
      Behind(s, used, if used <= n then n else used);
    }
  }

  lemma Behind(s: seq<byte>, used: nat, n: nat)
    requires used <= n <= |s|
    ensures forall i :: 0 <= i <= |s| - used ==> s[used..][i..] == s[used + i..]
    ensures forall i, j :: 0 <= i <= j <= |s| - used ==> s[used..][i..j] == s[used + i..used + j]
  {
  }

  /** What is left when the first part was read, cut. */
  lemma RestIs<T>(s: seq<byte>, a: Decoded<T>, n: nat, a': Decoded<T>)
    requires n <= |s| && Local(s, a, n, a')
    ensures a.Ok? && a'.Ok? ==>
      a'.value == a.value && a'.rest == a.rest[..Past(n, |s| - |a.rest|)] && Past(n, |s| - |a.rest|) <= |a.rest|
    ensures a.Ok? ==> Past(n, |s| - |a.rest|) <= |a.rest|
  {
    if a.Ok? && a'.Ok? {
      var used := |s| - |a.rest|;
      assert s[used..][..n - used] == s[used..n];
    }
  }

  lemma SizedCharsLocal(s: seq<byte>, k: nat, n: nat)
    requires n <= |s|
    ensures Local(s, ReadSizedChars(s, k), n, ReadSizedChars(s[..n], k))
  {
    hide ReadOnto, ReadChars, Local;
    UnsignedLocal(s, k, 0, n);
    var size, size' := ReadUnsigned(s, k), ReadUnsigned(s[..n], k);
    RestIs(s, size, n, size');
    var d, c := ReadSizedChars(s, k), ReadSizedChars(s[..n], k);
    if size.Ok? {
      var m := Past(n, |s| - |size.rest|);
      CharsLocal(size.rest, size.value, m);
      LocalThen(s, size, n, size', ReadChars(size.rest, size.value), ReadChars(size.rest[..m], size.value), d, c);
    } else {
      NotLocal(s, d, n, c);
    }
  }

  lemma NotLocal<T>(s: seq<byte>, d: Decoded<T>, n: nat, c: Decoded<T>)
    requires d.Err?
    ensures Local(s, d, n, c)
  {
  }

  /** A byte in front. */
  lemma ByteThen<T>(s: seq<byte>, d: Decoded<T>, n: nat, c: Decoded<T>, c': Decoded<T>)
    requires s != [] && n <= |s| && Local(s[1..], d, Past(n, 1), c')
    requires c == if n == 0 then Err(IncompleteInput) else c'
    ensures Local(s, d, n, c)
  {
    if d.Ok? {
      Behind(s, 1, |s|);
    }
  }

  /** A text or a number is read where its characters or bytes are. */
  lemma LocalAs<A, B>(s: seq<byte>, a: Decoded<A>, n: nat, a': Decoded<A>, d: Decoded<B>, c: Decoded<B>)
    requires n <= |s| && Local(s, a, n, a')
    requires a.Err? ==> d.Err?
    requires a.Ok? ==> d.Ok? && d.rest == a.rest
    requires a'.Err? ==> c == Err(a'.error)
    requires a.Ok? && a'.Ok? ==> c == Ok(d.value, a'.rest)
    ensures Local(s, d, n, c)
  {
  }

  lemma CutHead(s: seq<byte>, n: nat)
    requires s != [] && n <= |s|
    ensures s == [s[0]] + s[1..] && Past(n, 1) <= |s| - 1
    ensures n > 0 ==> s[..n] != [] && s[..n][0] == s[0] && s[..n][1..] == s[1..][..Past(n, 1)]
    ensures n > 0 ==> s[..n] == [s[0]] + s[1..][..Past(n, 1)]
  {
  }

  lemma KeyLocal(s: seq<byte>, n: nat)
    requires n <= |s|
    ensures Local(s, DecodeKey(s), n, DecodeKey(s[..n]))
  {
    hide ReadChars, ReadSizedChars, Local;
    if s == [] {
      NotLocal(s, DecodeKey(s), n, DecodeKey(s[..n]));
    } else {
      CutHead(s, n);
      var m := Past(n, 1);
      if s[0] < 0xA0 || s[0] > 0xDB || (0xC0 <= s[0] < 0xD9) {
        NotLocal(s, DecodeKey(s), n, DecodeKey(s[..n]));
      } else if s[0] < 0xC0 {
        CharsLocal(s[1..], s[0] - 0xA0, m);
        ByteThen(s, DecodeKey(s), n, DecodeKey(s[..n]), ReadChars(s[1..][..m], s[0] - 0xA0));
      } else {
        var k := if s[0] == 0xD9 then 1 else if s[0] == 0xDA then 2 else 4;
        SizedCharsLocal(s[1..], k, m);
        ByteThen(s, DecodeKey(s), n, DecodeKey(s[..n]), ReadSizedChars(s[1..][..m], k));
      }
    }
  }

  lemma IntegerLocal(s: seq<byte>, k: nat, signed: bool, n: nat)
    requires n <= |s|
    ensures Local(s, ReadInteger(s, k, signed), n, ReadInteger(s[..n], k, signed))
  {
    hide ReadOnto, Signed, Local;
    UnsignedLocal(s, k, 0, n);
    RestIs(s, ReadUnsigned(s, k), n, ReadUnsigned(s[..n], k));
    LocalAs(s, ReadUnsigned(s, k), n, ReadUnsigned(s[..n], k), ReadInteger(s, k, signed), ReadInteger(s[..n], k, signed));
  }

  lemma {:induction false} ValueLocal(s: seq<byte>, n: nat, limit: nat, longLong: bool)
    requires n <= |s|
    ensures Local(s, Decode(s, limit, longLong), n, Decode(s[..n], limit, longLong))
    decreases |s|, 0
  {
    hide Decode, Local;
    if s == [] {
      NothingDecodes(limit, longLong);
      NotLocal(s, Decode(s, limit, longLong), n, Decode(s[..n], limit, longLong));
    } else {
      CutHead(s, n);
      if n == 0 { NothingDecodes(limit, longLong); }
      var code, rest, m := s[0], s[1..], Past(n, 1);
      var d, c := Decode(s, limit, longLong), Decode(s[..n], limit, longLong);
      if 0x80 <= code < 0xA0 || 0xDC <= code <= 0xDF {
        ListLocal(s, n, limit, longLong);
      } else if 0xCC <= code <= 0xD3 {
        var k := if code % 4 == 0 then 1 else if code % 4 == 1 then 2 else if code % 4 == 2 then 4 else 8;
        if k == 8 && !longLong {
          NoLongLong(rest, code, limit);
          NotLocal(s, d, n, c);
        } else {
          IntegerCode(code, k, code >= 0xD0, rest, limit, longLong);
          IntegerCode(code, k, code >= 0xD0, rest[..m], limit, longLong);
          IntegerLocal(rest, k, code >= 0xD0, m);
          ByteThen(s, d, n, c, ReadInteger(rest[..m], k, code >= 0xD0));
        }
      } else if 0xA0 <= code < 0xC0 || 0xD9 <= code <= 0xDB {
        StringCode(code, rest, limit, longLong);
        StringCode(code, rest[..m], limit, longLong);
        KeyLocal(s, n);
        RestIs(s, DecodeKey(s), n, DecodeKey(s[..n]));
        KeyOfNothing();
        LocalAs(s, DecodeKey(s), n, DecodeKey(s[..n]), d, c);
      } else {
        PlainLocal(s, n, limit, longLong);
      }
    }
  }

  lemma NothingDecodes(limit: nat, longLong: bool)
    ensures Decode([], limit, longLong) == Err(IncompleteInput)
  {
  }

  lemma KeyOfNothing()
    ensures DecodeKey([]) == Err(IncompleteInput)
  {
  }

  lemma NoLongLong(rest: seq<byte>, code: byte, limit: nat)
    requires code == 0xCF || code == 0xD3
    ensures Decode([code] + rest, limit, false).Err?
  {
    Head(code, rest);
  }

  /** Codes behind which nothing is read. */
  lemma PlainLocal(s: seq<byte>, n: nat, limit: nat, longLong: bool)
    requires s != [] && n <= |s| && (s[0] < 0x80 || 0xC0 <= s[0] < 0xCC || 0xD4 <= s[0] < 0xD9 || s[0] >= 0xE0)
    ensures Local(s, Decode(s, limit, longLong), n, Decode(s[..n], limit, longLong))
  {
    hide DecodeArray, DecodeObject, ReadChars, ReadSizedChars, ReadInteger;
    CutHead(s, n);
    if n > 0 { assert s[1..n] == s[1..][..n - 1]; }
  }

  /** The size of a list and where its elements begin. */
  function ListSize(s: seq<byte>): Decoded<nat>
    requires s != []
  {
    if s[0] < 0xA0 then
      var n: nat := s[0] % 16;
      Ok(n, s[1..])
    else ReadUnsigned(s[1..], if s[0] == 0xDC || s[0] == 0xDE then 2 else 4)
  }

  lemma ListDecodes(s: seq<byte>, limit: nat, longLong: bool)
    requires s != [] && (0x80 <= s[0] < 0xA0 || 0xDC <= s[0] <= 0xDF)
    ensures Decode(s, limit, longLong) == (
      if ListSize(s).Err? then Err(ListSize(s).error)
      else if 0x90 <= s[0] <= 0xDD then DecodeArray(ListSize(s).rest, ListSize(s).value, limit, longLong)
      else DecodeObject(ListSize(s).rest, ListSize(s).value, limit, longLong))
    ensures var size := ListSize(s); size.Ok? ==> |size.rest| < |s|
  {
    hide ReadOnto, DecodeArray, DecodeObject;
  }

  lemma ListSizeLocal(s: seq<byte>, n: nat)
    requires s != [] && n <= |s| && (0x80 <= s[0] < 0xA0 || 0xDC <= s[0] <= 0xDF)
    ensures Local(s, ListSize(s), n, if n == 0 then Err(IncompleteInput) else ListSize(s[..n]))
  {
    hide ReadOnto;
    CutHead(s, n);
    if s[0] >= 0xDC {
      hide Local;
      var k := if s[0] == 0xDC || s[0] == 0xDE then 2 else 4;
      UnsignedLocal(s[1..], k, 0, Past(n, 1));
      ByteThen(s, ListSize(s), n, if n == 0 then Err(IncompleteInput) else ListSize(s[..n]), ReadUnsigned(s[1..][..Past(n, 1)], k));
    } else if n > 0 {
      assert s[1..n] == s[1..][..n - 1];
    }
  }

  lemma {:induction false} ListLocal(s: seq<byte>, n: nat, limit: nat, longLong: bool)
    requires s != [] && n <= |s| && (0x80 <= s[0] < 0xA0 || 0xDC <= s[0] <= 0xDF)
    ensures Local(s, Decode(s, limit, longLong), n, Decode(s[..n], limit, longLong))
    decreases |s|, 0, 0
  {
    hide Decode, Local, ListSize, DecodeArray, DecodeObject;
    CutHead(s, n);
    var size, size' := ListSize(s), if n == 0 then Err(IncompleteInput) else ListSize(s[..n]);
    var d, c := Decode(s, limit, longLong), Decode(s[..n], limit, longLong);
    ListDecodes(s, limit, longLong);
    if n == 0 { NothingDecodes(limit, longLong); } else { ListDecodes(s[..n], limit, longLong); }
    ListSizeLocal(s, n);
    RestIs(s, size, n, size');
    if size.Err? {
      NotLocal(s, d, n, c);
    } else {
      var m := Past(n, |s| - |size.rest|);
      if 0x90 <= s[0] <= 0xDD {
        ArrayLocal(size.rest, m, size.value, limit, longLong);
        LocalThen(s, size, n, size', DecodeArray(size.rest, size.value, limit, longLong),
                  DecodeArray(size.rest[..m], size.value, limit, longLong), d, c);
      } else {
        ObjectLocal(size.rest, m, size.value, limit, longLong);
        LocalThen(s, size, n, size', DecodeObject(size.rest, size.value, limit, longLong),
                  DecodeObject(size.rest[..m], size.value, limit, longLong), d, c);
      }
    }
  }

  lemma {:induction false} ArrayLocal(s: seq<byte>, n: nat, k: nat, limit: nat, longLong: bool)
    requires n <= |s|
    ensures Local(s, DecodeArray(s, k, limit, longLong), n, DecodeArray(s[..n], k, limit, longLong))
    decreases |s|, 2, k
  {
    hide DecodeElements;
    if limit > 0 { ElementsLocal(s, n, k, limit - 1, longLong); }
  }

  lemma {:induction false} ObjectLocal(s: seq<byte>, n: nat, k: nat, limit: nat, longLong: bool)
    requires n <= |s|
    ensures Local(s, DecodeObject(s, k, limit, longLong), n, DecodeObject(s[..n], k, limit, longLong))
    decreases |s|, 2, k
  {
    hide DecodeMembers;
    if limit > 0 { MembersLocal(s, n, k, limit - 1, longLong); }
  }

  lemma {:induction false} ElementsLocal(s: seq<byte>, n: nat, k: nat, limit: nat, longLong: bool)
    requires n <= |s|
    ensures Local(s, DecodeElements(s, k, limit, longLong), n, DecodeElements(s[..n], k, limit, longLong))
    decreases |s|, 1, k
  {
    var d, c := DecodeElements(s, k, limit, longLong), DecodeElements(s[..n], k, limit, longLong);
    if k > 0 {
      hide Decode, Local, DecodeElements, Headed;
      ElementsStep(s, k, limit, longLong);
      ElementsStep(s[..n], k, limit, longLong);
      ValueLocal(s, n, limit, longLong);
      var v, v' := Decode(s, limit, longLong), Decode(s[..n], limit, longLong);
      RestIs(s, v, n, v');
      if v.Ok? {
        var m := Past(n, |s| - |v.rest|);
        ElementsLocal(v.rest, m, k - 1, limit, longLong);
        var more, more' := DecodeElements(v.rest, k - 1, limit, longLong), DecodeElements(v.rest[..m], k - 1, limit, longLong);
        RestIs(v.rest, more, m, more');
        var b, b' := Headed(v.value, more), Headed(v.value, more');
        HeadedIs(v.value, more);
        HeadedIs(v.value, more');
        LocalAs(v.rest, more, m, more', b, b');
        LocalThen(s, v, n, v', b, b', d, c);
      } else {
        NotLocal(s, d, n, c);
      }
    }
  }

  lemma ElementsStep(s: seq<byte>, k: nat, limit: nat, longLong: bool)
    requires k > 0
    ensures var v := Decode(s, limit, longLong);
      DecodeElements(s, k, limit, longLong) ==
        if v.Err? then Err(v.error) else Headed(v.value, DecodeElements(v.rest, k - 1, limit, longLong))
  {
    hide Decode;
  }

  lemma HeadedIs(v: Json, more: Decoded<Elements>)
    ensures Headed(v, more) == if more.Ok? then Ok(Element(v, more.value), more.rest) else more
  {
  }

  function Headed(v: Json, more: Decoded<Elements>): Decoded<Elements> {
    if more.Ok? then Ok(Element(v, more.value), more.rest) else more
  }

  function MemberHeaded(key: string, v: Json, more: Decoded<Members>): Decoded<Members> {
    if more.Ok? then Ok(Member(key, v, more.value), more.rest) else more
  }

  /** The value of a member and the members behind it. */
  function MemberRest(s: seq<byte>, key: string, k: nat, limit: nat, longLong: bool): Decoded<Members> {
    var v := Decode(s, limit, longLong);
    if v.Err? then Err(v.error) else MemberHeaded(key, v.value, DecodeMembers(v.rest, k, limit, longLong))
  }

  lemma {:induction false} MembersLocal(s: seq<byte>, n: nat, k: nat, limit: nat, longLong: bool)
    requires n <= |s|
    ensures Local(s, DecodeMembers(s, k, limit, longLong), n, DecodeMembers(s[..n], k, limit, longLong))
    decreases |s|, 1, k
  {
    var d, c := DecodeMembers(s, k, limit, longLong), DecodeMembers(s[..n], k, limit, longLong);
    if k > 0 {
      hide Decode, DecodeKey, Local, DecodeMembers, MemberRest;
      MembersStep(s, k, limit, longLong);
      MembersStep(s[..n], k, limit, longLong);
      KeyLocal(s, n);
      var key, key' := DecodeKey(s), DecodeKey(s[..n]);
      RestIs(s, key, n, key');
      if key.Ok? {
        KeySmaller(s);
        var m := Past(n, |s| - |key.rest|);
        MemberLocal(key.rest, m, key.value, k - 1, limit, longLong);
        LocalThen(s, key, n, key', MemberRest(key.rest, key.value, k - 1, limit, longLong),
                  MemberRest(key.rest[..m], key.value, k - 1, limit, longLong), d, c);
      } else {
        NotLocal(s, d, n, c);
      }
    }
  }

  lemma MembersStep(s: seq<byte>, k: nat, limit: nat, longLong: bool)
    requires k > 0
    ensures var key := DecodeKey(s);
      DecodeMembers(s, k, limit, longLong) ==
        if key.Err? then Err(key.error) else MemberRest(key.rest, key.value, k - 1, limit, longLong)
  {
    hide Decode, DecodeKey;
  }

  lemma KeySmaller(s: seq<byte>)
    requires DecodeKey(s).Ok?
    ensures |DecodeKey(s).rest| < |s|
  {
    hide ReadChars, ReadSizedChars;
  }

  lemma {:induction false} MemberLocal(s: seq<byte>, n: nat, key: string, k: nat, limit: nat, longLong: bool)
    requires n <= |s|
    ensures Local(s, MemberRest(s, key, k, limit, longLong), n, MemberRest(s[..n], key, k, limit, longLong))
    decreases |s|, 2, k
  {
    var d, c := MemberRest(s, key, k, limit, longLong), MemberRest(s[..n], key, k, limit, longLong);
    hide Decode, Local, DecodeMembers;
    ValueLocal(s, n, limit, longLong);
    var v, v' := Decode(s, limit, longLong), Decode(s[..n], limit, longLong);
    RestIs(s, v, n, v');
    if v.Ok? {
      var m := Past(n, |s| - |v.rest|);
      MembersLocal(v.rest, m, k, limit, longLong);
      var more, more' := DecodeMembers(v.rest, k, limit, longLong), DecodeMembers(v.rest[..m], k, limit, longLong);
      RestIs(v.rest, more, m, more');
      var b, b' := MemberHeaded(key, v.value, more), MemberHeaded(key, v.value, more');
      LocalAs(v.rest, more, m, more', b, b');
      LocalThen(s, v, n, v', b, b', d, c);
    } else {
      NotLocal(s, d, n, c);
    }
  }

  /** MAIN (MessagePack): of whatever bytes a value was read from, every part that ends before it does is reported as
      incomplete, and every longer one gives that value again. */
  lemma TruncationIsNoticed(s: seq<byte>, n: nat, limit: nat, longLong: bool)
    requires Decode(s, limit, longLong).Ok? && n <= |s|
    ensures var d := Decode(s, limit, longLong); var used := |s| - |d.rest|;
      && d.rest == s[used..]
      && Decode(s[..n], limit, longLong) == if n < used then Err(IncompleteInput) else Ok(d.value, s[used..n])
  {
    hide Decode;
    ValueLocal(s, n, limit, longLong);
  }
}
