/**
 The byte-level codec of MQTT 3.1.1: the variable-length remaining-length field (section 2.2.3), 16-bit
 integers, length-prefixed strings, the fixed header, and the buffer-size estimate of the serializers.
 */
module MqttCodec {
  import opened CInt
  import opened Wrappers

  const MAX_LENGTH: nat := 268435455

  /** The remaining-length field: base 128, lowest digit first, the top bit marks that more follow. */
  function EncodeLength(n: nat): (s: seq<byte>)
    ensures |s| >= 1
  {
    if n < 128 then [n] else [n % 128 + 128] + EncodeLength(n / 128)
  }

  /** The value and the size of the field at the front of `s`, if it ends within `max` bytes. */
  function DecodeLength(s: seq<byte>, max: nat): (r: Option<(nat, nat)>)
    ensures r.Some? ==> 1 <= r.value.1 <= max && r.value.1 <= |s|
  {
    if max == 0 || s == [] then None
    else if s[0] < 128 then Some((s[0], 1))
    else match DecodeLength(s[1..], max - 1)
      case None => None
      case Some((v, used)) => Some((s[0] - 128 + 128 * v, used + 1))
  }

  /** Largest value of `k` base-128 digits, plus one. */
  function Digits(k: nat): nat {
    if k == 0 then 1 else 128 * Digits(k - 1)
  }

  /** MAIN (codec): a field decodes to itself, whatever follows, exactly when its digits fit. */
  lemma {:induction false} LengthRoundTrip(n: nat, rest: seq<byte>, max: nat)
    requires max >= 1
    ensures
      var r := DecodeLength(EncodeLength(n) + rest, max);
      if n < Digits(max) then r == Some((n, |EncodeLength(n)|)) && |EncodeLength(n)| <= max else r == None
    decreases max
  {
    var s := EncodeLength(n);
    if n < 128 {
      assert (s + rest)[0] == n;
      assert Digits(max) >= 128 by { DigitsAtLeast(max); }
    } else {
      assert (s + rest)[1..] == EncodeLength(n / 128) + rest;
      if max == 1 {
        assert Digits(1) == 128 * Digits(0);
        NoDigitsLeft((s + rest)[1..]);
      } else {
        LengthRoundTrip(n / 128, rest, max - 1);
      }
    }
  }

  lemma NoDigitsLeft(s: seq<byte>)
    ensures DecodeLength(s, 0) == None
  {
  }

  lemma {:induction false} DigitsAtLeast(k: nat)
    requires k >= 1
    ensures Digits(k) >= 128
  {
    if k > 1 { DigitsAtLeast(k - 1); }
  }

  /** Four bytes carry lengths up to 268435455 and no more. */
  lemma FourDigits()
    ensures Digits(4) == MAX_LENGTH + 1
  {
    assert Digits(1) == 128 && Digits(2) == 16384 && Digits(3) == 2097152;
  }

  /** The size of the field. */
  lemma {:induction false} EncodedSize(n: nat)
    requires n <= MAX_LENGTH
    ensures |EncodeLength(n)| == if n < 128 then 1 else if n < 16384 then 2 else if n < 2097152 then 3 else 4
  {
    var m := n / 128;
    if n >= 128 && m >= 128 {
      assert |EncodeLength(m)| == 1 + |EncodeLength(m / 128)|;
      if m >= 16384 {
        assert |EncodeLength(m / 128)| == 1 + |EncodeLength(m / 128 / 128)|;
      }
    }
  }

  /** `aws_iot_mqtt_internal_get_final_packet_length_from_remaining_length`, in its own order of steps. */
  function FinalPacketLength(remLen: nat): (r: nat)
    ensures r >= remLen + 2
  {
    var n := remLen + 1;
    if n < 128 then n + 1 else if n < 16384 then n + 2 else if n < 2097152 then n + 3 else n + 4
  }

  /** The true size: header byte, field, and the rest. */
  function PacketSize(remLen: nat): nat {
    1 + |EncodeLength(remLen)| + remLen
  }

  /** The estimate never falls short for lengths that MQTT allows; it is one too many exactly where adding
      the header byte first crosses a size boundary. */
  lemma FinalLengthExact(remLen: nat)
    requires remLen <= MAX_LENGTH
    ensures FinalPacketLength(remLen) == PacketSize(remLen) + (if remLen in {127, 16383, 2097151} then 1 else 0)
  {
    EncodedSize(remLen);
  }

  function UInt16(n: nat): (s: seq<byte>)
    requires n < TWO_16
    ensures |s| == 2
  {
    [n / 256, n % 256]
  }

  function ReadUInt16(s: seq<byte>): nat
    requires |s| >= 2
  {
    (s[0] as int) * 256 + s[1] as int
  }

  /** Two bytes, most significant first, followed by the bytes themselves. */
  function Utf8(s: seq<byte>): (r: seq<byte>)
    requires |s| < TWO_16
    ensures |r| == |s| + 2
  {
    UInt16(|s|) + s
  }

  /** The fixed header byte: packet type, then the flags. A QoS other than 1 is sent as 0. */
  function Header(packetType: nat, qos: nat, dup: bool, retained: bool): byte
    requires packetType < 16
  {
    packetType * 16 + (if dup then 8 else 0) + (if qos == 1 then 2 else 0) + (if retained then 1 else 0)
  }

  function HeaderType(b: byte): nat { b / 16 % 16 }
  function HeaderDup(b: byte): bool { b / 8 % 2 == 1 }
  function HeaderQos(b: byte): nat { b / 2 % 4 }
  function HeaderRetain(b: byte): bool { b % 2 == 1 }

  /** The header fields come back. */
  lemma HeaderRoundTrip(packetType: nat, qos: nat, dup: bool, retained: bool)
    requires packetType < 16 && qos <= 1
    ensures
      var b := Header(packetType, qos, dup, retained);
      HeaderType(b) == packetType && HeaderQos(b) == qos && HeaderDup(b) == dup && HeaderRetain(b) == retained
  {
    var flags := (if dup then 8 else 0) + (if qos == 1 then 2 else 0) + (if retained then 1 else 0);
    HeaderParts(packetType, flags);
  }

  lemma HeaderParts(packetType: nat, flags: nat)
    requires packetType < 16 && flags < 16
    ensures var b := packetType * 16 + flags;
      && b / 16 == packetType && b / 8 == packetType * 2 + flags / 8
      && b / 2 % 4 == flags / 2 % 4 && b % 2 == flags % 2
  {
  }

  lemma EncodeStep(n: nat)
    ensures EncodeLength(n) ==
      if n / 128 > 0 then [n % 128 + 128] + EncodeLength(n / 128) else [n % 128]
  {
  }

  /** The pointer that the `aws_iot_mqtt_internal_write_*` functions advance over a buffer. `done` is what
      has been written so far, `was` the buffer before. */
  ghost predicate Written(done: seq<byte>, now: seq<byte>, was: seq<byte>) {
    |done| <= |was| && now == done + was[|done|..]
  }

  class Cursor {
    const buf: array<byte>
    var ptr: nat
    ghost var done: seq<byte>
    ghost const was: seq<byte>

    ghost predicate Valid()
      reads this, buf
    {
      ptr == |done| <= buf.Length == |was| && Written(done, buf[..], was)
    }

    constructor (buf: array<byte>)
      ensures Valid() && this.buf == buf && done == [] && was == buf[..]
    {
      this.buf := buf;
      ptr, done, was := 0, [], buf[..];
    }

    method WriteChar(c: byte)
      requires Valid() && ptr < buf.Length
      modifies this, buf
      ensures Valid() && done == old(done) + [c]
    {
      buf[ptr] := c;
      ptr := ptr + 1;
      done := done + [c];
    }

    method WriteUInt16(n: nat)
      requires Valid() && n < TWO_16 && ptr + 2 <= buf.Length
      modifies this, buf
      ensures Valid() && done == old(done) + UInt16(n)
    {
      hide Written;
      WriteChar(n / 256);
      WriteChar(n % 256);
    }

    /** `memcpy` and the advance after it. */
    method WriteBytes(s: seq<byte>)
      requires Valid() && ptr + |s| <= buf.Length
      modifies this, buf
      ensures Valid() && done == old(done) + s
    {
      hide Written;
      for i := 0 to |s|
        invariant Valid() && done == old(done) + s[..i]
      {
        WriteChar(s[i]);
      }
    }

    method WriteUtf8(s: seq<byte>)
      requires Valid() && |s| < TWO_16 && ptr + 2 + |s| <= buf.Length
      modifies this, buf
      ensures Valid() && done == old(done) + Utf8(s)
    {
      hide Written;
      WriteUInt16(|s|);
      if |s| > 0 { WriteBytes(s); }
      assert done == old(done) + Utf8(s);
    }

    /** `aws_iot_mqtt_internal_write_len_to_buffer`. */
    method WriteLength(length: nat)
      requires Valid() && ptr + |EncodeLength(length)| <= buf.Length
      modifies this, buf
      ensures Valid() && done == old(done) + EncodeLength(length)
    {
      hide EncodeLength, Written;
      var rest := length;
      while true
        invariant Valid() && old(done) + EncodeLength(length) == done + EncodeLength(rest)
        decreases rest
      {
        EncodeStep(rest);
        var encodedByte: nat := rest % 128;
        rest := rest / 128;
        if rest > 0 { encodedByte := encodedByte + 128; }
        WriteChar(encodedByte);
        if rest == 0 { break; }
      }
    }
  }

  datatype LengthResult = Decoded(value: nat, used: nat) | LengthError

  /** A field decoded so far to `value` in `len` bytes, whose further digits weigh `multiplier`. */
  function Continued(value: nat, multiplier: nat, len: nat, r: Option<(nat, nat)>): Option<(nat, nat)> {
    match r
    case None => None
    case Some((v, used)) => Some((value + multiplier * v, len + used))
  }

  lemma ContinuedMore(value: nat, multiplier: nat, len: nat, s: seq<byte>, max: nat)
    requires s != [] && max > 0 && s[0] >= 128
    ensures Continued(value, multiplier, len, DecodeLength(s, max)) ==
      Continued(value + (s[0] - 128) * multiplier, multiplier * 128, len + 1, DecodeLength(s[1..], max - 1))
  {
    match DecodeLength(s[1..], max - 1)
    case None =>
    case Some((v, used)) => Horner(value, multiplier, s[0] - 128, v);
  }

  lemma Horner(d: nat, m: nat, digit: nat, v: nat)
    ensures d + m * (digit + 128 * v) == d + digit * m + (m * 128) * v
  {
  }

  lemma ContinuedEnds(value: nat, multiplier: nat, len: nat, s: seq<byte>, max: nat)
    ensures s != [] && max > 0 && s[0] < 128 ==>
      Continued(value, multiplier, len, DecodeLength(s, max)) == Some((value + s[0] * multiplier, len + 1))
    ensures max == 0 ==> Continued(value, multiplier, len, DecodeLength(s, max)) == None
  {
  }

  lemma ContinuedStarts(s: seq<byte>, max: nat)
    ensures Continued(0, 1, 0, DecodeLength(s, max)) == DecodeLength(s, max)
  {
  }

  /** `aws_iot_mqtt_internal_decode_remaining_length_from_buffer`, on a buffer that holds at least the four
      bytes the code may look at. */
  method DecodeLengthFromBuffer(buf: seq<byte>) returns (r: LengthResult)
    requires |buf| >= 4
    ensures r == match DecodeLength(buf, 4)
      case None => LengthError
      case Some((v, used)) => Decoded(v, used)
  {
    hide DecodeLength, Continued;
    var multiplier: nat, len: nat, decodedLen: nat := 1, 0, 0;
    ContinuedStarts(buf, 4);
    assert buf[0..] == buf;
    while true
      invariant 0 <= len <= 4
      invariant DecodeLength(buf, 4) == Continued(decodedLen, multiplier, len, DecodeLength(buf[len..], 4 - len))
      decreases 4 - len
    {
      ghost var rest := buf[len..];
      ContinuedEnds(decodedLen, multiplier, len, rest, 4 - len);
      len := len + 1;
      if len > 4 { return LengthError; }
      var encodedByte := buf[len - 1];
      assert rest[1..] == buf[len..];
      if encodedByte >= 128 { ContinuedMore(decodedLen, multiplier, len - 1, rest, 5 - len); }
      decodedLen := decodedLen + (encodedByte as int) % 128 * multiplier;
      multiplier := multiplier * 128;
      if encodedByte < 128 { break; }
    }
    return Decoded(decodedLen, len);
  }
}
