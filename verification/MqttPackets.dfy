/**
 The packet serializers of the MQTT client, which write a buffer through a moving pointer after checking
 a pre-computed length, and the deserializers of what comes back.
 */
module MqttPackets {
  import opened CInt
  import opened MqttCodec
  import opened Wrappers

  const CONNECT: nat := 1
  const PUBLISH: nat := 3
  const PUBREL: nat := 6
  const SUBSCRIBE: nat := 8
  const SUBACK: nat := 9
  const UNSUBSCRIBE: nat := 10

  /** `Overrun` is a success of the code's whose payload length has wrapped around. */
  datatype Status =
    | Success | NullValue | UnacceptableVersion | TxBufferTooShort | RxBufferTooShort | Failure | LengthFault | Overrun

  type Text = s: seq<byte> | |s| < TWO_16

  datatype Filter = Filter(name: Text, qos: nat)

  datatype Will = Will(topic: Text, message: Text, qos: nat, retained: bool)

  datatype ConnectParams = ConnectParams(
    version: byte, clientId: Option<Text>, will: Option<Will>, username: Option<Text>,
    password: Option<Text>, keepAlive: nat, cleanSession: bool)

  /** Any packet: fixed header, remaining length, body. */
  function Packet(header: byte, body: seq<byte>): (p: seq<byte>)
    ensures |p| == PacketSize(|body|)
  {
    [header] + EncodeLength(|body|) + body
  }

  function PublishBody(qos: nat, id: nat, topic: Text, payload: seq<byte>): (s: seq<byte>)
    requires id < TWO_16
    ensures |s| == |topic| + |payload| + 2 + (if qos > 0 then 2 else 0)
  {
    Utf8(topic) + (if qos > 0 then UInt16(id) else []) + payload
  }

  function FiltersBody(filters: seq<Filter>): seq<byte>
    requires forall f | f in filters :: f.qos <= 1
  {
    if filters == [] then []
    else
      var last := filters[|filters| - 1];
      FiltersBody(filters[..|filters| - 1]) + (Utf8(last.name) + [last.qos])
  }

  function NamesBody(names: seq<Text>): seq<byte> {
    if names == [] then []
    else NamesBody(names[..|names| - 1]) + Utf8(names[|names| - 1])
  }

  function ConnectFlags(p: ConnectParams): byte
    requires p.will.Some? ==> p.will.value.qos <= 1
  {
    (if p.cleanSession then 2 else 0) +
    (match p.will
     case None => 0
     case Some(w) => 4 + w.qos * 8 + (if w.retained then 32 else 0)) +
    (if p.password.Some? then 64 else 0) +
    (if p.username.Some? then 128 else 0)
  }

  function TextBody(t: Option<Text>): (s: seq<byte>)
    ensures |s| == if t.Some? then |t.value| + 2 else 0
  {
    match t case None => [] case Some(s) => Utf8(s)
  }

  function WillBody(w: Option<Will>): seq<byte> {
    match w case None => [] case Some(w) => Utf8(w.topic) + Utf8(w.message)
  }

  const MQTT_3_1_1: byte := 4

  /** The protocol name "MQTT". */
  const PROTOCOL: Text := [77, 81, 84, 84]

  /** The variable header: protocol name, level, flags, keep-alive. */
  function ConnectHead(p: ConnectParams): (s: seq<byte>)
    requires p.keepAlive < TWO_16 && (p.will.Some? ==> p.will.value.qos <= 1)
    ensures |s| == 10
  {
    Utf8(PROTOCOL) + [p.version, ConnectFlags(p)] + UInt16(p.keepAlive)
  }

  /** Client identifier, will, user name, password. */
  function ConnectPayload(p: ConnectParams): (s: seq<byte>)
    ensures |s| + 10 == ConnectLength(p)
  {
    (match p.clientId case None => UInt16(0) case Some(id) => Utf8(id)) +
    WillBody(p.will) + TextBody(p.username) + TextBody(p.password)
  }

  function ConnectBody(p: ConnectParams): seq<byte>
    requires p.keepAlive < TWO_16 && (p.will.Some? ==> p.will.value.qos <= 1)
  {
    ConnectHead(p) + ConnectPayload(p)
  }

  /** `_aws_iot_get_connect_packet_length`. */
  function ConnectLength(p: ConnectParams): nat {
    10 + (if p.clientId.Some? then |p.clientId.value| else 0) + 2 +
    (if p.will.Some? then |p.will.value.topic| + 2 + |p.will.value.message| + 2 else 0) +
    (if p.username.Some? then |p.username.value| + 2 else 0) +
    (if p.password.Some? then |p.password.value| + 2 else 0)
  }

  /** The outcome of a serializer: the packet at the front of the buffer, or the buffer as it was. */
  ghost predicate Serialized(status: Status, len: nat, now: seq<byte>, was: seq<byte>, packet: seq<byte>) {
    && (status == Success ==> len == |packet| <= |was| && Written(packet, now, was))
    && (status != Success ==> now == was)
  }

  /** `_aws_iot_mqtt_internal_serialize_publish`. */
  method SerializePublish(buf: array<byte>, dup: bool, qos: nat, retained: bool, id: nat, topic: Text,
                          payload: seq<byte>) returns (status: Status, len: nat)
    requires qos <= 1 && id < TWO_16 && buf.Length <= MAX_LENGTH
    modifies buf
    ensures status == if FinalPacketLength(|PublishBody(qos, id, topic, payload)|) > buf.Length
                      then TxBufferTooShort else Success
    ensures Serialized(status, len, buf[..], old(buf[..]),
                       Packet(Header(PUBLISH, qos, dup, retained), PublishBody(qos, id, topic, payload)))
  {
    hide EncodeLength, Header, Written, Utf8, UInt16, FinalPacketLength;
    var header := Header(PUBLISH, qos, dup, retained);
    var remLen := |topic| + |payload| + 2;
    if qos > 0 { remLen := remLen + 2; }
    if FinalPacketLength(remLen) > buf.Length { return TxBufferTooShort, 0; }
    FinalLengthExact(remLen);
    var ptr := new Cursor(buf);
    ptr.WriteChar(header);
    ptr.WriteLength(remLen);
    ptr.WriteUtf8(topic);
    if qos > 0 { ptr.WriteUInt16(id); }
    ptr.WriteBytes(payload);
    assert ptr.done == Packet(header, PublishBody(qos, id, topic, payload));
    return Success, ptr.ptr;
  }

  /** The fixed header and the identifier; only PUBREL is sent with QoS 1. */
  function AckPacket(packetType: nat, dup: bool, id: nat): seq<byte>
    requires packetType < 16 && id < TWO_16
  {
    Packet(Header(packetType, if packetType == PUBREL then 1 else 0, dup, false), UInt16(id))
  }

  /** `aws_iot_mqtt_internal_serialize_ack`. */
  method SerializeAck(buf: array<byte>, packetType: nat, dup: bool, id: nat)
    returns (status: Status, len: nat)
    requires packetType < 16 && id < TWO_16
    modifies buf
    ensures status == if buf.Length < 4 then TxBufferTooShort else Success
    ensures Serialized(status, len, buf[..], old(buf[..]),
                       AckPacket(packetType, dup, id))
  {
    hide Header, Written, UInt16;
    if 4 > buf.Length { return TxBufferTooShort, 0; }
    var header := Header(packetType, if packetType == PUBREL then 1 else 0, dup, false);
    var ptr := new Cursor(buf);
    ptr.WriteChar(header);
    assert EncodeLength(2) == [2];
    ptr.WriteLength(2);
    ptr.WriteUInt16(id);
    assert ptr.done == Packet(header, UInt16(id));
    return Success, ptr.ptr;
  }

  /** `aws_iot_mqtt_internal_serialize_zero`. */
  method SerializeZero(buf: array<byte>, packetType: nat) returns (status: Status, len: nat)
    requires packetType < 16
    modifies buf
    ensures status == if buf.Length < 4 then TxBufferTooShort else Success
    ensures Serialized(status, len, buf[..], old(buf[..]), Packet(Header(packetType, 0, false, false), []))
  {
    hide Header, Written;
    if 4 > buf.Length { return TxBufferTooShort, 0; }
    var ptr := new Cursor(buf);
    ptr.WriteChar(Header(packetType, 0, false, false));
    assert EncodeLength(0) == [0];
    ptr.WriteLength(0);
    assert ptr.done == Packet(Header(packetType, 0, false, false), []);
    return Success, ptr.ptr;
  }

  /** `_aws_iot_mqtt_serialize_subscribe`, for any number of filters. */
  method SerializeSubscribe(buf: array<byte>, dup: bool, id: nat, filters: seq<Filter>)
    returns (status: Status, len: nat)
    requires id < TWO_16 && buf.Length <= MAX_LENGTH && (forall f | f in filters :: f.qos <= 1)
    modifies buf
    ensures status == if FinalPacketLength(2 + |FiltersBody(filters)|) > buf.Length
                      then TxBufferTooShort else Success
    ensures Serialized(status, len, buf[..], old(buf[..]),
                       Packet(Header(SUBSCRIBE, 1, dup, false), UInt16(id) + FiltersBody(filters)))
  {
    hide EncodeLength, FiltersBody, Header, Written, Utf8, UInt16, FinalPacketLength;
    var header := Header(SUBSCRIBE, 1, dup, false);
    var remLen := 2;
    FiltersNil();
    assert filters[..0] == [] && filters[..|filters|] == filters;
    for itr := 0 to |filters|
      invariant remLen == 2 + |FiltersBody(filters[..itr])| && buf[..] == old(buf[..])
    {
      FiltersMore(filters, itr);
      remLen := remLen + |filters[itr].name| + 2 + 1;
    }
    if FinalPacketLength(remLen) > buf.Length { return TxBufferTooShort, 0; }
    FinalLengthExact(remLen);
    var ptr := new Cursor(buf);
    ptr.WriteChar(header);
    ptr.WriteLength(remLen);
    ptr.WriteUInt16(id);
    ghost var head := ptr.done;
    for itr := 0 to |filters|
      invariant ptr.Valid() && ptr.done == head + FiltersBody(filters[..itr])
    {
      FiltersMore(filters, itr);
      FiltersFit(filters, itr + 1);
      ptr.WriteUtf8(filters[itr].name);
      ptr.WriteChar(filters[itr].qos);
    }
    assert ptr.done == Packet(header, UInt16(id) + FiltersBody(filters));
    return Success, ptr.ptr;
  }

  lemma FiltersNil()
    ensures FiltersBody([]) == []
  {
  }

  lemma FiltersMore(filters: seq<Filter>, i: nat)
    requires i < |filters| && (forall f | f in filters :: f.qos <= 1)
    ensures FiltersBody(filters[..i + 1]) ==
      FiltersBody(filters[..i]) + (Utf8(filters[i].name) + [filters[i].qos])
  {
    assert filters[..i + 1][..i] == filters[..i];
  }

  lemma {:induction false} FiltersFit(filters: seq<Filter>, i: nat)
    requires i <= |filters| && (forall f | f in filters :: f.qos <= 1)
    ensures |FiltersBody(filters[..i])| <= |FiltersBody(filters)|
    decreases |filters| - i
  {
    if i == |filters| {
      assert filters[..i] == filters;
    } else {
      FiltersMore(filters, i);
      FiltersFit(filters, i + 1);
    }
  }

  /** `_aws_iot_mqtt_serialize_unsubscribe`, for any number of names. */
  method SerializeUnsubscribe(buf: array<byte>, dup: bool, id: nat, names: seq<Text>)
    returns (status: Status, len: nat)
    requires id < TWO_16 && buf.Length <= MAX_LENGTH
    modifies buf
    ensures status == if FinalPacketLength(2 + |NamesBody(names)|) > buf.Length then TxBufferTooShort else Success
    ensures Serialized(status, len, buf[..], old(buf[..]),
                       Packet(Header(UNSUBSCRIBE, 1, dup, false), UInt16(id) + NamesBody(names)))
  {
    hide EncodeLength, NamesBody, Header, Written, Utf8, UInt16, FinalPacketLength;
    var header := Header(UNSUBSCRIBE, 1, dup, false);
    var remLen := 2;
    NamesNil();
    assert names[..0] == [] && names[..|names|] == names;
    for i := 0 to |names|
      invariant remLen == 2 + |NamesBody(names[..i])| && buf[..] == old(buf[..])
    {
      NamesMore(names, i);
      remLen := remLen + |names[i]| + 2;
    }
    if FinalPacketLength(remLen) > buf.Length { return TxBufferTooShort, 0; }
    FinalLengthExact(remLen);
    var ptr := new Cursor(buf);
    ptr.WriteChar(header);
    ptr.WriteLength(remLen);
    ptr.WriteUInt16(id);
    ghost var head := ptr.done;
    for i := 0 to |names|
      invariant ptr.Valid() && ptr.done == head + NamesBody(names[..i])
    {
      NamesMore(names, i);
      NamesFit(names, i + 1);
      ptr.WriteUtf8(names[i]);
    }
    assert ptr.done == Packet(header, UInt16(id) + NamesBody(names));
    return Success, ptr.ptr;
  }

  lemma NamesNil()
    ensures NamesBody([]) == []
  {
  }

  lemma NamesMore(names: seq<Text>, i: nat)
    requires i < |names|
    ensures NamesBody(names[..i + 1]) == NamesBody(names[..i]) + Utf8(names[i])
  {
    assert names[..i + 1][..i] == names[..i];
  }

  lemma {:induction false} NamesFit(names: seq<Text>, i: nat)
    requires i <= |names|
    ensures |NamesBody(names[..i])| <= |NamesBody(names)|
    decreases |names| - i
  {
    if i == |names| {
      assert names[..i] == names;
    } else {
      NamesMore(names, i);
      NamesFit(names, i + 1);
    }
  }

  /** `_aws_iot_mqtt_serialize_connect`. */
  method SerializeConnect(buf: array<byte>, p: ConnectParams) returns (status: Status, len: nat)
    requires p.keepAlive < TWO_16 && (p.will.Some? ==> p.will.value.qos <= 1)
    requires buf.Length <= MAX_LENGTH
    modifies buf
    ensures status == if p.clientId.Some? && p.clientId.value == [] then NullValue
                      else if p.version != MQTT_3_1_1 then UnacceptableVersion
                      else if FinalPacketLength(|ConnectBody(p)|) > buf.Length then TxBufferTooShort
                      else Success
    ensures Serialized(status, len, buf[..], old(buf[..]),
                       Packet(Header(CONNECT, 0, false, false), ConnectBody(p)))
  {
    hide EncodeLength, Header, ConnectFlags, Written, Utf8, UInt16, FinalPacketLength;
    if p.clientId.Some? && |p.clientId.value| == 0 { return NullValue, 0; }
    if p.version != MQTT_3_1_1 { return UnacceptableVersion, 0; }
    var header := Header(CONNECT, 0, false, false);
    var remLen := ConnectLength(p);
    assert remLen == |ConnectBody(p)|;
    if FinalPacketLength(remLen) > buf.Length { return TxBufferTooShort, 0; }
    FinalLengthExact(remLen);
    var ptr := new Cursor(buf);
    ptr.WriteChar(header);
    ptr.WriteLength(remLen);
    ghost var head := ptr.done;
    WriteConnect(ptr, p);
    assert ptr.done == Packet(header, ConnectBody(p));
    return Success, ptr.ptr;
  }

  method WriteConnect(ptr: Cursor, p: ConnectParams)
    requires p.keepAlive < TWO_16 && (p.will.Some? ==> p.will.value.qos <= 1)
    requires ptr.Valid() && ptr.ptr + |ConnectBody(p)| <= ptr.buf.Length
    modifies ptr, ptr.buf
    ensures ptr.Valid() && ptr.done == old(ptr.done) + ConnectBody(p)
  {
    hide ConnectFlags, Written, Utf8, UInt16, ConnectPayload;
    ptr.WriteUtf8(PROTOCOL);
    ptr.WriteChar(p.version);
    ptr.WriteChar(ConnectFlags(p));
    ptr.WriteUInt16(p.keepAlive);
    assert ptr.done == old(ptr.done) + ConnectHead(p);
    hide ConnectHead;
    WriteConnectPayload(ptr, p);
  }

  method WriteConnectPayload(ptr: Cursor, p: ConnectParams)
    requires ptr.Valid() && ptr.ptr + |ConnectPayload(p)| <= ptr.buf.Length
    modifies ptr, ptr.buf
    ensures ptr.Valid() && ptr.done == old(ptr.done) + ConnectPayload(p)
  {
    hide Written, Utf8, UInt16, TextBody;
    if p.clientId.None? {
      ptr.WriteUInt16(0);
    } else {
      ptr.WriteUtf8(p.clientId.value);
    }
    if p.will.Some? {
      ptr.WriteUtf8(p.will.value.topic);
      ptr.WriteUtf8(p.will.value.message);
    }
    WriteText(ptr, p.username);
    WriteText(ptr, p.password);
  }

  /** An optional string, written if it is there. */
  method WriteText(ptr: Cursor, t: Option<Text>)
    requires ptr.Valid() && ptr.ptr + |TextBody(t)| <= ptr.buf.Length
    modifies ptr, ptr.buf
    ensures ptr.Valid() && ptr.done == old(ptr.done) + TextBody(t)
  {
    hide Written, Utf8;
    if t.Some? { ptr.WriteUtf8(t.value); }
  }

  /** A received PUBLISH. A QoS 0 message carries no packet identifier. */
  datatype Publish = Publish(
    dup: bool, qos: nat, retained: bool, id: Option<nat>, topic: seq<byte>, payload: seq<byte>)

  datatype Parsed<T> = Good(value: T) | Bad(status: Status)

  /** What follows the fixed header of a received PUBLISH: `data` starts at the body of `len` bytes. */
  function ParsePublishBody(header: byte, data: seq<byte>, len: nat): Parsed<Publish>
    requires len <= |data|
  {
    if len <= 1 then Bad(Failure)
    else
      var next := 2 + ReadUInt16(data);
      if next > len then Bad(Failure)
      else
        var qos := HeaderQos(header);
        var payload := if qos != 0 then next + 2 else next;
        if payload > len then Bad(Overrun)
        else Good(Publish(HeaderDup(header), qos, HeaderRetain(header),
                          if qos != 0 then Some(ReadUInt16(data[next..])) else None,
                          data[2..next], data[payload..len]))
  }

  /** `aws_iot_mqtt_internal_deserialize_publish`, on a receive buffer that holds the packet its length
      field announces. */
  function DeserializePublish(rx: seq<byte>): Parsed<Publish>
    requires rx != [] ==> match DecodeLength(rx[1..], 4)
      case None => true
      case Some((len, used)) => 1 + used + len <= |rx|
  {
    if 4 > |rx| then Bad(RxBufferTooShort)
    else if HeaderType(rx[0]) != PUBLISH then Bad(Failure)
    else match DecodeLength(rx[1..], 4)
      case None => Bad(LengthFault)
      case Some((len, used)) => ParsePublishBody(rx[0], rx[1 + used..], len)
  }

  lemma ReadsBack(n: nat, rest: seq<byte>)
    requires n < TWO_16
    ensures ReadUInt16(UInt16(n) + rest) == n
  {
  }

  /** Where the parts of a packet lie. */
  lemma PacketParts(header: byte, body: seq<byte>, rest: seq<byte>)
    requires |body| <= MAX_LENGTH
    ensures
      var rx := Packet(header, body) + rest;
      var used := |EncodeLength(|body|)|;
      && rx[0] == header
      && DecodeLength(rx[1..], 4) == Some((|body|, used))
      && rx[1 + used..] == body + rest
      && |rx| == 1 + used + |body| + |rest|
  {
    var rx, field := Packet(header, body) + rest, EncodeLength(|body|);
    assert rx[1..] == field + (body + rest);
    FourDigits();
    LengthRoundTrip(|body|, body + rest, 4);
  }

  /** MAIN (publish): a serialized PUBLISH comes back with its topic, payload, flags and identifier,
      whatever follows it in the buffer. */
  lemma PublishRoundTrip(dup: bool, qos: nat, retained: bool, id: nat, topic: Text, payload: seq<byte>,
                         rest: seq<byte>)
    requires qos <= 1 && id < TWO_16
    requires |PublishBody(qos, id, topic, payload)| <= MAX_LENGTH
    ensures
      var rx := Packet(Header(PUBLISH, qos, dup, retained), PublishBody(qos, id, topic, payload)) + rest;
      && |rx| >= 4
      && DecodeLength(rx[1..], 4).Some?
      && 1 + DecodeLength(rx[1..], 4).value.1 + DecodeLength(rx[1..], 4).value.0 <= |rx|
      && DeserializePublish(rx) ==
         Good(Publish(dup, qos, retained, if qos == 1 then Some(id) else None, topic, payload))
  {
    hide EncodeLength, DecodeLength, Header, PublishBody, HeaderType, ParsePublishBody, Packet;
    var header, body := Header(PUBLISH, qos, dup, retained), PublishBody(qos, id, topic, payload);
    HeaderRoundTrip(PUBLISH, qos, dup, retained);
    PacketParts(header, body, rest);
    BodyRoundTrip(header, dup, qos, retained, id, topic, payload, rest);
  }

  lemma BodyRoundTrip(header: byte, dup: bool, qos: nat, retained: bool, id: nat, topic: Text,
                      payload: seq<byte>, rest: seq<byte>)
    requires qos <= 1 && id < TWO_16
    requires HeaderDup(header) == dup && HeaderQos(header) == qos && HeaderRetain(header) == retained
    ensures
      var body := PublishBody(qos, id, topic, payload);
      ParsePublishBody(header, body + rest, |body|) ==
        Good(Publish(dup, qos, retained, if qos == 1 then Some(id) else None, topic, payload))
  {
    hide UInt16, HeaderDup, HeaderQos, HeaderRetain, ReadUInt16;
    var body, idBytes := PublishBody(qos, id, topic, payload), if qos > 0 then UInt16(id) else [];
    var data, next := body + rest, 2 + |topic|;
    assert data == UInt16(|topic|) + (topic + idBytes + payload + rest);
    ReadsBack(|topic|, topic + idBytes + payload + rest);
    assert data[2..] == topic + (idBytes + payload + rest);
    assert data[2..next] == topic;
    assert data[next..] == idBytes + (payload + rest);
    if qos > 0 { ReadsBack(id, payload + rest); }
    assert data[next + |idBytes|..] == payload + rest;
    assert data[next + |idBytes|..|body|] == payload;
  }

  /** `aws_iot_mqtt_internal_deserialize_ack`: packet type, dup flag and identifier. */
  function DeserializeAck(rx: seq<byte>): Parsed<(nat, bool, nat)>
    requires rx != [] ==> match DecodeLength(rx[1..], 4)
      case None => true
      case Some((len, used)) => 1 + used + len <= |rx|
  {
    if 4 > |rx| then Bad(RxBufferTooShort)
    else match DecodeLength(rx[1..], 4)
    case None => Bad(LengthFault)
    case Some((len, used)) =>
      if len < 2 then Bad(Failure)
      else Good((HeaderType(rx[0]), HeaderDup(rx[0]), ReadUInt16(rx[1 + used..])))
  }

  /** A serialized acknowledgement comes back with its type, flag and identifier. */
  lemma AckRoundTrip(packetType: nat, dup: bool, id: nat, rest: seq<byte>)
    requires packetType < 16 && id < TWO_16
    ensures |AckPacket(packetType, dup, id)| == 4
    ensures HeaderQos(AckPacket(packetType, dup, id)[0]) == if packetType == 6 then 1 else 0
    ensures DecodeLength((AckPacket(packetType, dup, id) + rest)[1..], 4) == Some((2, 1))
    ensures DeserializeAck(AckPacket(packetType, dup, id) + rest) == Good((packetType, dup, id))
  {
    hide DecodeLength, Header, UInt16, HeaderType, HeaderDup, ReadUInt16;
    var header := Header(packetType, if packetType == PUBREL then 1 else 0, dup, false);
    HeaderRoundTrip(packetType, if packetType == PUBREL then 1 else 0, dup, false);
    PacketParts(header, UInt16(id), rest);
    assert EncodeLength(|UInt16(id)|) == [2];
    assert (AckPacket(packetType, dup, id) + rest)[2..] == UInt16(id) + rest;
    ReadsBack(id, rest);
  }

  /** The granted QoS codes of `_aws_iot_mqtt_deserialize_suback`: the count is compared before each code
      is stored, so one code more than `maxExpected` is accepted. */
  method ReadGrantedQos(codes: seq<byte>, maxExpected: nat) returns (r: Parsed<seq<byte>>)
    ensures r == if |codes| <= maxExpected + 1 then Good(codes) else Bad(Failure)
  {
    var granted: seq<byte> := [];
    var cur := 0;
    while cur < |codes|
      invariant cur <= |codes| && granted == codes[..cur] && cur <= maxExpected + 1
    {
      if |granted| > maxExpected { return Bad(Failure); }
      granted := granted + [codes[cur]];
      cur := cur + 1;
    }
    assert codes[..cur] == codes;
    return Good(granted);
  }

  // ---- A broker's reading of what the client writes

  /** Section 1.5.3 of MQTT 3.1.1: a string behind its length, and what follows it. */
  function TakeText(data: seq<byte>): (r: Option<(seq<byte>, seq<byte>)>)
    ensures r.Some? ==> |r.value.1| < |data|
  {
    if |data| < 2 then None
    else
      var n := (data[0] as int) * 256 + data[1] as int;
      if 2 + n > |data| then None else Some((data[2..2 + n], data[2 + n..]))
  }

  predicate FlagSet(flags: byte, weight: nat)
    requires weight > 0
  {
    flags / weight % 2 == 1
  }

  /** A CONNECT as a broker reads it; a client without an identifier gives an empty one. */
  datatype Connection = Connection(
    clientId: seq<byte>, will: Option<(seq<byte>, seq<byte>, nat, bool)>, username: Option<seq<byte>>,
    password: Option<seq<byte>>, keepAlive: nat, cleanSession: bool)

  /** A string that a flag announces. */
  function TakeAnnounced(data: seq<byte>, flag: bool): Option<(Option<seq<byte>>, seq<byte>)> {
    if !flag then Some((None, data))
    else
      var t := TakeText(data);
      if t == None then None else Some((Some(t.value.0), t.value.1))
  }

  /** Section 3.1 of MQTT 3.1.1: the body of a CONNECT; what the flags announce follows in this order, and nothing
      else. */
  function ReadConnect(body: seq<byte>): Option<Connection> {
    if |body| < 10 || body[..7] != [0, 4, 77, 81, 84, 84, 4] || FlagSet(body[7], 1) then None
    else
      var flags, keepAlive := body[7], (body[8] as int) * 256 + body[9] as int;
      var id := TakeText(body[10..]);
      if id == None then None
      else
        var topic := TakeAnnounced(id.value.1, FlagSet(flags, 4));
        if topic == None then None
        else
          var message := TakeAnnounced(topic.value.1, FlagSet(flags, 4));
          if message == None then None
          else
            var username := TakeAnnounced(message.value.1, FlagSet(flags, 128));
            if username == None then None
            else
              var password := TakeAnnounced(username.value.1, FlagSet(flags, 64));
              if password == None || password.value.1 != [] then None
              else
                var will := if topic.value.0 == None || message.value.0 == None then None
                            else Some((topic.value.0.value, message.value.0.value, flags / 8 % 4, FlagSet(flags, 32)));
                Some(Connection(id.value.0, will, username.value.0, password.value.0, keepAlive, FlagSet(flags, 2)))
  }

  /** What each bit of the CONNECT flags says. */
  lemma FlagsSay(p: ConnectParams)
    requires p.will.Some? ==> p.will.value.qos <= 1
    ensures var flags := ConnectFlags(p);
      && !FlagSet(flags, 1) && FlagSet(flags, 2) == p.cleanSession && FlagSet(flags, 4) == p.will.Some?
      && flags / 8 % 4 == (if p.will.Some? then p.will.value.qos else 0)
      && FlagSet(flags, 32) == (p.will.Some? && p.will.value.retained)
      && FlagSet(flags, 64) == p.password.Some? && FlagSet(flags, 128) == p.username.Some?
  {
    var w := if p.will.None? then 0 else if p.will.value.qos == 1 then 3 else 1;
    var r := if p.will.Some? && p.will.value.retained then 1 else 0;
    FlagsApart(ConnectFlags(p), if p.cleanSession then 1 else 0, w, r, if p.password.Some? then 1 else 0,
               if p.username.Some? then 1 else 0);
  }

  lemma FlagsApart(flags: byte, c: nat, w: nat, r: nat, a: nat, u: nat)
    requires c <= 1 && (w == 0 || w == 1 || w == 3) && r <= 1 && a <= 1 && u <= 1
    requires flags == 2 * c + 4 * w + 32 * r + 64 * a + 128 * u
    ensures flags % 2 == 0 && flags / 2 % 2 == c && flags / 4 % 2 == (if w == 0 then 0 else 1)
    ensures flags / 8 % 4 == (if w == 3 then 1 else 0) && flags / 32 % 2 == r
    ensures flags / 64 % 2 == a && flags / 128 % 2 == u
  {
    assert flags / 2 == c + 2 * w + 16 * r + 32 * a + 64 * u;
    assert flags / 4 == w + 8 * r + 16 * a + 32 * u;
    assert flags / 8 == (if w == 3 then 1 else 0) + 4 * r + 8 * a + 16 * u;
    assert flags / 32 == r + 2 * a + 4 * u;
    assert flags / 64 == a + 2 * u;
    assert flags / 128 == u;
  }

  lemma TextTaken(t: Text, rest: seq<byte>)
    ensures TakeText(Utf8(t) + rest) == Some((t, rest))
  {
    var data := Utf8(t) + rest;
    assert data[0] == |t| / 256 && data[1] == |t| % 256;
    assert data[2..2 + |t|] == t && data[2 + |t|..] == rest;
  }

  lemma AnnouncedTaken(t: Option<Text>, rest: seq<byte>)
    ensures var r := TakeAnnounced(TextBody(t) + rest, t.Some?);
      r == Some((if t.Some? then Some(t.value) else None, rest))
  {
    hide TakeText, Utf8;
    if t.Some? { TextTaken(t.value, rest); } else { assert TextBody(t) + rest == rest; }
  }

  lemma HeadParts(p: ConnectParams, rest: seq<byte>)
    requires p.keepAlive < TWO_16 && (p.will.Some? ==> p.will.value.qos <= 1)
    ensures var body := ConnectHead(p) + rest;
      && body[..6] == [0, 4, 77, 81, 84, 84] && body[6] == p.version && body[7] == ConnectFlags(p)
      && (body[8] as int) * 256 + body[9] as int == p.keepAlive && body[10..] == rest
  {
    hide ConnectFlags;
    assert Utf8(PROTOCOL) == [0, 4, 77, 81, 84, 84];
  }

  /** MAIN (connect packet): a broker that reads the fields that the flags announce gets back every one that was
      given: identifier, will with its QoS and retain flag, user name, password, keep-alive and clean session. */
  lemma ConnectReadsBack(p: ConnectParams)
    requires p.version == MQTT_3_1_1 && p.keepAlive < TWO_16 && (p.will.Some? ==> p.will.value.qos <= 1)
    ensures ReadConnect(ConnectBody(p)) == Some(Connection(
      if p.clientId.Some? then p.clientId.value else [],
      if p.will.None? then None
      else Some((p.will.value.topic, p.will.value.message, p.will.value.qos, p.will.value.retained)),
      if p.username.Some? then Some(p.username.value) else None,
      if p.password.Some? then Some(p.password.value) else None,
      p.keepAlive, p.cleanSession))
  {
    hide ConnectFlags, FlagSet, TakeText, TakeAnnounced, Utf8, TextBody, ConnectHead, ConnectPayload, UInt16;
    HeadParts(p, ConnectPayload(p));
    FlagsSay(p);
    assert ConnectBody(p)[..7] == [0, 4, 77, 81, 84, 84, 4];
    PayloadTaken(p);
  }

  /** What the payload of a CONNECT is taken apart into. */
  lemma PayloadTaken(p: ConnectParams)
    ensures
      var id: Text := if p.clientId.Some? then p.clientId.value else [];
      var topic: Option<Text> := if p.will.Some? then Some(p.will.value.topic) else None;
      var message: Option<Text> := if p.will.Some? then Some(p.will.value.message) else None;
      var r0 := TextBody(p.password);
      var r1 := TextBody(p.username) + r0;
      var r2 := TextBody(message) + r1;
      var r3 := TextBody(topic) + r2;
      && TakeText(ConnectPayload(p)) == Some((id, r3))
      && TakeAnnounced(r3, p.will.Some?) == Some((if p.will.Some? then Some(p.will.value.topic) else None, r2))
      && TakeAnnounced(r2, p.will.Some?) == Some((if p.will.Some? then Some(p.will.value.message) else None, r1))
      && TakeAnnounced(r1, p.username.Some?) == Some((if p.username.Some? then Some(p.username.value) else None, r0))
      && TakeAnnounced(r0, p.password.Some?) == Some((if p.password.Some? then Some(p.password.value) else None, []))
  {
    var id: Text := if p.clientId.Some? then p.clientId.value else [];
    var topic: Option<Text> := if p.will.Some? then Some(p.will.value.topic) else None;
    var message: Option<Text> := if p.will.Some? then Some(p.will.value.message) else None;
    var r0 := TextBody(p.password);
    var r1 := TextBody(p.username) + r0;
    var r2 := TextBody(message) + r1;
    var r3 := TextBody(topic) + r2;
    PayloadIs(p, id, topic, message);
    hide TakeText, TakeAnnounced, Utf8, TextBody, ConnectPayload;
    TextTaken(id, r3);
    AnnouncedTaken(topic, r2);
    AnnouncedTaken(message, r1);
    AnnouncedTaken(p.username, r0);
    AnnouncedTaken(p.password, []);
    assert r0 + [] == r0;
  }

  lemma PayloadIs(p: ConnectParams, id: Text, topic: Option<Text>, message: Option<Text>)
    requires id == if p.clientId.Some? then p.clientId.value else []
    requires topic == if p.will.Some? then Some(p.will.value.topic) else None
    requires message == if p.will.Some? then Some(p.will.value.message) else None
    ensures ConnectPayload(p) ==
      Utf8(id) + (TextBody(topic) + (TextBody(message) + (TextBody(p.username) + TextBody(p.password))))
  {
    hide UInt16;
    if p.clientId.None? { assert Utf8(id) == UInt16(0); }
  }

  /** Section 3.8.3 of MQTT 3.1.1: topic filters, each with the QoS asked for. */
  function ReadFilters(data: seq<byte>): Option<seq<(seq<byte>, nat)>> {
    if data == [] then Some([])
    else
      var name := TakeText(data);
      if name == None || name.value.1 == [] then None
      else
        var others := ReadFilters(name.value.1[1..]);
        if others == None then None else Some([(name.value.0, name.value.1[0] as nat)] + others.value)
  }

  function Asked(filters: seq<Filter>): seq<(seq<byte>, nat)> {
    if filters == [] then [] else [(filters[0].name, filters[0].qos)] + Asked(filters[1..])
  }

  lemma {:induction false} FiltersFromFront(filters: seq<Filter>, k: nat)
    requires k < |filters| && (forall f | f in filters :: f.qos <= 1) && (forall f | f in filters[1..] :: f.qos <= 1)
    ensures FiltersBody(filters[..k + 1])
      == Utf8(filters[0].name) + ([filters[0].qos] + FiltersBody(filters[1..][..k]))
    decreases k
  {
    hide Utf8, FiltersBody;
    FiltersMore(filters, k);
    FiltersNil();
    if k == 0 {
      assert filters[..0] == [] && filters[1..][..0] == [];
    } else {
      FiltersFromFront(filters, k - 1);
      FiltersMore(filters[1..], k - 1);
    }
  }

  /** MAIN (subscribe): a broker reads back every filter with its QoS, in order. */
  lemma {:induction false} FiltersReadBack(filters: seq<Filter>)
    requires forall f | f in filters :: f.qos <= 1
    ensures ReadFilters(FiltersBody(filters)) == Some(Asked(filters))
    decreases |filters|
  {
    hide TakeText, Utf8, FiltersBody;
    if filters == [] {
      FiltersNil();
    } else {
      assert forall f | f in filters[1..] :: f in filters;
      FiltersFromFront(filters, |filters| - 1);
      assert filters[..|filters|] == filters && filters[1..][..|filters| - 1] == filters[1..];
      var rest := [filters[0].qos] + FiltersBody(filters[1..]);
      TextTaken(filters[0].name, rest);
      assert rest[1..] == FiltersBody(filters[1..]);
      FiltersReadBack(filters[1..]);
    }
  }

  /** Section 3.10.3 of MQTT 3.1.1: topic filters. */
  function ReadNames(data: seq<byte>): Option<seq<seq<byte>>> {
    if data == [] then Some([])
    else
      var name := TakeText(data);
      if name == None then None
      else
        var others := ReadNames(name.value.1);
        if others == None then None else Some([name.value.0] + others.value)
  }

  lemma {:induction false} NamesFromFront(names: seq<Text>, k: nat)
    requires k < |names|
    ensures NamesBody(names[..k + 1]) == Utf8(names[0]) + NamesBody(names[1..][..k])
    decreases k
  {
    hide Utf8, NamesBody;
    NamesMore(names, k);
    NamesNil();
    if k == 0 {
      assert names[..0] == [] && names[1..][..0] == [];
    } else {
      NamesFromFront(names, k - 1);
      NamesMore(names[1..], k - 1);
    }
  }

  /** MAIN (unsubscribe): a broker reads back every name, in order. */
  lemma {:induction false} NamesReadBack(names: seq<Text>)
    ensures var r := ReadNames(NamesBody(names));
      r.Some? && |r.value| == |names| && forall i :: 0 <= i < |names| ==> r.value[i] == names[i]
    decreases |names|
  {
    hide TakeText, Utf8, NamesBody;
    if names == [] {
      NamesNil();
    } else {
      NamesFromFront(names, |names| - 1);
      assert names[..|names|] == names && names[1..][..|names| - 1] == names[1..];
      TextTaken(names[0], NamesBody(names[1..]));
      NamesReadBack(names[1..]);
    }
  }

  /** The first bytes of the packets of a session, as tables 2.1 and 2.2 of MQTT 3.1.1 have them. */
  lemma FirstBytes(id: nat)
    requires id < TWO_16
    ensures Header(CONNECT, 0, false, false) == 0x10 && Header(PUBLISH, 1, true, true) == 0x3B
    ensures Header(SUBSCRIBE, 1, false, false) == 0x82 && Header(UNSUBSCRIBE, 1, false, false) == 0xA2
    ensures AckPacket(4, false, id)[0] == 0x40 && AckPacket(PUBREL, false, id)[0] == 0x62
  {
  }
}
