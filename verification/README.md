# Verified models of an ESP32 sensor stack

Dafny models of five libraries of this repository, with proofs about what they do on all inputs and over all
runs. `dafny verify dfyconfig.toml` checks everything.

* **The software UART and its lock-free ring** (`SpscProtocol`, `RingIndex`, `CircularQueue`, `Uart*`). The
  queue is modelled twice: as a protocol in which every load, slot access and store is one step, and as the class
  it is, refining a sequence. The UART is modelled from `write`'s merged periods to the polled run-length decoder.
* **The MQTT 3.1.1 client** (`Mqtt*`): length codec and serializers, the resumable packet reader, the topic
  matcher, and the client's state machine. There a call is a value that carries everything the call meets: what
  the network answers, whether timers have run out, and the calls that callbacks make, to any depth.
* **ArduinoJson** (`Json*`, `MsgPack*`, `SlotList`, `MemoryPool`, `Document*`): printers and parsers of both
  formats, those of JSON also against a separate reader of RFC 8259 (`JsonGrammar`, `JsonReading`) and on texts that are
  cut off (`JsonTruncation`); the list threaded through slots by 16-bit offsets, the two-ended pool, and documents in
  such memory, compared and copied slot by slot and string by string.
* **The jsmn tokenizer** (`Jsmn*`), against a stack machine and against the grammar of JSON.
* **The CRC line protocol** of CheckStream and Sensaur (`Crc16`, `CrcLine`, `CrcMessage`).

Where the source works by changing things step by step, a class or method does, and its contract ties it to a
function that the theorems are about. Texts are written in front of what follows them (a `tail` argument).
Conditions on the environment are those of the interfaces: the network read is an oracle that delivers some prefix
of what was asked and tells how much (`libraries/esp32-aws-iot/network_interface.h:69`), timers are inputs, locks
succeed, one thread uses the MQTT client.

## What the proofs found

Each of these is stated exactly in the members named; where one of them gives a concrete input it is named last.

* An edge that arrives while a poll is between its two looks can make the receiver deliver a byte that was never
  sent (`UartPolling.FauxRace`, `UartPolling.FauxRaceHappens`), and a gap of more than 255 bit times behind a frame that
  no poll has closed can make it lose the byte (`UartPolling.EdgeAgreesExactly`, `UartPolling.LongGapLosesByte`). As long
  as the edge queue has room, polls and edges may otherwise come as they like (`UartRoundTrip.RoundTrip`).
* Decoding a low run at once differs from bit-at-a-time decoding when the run passes the stop bit other than by
  whole frames (`UartReceive.RunRefinesBits`, `UartReceive.LongBreakDiffers`).
* The mbedTLS wrapper does not count short reads, which desynchronizes the packet reader at the first read that is
  cut short (`MqttFraming.Framing`, `MqttFraming.UncountedReadDesyncs`).
* A packet too long for the receive buffer takes bytes of the next ones along unless it is longer still
  (`MqttFraming.OversizeIsDropped`, `MqttFraming.OversizeOutcome`, `MqttFraming.OverreadHappens`), and a connect that is refused drops the part of a packet that was buffered
  (`MqttFraming.FlushKeepsPlace`, `MqttFraming.FlushDesyncs`).
* The topic matcher is stricter than section 4.7.1 of MQTT 3.1.1: `#` does not match its parent, and no wildcard
  matches an empty level (`MqttTopic.LevelsMatchIsStandard`, `MqttTopic.MatcherIsStricter`).
* `connect` whose transport cannot be destroyed leaves the client connecting for good (`MqttClient.ConnectRests`,
  `MqttClient.DestroyFailureTraps`); a transport read that itself reports a disconnect, or a reconnect under way,
  leaves it in a yield (`MqttClient.YieldRests`, `MqttClient.FirstReadReports`). The transport of this repository does
  neither: `iot_tls_destroy` always succeeds, and `iot_tls_read` never returns such an error
  (`libraries/esp32-aws-iot/network_mbedtls_wrapper.c:334-408`). So with it every run is as `MqttClient.EveryRun` says.
* Eight is the largest number of failed reconnects only while callbacks do not yield; each level of nesting adds one
  (`MqttClient.EveryRun`, `MqttClient.EightIsNotABound`).
* The SUBACK reader accepts one code more than expected (`MqttPackets.ReadGrantedQos`).
* MessagePack: a negative zero comes back positive, a magnitude beyond 2^63 comes back positive, and without 64-bit
  integers one beyond 2^31 writes nothing (`MsgPack.NegativesThatSurvive`).
* The JSON printers write control characters other than the five with a one-letter escape as they are, which is not JSON
  (`JsonGrammar.PrintsJson`, `JsonGrammar.ControlCharacterIsWritten`), and the parser refuses white space behind a
  document that is a bare number or literal (`JsonReading.ReadsEveryText`, `JsonReading.SpaceBehindNumberRefused`), but
  takes any word of four letters that begins with t for `true` (`JsonReading.LiteralsAreNotChecked`).
* Comparing separate objects is not symmetric with repeated keys, and such an object need not equal a copy of itself
  (`JsonDocument.EqualsTurned`, `JsonDocument.EqualsItsCopy`, `JsonDocument.RepeatedKeysAreOneWay`,
  `JsonDocument.CopyContradicts`). Compared with itself, by reference, it is equal (`DocumentCompare.EqualsWhereItIs`).
* A copy that reports success has links that lead astray when an element has 32768 slots or more before the next
  (`DocumentStore.Store.CopyFrom`, `DocumentStore.ReachesExactly`).
* A string that does not fit the pool keeps all the space that was free (`MemoryPool.StringBuilder.Complete`).
* `remove` can break a list by leaving neighbours further apart than 16 bits (`SlotList.SlotList.Remove`,
  `SlotList.MiddleOfThreeLost`).
* The Sensaur parser accepts a message without a checksum, 255 arguments look like a rejection, and a framed line with bytes of eight bits passes the check
  only where their signs cancel out, never with an odd number of them (`CrcMessage.NoBar`,
  `CrcMessage.FullFrameLooksRejected`, `CrcLine.FramePassesExactly`, `CrcLine.EightBitsFail`).

## Model

| member | source | states |
|---|---|---|
| `SpscProtocol.Safety` | libraries/espsoftwareserial/src/circular_queue/circular_queue.h:216-308 | after every interleaving of one producer and one consumer, with every index load, slot access and index store a step of its own and stale loads allowed: the items consumed are a prefix of those accepted, every item still to be read is intact in its slot, the slot about to be written is neither one of those nor the one being read, and at most the capacity is outstanding |
| `SpscProtocol.RunKeepsValid` | libraries/espsoftwareserial/src/circular_queue/circular_queue.h:216-308 | the invariant behind that holds after every run: indices are the counters of accepted and consumed items modulo the buffer, and what each side has loaded lies between what it may be and what it is |
| `SpscProtocol.ReadsUnread` | libraries/espsoftwareserial/src/circular_queue/circular_queue.h:261-308 | whatever the consumer is about to read is the slot of an item that was accepted and not yet consumed |
| `SpscProtocol.Outcomes` | libraries/espsoftwareserial/src/circular_queue/circular_queue.h:216-293 | how the step after a load decides, in counters: a push is refused exactly when that leaves no room, a pop exactly when the queue looked empty, the bulk calls take the smaller of the request and what they saw |
| `SpscProtocol.ConsumerTakes` | libraries/espsoftwareserial/src/circular_queue/circular_queue.h:261-308 | what a whole call takes, in every interleaving: `for_each` hands over and releases exactly the items up to the counter that its one load of the write index observed, `pop` one unless it was level, `pop_n` the smaller of the request and what it saw; in order, whatever the producer does meanwhile |
| `SpscProtocol.ProducerAdds` | libraries/espsoftwareserial/src/circular_queue/circular_queue.h:216-258 | what a whole call adds, in every interleaving: `push` its item unless what its one load of the read index observed left no room, `push_n` exactly the first min(size, room) of its items |
| `SpscProtocol.WaitFree` | libraries/espsoftwareserial/src/circular_queue/circular_queue.h:216-308 | no call waits for the other side: in every interleaving a side inside a call can take its next step, and it leaves the call within three steps of its own for `push` and `pop`, two or three more than it was asked for in bulk, and two per item seen and two for `for_each` |
| `RingIndex.AvailableIsDistance` | libraries/espsoftwareserial/src/circular_queue/circular_queue.h:108-115 | `available` of two indices is the distance of the counters behind them, wrap or not |
| `RingIndex.AvailableForPushIsRoom` | libraries/espsoftwareserial/src/circular_queue/circular_queue.h:118-123 | `available_for_push` is the room left before the writer would meet the reader |
| `RingIndex.PushBlocks` | libraries/espsoftwareserial/src/circular_queue/circular_queue.h:235-258 | the two blocks of `push_n` together are the smaller of request and room, fill consecutive slots and leave the index behind them |
| `CircularQueue.Queue.Push` | libraries/espsoftwareserial/src/circular_queue/circular_queue.h:216-232 | appends exactly when fewer than the capacity are queued, else changes nothing |
| `CircularQueue.Queue.PushN` | libraries/espsoftwareserial/src/circular_queue/circular_queue.h:235-258 | appends exactly the first min(size, free) items, across the wrap |
| `CircularQueue.Queue.Pop` | libraries/espsoftwareserial/src/circular_queue/circular_queue.h:261-274 | takes the oldest item, or gives the default value and changes nothing |
| `CircularQueue.Queue.PopN` | libraries/espsoftwareserial/src/circular_queue/circular_queue.h:277-293 | takes exactly the oldest min(size, available) items in order and writes nothing behind them |
| `CircularQueue.Queue.Peek` | libraries/espsoftwareserial/src/circular_queue/circular_queue.h:130-137 | the oldest item or the default value |
| `CircularQueue.Queue.ForEach` | libraries/espsoftwareserial/src/circular_queue/circular_queue.h:296-308 | hands over all items oldest first and leaves none |
| `CircularQueue.Queue.ForEachRevRequeue` | libraries/espsoftwareserial/src/circular_queue/circular_queue.h:311-331 | visits newest first, packs the kept items against the write index, and leaves exactly the order-preserving filter |
| `CircularQueue.Queue.PopRequeue` | libraries/espsoftwareserial/src/circular_queue/circular_queue_mp.h:140-157 | the oldest item becomes the newest, also in a full queue |
| `CircularQueue.Queue.ForEachRequeue` | libraries/espsoftwareserial/src/circular_queue/circular_queue_mp.h:160-190 | run alone, leaves the same order-preserving filter, also from a full queue |
| `CircularQueue.KeptConcat` | libraries/espsoftwareserial/src/circular_queue/circular_queue.h:311-331 | the filter the requeueing calls leave distributes over concatenation, so it is decided item by item |
| `UartFrame.FrameDelivers` | libraries/espsoftwareserial/src/SoftwareSerial.cpp:329-371 | one frame, start bit to stop bit, delivers its byte masked to the data bits to the bit-at-a-time receiver |
| `UartFrame.StreamDelivers` | libraries/espsoftwareserial/src/SoftwareSerial.cpp:227-371 | the bit-at-a-time receiver recovers every byte of a stream of frames with any idle gaps between them |
| `UartFrame.StreamHasNoLowStop` | libraries/espsoftwareserial/src/SoftwareSerial.cpp:329-371 | no frame of a stream has a low level where the receiver looks for the stop bit |
| `UartReceive.RunRefinesBits` | libraries/espsoftwareserial/src/SoftwareSerial.cpp:329-371 | decoding a run of `k` equal bits at once gives the state and output of `k` one-bit steps exactly when the run is high, or ends by the stop bit, or overruns it by whole frame lengths |
| `UartReceive.Receiver.RxBits` | libraries/espsoftwareserial/src/SoftwareSerial.cpp:329-371 | one call on an edge stamp changes last cycle, bit count, shift register and output as the run-length step says, rounding the elapsed cycles to bits |
| `UartReceive.Receiver.RxBitISR` | libraries/espsoftwareserial/src/SoftwareSerial.cpp:373-380 | queues the cycle count with the line level in its lowest bit, or notes the overflow when the queue is full |
| `UartReceive.Receiver.Poll` | libraries/espsoftwareserial/src/SoftwareSerial.cpp:301-327 | takes note of an overflow once, closes the pending frame with the faux stop bit when it is overdue and the queue looked empty, and decodes the queue with what arrived meanwhile |
| `UartReceive.LongBreakDiffers` | libraries/espsoftwareserial/src/SoftwareSerial.cpp:329-371 | eleven low bits from idle: decoding them at once is not decoding them bit by bit |
| `UartTransmit.Write` | libraries/espsoftwareserial/src/SoftwareSerial.cpp:203-280 | the merged (duty, off) periods spell exactly the waveform of the frames, one idle cycle first, for any bytes, data bits and polarity |
| `UartTransmit.RunsSpell` | libraries/espsoftwareserial/src/SoftwareSerial.cpp:236-271 | merging bits into runs loses nothing: the runs alternate and spell the bits |
| `UartTransmit.WaveformOfFrames` | libraries/espsoftwareserial/src/SoftwareSerial.cpp:227-280 | what `write` puts on the line lasts exactly 1 + size * (dataBits + 2) * bitCycles cycles, is the frames back to back, and no run is longer than a frame less a bit |
| `UartTransmit.WordIsFrame` | libraries/espsoftwareserial/src/SoftwareSerial.cpp:236-252 | the word that `write` shifts out holds start bit, data bits and stop bit in order |
| `UartPolling.RunFollows` | libraries/espsoftwareserial/src/SoftwareSerial.cpp:301-371 | after any run of edges and polls that ends with a poll and never fills the queue, the receiver has followed a reference that decodes every edge, whenever the polls came and whichever edges came between their two looks, as long as no poll closes a frame ahead of an edge before the frame's end and it decodes right every gap whose frame no poll has closed |
| `UartPolling.EdgeAgreesExactly` | libraries/espsoftwareserial/src/SoftwareSerial.cpp:329-371 | which gaps it decodes right: exactly those whose bits, measured modulo 32 bits of the clock and 8 of the gap, count in the pending frame as many as there were |
| `UartPolling.LongGapLosesByte` | libraries/espsoftwareserial/src/SoftwareSerial.cpp:329-371 | a gap of 256 bit times behind the byte 0xFF that no poll has closed: the receiver does not move and the byte is lost; one of 300 is decoded right |
| `UartPolling.FauxRace` | libraries/espsoftwareserial/src/SoftwareSerial.cpp:301-327 | an edge that arrives between a poll's look at the queue and its look at the clock is decoded right exactly when, if a faux stop bit is due, the edge is not before the frame's end, and if none is, its gap is decoded right |
| `UartPolling.FauxRaceHappens` | libraries/espsoftwareserial/src/SoftwareSerial.cpp:301-327 | such an edge exists: a poll then delivers the byte 0xF0 where nothing has been sent yet |
| `UartRoundTrip.RoundTrip` | libraries/espsoftwareserial/src/SoftwareSerial.cpp:227-371 | for 5 to 8 data bits, either polarity, all bytes and idle gaps of any length: edges measured within half a bit time, whatever the polling schedule and whichever edges come between the two looks of a poll, the receiver delivers exactly the masked bytes, the last by the faux stop bit, exactly when some poll closes the last frame; unless the edge queue overflows, or a poll closes a frame ahead of an edge before its end, or a gap whose frame no poll has closed is one the receiver mistakes |
| `UartRoundTrip.PromptRoundTrip` | libraries/espsoftwareserial/src/SoftwareSerial.cpp:227-371 | so with any polling schedule when no edge comes between the two looks of a poll, every run but the last is at most 255 bit times, and the last poll comes behind the last frame's end within half a wrap of the cycle counter |
| `UartRoundTrip.WrittenIsMeasured` | libraries/espsoftwareserial/src/SoftwareSerial.cpp:227-280 | the edges of the waveform `write` produces, at their deadlines, are within that tolerance, so transmitter and receiver meet |
| `MqttCodec.LengthRoundTrip` | libraries/esp32-aws-iot/aws_iot_mqtt_client_common_internal.c:55-103 | the remaining-length field of section 2.2.3 of MQTT 3.1.1 decodes to itself, whatever follows, exactly when its base-128 digits fit the limit |
| `MqttCodec.FourDigits` | libraries/esp32-aws-iot/aws_iot_mqtt_client_common_internal.c:79-103 | four bytes carry lengths up to 268435455 and no more |
| `MqttCodec.FinalLengthExact` | libraries/esp32-aws-iot/aws_iot_mqtt_client_common_internal.c:105-118 | the packet length estimate is exact except one too many at 127, 16383 and 2097151, and never short |
| `MqttCodec.HeaderRoundTrip` | libraries/esp32-aws-iot/aws_iot_mqtt_client_common_internal.c:186-265 | type, qos, dup and retain survive the fixed header byte |
| `MqttCodec.Cursor.WriteLength` | libraries/esp32-aws-iot/aws_iot_mqtt_client_common_internal.c:55-77 | the loop writes exactly the encoded field at the cursor and nothing else |
| `MqttCodec.DecodeLengthFromBuffer` | libraries/esp32-aws-iot/aws_iot_mqtt_client_common_internal.c:79-103 | the loop returns value and size of the field, or the error of a fifth digit |
| `MqttPackets.SerializePublish` | libraries/esp32-aws-iot/aws_iot_mqtt_client_publish.c:87-133 | a packet that passes the size check is exactly header, remaining length and body, within the buffer; one that does not changes nothing |
| `MqttPackets.SerializeAck` | libraries/esp32-aws-iot/aws_iot_mqtt_client_publish.c:146-178 | the same for acknowledgements |
| `MqttPackets.SerializeZero` | libraries/esp32-aws-iot/aws_iot_mqtt_client_common_internal.c:685-716 | the same for packets without a body |
| `MqttPackets.SerializeSubscribe` | libraries/esp32-aws-iot/aws_iot_mqtt_client_subscribe.c:58-103 | the same for any number of topic filters |
| `MqttPackets.SerializeUnsubscribe` | libraries/esp32-aws-iot/aws_iot_mqtt_client_unsubscribe.c:56-93 | the same for any number of topic names |
| `MqttPackets.SerializeConnect` | libraries/esp32-aws-iot/aws_iot_mqtt_client_connect.c:115-246 | the same for CONNECT with optional will, user name and password; the computed length is the written one; an empty client identifier and any other protocol version are refused |
| `MqttPackets.PublishRoundTrip` | libraries/esp32-aws-iot/aws_iot_mqtt_client_publish.c:312-371 | deserializing a serialized PUBLISH gives back topic, payload, flags and identifier, whatever follows it |
| `MqttPackets.AckRoundTrip` | libraries/esp32-aws-iot/aws_iot_mqtt_client_publish.c:383-424 | deserializing a serialized acknowledgement gives back type, flag and identifier; its QoS is 1 for PUBREL and 0 for every other |
| `MqttPackets.ConnectReadsBack` | libraries/esp32-aws-iot/aws_iot_mqtt_client_connect.c:115-246 | a reader of section 3.1 of MQTT 3.1.1 that takes the fields which the flags announce, and nothing else, gets back identifier, will with QoS and retain flag, user name, password, keep-alive and clean session |
| `MqttPackets.FlagsSay` | libraries/esp32-aws-iot/aws_iot_mqtt_client_connect.c:197-218 | what each bit of the CONNECT flags says |
| `MqttPackets.FiltersReadBack` | libraries/esp32-aws-iot/aws_iot_mqtt_client_subscribe.c:58-103 | a reader of section 3.8 gets back every topic filter with its QoS, in order |
| `MqttPackets.NamesReadBack` | libraries/esp32-aws-iot/aws_iot_mqtt_client_unsubscribe.c:56-93 | a reader of section 3.10 gets back every topic name, in order |
| `MqttPackets.ReadGrantedQos` | libraries/esp32-aws-iot/aws_iot_mqtt_client_subscribe.c:116-170 | the granted codes are accepted up to one more than the number expected |
| `MqttFraming.Framing` | libraries/esp32-aws-iot/aws_iot_mqtt_client_common_internal.c:321-451 | for any stream of packets that fit the buffer and any splitting into short reads, timeouts and errors, any number of calls return the first packets of the stream, whole and in order, with the buffer holding the first bytes of the next, exactly when the network counts what it delivers or no read on the way is cut short; and exactly then is every byte accounted for |
| `MqttFraming.WholeReadsFrame` | libraries/esp32-aws-iot/network_mbedtls_wrapper.c:334-379 | so a network that counts only whole reads frames correctly when each answer is nothing or all that is wanted |
| `MqttFraming.CallCutIs` | libraries/esp32-aws-iot/aws_iot_mqtt_client_common_internal.c:321-350 | such a network is as good as one that counts, up to the first read cut short; that one loses bytes |
| `MqttFraming.CallFrames` | libraries/esp32-aws-iot/aws_iot_mqtt_client_common_internal.c:381-451 | one call inside a packet returns exactly that packet and starts afresh, or none and keeps its place |
| `MqttFraming.IdleLine` | libraries/esp32-aws-iot/aws_iot_mqtt_client_common_internal.c:381-404 | between packets, a call whose first read brings nothing reports that there is nothing to read, or that the line is broken, and keeps everything |
| `MqttFraming.EveryPacketArrives` | libraries/esp32-aws-iot/aws_iot_mqtt_client_common_internal.c:381-451 | when reads are not cut short every call returns the next packet until none is left |
| `MqttFraming.UncountedReadDesyncs` | libraries/esp32-aws-iot/network_mbedtls_wrapper.c:334-379 | the mbedTLS wrapper counts only whole reads: one short read, and a later call returns a packet that was never sent |
| `MqttFraming.PacketReader.ReadWrapper` | libraries/esp32-aws-iot/aws_iot_mqtt_client_common_internal.c:321-350 | reads only what is missing, at the end of what is buffered |
| `MqttFraming.PacketReader.DecodePacketLength` | libraries/esp32-aws-iot/aws_iot_mqtt_client_common_internal.c:351-379 | the loop reads the length field byte by byte across calls |
| `MqttFraming.PacketReader.Read` | libraries/esp32-aws-iot/aws_iot_mqtt_client_common_internal.c:381-451 | one call of the packet reader on its buffer and network does what the framing results are about, dropping a packet too long for the buffer in a loop |
| `MqttFraming.PacketReader.DropPacket` | libraries/esp32-aws-iot/aws_iot_mqtt_client_common_internal.c:411-436 | the loop that drops a packet reads whole buffers over its front, and tells how it ended |
| `MqttFraming.OversizeIsDropped` | libraries/esp32-aws-iot/aws_iot_mqtt_client_common_internal.c:411-436 | on whole reads a packet too long for the buffer is dropped, with the next call at the next packet, exactly when what follows its length field alone fills the buffer; else the first read takes along bytes of the packets behind it and the call reports a success without a packet |
| `MqttFraming.OversizeOutcome` | libraries/esp32-aws-iot/aws_iot_mqtt_client_common_internal.c:411-436 | however its reads go, a call on such a packet never returns one: it drops all of it, or keeps its place in the header, or bytes of it and perhaps of later packets are gone while its header still fills the buffer |
| `MqttFraming.OverreadHappens` | libraries/esp32-aws-iot/aws_iot_mqtt_client_common_internal.c:411-436 | a packet of five bytes and a buffer of five: the call takes the packet behind it along and says success |
| `MqttFraming.FlushKeepsPlace` | libraries/esp32-aws-iot/aws_iot_mqtt_client_connect.c:466-473 | a connect that is refused in the client's state keeps the place in the stream exactly when no part of a packet was buffered |
| `MqttFraming.FlushDesyncs` | libraries/esp32-aws-iot/aws_iot_mqtt_client_connect.c:466-473 | refused between two calls that read a PUBLISH, it makes the second return a packet that was never sent |
| `MqttTopic.IsTopicMatched` | libraries/esp32-aws-iot/aws_iot_mqtt_client_common_internal.c:456-490 | the two cursors decide what the recursion on both strings decides |
| `MqttTopic.MatcherByLevels` | libraries/esp32-aws-iot/aws_iot_mqtt_client_common_internal.c:453-490 | for every well-formed filter and every name, the matcher decides what comparing level by level decides: `+` one non-empty level, `#` at least one level, the first non-empty |
| `MqttTopic.LevelsMatchIsStandard` | libraries/esp32-aws-iot/aws_iot_mqtt_client_common_internal.c:453-490 | it matches exactly when section 4.7.1 of MQTT 3.1.1 does and every wildcard finds a non-empty level in its place |
| `MqttTopic.MatcherIsStricter` | libraries/esp32-aws-iot/aws_iot_mqtt_client_common_internal.c:453-490 | `sport/#` does not match `sport`, nor `+/a` the name `/a` |
| `MqttClient.EveryRun` | libraries/esp32-aws-iot/aws_iot_mqtt_client_yield.c:47-306 | whatever calls are made on a fresh client and by its callbacks, to any depth, if every transport can be destroyed and no read of a yield reports a disconnect or a reconnect under way, or none did: the client ends at rest; no PINGREQ is sent while one is unanswered on the same connection; after yield has entered pending-reconnect the interval is 1000 doubled once per failed attempt, at most eight without nested yields and one more per level of nesting |
| `MqttClient.RequestReturnsToEntry` | libraries/esp32-aws-iot/aws_iot_mqtt_client_publish.c:262-295 | publish, subscribe and unsubscribe return in exactly their entry state unless a nested call disconnected, and then at rest |
| `MqttClient.CallbackReturns` | libraries/esp32-aws-iot/aws_iot_mqtt_client_common_internal.c:492-530 | calls made from a callback leave it waiting to return exactly when none of them disconnected |
| `MqttClient.RunKeeps` | libraries/esp32-aws-iot/aws_iot_mqtt_client.c:103-136 | the induction over scripts of calls: what any sequence of calls keeps |
| `MqttClient.CycleReadKeeps` | libraries/esp32-aws-iot/aws_iot_mqtt_client_common_internal.c:581-645 | a read, and the callbacks it runs, restores the state it was made in, or reports an unexpected state after a disconnect |
| `MqttClient.ConnectKeeps` | libraries/esp32-aws-iot/aws_iot_mqtt_client_connect.c:384-491 | connecting, with messages delivered while it waits for CONNACK, ends at rest and with no ping outstanding that was not sent on the new connection |
| `MqttClient.HandleDisconnectKeeps` | libraries/esp32-aws-iot/aws_iot_mqtt_client_yield.c:47-71 | the client's own disconnect ends in the error state whatever the handler did |
| `MqttClient.KeepAliveKeeps` | libraries/esp32-aws-iot/aws_iot_mqtt_client_yield.c:111-159 | keep-alive sends at most one ping per answer and otherwise leaves the state alone or disconnects |
| `MqttClient.HandleReconnectKeeps` | libraries/esp32-aws-iot/aws_iot_mqtt_client_yield.c:74-109 | one reconnect turn ends yielding or at rest, and adds at most one failure to those of the nested calls |
| `MqttClient.YieldKeeps` | libraries/esp32-aws-iot/aws_iot_mqtt_client_yield.c:181-306 | yield entered at rest returns at rest |
| `MqttClient.ResubscribeKeeps` | libraries/esp32-aws-iot/aws_iot_mqtt_client_subscribe.c:345-444 | resubscribing returns in its entry state unless a nested call disconnected |
| `MqttClient.AttemptReconnectKeeps` | libraries/esp32-aws-iot/aws_iot_mqtt_client_connect.c:595-623 | a reconnect attempt entered at rest returns at rest |
| `MqttClient.EighthFailureGivesUp` | libraries/esp32-aws-iot/aws_iot_mqtt_client_yield.c:74-109 | the n-th failed attempt leaves the interval at 1000 doubled n times, and the eighth gives up |
| `MqttClient.GivenUpStays` | libraries/esp32-aws-iot/aws_iot_mqtt_client_yield.c:193-202 | once it has given up no yield makes an attempt |
| `MqttClient.EightIsNotABound` | libraries/esp32-aws-iot/aws_iot_mqtt_client_yield.c:74-109 | that bound is attained: for every depth h there is a run of a fresh client, without faults and with yields nesting h deep, that fails 7 + h times |
| `MqttClient.ConnectingIsATrap` | libraries/esp32-aws-iot/aws_iot_mqtt_client_connect.c:458-491 | no call leads out of the connecting state |
| `MqttClient.ConnectRests` | libraries/esp32-aws-iot/aws_iot_mqtt_client_connect.c:459-490 | connect leaves the client at rest exactly when it succeeds, or its transport can be destroyed, or a nested call has disconnected; else it is connecting for good |
| `MqttClient.ConnectSucceeds` | libraries/esp32-aws-iot/aws_iot_mqtt_client_connect.c:384-491 | connect succeeds exactly when it may be tried, the transport opens, CONNECT is sent, and a CONNACK comes before the timer runs out, no read before it failing, and accepts; then the client is idle with no ping outstanding; a CONNACK that refuses is the result |
| `MqttClient.RequestSucceeds` | libraries/esp32-aws-iot/aws_iot_mqtt_client_publish.c:197-295 | publish, subscribe and unsubscribe succeed exactly when the client is idle or in a callback, the packet is sent and, unless it is a publish of QoS 0, its PUBACK, SUBACK or UNSUBACK comes in that way and accepts; then the client is where it was |
| `MqttClient.ResubscribeSucceeds` | libraries/esp32-aws-iot/aws_iot_mqtt_client_subscribe.c:345-444 | resubscribing succeeds exactly when the client is idle and every topic is sent and answered by a SUBACK that accepts |
| `MqttClient.RefusedChangesNothing` | libraries/esp32-aws-iot/aws_iot_mqtt_client.c:103-136 | a call that the client's state does not allow changes nothing, and its result says why: not connected, not idle, already connected, disconnected manually |
| `MqttClient.ReconnectSucceeds` | libraries/esp32-aws-iot/aws_iot_mqtt_client_connect.c:595-623 | after a connect that succeeds, the reconnect is reported exactly when every topic is so answered, with the client idle; else the failure of the first topic that is not |
| `MqttClient.YieldSucceeds` | libraries/esp32-aws-iot/aws_iot_mqtt_client_yield.c:181-306 | while no ping falls due and no read is taken for a disconnect, a yield succeeds exactly when every read does, and leaves the client idle |
| `MqttClient.YieldReconnects` | libraries/esp32-aws-iot/aws_iot_mqtt_client_yield.c:74-240 | of a client waiting to reconnect: before the delay is over nothing changes; a turn whose connect succeeds and whose topics are all answered reports the reconnect and leaves it idle; one whose transport does not open doubles the wait, and gives up once that is too long |
| `MqttClient.RunStays` | libraries/esp32-aws-iot/aws_iot_mqtt_client_common_internal.c:492-530 | told from the script alone: calls made from a callback leave it waiting to return exactly when none closes the transport, at any depth |
| `MqttClient.UnansweredPingDisconnects` | libraries/esp32-aws-iot/aws_iot_mqtt_client_yield.c:111-159 | of two pings that fall due in a row the second disconnects exactly when no PINGRESP was read in between, and the client then waits to reconnect exactly when it reconnects on its own |
| `MqttClient.DestroyFailureTraps` | libraries/esp32-aws-iot/aws_iot_mqtt_client_connect.c:475-486 | so a transport that can neither be opened nor destroyed leaves any client connecting for good |
| `MqttClient.YieldRests` | libraries/esp32-aws-iot/aws_iot_mqtt_client_yield.c:181-306 | a yield leaves the client at rest exactly when none of its own reads reports a reconnect under way, nor a disconnect while the client does not reconnect on its own; else it is yielding until the application disconnects |
| `MqttClient.FirstReadReports` | libraries/esp32-aws-iot/aws_iot_mqtt_client_yield.c:181-306 | of a yield whose first read reports: it leaves the client at rest, and idle, exactly when that is a disconnect and the client reconnects on its own |
| `MqttClient.BlamelessRun` | libraries/esp32-aws-iot/aws_iot_mqtt_client_yield.c:181-306 | no script whose transports can be destroyed and whose yields read no such report meets a fault, to any depth of callbacks |
| `MqttSession.Session.RunCalls` | libraries/esp32-aws-iot/aws_iot_mqtt_client_common_internal.c:492-530 | the application's calls leave a client that may be called, in its state unless one disconnected |
| `MqttSession.Session.SetClientState` | libraries/esp32-aws-iot/aws_iot_mqtt_client.c:103-136 | compare and set of the client state |
| `MqttSession.Session.ReadCycle` | libraries/esp32-aws-iot/aws_iot_mqtt_client_common_internal.c:492-645 | a read's effect on the client, its callbacks run in a state of their own |
| `MqttSession.Session.AwaitAck` | libraries/esp32-aws-iot/aws_iot_mqtt_client_common_internal.c:653-675 | the wait loop stops at the awaited packet, an error or the timer |
| `MqttSession.Session.MqttRequest` | libraries/esp32-aws-iot/aws_iot_mqtt_client_publish.c:197-295 | the state discipline around a request, field by field |
| `MqttSession.Session.MqttConnect` | libraries/esp32-aws-iot/aws_iot_mqtt_client_connect.c:384-491 | connect, field by field, and the condition under which it succeeds |
| `MqttSession.Session.MqttDisconnect` | libraries/esp32-aws-iot/aws_iot_mqtt_client_connect.c:504-579 | disconnect, field by field |
| `MqttSession.Session.MqttAttemptReconnect` | libraries/esp32-aws-iot/aws_iot_mqtt_client_connect.c:595-623 | attempt_reconnect, field by field |
| `MqttSession.Session.MqttResubscribe` | libraries/esp32-aws-iot/aws_iot_mqtt_client_subscribe.c:345-444 | resubscribe, field by field, and the condition under which it succeeds |
| `MqttSession.Session.HandleDisconnect` | libraries/esp32-aws-iot/aws_iot_mqtt_client_yield.c:47-71 | the forced disconnect, field by field |
| `MqttSession.Session.SendPing` | libraries/esp32-aws-iot/aws_iot_mqtt_client_yield.c:111-159 | keep-alive, field by field |
| `MqttSession.Session.TryReconnect` | libraries/esp32-aws-iot/aws_iot_mqtt_client_yield.c:74-109 | the reconnect turn and the doubling, field by field |
| `MqttSession.Session.InternalYield` | libraries/esp32-aws-iot/aws_iot_mqtt_client_yield.c:181-240 | the yield loop runs the turns its timer allows |
| `MqttSession.Session.MqttYield` | libraries/esp32-aws-iot/aws_iot_mqtt_client_yield.c:261-306 | yield, field by field |
| `JsonText.EscapeChar` | libraries/ArduinoJson/src/ArduinoJson/Json/EscapeSequence.hpp:12-18 | the walk over the table finds the letter that escapes a character, or none |
| `JsonText.UnescapeChar` | libraries/ArduinoJson/src/ArduinoJson/Json/EscapeSequence.hpp:21-28 | the walk finds what a letter stands for, or the letter itself |
| `JsonText.EscapeRoundTrip` | libraries/ArduinoJson/src/ArduinoJson/Json/EscapeSequence.hpp:12-34 | an escaped character comes back, and only seven characters are escaped |
| `JsonPrinters.TextFormatter.WriteString` | libraries/ArduinoJson/src/ArduinoJson/Json/TextFormatter.hpp:33-52 | writes the quoted, escaped string and counts it |
| `JsonPrinters.TextFormatter.WritePositiveInteger` | libraries/ArduinoJson/src/ArduinoJson/Json/TextFormatter.hpp:86-99 | the digits filled in backwards are the decimal digits, and they fit the buffer |
| `JsonPrinters.JsonSerializer.VisitArray` | libraries/ArduinoJson/src/ArduinoJson/Json/JsonSerializer.hpp:19-34 | the compact visitor writes exactly the compact text of the array |
| `JsonPrinters.JsonSerializer.VisitObject` | libraries/ArduinoJson/src/ArduinoJson/Json/JsonSerializer.hpp:36-53 | the compact visitor writes exactly the compact text of the object |
| `JsonPrinters.PrettyJsonSerializer.VisitArray` | libraries/ArduinoJson/src/ArduinoJson/Json/PrettyJsonSerializer.hpp:21-37 | the pretty visitor, with its 8-bit nesting count, writes exactly the indented text of the array and restores the count |
| `JsonPrinters.PrettyJsonSerializer.VisitObject` | libraries/ArduinoJson/src/ArduinoJson/Json/PrettyJsonSerializer.hpp:39-58 | the same for objects |
| `JsonPrinters.RenderSplits` | libraries/ArduinoJson/src/ArduinoJson/Json/JsonSerializer.hpp:19-81 | what is written for a value does not depend on what follows it |
| `JsonGrammar.PrintsJson` | libraries/ArduinoJson/src/ArduinoJson/Json/JsonSerializer.hpp:19-81 | what either printer writes of a float-free document is a text of RFC 8259, read by a reader of its own, that says exactly this document if no string and no key has a control character other than the five with a one-letter escape; else it is no such text |
| `JsonGrammar.ControlCharacterIsWritten` | libraries/ArduinoJson/src/ArduinoJson/Json/TextFormatter.hpp:40-52 | a string of one control character is written as it is, which is not JSON |
| `JsonGrammar.PrettyIsCompactSpaced` | libraries/ArduinoJson/src/ArduinoJson/Json/PrettyJsonSerializer.hpp:21-65 | without white space outside strings the pretty form is the compact form, which has none |
| `JsonGrammar.PrettyIsLaidOut` | libraries/ArduinoJson/src/ArduinoJson/Json/PrettyJsonSerializer.hpp:21-65 | the pretty form is the compact form laid out character by character: outside strings, new lines behind commas and around what is in a list that is not empty, two spaces per open bracket modulo 256, a space behind each colon |
| `JsonDeserializer.JsonDeserializer.SkipSpacesAndComments` | libraries/ArduinoJson/src/ArduinoJson/Json/JsonDeserializer.hpp:326-383 | the loop skips exactly spaces and comments, with the look-ahead character |
| `JsonDeserializer.JsonDeserializer.ParseQuotedString` | libraries/ArduinoJson/src/ArduinoJson/Json/JsonDeserializer.hpp:184-223 | reads the string up to its closing quote, unescaped, or the error |
| `JsonDeserializer.JsonDeserializer.ParseNumericValue` | libraries/ArduinoJson/src/ArduinoJson/Json/JsonDeserializer.hpp:246-292 | reads a word of at most 63 characters as literal or integer |
| `JsonDeserializer.ReadMantissa` | libraries/ArduinoJson/src/ArduinoJson/Numbers/parseNumber.hpp:80-93 | the digits loop stops where the next digit would exceed the unsigned type |
| `JsonDeserializer.JsonDeserializer.ParseArray` | libraries/ArduinoJson/src/ArduinoJson/Json/JsonDeserializer.hpp:83-116 | reads an array with the nesting limit counted down and up |
| `JsonDeserializer.JsonDeserializer.ParseObject` | libraries/ArduinoJson/src/ArduinoJson/Json/JsonDeserializer.hpp:118-166 | reads an object with quoted or bare keys |
| `JsonDeserializer.JsonDeserializer.Parse` | libraries/ArduinoJson/src/ArduinoJson/Json/JsonDeserializer.hpp:30-79 | reads a document; behind a value without brackets or quotes nothing may follow |
| `JsonRoundTrip.ReadsBack` | libraries/ArduinoJson/src/ArduinoJson/Json/JsonDeserializer.hpp:30-383 | reading what either printer wrote of a float-free document, whatever follows it, gives the same document, lists in order, when its nesting is at most the limit, and TooDeep otherwise |
| `JsonReading.ReadsEveryText` | libraries/ArduinoJson/src/ArduinoJson/Json/JsonDeserializer.hpp:30-383 | every text of RFC 8259 with integers and one-letter escapes, also with comments, single quotes and bare keys, is read as the document it says when its integers fit and its nesting is at most the limit, and as TooDeep otherwise; but behind a bare number or literal not even white space may follow |
| `JsonReading.LayoutDoesNotMatter` | libraries/ArduinoJson/src/ArduinoJson/Json/JsonDeserializer.hpp:326-383 | texts that say the same document read the same, wherever white space and comments stand and however they are quoted |
| `JsonReading.AcceptedHasItsBones` | libraries/ArduinoJson/src/ArduinoJson/Json/JsonDeserializer.hpp:30-383 | of every text that is read as a document, with whatever comments and quotes: its brackets, commas and colons outside strings and comments are those of the document, in order, up to where reading stopped |
| `JsonTruncation.TruncationIsNoticed` | libraries/ArduinoJson/src/ArduinoJson/Json/JsonDeserializer.hpp:30-383 | of every text from which a list or a string is read: each part that ends before it does is reported as incomplete, but one that ends in a slash or a sign may be reported as invalid; each longer part gives the same value |
| `JsonReading.LiteralsAreNotChecked` | libraries/ArduinoJson/src/ArduinoJson/Json/JsonDeserializer.hpp:246-292 | any word of four letters that begins with t is read as true |
| `JsonReading.SpaceBehindNumberRefused` | libraries/ArduinoJson/src/ArduinoJson/Json/JsonDeserializer.hpp:30-39 | a number with a space behind it is refused |
| `JsonRoundTrip.NormalizesOnce` | libraries/ArduinoJson/src/ArduinoJson/Json/JsonDeserializer.hpp:30-383 | whatever text reads as a float-free document, with any spaces, comments and quotes: writing it in either form and reading it again gives the same document, nested within the limit |
| `JsonRoundTrip.DecimalReadsBack` | libraries/ArduinoJson/src/ArduinoJson/Numbers/parseNumber.hpp:80-93 | reading digits undoes writing them up to the largest unsigned value |
| `JsonRoundTrip.IntegerReadsBack` | libraries/ArduinoJson/src/ArduinoJson/Numbers/parseNumber.hpp:55-93 | signed decimal integers of either width read back as themselves |
| `JsonRoundTrip.QuotedReadsBack` | libraries/ArduinoJson/src/ArduinoJson/Json/JsonDeserializer.hpp:184-223 | every NUL-free string reads back from its quoted form |
| `MsgPack.ReadsBack` | libraries/ArduinoJson/src/ArduinoJson/MsgPack/MsgPackDeserializer.hpp:29-311 | reading what was written of a float-free document, whatever bytes follow, gives the same document but for the sign of zeros and leaves exactly those bytes, when its nesting is at most the limit, and TooDeep otherwise |
| `MsgPack.NegativesThatSurvive` | libraries/ArduinoJson/src/ArduinoJson/MsgPack/MsgPackSerializer.hpp:96-116 | among the magnitudes the unsigned type holds exactly those from 1 to the largest signed one come back negative and unchanged |
| `MsgPack.NegativeReadsBack` | libraries/ArduinoJson/src/ArduinoJson/MsgPack/MsgPackSerializer.hpp:96-116 | what comes back of every magnitude: zero loses its sign, and beyond 2^63 the complement comes back positive |
| `MsgPack.PositiveReadsBack` | libraries/ArduinoJson/src/ArduinoJson/MsgPack/MsgPackSerializer.hpp:118-137 | every unsigned integer comes back through whichever of the five formats it takes |
| `MsgPack.StringReadsBack` | libraries/ArduinoJson/src/ArduinoJson/MsgPack/MsgPackSerializer.hpp:72-90 | strings come back, as values and as keys, through all four formats |
| `MsgPack.ReadsBigEndian` | libraries/ArduinoJson/src/ArduinoJson/MsgPack/MsgPackDeserializer.hpp:143-170 | an integer of k bytes reads back |
| `MsgPack.IntegersAreRead` | libraries/ArduinoJson/src/ArduinoJson/MsgPack/MsgPackDeserializer.hpp:29-131 | every integer of every format, also those the writer never makes, is read as the number it stands for, unsigned or two's complement; 64-bit ones only where the reader has them |
| `MsgPack.IntegersAreShortest` | libraries/ArduinoJson/src/ArduinoJson/MsgPack/MsgPackSerializer.hpp:96-137 | no integer format holds the same number in fewer bytes than what is written |
| `MsgPack.StringsAreShortest` | libraries/ArduinoJson/src/ArduinoJson/MsgPack/MsgPackSerializer.hpp:72-90 | nothing shorter reads as the same characters |
| `MsgPack.FirstBytes` | libraries/ArduinoJson/src/ArduinoJson/MsgPack/MsgPackSerializer.hpp:39-90 | the first bytes of every kind of value, as the table of formats has them |
| `MsgPack.TruncationIsNoticed` | libraries/ArduinoJson/src/ArduinoJson/MsgPack/MsgPackDeserializer.hpp:29-311 | of all bytes from which a value is read: each part that ends before it does is reported as incomplete, each longer part gives the same value |
| `MsgPackStreams.MsgPackSerializer.VisitNegativeInteger` | libraries/ArduinoJson/src/ArduinoJson/MsgPack/MsgPackSerializer.hpp:96-116 | negating in the unsigned type and cutting to the width gives that width's two's complement |
| `MsgPackStreams.MsgPackSerializer.VisitArray` | libraries/ArduinoJson/src/ArduinoJson/MsgPack/MsgPackSerializer.hpp:39-53 | size and elements in order, and the byte count |
| `MsgPackStreams.MsgPackSerializer.VisitObject` | libraries/ArduinoJson/src/ArduinoJson/MsgPack/MsgPackSerializer.hpp:55-70 | size, keys and values in order, and the byte count |
| `MsgPackStreams.MsgPackDeserializer.Parse` | libraries/ArduinoJson/src/ArduinoJson/MsgPack/MsgPackDeserializer.hpp:29-131 | reads one value by its code |
| `MsgPackStreams.MsgPackDeserializer.ParseArray` | libraries/ArduinoJson/src/ArduinoJson/MsgPack/MsgPackDeserializer.hpp:252-264 | reads n elements one level down; the limit is restored on success |
| `MsgPackStreams.MsgPackDeserializer.ParseObject` | libraries/ArduinoJson/src/ArduinoJson/MsgPack/MsgPackDeserializer.hpp:273-290 | reads n members one level down; the limit is restored on success |
| `MsgPackStreams.MsgPackDeserializer.ParseKey` | libraries/ArduinoJson/src/ArduinoJson/MsgPack/MsgPackDeserializer.hpp:292-311 | reads a key, which must be a string |
| `DocumentStore.Store.CopyFrom` | libraries/ArduinoJson/src/ArduinoJson/Variant/VariantData.hpp:85-101 | copying a value between stores or within one succeeds exactly when the memory the source uses is free, and takes exactly that; the copy denotes the same document, in slots and strings that are all newly taken; the source and all else is as it was; links are right exactly when no element has 32768 slots or more before the next |
| `DocumentStore.Store.CopyList` | libraries/ArduinoJson/src/ArduinoJson/Collection/CollectionImpl.hpp:49-66 | the loop adds a slot, its key and its value per element, linking by offsets, and stops at the first that does not fit, leaving what was made |
| `DocumentStore.Store.AddSlot` | libraries/ArduinoJson/src/ArduinoJson/Collection/CollectionImpl.hpp:12-26 | the list is longer by one cleared slot, to which the last one is linked by an offset cut to 16 bits |
| `DocumentStore.ReachesExactly` | libraries/ArduinoJson/src/ArduinoJson/Variant/VariantSlot.hpp:62-69 | all links of a copy lead to where they should exactly when no element is too far from the next |
| `JsonDocument.CopyIsExact` | libraries/ArduinoJson/src/ArduinoJson/Variant/VariantData.hpp:85-101 | the tree and the free bytes that `DocumentStore.Store.CopyFrom` is proved against: all of the source, exactly when the memory it uses is free, for exactly that much |
| `JsonDocument.UsageAddsUp` | libraries/ArduinoJson/src/ArduinoJson/Variant/VariantData.hpp:306-318 | the memory a document uses is that of its slots, at any depth, and of the strings it owns, keys among them, each with its NUL |
| `JsonDocument.CopyEqualsSource` | libraries/ArduinoJson/src/ArduinoJson/Variant/VariantData.hpp:85-136 | a successful copy equals its source as a tree, both ways, exactly when no member of the source contradicts an earlier one of its key; so with unique keys |
| `JsonDocument.EqualsItsCopy` | libraries/ArduinoJson/src/ArduinoJson/Variant/VariantData.hpp:103-136 | a document equals a separate copy of itself exactly when, in its objects, members that repeat a key equal the first of it, down through all elements and first members |
| `JsonDocument.CopyContradicts` | libraries/ArduinoJson/src/ArduinoJson/Variant/VariantData.hpp:103-136 | an object that names a key twice, with different values, does not equal a separate copy of itself |
| `JsonDocument.EqualsTurned` | libraries/ArduinoJson/src/ArduinoJson/Collection/CollectionImpl.hpp:68-90 | of a document that equals a separate one, that one equals it exactly when it is tidy in that sense and corresponding objects have the same keys |
| `DocumentCompare.VariantEquals` | libraries/ArduinoJson/src/ArduinoJson/Variant/VariantFunctions.hpp:41-45 | comparing the values at two places, of one store or two: the same place is equal at once, otherwise type and content decide |
| `DocumentCompare.ArrayEquals` | libraries/ArduinoJson/src/ArduinoJson/Collection/CollectionImpl.hpp:79-90 | the two walks, equal at once when they come to the same slot or both to the end |
| `DocumentCompare.ObjectEquals` | libraries/ArduinoJson/src/ArduinoJson/Collection/CollectionImpl.hpp:68-77 | each member is looked up by its key, and the counts must agree |
| `DocumentCompare.EqualsWhereItIs` | libraries/ArduinoJson/src/ArduinoJson/Variant/VariantFunctions.hpp:41-45 | a document compared with itself is equal, whatever is in it |
| `DocumentCompare.EqualsApart` | libraries/ArduinoJson/src/ArduinoJson/Variant/VariantFunctions.hpp:41-45 | documents that share no slot are equal where they lie exactly when they are equal as trees |
| `DocumentCompare.CopiesEqualWhenTidy` | libraries/ArduinoJson/src/ArduinoJson/Variant/VariantData.hpp:85-136 | so two copies of a document that share no slot are equal where they lie exactly when it is tidy |
| `DocumentCompare.EqualsStays` | libraries/ArduinoJson/src/ArduinoJson/Variant/VariantFunctions.hpp:41-45 | documents that are equal as trees are so where they lie, whatever slots they share |
| `DocumentCompare.MemoryUsage` | libraries/ArduinoJson/src/ArduinoJson/Variant/VariantData.hpp:306-318 | the bytes that a stored value takes besides its own slot |
| `DocumentCompare.MeasureNesting` | libraries/ArduinoJson/src/ArduinoJson/Variant/VariantData.hpp:320-322 | how deep the lists of a stored value nest |
| `JsonDocument.EqualsSymmetric` | libraries/ArduinoJson/src/ArduinoJson/Collection/CollectionImpl.hpp:68-90 | comparing is symmetric on documents whose objects have unique keys, whatever the order of members |
| `JsonDocument.EqualsTransitive` | libraries/ArduinoJson/src/ArduinoJson/Collection/CollectionImpl.hpp:68-90 | comparing is transitive on all documents |
| `JsonDocument.EqualsIsSameMeaning` | libraries/ArduinoJson/src/ArduinoJson/Variant/VariantData.hpp:103-136 | documents whose objects have unique keys are equal exactly when they say the same: type and bits, characters and ownership, a sequence for an array, a map from keys for an object |
| `DocumentCompare.SameMeaningApart` | libraries/ArduinoJson/src/ArduinoJson/Variant/VariantFunctions.hpp:41-45 | so of two such documents where they lie, when they share no slot |
| `JsonDocument.NestingByPaths` | libraries/ArduinoJson/src/ArduinoJson/Variant/VariantData.hpp:320-322 | a document nests deeper than k exactly when some k steps into it lead to a list |
| `JsonDocument.RepeatedKeysAreOneWay` | libraries/ArduinoJson/src/ArduinoJson/Collection/CollectionImpl.hpp:68-77 | with repeated keys comparing is not symmetric |
| `SlotList.SlotList.AddSlot` | libraries/ArduinoJson/src/ArduinoJson/Collection/CollectionImpl.hpp:12-26 | appends exactly when the new slot lies within 16 bits of the last; otherwise the list is broken |
| `SlotList.SlotList.Remove` | libraries/ArduinoJson/src/ArduinoJson/Collection/CollectionImpl.hpp:126-135 | takes out exactly that position, exactly when its neighbours lie within 16 bits of each other |
| `SlotList.SlotList.GetSlot` | libraries/ArduinoJson/src/ArduinoJson/Collection/CollectionImpl.hpp:101-103 | walking offsets reaches the slot of that position, or none past the end |
| `SlotList.SlotList.GetPreviousSlot` | libraries/ArduinoJson/src/ArduinoJson/Collection/CollectionImpl.hpp:105-113 | finds the slot before, or none before the first |
| `SlotList.SlotList.Size` | libraries/ArduinoJson/src/ArduinoJson/Collection/CollectionImpl.hpp:159-161 | the walk ends after as many slots as the sequence has |
| `SlotList.LinkedMore` | libraries/ArduinoJson/src/ArduinoJson/Variant/VariantSlot.hpp:62-69 | linking a new slot behind the last keeps the chain |
| `SlotList.LinkedWithout` | libraries/ArduinoJson/src/ArduinoJson/Variant/VariantSlot.hpp:62-69 | pointing past a slot takes it out of the chain |
| `SlotList.MiddleOfThreeLost` | libraries/ArduinoJson/src/ArduinoJson/Collection/CollectionImpl.hpp:126-135 | taking the middle one out of three slots that lie 20000 apart loses the last |
| `SlotList.S16Fits` | libraries/ArduinoJson/src/ArduinoJson/Variant/VariantSlot.hpp:15-15 | an offset survives its 16-bit type exactly when it fits |
| `MemoryPool.LaidMore` | libraries/ArduinoJson/src/ArduinoJson/Memory/MemoryPool.hpp:110-116 | a block taken from either end keeps the layout: ends in order, no two live blocks share a byte, and their sizes add up to what is in use |
| `MemoryPool.MemoryPool.Size` | libraries/ArduinoJson/src/ArduinoJson/Memory/MemoryPool.hpp:45-47 | `size` is exactly the bytes handed out |
| `MemoryPool.MemoryPool.AllocFrozenString` | libraries/ArduinoJson/src/ArduinoJson/Memory/MemoryPool.hpp:53-59 | succeeds exactly when the bytes are free, with a block that overlaps no other |
| `MemoryPool.MemoryPool.AllocRight` | libraries/ArduinoJson/src/ArduinoJson/Memory/MemoryPool.hpp:94-98 | the same from the other end |
| `MemoryPool.MemoryPool.FreezeString` | libraries/ArduinoJson/src/ArduinoJson/Memory/MemoryPool.hpp:70-74 | gives back all but the string's own bytes |
| `MemoryPool.StringBuilder.Complete` | libraries/ArduinoJson/src/ArduinoJson/Memory/StringBuilder.hpp:25-42 | the string is there with its NUL, for n + 1 bytes, exactly when n + 1 were free; otherwise all that was free stays taken |
| `MemoryPool.BuildString` | libraries/ArduinoJson/src/ArduinoJson/Memory/StringBuilder.hpp:13-42 | built character by character: fits exactly when n + 1 bytes are free, and no other block's byte changes |
| `Jsmn.TokensAreAForest` | libraries/esp32-aws-iot/jsonParser.cpp:176-329 | the tokens of a text that fills begin one after the other, any two are apart or one within the other, all are closed, every list ends with the bracket of its kind, every string holds no quote and no backslash that is not part of an escape, and every primitive holds no delimiter and ends at one, at a NUL or at the end |
| `Jsmn.TokensCoverText` | libraries/esp32-aws-iot/jsonParser.cpp:176-329 | every character of a text that fills is a blank, a colon, a comma, or one for which a token stands: a bracket, or within a string and its quotes, or within a primitive |
| `Jsmn.StringEndsThere` | libraries/esp32-aws-iot/jsonParser.cpp:108-170 | the scan for the end of a string finds exactly the quote that is not escaped, if all before it is well formed |
| `Jsmn.PrimitiveEndsThere` | libraries/esp32-aws-iot/jsonParser.cpp:59-101 | the scan for the end of a primitive finds exactly the first delimiter, NUL or end, if all before it is printable |
| `JsmnReading.TokensAreTheTree` | libraries/esp32-aws-iot/jsonParser.cpp:176-329 | every text of RFC 8259 with integers and one-letter escapes, given enough tokens, is filled with its document's tree: the kinds of its values and keys in the order they begin, each list sized by its elements or members, each key by its one value |
| `Jsmn.FillIsStackMachine` | libraries/esp32-aws-iot/jsonParser.cpp:176-329 | filling accepts, with that many tokens, and fails, with that error, exactly as a stack of open lists says |
| `Jsmn.CountingAgrees` | libraries/esp32-aws-iot/jsonParser.cpp:176-329 | a text that fills counts to the number of its tokens; one counted to n never runs out of n tokens; one that fails to count fails to fill |
| `JsmnParser.JsmnParser.ScanString` | libraries/esp32-aws-iot/jsonParser.cpp:108-170 | stops at the closing quote, or goes back and tells the error |
| `JsmnParser.JsmnParser.ScanPrimitive` | libraries/esp32-aws-iot/jsonParser.cpp:59-101 | stops at the character behind the primitive, or goes back and tells the error |
| `JsmnParser.JsmnParser.CloseList` | libraries/esp32-aws-iot/jsonParser.cpp:208-256 | closes the innermost open list of the bracket's kind and makes the next one out superior |
| `JsmnParser.JsmnParser.LeaveValue` | libraries/esp32-aws-iot/jsonParser.cpp:270-289 | after a comma the innermost open list is superior again |
| `JsmnParser.JsmnParser.CountTokens` | libraries/esp32-aws-iot/jsonParser.cpp:176-329 | counting, without an array |
| `JsmnParser.JsmnParser.Parse` | libraries/esp32-aws-iot/jsonParser.cpp:176-329 | filling: the array holds the tokens and the result is their number, or the error |
| `Crc16.UpdateIsEightShifts` | libraries/CheckStream/CheckStream.cpp:4-8 | the byte-wise update is the byte put in and eight shifts of the register with feedback 0x8408 |
| `Crc16.BurstChangesCrc` | libraries/CheckStream/CheckStream.cpp:4-8 | in a message of any length any change within two consecutive bytes changes the CRC |
| `Crc16.OddChangesShow` | libraries/CheckStream/CheckStream.cpp:4-8 | messages of any lengths that differ in an odd number of bits have different CRCs |
| `Crc16.CrcInjective` | libraries/CheckStream/CheckStream.cpp:4-8 | equal bytes keep unequal registers unequal |
| `CrcLine.CheckStream.Write` | libraries/CheckStream/CheckStream.h:25-51 | the CR sends bar and CRC and starts afresh, the LF is dropped, every other byte is sent and counted in |
| `CrcLine.CheckStream.WriteLine` | libraries/CheckStream/CheckStream.h:25-51 | a line written byte by byte is sent as its frame |
| `CrcLine.KnownLine` | libraries/CheckStream/CheckStream.h:25-51 | the frame of the line 123456789 ends in 6F91, the check value of this CRC |
| `CrcLine.HexReadsBack` | libraries/CheckStream/CheckStream.h:32-34 | a printed CRC reads back |
| `CrcLine.SpellingsRead` | libraries/Sensaur/Sensaur.cpp:111-130 | a CRC is read in either case, behind any blanks, with or without a prefix |
| `CrcLine.FrameChecks` | libraries/Sensaur/Sensaur.cpp:111-130 | a framed seven-bit line passes, and once two consecutive characters are changed to others it fails |
| `CrcLine.FramePassesExactly` | libraries/Sensaur/Sensaur.cpp:111-130 | a framed line of any bytes but the bar passes the check exactly when its bytes of eight bits, whose sign the receivers extend, leave the register where the sender's is: a sum over their positions alone |
| `CrcLine.FramePasses` | libraries/Sensaur/Sensaur.cpp:111-130 | every framed seven-bit line passes the check |
| `CrcLine.EightBitsFail` | libraries/Sensaur/Sensaur.cpp:111-130 | a framed line with an odd number of bytes of eight bits always fails |
| `CrcLine.CheckMessage` | libraries/Sensaur/Sensaur.cpp:111-130 | the check as it runs, and what is left of the message when the checksum is cut off |
| `CrcMessage.FrameParses` | libraries/Sensaur/Sensaur.cpp:9-39 | the frame of a command and its arguments is accepted and comes apart in place into exactly that command and those arguments, as many as there are slots, the rest counted |
| `CrcMessage.ParseMessage` | libraries/Sensaur/Sensaur.cpp:9-39 | the loop as it runs: overwritten message, argument positions and the returned byte |
| `CrcMessage.FullFrameLooksRejected` | libraries/Sensaur/Sensaur.cpp:9-39 | the returned byte is that of a rejection for a frame exactly when it has 255 arguments, or 256 more, and so on |
| `CrcMessage.ParseAccepts` | libraries/Sensaur/Sensaur.cpp:9-39 | a message is accepted exactly when every bar in it is followed by the right CRC, and 255 is returned when it is not |
| `CrcMessage.NoBar` | libraries/Sensaur/Sensaur.cpp:111-130 | a message without a bar fails the check and passes the parser |

## Left out

- Hardware and I/O: pins, `preciseDelay`, interrupt masking, TLS, FreeRTOS mutexes, EEPROM, LEDs.
- C++ memory-order fences: `SpscProtocol` is sequentially consistent per step, with stale index loads allowed as
  coherence allows them.
- Queue capacity changes, move construction, and the multi-producer queue's locks; callbacks of the requeueing
  calls are functions of the item.
- UartRoundTrip.RoundTrip: what a full edge queue does is `UartReceive.Receiver.RxBitISR`. Overflow of the byte queue:
  that a full queue refuses is `CircularQueue`.
- `SoftwareSerial::readBytes` (`libraries/espsoftwareserial/src/SoftwareSerial.cpp:170-176`): its second `pop_n` gets
  the size that the first has set to zero.
- MqttFraming.Framing: packets that fit the buffer; for others see `MqttFraming.OversizeIsDropped`. A read succeeds
  exactly when it is whole.
- MqttFraming.PacketReader.Read: receive buffers of at least five bytes; with four, the length loop of the source
  would write a fifth.
- MqttPackets.PublishRoundTrip: a PUBLISH of quality of service 1 whose identifier runs past the packet is reported as
  `Overrun` where the source reads over its end and succeeds with a payload length that has wrapped.
- MqttPackets.SerializePublish: the lengths of the serializers are unbounded; that those of strings and payloads in
  a 32-bit memory add up to less than 2^32 is taken for granted.
- MqttClient.EveryRun: the back-off bound is claimed for yields nested at most 15 deep, the depth at which the 32-bit
  interval is first at its limit; the other claims for any depth.
- The message handler table: which handlers run is part of a call's script, as is every timer.
- NULL arguments of the MQTT calls, try-lock failures, several threads in the MQTT client.
- JsonDeserializer.JsonDeserializer.ParseNumericValue: floats, which end in the error `NotAnInteger`.
- MsgPackStreams.MsgPackDeserializer.Parse: floats, which end in the error `IsFloat`.
- Raw JSON, `\u` escapes, which are off by default, and parsing in place with `StringMover`.
- JsonRoundTrip.ReadsBack: with enough pool; when parsing runs out of it is not modelled, what a full pool does to
  strings, slots and copies is in `MemoryPool` and `DocumentStore`.
- SlotList.SlotList.GetSlot: on an empty list only position 0; any other dereferences a null head in the source.
- The pool's alignment padding. `JsonDeserializer` and `MsgPackStreams` build trees; that documents lie in a pool is
  `DocumentStore`.
- DocumentStore.Store.CopyFrom: the value that is set is not part of what is copied into it. What a copy denotes whose
  links lead astray.
- DocumentCompare.VariantEquals: objects whose members all have keys, as those that parsing and `CopyFrom` make when they
  succeed.
- JsmnReading.TokensAreTheTree: the `size` of tokens of texts that fill but are no JSON; resuming a tokenizer on more
  text.
- JsonReading.ReadsEveryText: fractions, exponents and `\u` escapes, which the grammar of `JsonGrammar` leaves out.
- Arduino's `Print` (upper-case hexadecimal without leading zeros) and `strtol` are not part of this repository and are
  modelled from their documentation; `int` and `char` are the 16-bit and signed ones of the AVR boards. The sender's
  buffered variant.
- The shadow and jobs layers, PubSubClient, sensor drivers, simulators and loggers: no deep state of their own.
