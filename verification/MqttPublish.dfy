/** PUBLISH: a topic, a packet id when the QoS is not zero, and a payload filling the rest of the packet. */
module MqttPublish {
  import opened Bytes
  import opened MqttPacket

  function IdBytes(qos: nat, packetId: nat): bytes {
    if qos > 0 then IntBytes(packetId) else []
  }

  function Body(qos: nat, packetId: nat, topic: MqttString, payload: bytes): bytes {
    StringBytes(topic) + IdBytes(qos, packetId) + payload
  }

  function PublishPacket(dup: nat, qos: nat, retained: nat, packetId: nat, topic: MqttString, payload: bytes): bytes {
    Packet(HeaderByte(PUBLISH, dup, qos, retained), Body(qos, packetId, topic, payload))
  }

  function SerializeLength(qos: nat, topic: MqttString, payloadLen: nat): nat {
    2 + StrLen(topic) + payloadLen + if qos > 0 then 2 else 0
  }

  lemma LengthIsSize(qos: nat, packetId: nat, topic: MqttString, payload: bytes)
    requires Unambiguous(topic)
    ensures SerializeLength(qos, topic, |payload|) == |Body(qos, packetId, topic, payload)|
  {
    LengthsAgree(topic);
  }

  /** What is written, whatever was counted: a topic given in two forms is counted by one and written by the other. */
  function WrittenPacket(
    dup: nat, qos: nat, retained: nat, packetId: nat, topic: MqttString, payload: bytes): bytes
  {
    Written(HeaderByte(PUBLISH, dup, qos, retained), SerializeLength(qos, topic, |payload|),
            Body(qos, packetId, topic, payload))
  }

  /** An unambiguous topic makes it the packet, and any buffer that passes the size check holds it. */
  lemma WrittenIsPacket(
    buflen: nat, dup: nat, qos: nat, retained: nat, packetId: nat, topic: MqttString, payload: bytes)
    requires Unambiguous(topic)
    ensures WrittenPacket(dup, qos, retained, packetId, topic, payload)
         == PublishPacket(dup, qos, retained, packetId, topic, payload)
    ensures var length := SerializeLength(qos, topic, |payload|);
      length <= MAX_REMAINING_LENGTH ==> RoomToWrite(buflen, length, Body(qos, packetId, topic, payload))
  {
    var body := Body(qos, packetId, topic, payload);
    LengthIsSize(qos, packetId, topic, payload);
    if |body| <= MAX_REMAINING_LENGTH {
      RoomForPacket(buflen, body);
    }
  }

  method Serialize(
    buf: array<byte>, dup: nat, qos: nat, retained: nat, packetId: nat, topic: MqttString, payload: bytes)
    returns (rc: int)
    requires RoomToWrite(buf.Length, SerializeLength(qos, topic, |payload|), Body(qos, packetId, topic, payload))
    modifies buf
    ensures PacketLength(SerializeLength(qos, topic, |payload|)) > buf.Length ==>
            rc == BUFFER_TOO_SHORT && buf[..] == old(buf[..])
    ensures PacketLength(SerializeLength(qos, topic, |payload|)) <= buf.Length ==>
            var packet := WrittenPacket(dup, qos, retained, packetId, topic, payload);
            rc == |packet| <= buf.Length && buf[..] == packet + old(buf[..])[|packet|..]
  {
    var remLen := SerializeLength(qos, topic, |payload|);
    if PacketLength(remLen) > buf.Length {
      return BUFFER_TOO_SHORT;
    }
    var header := HeaderByte(PUBLISH, dup, qos, retained);
    var ptr := new OutPointer(buf);
    ptr.WriteChar(header);
    ptr.WriteLength(remLen);
    ptr.WriteString(topic);
    if qos > 0 {
      ptr.WriteInt(packetId);
    }
    ptr.CopyBytes(payload);
    Grouped([header], EncodeLength(remLen), StringBytes(topic), IdBytes(qos, packetId), payload);
    rc := ptr.pos;
  }

  lemma Grouped(a: bytes, b: bytes, c: bytes, d: bytes, e: bytes)
    ensures [] + a + b + c + d + e == a + b + (c + d + e)
    ensures [] + a + b + c + [] + e == [] + a + b + c + e
  {
  }

  /** The caller's variables; the payload is a place in the buffer. */
  datatype Fields = Fields(
    dup: nat, qos: nat, retained: nat, packetId: nat, topic: MqttString, payloadLen: int, payloadAt: nat)

  /**
   * The result, the variables after the call, and what an unreadable topic leaves in the caller's string: its C string
   * cleared, its data as before, and its length overwritten if there were two bytes to read it from.
   */
  datatype PublishRead =
    | WrongType(fields: Fields)
    | BadTopic(rc: int, fields: Fields, length: Option<nat>)
    | Read(fields: Fields)

  function ResultOf(p: PublishRead): int {
    match p
    case WrongType(_) => 0
    case BadTopic(rc, _, _) => rc
    case Read(_) => 1
  }

  /** Memory past the pointer: the rest of the packet, and a packet id where one is read. */
  predicate FramedBody(header: byte, s: bytes, avail: nat) {
    && avail <= |s|
    && var topic := ReadString(s, avail);
       topic.Some? && QosOf(header) > 0 ==> 4 + |topic.value| <= |s|
  }

  predicate Framed(buf: bytes) {
    && buf != []
    && var d := DecodeLength(buf[1..]);
       1 + d.count <= |buf| && FramedBody(buf[0], buf[1 + d.count..], d.value)
  }

  /** Reading after the fixed header: `s` is what the pointer sees, `avail` the rest of the packet. */
  function ReadBody(before: Fields, header: byte, count: nat, s: bytes, avail: nat): PublishRead
    requires FramedBody(header, s, avail)
  {
    var qos := QosOf(header);
    var flags := before.(dup := DupOf(header), qos := qos, retained := RetainOf(header));
    var topic := ReadString(s, avail);
    if topic.None? then BadTopic(count, flags, StoredLength(s, avail))
    else
      var n := 2 + |topic.value|;
      var start := if qos > 0 then n + 2 else n;
      Read(flags.(packetId := if qos > 0 then IntValue(s[n], s[n + 1]) else before.packetId,
                  topic := Received(topic.value), payloadLen := avail - start, payloadAt := 1 + count + start))
  }

  function Deserialized(before: Fields, buf: bytes): PublishRead
    requires Framed(buf)
  {
    if TypeOf(buf[0]) != PUBLISH then WrongType(before)
    else
      var d := DecodeLength(buf[1..]);
      ReadBody(before, buf[0], d.count, buf[1 + d.count..], d.value)
  }

  method Deserialize(before: Fields, buf: bytes) returns (rc: int, f: Fields, length: Option<nat>)
    requires Framed(buf)
    ensures var p := Deserialized(before, buf);
      rc == ResultOf(p) && f == p.fields && (p.BadTopic? ==> length == p.length)
  {
    rc, f, length := 0, before, None;
    if TypeOf(buf[0]) != PUBLISH {
      return;
    }
    f := f.(dup := DupOf(buf[0]), qos := QosOf(buf[0]), retained := RetainOf(buf[0]));
    var d := DecodeLength(buf[1..]);
    rc := d.count;
    var ptr := new InPointer(buf, 1 + rc);
    ghost var s := ptr.Rest();
    var end := ptr.pos + d.value;
    var ok, topic;
    ok, topic, length := ptr.ReadLenString(end);
    if !ok {
      return;
    }
    f := f.(topic := topic);
    if f.qos > 0 {
      assert ptr.Rest()[0] == s[ptr.pos - 1 - d.count] && ptr.Rest()[1] == s[ptr.pos - d.count];
      var id := ptr.ReadInt();
      f := f.(packetId := id);
    }
    f := f.(payloadLen := end - ptr.pos, payloadAt := ptr.pos);
    rc := 1;
  }

  /**
   * A result of 1 means that the packet was read, unless its length took a single byte: then an unreadable topic gives
   * 1 as well, because the failure leaves the number of length bytes as the result.
   */
  lemma OneMeansRead(before: Fields, buf: bytes)
    requires Framed(buf) && TypeOf(buf[0]) == PUBLISH
    ensures ResultOf(Deserialized(before, buf)) == 1 <==> Deserialized(before, buf).Read? || buf[1] < 128
  {
    OneLengthByte(buf[1..]);
  }

  lemma BodyBack(
    before: Fields, header: byte, count: nat, qos: nat, packetId: nat, topic: MqttString, payload: bytes, t: bytes)
    requires Sendable(topic) && packetId < 65536 && qos == QosOf(header)
    ensures var body := Body(qos, packetId, topic, payload);
      && FramedBody(header, body + t, |body|)
      && ReadBody(before, header, count, body + t, |body|)
         == Read(Fields(DupOf(header), qos, RetainOf(header), if qos > 0 then packetId else before.packetId,
                        Received(Content(topic)), |payload|, 1 + count + |body| - |payload|))
      && (body + t)[|body| - |payload|..|body|] == payload
  {
    var body := Body(qos, packetId, topic, payload);
    var s, n := body + t, 2 + |Content(topic)|;
    var tail := IdBytes(qos, packetId) + payload + t;
    assert s == StringBytes(topic) + tail;
    StringBack(topic, tail, |body|);
    if qos > 0 {
      IntBack(packetId);
      assert s[n] == tail[0] && s[n + 1] == tail[1];
    }
  }

  lemma PacketIsRead(before: Fields, header: byte, body: bytes, t: bytes)
    requires |body| <= MAX_REMAINING_LENGTH && FramedBody(header, body + t, |body|) && TypeOf(header) == PUBLISH
    ensures var buf, count := Packet(header, body) + t, |EncodeLength(|body|)|;
      && Framed(buf) && Deserialized(before, buf) == ReadBody(before, header, count, body + t, |body|)
      && buf[1 + count..] == body + t
  {
    PacketBack(header, body, t);
  }

  /** The payload as the variables designate it. */
  predicate PayloadIs(f: Fields, buf: bytes, payload: bytes) {
    f.payloadLen == |payload| && f.payloadAt + |payload| <= |buf| && buf[f.payloadAt..f.payloadAt + |payload|] == payload
  }

  lemma PayloadInside(f: Fields, buf: bytes, start: nat, s: bytes, from: nat, payload: bytes)
    requires start <= |buf| && buf[start..] == s && from + |payload| <= |s| && s[from..from + |payload|] == payload
    requires f.payloadLen == |payload| && f.payloadAt == start + from
    ensures PayloadIs(f, buf, payload)
  {
    assert buf[start + from..start + from + |payload|] == buf[start..][from..from + |payload|];
  }

  /**
   * Section 3.3: every PUBLISH field comes back, the packet id when the QoS is not zero and the caller's own otherwise,
   * whatever follows the packet.
   */
  lemma RoundTrip(
    before: Fields, dup: nat, qos: nat, retained: nat, packetId: nat, topic: MqttString, payload: bytes, t: bytes)
    requires Sendable(topic) && packetId < 65536 && qos < 4
    requires SerializeLength(qos, topic, |payload|) <= MAX_REMAINING_LENGTH
    ensures var buf := PublishPacket(dup, qos, retained, packetId, topic, payload) + t;
      && Framed(buf) && Deserialized(before, buf).Read?
      && var f := Deserialized(before, buf).fields;
      && PayloadIs(f, buf, payload)
      && f.dup == dup % 2 && f.qos == qos && f.retained == retained % 2 && f.topic == Received(Content(topic))
      && f.packetId == if qos > 0 then packetId else before.packetId
  {
    var body := Body(qos, packetId, topic, payload);
    var header := HeaderByte(PUBLISH, dup, qos, retained);
    var count := |EncodeLength(|body|)|;
    LengthIsSize(qos, packetId, topic, payload);
    HeaderBack(PUBLISH, dup, qos, retained);
    BodyBack(before, header, count, qos, packetId, topic, payload, t);
    PacketIsRead(before, header, body, t);
    var buf := Packet(header, body) + t;
    PayloadInside(Deserialized(before, buf).fields, buf, 1 + count, body + t, |body| - |payload|, payload);
  }
}
