/** The bytes on the wire, written out as the standard (MQTT 3.1.1) lays them out, apart from the codec. */
module MqttWire {
  import opened Bytes
  import opened MqttPacket
  import P = MqttPublish
  import S = MqttSubscribe
  import C = MqttConnect

  /** Section 2.2.3: seven bits a byte, the lowest first, the top bit set while more follow. */
  function LengthWire(n: nat): bytes
    requires n <= 268435455
  {
    if n < 128 then [n]
    else if n < 16384 then [128 + n % 128, n / 128]
    else if n < 2097152 then [128 + n % 128, 128 + n / 128 % 128, n / 16384]
    else [128 + n % 128, 128 + n / 128 % 128, 128 + n / 16384 % 128, n / 2097152]
  }

  lemma LengthIs(n: nat)
    requires n <= 268435455
    ensures EncodeLength(n) == LengthWire(n)
  {
    if n < 128 {
    } else if n < 16384 {
      assert EncodeLength(n / 128) == [n / 128];
    } else if n < 2097152 {
      assert n / 128 / 128 == n / 16384;
      assert EncodeLength(n / 16384) == [n / 16384];
      assert EncodeLength(n / 128) == [128 + n / 128 % 128] + EncodeLength(n / 16384);
    } else {
      assert n / 128 / 128 == n / 16384 && n / 16384 / 128 == n / 2097152;
      assert EncodeLength(n / 2097152) == [n / 2097152];
      assert EncodeLength(n / 16384) == [128 + n / 16384 % 128] + EncodeLength(n / 2097152);
      assert EncodeLength(n / 128) == [128 + n / 128 % 128] + EncodeLength(n / 16384);
    }
  }

  /** Section 1.5.2: two bytes, the high one first. */
  function Two(n: nat): bytes
    requires n < 65536
  {
    [n / 256, n % 256]
  }

  /** Section 1.5.3: a string is its length in two bytes and its bytes. */
  function Field(s: bytes): bytes
    requires |s| < 65536
  {
    Two(|s|) + s
  }

  lemma FieldIs(m: MqttString)
    requires |Content(m)| < 65536
    ensures StringBytes(m) == Field(Content(m))
  {
  }

  function Framed(first: byte, body: bytes): bytes
    requires |body| <= 268435455
  {
    [first] + LengthWire(|body|) + body
  }

  lemma PacketIs(header: byte, body: bytes)
    requires |body| <= 268435455
    ensures Packet(header, body) == Framed(header, body)
  {
    LengthIs(|body|);
  }

  // ---- SUBSCRIBE and UNSUBSCRIBE: sections 3.8 and 3.10 ----

  function EntriesWire(withQos: bool, filters: seq<bytes>, qoss: seq<byte>): bytes
    requires |filters| == |qoss| && forall i | 0 <= i < |filters| :: |filters[i]| < 65536
  {
    if filters == [] then []
    else Field(filters[0]) + (if withQos then [qoss[0]] else []) + EntriesWire(withQos, filters[1..], qoss[1..])
  }

  function Contents(filters: seq<MqttString>): (r: seq<bytes>)
    ensures |r| == |filters|
    ensures forall i | 0 <= i < |r| :: r[i] == Content(filters[i])
  {
    if filters == [] then [] else [Content(filters[0])] + Contents(filters[1..])
  }

  lemma {:induction false} ListIs(kind: S.Kind, filters: seq<MqttString>, qoss: seq<byte>)
    requires |filters| == |qoss| && S.AllSendable(filters)
    ensures S.ListBytes(kind, filters, qoss) == EntriesWire(kind.Subscribe?, Contents(filters), qoss)
  {
    if filters != [] {
      var all, others := Contents(filters), Contents(filters[1..]);
      assert all[1..] == others && all[0] == Content(filters[0]);
      ListIs(kind, filters[1..], qoss[1..]);
      EntryIs(kind, filters[0], qoss[0]);
    }
  }

  lemma EntryIs(kind: S.Kind, filter: MqttString, qos: byte)
    requires |Content(filter)| < 65536
    ensures S.EntryBytes(kind, filter, qos) == Field(Content(filter)) + if kind.Subscribe? then [qos] else []
  {
    FieldIs(filter);
  }

  /** The first byte is 0x82 or 0xA2, and 0x8A or 0xAA with the dup bit; then the packet id and the list. */
  lemma SubscribeIsOnTheWire(kind: S.Kind, dup: nat, packetId: nat, filters: seq<MqttString>, qoss: seq<byte>)
    requires |filters| == |qoss| && S.AllSendable(filters) && dup < 2 && packetId < 65536
    requires |Two(packetId) + EntriesWire(kind.Subscribe?, Contents(filters), qoss)| <= 268435455
    ensures S.ListPacket(kind, dup, packetId, filters, qoss)
         == Framed(SubscribeFirst(kind, dup),
                   Two(packetId) + EntriesWire(kind.Subscribe?, Contents(filters), qoss))
  {
    ListIs(kind, filters, qoss);
    PacketIs(SubscribeFirst(kind, dup), S.Body(kind, packetId, filters, qoss));
  }

  function SubscribeFirst(kind: S.Kind, dup: nat): (first: byte)
    requires dup < 2
    ensures first == HeaderByte(S.TypeCode(kind), dup, 1, 0)
  {
    (if kind.Subscribe? then 0x82 else 0xA2) + 8 * dup
  }

  /** A packet of another type is reported by -1 for SUBSCRIBE and by 0 for UNSUBSCRIBE. */
  lemma OtherTypesAreRefused(kind: S.Kind, buf: bytes)
    requires S.Framed(buf)
    ensures S.Deserialized(kind, buf).WrongType? <==> buf[0] / 16 != if kind.Subscribe? then 8 else 10
    ensures S.Deserialized(kind, buf).WrongType? ==>
      S.ResultOf(kind, S.Deserialized(kind, buf)) == if kind.Subscribe? then -1 else 0
  {
  }

  /** What can be read as an entry: only SUBSCRIBE has a QoS. */
  predicate ValidList(kind: S.Kind, list: seq<S.Entry>) {
    forall i | 0 <= i < |list| ::
      |list[i].filter| < 65536 && list[i].qos < 256 && (kind.Unsubscribe? ==> list[i].qos == 0)
  }

  function ListWire(kind: S.Kind, list: seq<S.Entry>): bytes
    requires ValidList(kind, list)
  {
    if list == [] then []
    else
      Field(list[0].filter) + (if kind.Subscribe? then [list[0].qos] else [])
      + ListWire(kind, list[1..])
  }

  lemma EntryRead(kind: S.Kind, s: bytes, e: S.Entry, rest: bytes, avail: nat)
    requires |e.filter| < 65536 && e.qos < 256 && (kind.Unsubscribe? ==> e.qos == 0)
    requires s == Field(e.filter) + (if kind.Subscribe? then [e.qos] else []) + rest && avail <= |s|
    requires |s| - |rest| <= avail
    ensures S.ReadEntry(kind, s, avail) == Some(S.EntryRead(e, |s| - |rest|)) && s[|s| - |rest|..] == rest
  {
    assert s[0] == |e.filter| / 256 && s[1] == |e.filter| % 256;
    assert s[2..2 + |e.filter|] == e.filter;
  }

  /** The first `n` bytes are read to this list. */
  predicate IsReadTo(kind: S.Kind, s: bytes, n: nat, list: seq<S.Entry>)
    requires n <= |s|
  {
    S.ReadEntries(kind, s, n) == S.Entries(list, true)
  }

  /** One entry read in front of the others. */
  lemma EntriesRead(kind: S.Kind, s: bytes, list: seq<S.Entry>, n: nat, rest: bytes, avail: nat)
    requires list != [] && 0 < n && n + avail <= |s| && S.ReadEntry(kind, s, n + avail) == Some(S.EntryRead(list[0], n))
    requires s[n..] == rest && S.ReadEntries(kind, rest, avail) == S.Entries(list[1..], true)
    ensures S.ReadEntries(kind, s, n + avail) == S.Entries(list, true)
  {
    assert [list[0]] + list[1..] == list;
  }

  lemma EntryIsRead(kind: S.Kind, s: bytes, list: seq<S.Entry>, front: bytes, rest: bytes, avail: nat, n: nat)
    requires n == |front| + avail
    requires list != [] && ValidList(kind, list) && avail <= |rest| && s == front + rest && |front| > 0
    requires front == Field(list[0].filter) + if kind.Subscribe? then [list[0].qos] else []
    requires IsReadTo(kind, rest, avail, list[1..])
    ensures IsReadTo(kind, s, n, list)
  {
    EntryRead(kind, s, list[0], rest, n);
    EntriesRead(kind, s, list, |front|, rest, avail);
  }

  lemma ListWireIs(kind: S.Kind, list: seq<S.Entry>, front: bytes, others: bytes)
    requires list != [] && ValidList(kind, list) && others == ListWire(kind, list[1..])
    requires front == Field(list[0].filter) + if kind.Subscribe? then [list[0].qos] else []
    ensures ListWire(kind, list) == front + others && |front| > 0
  {
  }

  lemma NothingIsRead(kind: S.Kind, s: bytes, list: seq<S.Entry>)
    requires list == []
    ensures IsReadTo(kind, s, 0, list)
  {
  }

  lemma {:induction false} ListIsRead(kind: S.Kind, list: seq<S.Entry>, w: bytes, s: bytes, t: bytes, n: nat)
    requires ValidList(kind, list) && w == ListWire(kind, list) && s == w + t && n == |w|
    ensures IsReadTo(kind, s, n, list)
    decreases list
  {
    if list == [] {
      NothingIsRead(kind, s, list);
    } else {
      var others := ListWire(kind, list[1..]);
      var front := Field(list[0].filter) + if kind.Subscribe? then [list[0].qos] else [];
      ListWireIs(kind, list, front, others);
      Associative(front, others, t);
      ListIsRead(kind, list[1..], others, others + t, t, |others|);
      EntryIsRead(kind, s, list, front, others + t, |others|, n);
    }
  }

  /** Every list of the standard is read to its entries, whatever follows. */
  lemma WrittenListIsRead(kind: S.Kind, list: seq<S.Entry>, s: bytes, t: bytes)
    requires ValidList(kind, list) && s == ListWire(kind, list) + t
    ensures S.ReadEntries(kind, s, |ListWire(kind, list)|) == S.Entries(list, true)
  {
    var w := ListWire(kind, list);
    ListIsRead(kind, list, w, s, t, |w|);
  }

  lemma EntryAt(kind: S.Kind, s: bytes, avail: nat)
    requires 0 < avail <= |s| && S.ReadEntry(kind, s, avail).Some?
    ensures var e, n := S.ReadEntry(kind, s, avail).value.entry, S.ReadEntry(kind, s, avail).value.taken;
      && |e.filter| < 65536 && e.qos < 256 && (kind.Unsubscribe? ==> e.qos == 0)
      && s[..n] == Field(e.filter) + if kind.Subscribe? then [e.qos] else []
  {
    var k := |S.ReadEntry(kind, s, avail).value.entry.filter|;
    assert s[..2 + k] == [s[0], s[1]] + s[2..2 + k];
  }

  /** And a list that is read to its end is one of the standard. */
  lemma {:induction false} ReadListIsWritten(kind: S.Kind, s: bytes, avail: nat)
    requires avail <= |s| && S.ReadEntries(kind, s, avail).ok
    ensures var list := S.ReadEntries(kind, s, avail).list;
      ValidList(kind, list) && s[..avail] == ListWire(kind, list)
    decreases avail
  {
    if avail > 0 {
      var e := S.ReadEntry(kind, s, avail).value;
      EntryAt(kind, s, avail);
      ReadListIsWritten(kind, s[e.taken..], avail - e.taken);
      OneMoreEntry(kind, s, avail, e.taken, e.entry, S.ReadEntries(kind, s[e.taken..], avail - e.taken).list);
    }
  }

  lemma OneMoreEntry(kind: S.Kind, s: bytes, avail: nat, n: nat, e: S.Entry, others: seq<S.Entry>)
    requires n <= avail <= |s| && ValidList(kind, others) && s[n..][..avail - n] == ListWire(kind, others)
    requires |e.filter| < 65536 && e.qos < 256 && (kind.Unsubscribe? ==> e.qos == 0)
    requires s[..n] == Field(e.filter) + if kind.Subscribe? then [e.qos] else []
    ensures ValidList(kind, [e] + others) && s[..avail] == ListWire(kind, [e] + others)
  {
    assert ([e] + others)[1..] == others;
    assert s[..avail] == s[..n] + s[n..][..avail - n];
  }

  // ---- PUBLISH: section 3.3 ----

  /** The first byte is 0x30 with dup, QoS and retain in its low four bits; the packet id is there for QoS 1 and 2 only. */
  lemma PublishIsOnTheWire(dup: nat, qos: nat, retained: nat, packetId: nat, topic: MqttString, payload: bytes)
    requires dup < 2 && qos < 4 && retained < 2 && packetId < 65536 && Sendable(topic)
    requires |P.Body(qos, packetId, topic, payload)| <= 268435455
    ensures P.PublishPacket(dup, qos, retained, packetId, topic, payload)
         == Framed(PublishFirst(dup, qos, retained),
                   Field(Content(topic)) + (if qos > 0 then Two(packetId) else []) + payload)
  {
    FieldIs(topic);
    PacketIs(PublishFirst(dup, qos, retained), P.Body(qos, packetId, topic, payload));
  }

  function PublishFirst(dup: nat, qos: nat, retained: nat): (first: byte)
    requires dup < 2 && qos < 4 && retained < 2
    ensures first == HeaderByte(PUBLISH, dup, qos, retained)
  {
    0x30 + 8 * dup + 2 * qos + retained
  }

  lemma OtherTypesAreNotPublish(before: P.Fields, buf: bytes)
    requires P.Framed(buf)
    ensures var p := P.Deserialized(before, buf);
      if buf[0] / 16 != 3 then P.ResultOf(p) == 0 && p.fields == before else !p.WrongType?
  {
  }

  /** A topic that cannot be read leaves the flags of the first byte, and the size of the length as the result. */
  lemma UnreadableTopicLeavesFlags(before: P.Fields, buf: bytes)
    requires P.Framed(buf) && buf[0] / 16 == 3
    requires var d := DecodeLength(buf[1..]); ReadString(buf[1 + d.count..], d.value).None?
    ensures var p := P.Deserialized(before, buf);
      && p.fields == before.(dup := buf[0] / 8 % 2, qos := buf[0] / 2 % 4, retained := buf[0] % 2)
      && P.ResultOf(p) == DecodeLength(buf[1..]).count
  {
  }

  // ---- CONNECT: section 3.1 ----

  function FieldIf(present: bool, s: bytes): bytes
    requires |s| < 65536
  {
    if present then Field(s) else []
  }

  /** What a CONNECT packet is made of. */
  predicate Fits(d: C.ConnectData) {
    && C.WellGiven(d) && d.keepAlive < 65536 && d.cleanSession < 2 && d.will.qos < 4 && d.will.retained < 2
    && |Content(d.clientId)| < 65536 && |Content(d.will.topic)| < 65536 && |Content(d.will.message)| < 65536
    && |Content(d.username)| < 65536 && |Content(d.password)| < 65536
  }

  /** Section 3.1.2.3: from the top bit down user name, password, will retain, will QoS, will, clean session, reserved. */
  function FlagsWire(d: C.ConnectData): nat {
    (if Present(d.username) then 0x80 else 0) + (if Present(d.password) then 0x40 else 0)
    + (if d.willFlag != 0 then 0x20 * d.will.retained + 0x08 * d.will.qos + 0x04 else 0) + 0x02 * d.cleanSession
  }

  /** Section 3.1.3: client id, will topic, will message, user name and password, in this order. */
  function PayloadWire(d: C.ConnectData): bytes
    requires Fits(d)
  {
    Field(Content(d.clientId))
    + FieldIf(d.willFlag != 0, Content(d.will.topic)) + FieldIf(d.willFlag != 0, Content(d.will.message))
    + FieldIf(Present(d.username), Content(d.username)) + FieldIf(Present(d.password), Content(d.password))
  }

  /** "MQTT" at level 4, or "MQIsdp" at level 3. */
  function ProtocolWire(version: nat): bytes {
    if version == 4 then [0, 4, 0x4D, 0x51, 0x54, 0x54, 4] else [0, 6, 0x4D, 0x51, 0x49, 0x73, 0x64, 0x70, 3]
  }

  lemma FlagsAre(d: C.ConnectData)
    requires Fits(d)
    ensures C.FlagsByte(d) == FlagsWire(d) < 256
  {
  }

  lemma PayloadIs(d: C.ConnectData)
    requires Fits(d)
    ensures C.PayloadBytes(d) == PayloadWire(d)
  {
    FieldIs(d.clientId);
    FieldIs(d.will.topic);
    FieldIs(d.will.message);
    FieldIs(d.username);
    FieldIs(d.password);
    C.FiveGrouped([], StringBytes(d.clientId), C.StringIf(d.willFlag != 0, d.will.topic),
                  C.StringIf(d.willFlag != 0, d.will.message), C.StringIf(Present(d.username), d.username),
                  C.StringIf(Present(d.password), d.password));
    assert [] + StringBytes(d.clientId) == StringBytes(d.clientId) && [] + C.PayloadBytes(d) == C.PayloadBytes(d);
  }

  lemma ProtocolIs(version: nat)
    ensures C.ProtocolBytes(version) == ProtocolWire(version)
  {
  }

  lemma ConnectBodyIs(d: C.ConnectData)
    requires Fits(d)
    ensures FlagsWire(d) < 256
    ensures C.Body(d) == ProtocolWire(d.version) + [FlagsWire(d)] + Two(d.keepAlive) + PayloadWire(d)
  {
    FlagsAre(d);
    PayloadIs(d);
    ProtocolIs(d.version);
  }

  lemma ConnectIsOnTheWire(d: C.ConnectData)
    requires Fits(d) && |C.Body(d)| <= 268435455
    ensures FlagsWire(d) < 256
    ensures C.ConnectPacket(d)
         == Framed(0x10, ProtocolWire(d.version) + [FlagsWire(d)] + Two(d.keepAlive) + PayloadWire(d))
  {
    FlagsAre(d);
    ConnectBodyIs(d);
    PacketIs(0x10, C.Body(d));
  }

  /** A protocol and version the server knows, but for the letters it does not look at behind or beyond them. */
  predicate KnownProtocol(name: bytes, version: nat) {
    || (version == 3 && if |name| < 6 then name <= MQIsdp() else MQIsdp() <= name)
    || (version == 4 && if |name| < 4 then name <= MQTT() else MQTT() <= name)
  }

  function MQIsdp(): bytes {
    [77, 81, 73, 115, 100, 112]
  }

  function MQTT(): bytes {
    [77, 81, 84, 84]
  }

  lemma ProtocolIsChecked(name: bytes, version: nat)
    ensures C.CheckVersion(name, version) <==> KnownProtocol(name, version)
  {
    Beginnings(name, MQIsdp());
    Beginnings(name, MQTT());
  }

  /** Comparing up to the shorter length asks for one to be the beginning of the other. */
  lemma Beginnings(s: bytes, t: bytes)
    ensures s[..Min(|t|, |s|)] == t[..Min(|t|, |s|)] <==> if |s| < |t| then s <= t else t <= s
  {
  }

  /** A packet of another type, or with an unknown protocol, is refused and changes nothing. */
  lemma OtherTypesAreNotConnect(before: C.ConnectData, buf: bytes, len: nat)
    requires C.Framed(buf, len)
    ensures var r, d := C.Deserialized(before, buf, len), DecodeLength(buf[1..]);
      var s := buf[1 + d.count..];
      var name := ReadString(s, len - 1 - d.count);
      buf[0] / 16 != 1 || name.None? || !KnownProtocol(name.value, s[2 + |name.value|]) ==>
        !r.ok && r.data == before && r.torn.None?
  {
    var d := DecodeLength(buf[1..]);
    var s := buf[1 + d.count..];
    var name := ReadString(s, len - 1 - d.count);
    if name.Some? {
      ProtocolIsChecked(name.value, s[2 + |name.value|]);
    }
  }
}
