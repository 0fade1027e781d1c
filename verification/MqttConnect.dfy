/** CONNECT: protocol name and version, flags, keep-alive, and the strings the flags announce. */
module MqttConnect {
  import opened Bytes
  import opened MqttPacket

  datatype Will = Will(topic: MqttString, message: MqttString, qos: nat, retained: nat)

  datatype ConnectData = ConnectData(
    version: nat, clientId: MqttString, keepAlive: nat, cleanSession: nat,
    willFlag: nat, will: Will, username: MqttString, password: MqttString)

  const MQTT: bytes := [77, 81, 84, 84]
  const MQISDP: bytes := [77, 81, 73, 115, 100, 112]

  function Bit(on: bool): nat {
    if on then 1 else 0
  }

  /** The connect flags: user name, password, will retain, two bits of will QoS, will, clean session, one unused. */
  function FlagsByte(d: ConnectData): byte {
    Bit(Present(d.username)) * 128 + Bit(Present(d.password)) * 64
    + (if d.willFlag != 0 then d.will.retained % 2 * 32 + d.will.qos % 4 * 8 + 4 else 0)
    + d.cleanSession % 2 * 2
  }

  function ProtocolBytes(version: nat): bytes {
    if version == 4 then IntBytes(4) + MQTT + [4] else IntBytes(6) + MQISDP + [3]
  }

  function StringIf(present: bool, m: MqttString): bytes {
    if present then StringBytes(m) else []
  }

  function WillBytes(d: ConnectData): bytes {
    StringIf(d.willFlag != 0, d.will.topic) + StringIf(d.willFlag != 0, d.will.message)
  }

  function CredentialBytes(d: ConnectData): bytes {
    StringIf(Present(d.username), d.username) + StringIf(Present(d.password), d.password)
  }

  function PayloadBytes(d: ConnectData): bytes {
    StringBytes(d.clientId) + (WillBytes(d) + CredentialBytes(d))
  }

  function FixedBytes(d: ConnectData): bytes {
    ProtocolBytes(d.version) + [FlagsByte(d)] + IntBytes(d.keepAlive)
  }

  function Body(d: ConnectData): bytes {
    FixedBytes(d) + PayloadBytes(d)
  }

  function ConnectPacket(d: ConnectData): bytes {
    Packet(HeaderByte(CONNECT, 0, 0, 0), Body(d))
  }

  function LengthIf(present: bool, m: MqttString): nat {
    if present then StrLen(m) + 2 else 0
  }

  function SerializeLength(d: ConnectData): nat {
    (if d.version == 3 then 12 else if d.version == 4 then 10 else 0)
    + StrLen(d.clientId) + 2
    + LengthIf(d.willFlag != 0, d.will.topic) + LengthIf(d.willFlag != 0, d.will.message)
    + LengthIf(Present(d.username), d.username) + LengthIf(Present(d.password), d.password)
  }

  /** The two versions there are, and no string given in two forms of different length. */
  predicate WellGiven(d: ConnectData) {
    && (d.version == 3 || d.version == 4)
    && Unambiguous(d.clientId) && Unambiguous(d.username) && Unambiguous(d.password)
    && (d.willFlag != 0 ==> Unambiguous(d.will.topic) && Unambiguous(d.will.message))
  }

  lemma LengthIsSize(d: ConnectData)
    requires WellGiven(d)
    ensures SerializeLength(d) == |Body(d)|
  {
    LengthsAgree(d.clientId);
    LengthsAgree(d.username);
    LengthsAgree(d.password);
    LengthsAgree(d.will.topic);
    LengthsAgree(d.will.message);
  }

  /** Any other version is written as version 3 but not counted, so the length field is twelve short. */
  lemma UnknownVersionIsMiscounted(d: ConnectData)
    requires WellGiven(d.(version := 3)) && d.version != 3 && d.version != 4
    ensures |Body(d)| == SerializeLength(d) + 12
  {
    LengthIsSize(d.(version := 3));
    assert FixedBytes(d.(version := 3)) == FixedBytes(d);
  }

  // ---- writing ----

  method WriteStringIf(ptr: OutPointer, present: bool, m: MqttString)
    requires ptr.Consistent() && ptr.pos + |StringIf(present, m)| <= ptr.buf.Length
    modifies ptr, ptr.buf
    ensures ptr.Consistent() && ptr.text == old(ptr.text) + StringIf(present, m)
  {
    if present {
      ptr.WriteString(m);
    }
  }

  method WriteFixed(ptr: OutPointer, d: ConnectData)
    requires ptr.Consistent() && ptr.pos + |FixedBytes(d)| <= ptr.buf.Length
    modifies ptr, ptr.buf
    ensures ptr.Consistent() && ptr.text == old(ptr.text) + FixedBytes(d)
  {
    ghost var lead := ptr.text;
    if d.version == 4 {
      ptr.WriteInt(4);
      ptr.CopyBytes(MQTT);
      ptr.WriteChar(4);
    } else {
      ptr.WriteInt(6);
      ptr.CopyBytes(MQISDP);
      ptr.WriteChar(3);
    }
    assert ptr.text == lead + ProtocolBytes(d.version);
    ptr.WriteChar(FlagsByte(d));
    ptr.WriteInt(d.keepAlive);
    assert ptr.text == lead + FixedBytes(d);
  }

  method WritePayload(ptr: OutPointer, d: ConnectData)
    requires ptr.Consistent() && ptr.pos + |PayloadBytes(d)| <= ptr.buf.Length
    modifies ptr, ptr.buf
    ensures ptr.Consistent() && ptr.text == old(ptr.text) + PayloadBytes(d)
  {
    ghost var lead := ptr.text;
    ptr.WriteString(d.clientId);
    WriteStringIf(ptr, d.willFlag != 0, d.will.topic);
    WriteStringIf(ptr, d.willFlag != 0, d.will.message);
    WriteStringIf(ptr, Present(d.username), d.username);
    WriteStringIf(ptr, Present(d.password), d.password);
    FiveGrouped(lead, StringBytes(d.clientId), StringIf(d.willFlag != 0, d.will.topic),
                StringIf(d.willFlag != 0, d.will.message), StringIf(Present(d.username), d.username),
                StringIf(Present(d.password), d.password));
  }

  lemma FiveGrouped(t: bytes, a: bytes, b: bytes, c: bytes, d: bytes, e: bytes)
    ensures t + a + b + c + d + e == t + (a + ((b + c) + (d + e)))
  {
  }

  /** What is written, whatever was counted: another version, or a string given in two forms, is counted differently. */
  function WrittenPacket(d: ConnectData): bytes {
    Written(HeaderByte(CONNECT, 0, 0, 0), SerializeLength(d), Body(d))
  }

  /** For versions 3 and 4 and unambiguous strings it is the packet, and any buffer that passes the size check holds it. */
  lemma WrittenIsPacket(buflen: nat, d: ConnectData)
    requires WellGiven(d)
    ensures WrittenPacket(d) == ConnectPacket(d)
    ensures SerializeLength(d) <= MAX_REMAINING_LENGTH ==> RoomToWrite(buflen, SerializeLength(d), Body(d))
  {
    LengthIsSize(d);
    if |Body(d)| <= MAX_REMAINING_LENGTH {
      RoomForPacket(buflen, Body(d));
    }
  }

  method Serialize(buf: array<byte>, d: ConnectData) returns (rc: int)
    requires RoomToWrite(buf.Length, SerializeLength(d), Body(d))
    modifies buf
    ensures PacketLength(SerializeLength(d)) > buf.Length ==> rc == BUFFER_TOO_SHORT && buf[..] == old(buf[..])
    ensures PacketLength(SerializeLength(d)) <= buf.Length ==>
            rc == |WrittenPacket(d)| <= buf.Length
            && buf[..] == WrittenPacket(d) + old(buf[..])[|WrittenPacket(d)|..]
  {
    var len := SerializeLength(d);
    if PacketLength(len) > buf.Length {
      return BUFFER_TOO_SHORT;
    }
    var header := HeaderByte(CONNECT, 0, 0, 0);
    var ptr := new OutPointer(buf);
    ptr.WriteChar(header);
    ptr.WriteLength(len);
    WriteFixed(ptr, d);
    WritePayload(ptr, d);
    Grouped([header], EncodeLength(len), FixedBytes(d), PayloadBytes(d));
    rc := ptr.pos;
  }

  lemma Grouped(a: bytes, b: bytes, c: bytes, d: bytes)
    ensures [] + a + b + c + d == a + b + (c + d)
  {
  }

  // ---- reading ----

  /** The protocol name is compared only as far as it goes. */
  predicate CheckVersion(protocol: bytes, version: nat) {
    || (version == 3 && protocol[..Min(6, |protocol|)] == MQISDP[..Min(6, |protocol|)])
    || (version == 4 && protocol[..Min(4, |protocol|)] == MQTT[..Min(4, |protocol|)])
  }

  datatype Field = ClientId | WillTopic | WillMessage | Username | Password

  /**
   * A string at which reading failed: its C string is cleared, its data is as before, and its length is overwritten if
   * there were two bytes to read it from.
   */
  datatype Torn = Torn(field: Field, length: Option<nat>)

  /** Success or failure, the structure with all the fields read until then, and the string at which reading failed. */
  datatype ConnectRead = ConnectRead(ok: bool, data: ConnectData, torn: Option<Torn>)

  /** What has been read, and where reading goes on. */
  datatype Step = Step(read: ConnectRead, s: bytes, avail: int)

  function Done(d: ConnectData): ConnectRead {
    ConnectRead(true, d, None)
  }

  /** Giving up without having touched a string. */
  function Refused(d: ConnectData): ConnectRead {
    ConnectRead(false, d, None)
  }

  function TornAt(d: ConnectData, field: Field, s: bytes, avail: int): ConnectRead
    requires avail <= |s|
  {
    ConnectRead(false, d, Some(Torn(field, StoredLength(s, avail))))
  }

  function ReadPassword(d: ConnectData, s: bytes, avail: int): ConnectRead
    requires avail <= |s|
  {
    if avail < 3 then Refused(d)
    else
      var password := ReadString(s, avail);
      if password.None? then TornAt(d, Password, s, avail) else Done(d.(password := Received(password.value)))
  }

  function ReadCredentials(d: ConnectData, flags: byte, s: bytes, avail: int): ConnectRead
    requires avail <= |s|
  {
    if flags / 128 == 1 then
      if avail < 3 then Refused(d)
      else
        var username := ReadString(s, avail);
        if username.None? then TornAt(d, Username, s, avail)
        else
          var n := 2 + |username.value|;
          var named := d.(username := Received(username.value));
          if flags / 64 % 2 == 1 then ReadPassword(named, s[n..], avail - n) else Done(named)
    else if flags / 64 % 2 == 1 then Refused(d)
    else Done(d)
  }

  function ReadWill(d: ConnectData, flags: byte, s: bytes, avail: int): (r: Step)
    requires avail <= |s|
    ensures r.avail <= |r.s|
  {
    if flags / 4 % 2 == 0 then Step(Done(d), s, avail)
    else
      var announced := d.(will := d.will.(qos := flags / 8 % 4, retained := flags / 32 % 2));
      var topic := ReadString(s, avail);
      if topic.None? then Step(TornAt(announced, WillTopic, s, avail), s, avail)
      else
        var n := 2 + |topic.value|;
        var titled := announced.(will := announced.will.(topic := Received(topic.value)));
        var message := ReadString(s[n..], avail - n);
        if message.None? then Step(TornAt(titled, WillMessage, s[n..], avail - n), s[n..], avail - n)
        else
          var m := 2 + |message.value|;
          Step(Done(titled.(will := titled.will.(message := Received(message.value)))), s[n..][m..], avail - n - m)
  }

  function ReadOptional(d: ConnectData, flags: byte, s: bytes, avail: int): ConnectRead
    requires avail <= |s|
  {
    var will := ReadWill(d, flags, s, avail);
    if will.read.ok then ReadCredentials(will.read.data, flags, will.s, will.avail) else will.read
  }

  function ReadPayload(d: ConnectData, flags: byte, s: bytes, avail: int): ConnectRead
    requires avail <= |s|
  {
    var id := ReadString(s, avail);
    if id.None? then TornAt(d, ClientId, s, avail)
    else
      var n := 2 + |id.value|;
      ReadOptional(d.(clientId := Received(id.value), willFlag := flags / 4 % 2), flags, s[n..], avail - n)
  }

  lemma ReadPayloadStep(r: ConnectData, flags: byte, s: bytes, avail: int, id: bytes, s1: bytes, left: int)
    requires avail <= |s| && ReadString(s, avail) == Some(id) && s1 == s[2 + |id|..] && left == avail - 2 - |id|
    ensures left <= |s1|
    ensures ReadPayload(r, flags, s, avail)
         == ReadOptional(r.(clientId := Received(id), willFlag := flags / 4 % 2), flags, s1, left)
  {
  }

  /** Flags, keep-alive and payload. */
  function ReadOptions(before: ConnectData, s: bytes, avail: int): ConnectRead
    requires 3 <= |s| && avail <= |s|
  {
    var d := before.(cleanSession := s[0] / 2 % 2, keepAlive := IntValue(s[1], s[2]));
    ReadPayload(d, s[0], s[3..], avail - 3)
  }

  lemma ReadOptionsStep(before: ConnectData, s: bytes, avail: int, d: ConnectData, rest: bytes, left: int)
    requires 3 <= |s| && avail <= |s| && rest == s[3..] && left == avail - 3
    requires d == before.(cleanSession := s[0] / 2 % 2, keepAlive := IntValue(s[1], s[2]))
    ensures ReadOptions(before, s, avail) == ReadPayload(d, s[0], rest, left)
  {
  }

  /** Memory for the version, and behind a known version for the flags and the keep-alive, which are read unchecked. */
  predicate FramedBody(s: bytes, avail: int) {
    && avail <= |s|
    && var protocol := ReadString(s, avail);
       protocol.Some? ==>
         && 3 + |protocol.value| <= |s|
         && (CheckVersion(protocol.value, s[2 + |protocol.value|]) ==> 6 + |protocol.value| <= |s|)
  }

  /** The connect data, read over what the structure held before. */
  function ReadBody(before: ConnectData, s: bytes, avail: int): ConnectRead
    requires FramedBody(s, avail)
  {
    var protocol := ReadString(s, avail);
    if protocol.None? then Refused(before)
    else
      var n := 2 + |protocol.value|;
      if CheckVersion(protocol.value, s[n]) then ReadOptions(before, s[n + 1..], avail - n - 1) else Refused(before)
  }

  predicate Framed(buf: bytes, len: nat) {
    && buf != [] && len <= |buf|
    && var d := DecodeLength(buf[1..]);
       1 + d.count <= |buf| && FramedBody(buf[1 + d.count..], len - 1 - d.count)
  }

  function Deserialized(before: ConnectData, buf: bytes, len: nat): ConnectRead
    requires Framed(buf, len)
  {
    if TypeOf(buf[0]) != CONNECT then Refused(before)
    else
      var d := DecodeLength(buf[1..]);
      ReadBody(before, buf[1 + d.count..], len - 1 - d.count)
  }

  /** The will, if the flags announce one. */
  method ReadWillFields(before: ConnectData, flags: byte, ptr: InPointer, end: nat) returns (r: ConnectRead)
    requires ptr.pos <= |ptr.buf| && end <= |ptr.buf|
    modifies ptr
    ensures ptr.pos <= |ptr.buf|
    ensures var w := ReadWill(before, flags, old(ptr.Rest()), end - old(ptr.pos));
      r == w.read && (r.ok ==> ptr.Rest() == w.s && end - ptr.pos == w.avail)
  {
    var d := before;
    if flags / 4 % 2 == 1 {
      d := d.(will := d.will.(qos := flags / 8 % 4, retained := flags / 32 % 2));
      var ok, topic, length := ptr.ReadLenString(end);
      if !ok {
        return ConnectRead(false, d, Some(Torn(WillTopic, length)));
      }
      d := d.(will := d.will.(topic := topic));
      var message;
      ok, message, length := ptr.ReadLenString(end);
      if !ok {
        return ConnectRead(false, d, Some(Torn(WillMessage, length)));
      }
      d := d.(will := d.will.(message := message));
    }
    return Done(d);
  }

  method ReadPasswordField(before: ConnectData, ptr: InPointer, end: nat) returns (r: ConnectRead)
    requires ptr.pos <= |ptr.buf| && end <= |ptr.buf|
    modifies ptr
    ensures r == ReadPassword(before, old(ptr.Rest()), end - old(ptr.pos))
  {
    if end - ptr.pos < 3 {
      return Refused(before);
    }
    var ok, password, length := ptr.ReadLenString(end);
    if !ok {
      return ConnectRead(false, before, Some(Torn(Password, length)));
    }
    return Done(before.(password := password));
  }

  /** User name and password, if the flags announce them. */
  method ReadCredentialFields(before: ConnectData, flags: byte, ptr: InPointer, end: nat) returns (r: ConnectRead)
    requires ptr.pos <= |ptr.buf| && end <= |ptr.buf|
    modifies ptr
    ensures r == ReadCredentials(before, flags, old(ptr.Rest()), end - old(ptr.pos))
  {
    var d := before;
    if flags / 128 == 1 {
      if end - ptr.pos < 3 {
        return Refused(d);
      }
      var ok, username, length := ptr.ReadLenString(end);
      if !ok {
        return ConnectRead(false, d, Some(Torn(Username, length)));
      }
      d := d.(username := username);
      if flags / 64 % 2 == 1 {
        r := ReadPasswordField(d, ptr, end);
        return;
      }
    } else if flags / 64 % 2 == 1 {
      return Refused(d);
    }
    return Done(d);
  }

  method ReadOptionalFields(before: ConnectData, flags: byte, ptr: InPointer, end: nat) returns (r: ConnectRead)
    requires ptr.pos <= |ptr.buf| && end <= |ptr.buf|
    modifies ptr
    ensures r == ReadOptional(before, flags, old(ptr.Rest()), end - old(ptr.pos))
  {
    r := ReadWillFields(before, flags, ptr, end);
    if r.ok {
      r := ReadCredentialFields(r.data, flags, ptr, end);
    }
  }

  method ReadPayloadFields(before: ConnectData, flags: byte, ptr: InPointer, end: nat) returns (r: ConnectRead)
    requires ptr.pos <= |ptr.buf| && end <= |ptr.buf|
    modifies ptr
    ensures r == ReadPayload(before, flags, old(ptr.Rest()), end - old(ptr.pos))
  {
    ghost var s, avail := ptr.Rest(), end - ptr.pos;
    var d := before;
    var ok, id, length := ptr.ReadLenString(end);
    if !ok {
      return ConnectRead(false, d, Some(Torn(ClientId, length)));
    }
    ReadPayloadStep(before, flags, s, avail, id.data.value, ptr.Rest(), end - ptr.pos);
    d := d.(clientId := id);
    d := d.(willFlag := flags / 4 % 2);
    assert d == before.(clientId := Received(id.data.value), willFlag := flags / 4 % 2);
    r := ReadOptionalFields(d, flags, ptr, end);
  }

  method ReadOptionsFields(before: ConnectData, ptr: InPointer, end: nat) returns (r: ConnectRead)
    requires ptr.pos + 3 <= |ptr.buf| && end <= |ptr.buf|
    modifies ptr
    ensures r == ReadOptions(before, old(ptr.Rest()), end - old(ptr.pos))
  {
    ghost var s, avail := ptr.Rest(), end - ptr.pos;
    var flags := ptr.ReadChar();
    var d := before.(cleanSession := flags / 2 % 2);
    var keepAlive := ptr.ReadInt();
    d := d.(keepAlive := keepAlive);
    assert ptr.Rest() == s[3..] && end - ptr.pos == avail - 3;
    assert d == before.(cleanSession := s[0] / 2 % 2, keepAlive := IntValue(s[1], s[2]));
    ReadOptionsStep(before, s, avail, d, ptr.Rest(), end - ptr.pos);
    r := ReadPayloadFields(d, flags, ptr, end);
  }

  method ReadBodyFields(before: ConnectData, ptr: InPointer, end: nat) returns (r: ConnectRead)
    requires ptr.pos <= |ptr.buf| && end <= |ptr.buf| && FramedBody(ptr.Rest(), end - ptr.pos)
    modifies ptr
    ensures r == ReadBody(before, old(ptr.Rest()), end - old(ptr.pos))
  {
    var ok, protocol, _ := ptr.ReadLenString(end);
    if !ok {
      return Refused(before);
    }
    var version := ptr.ReadChar();
    if !CheckVersion(protocol.data.value, version) {
      return Refused(before);
    }
    r := ReadOptionsFields(before, ptr, end);
  }

  /**
   * Reads a CONNECT packet field by field over the structure given; the result is 1 for success. On failure the
   * structure keeps the fields read until then, and `torn` tells of a string that was being read.
   */
  method Deserialize(before: ConnectData, buf: bytes, len: nat) returns (rc: int, d: ConnectData, torn: Option<Torn>)
    requires Framed(buf, len)
    ensures var r := Deserialized(before, buf, len);
      rc == (if r.ok then 1 else 0) && d == r.data && torn == r.torn
  {
    if TypeOf(buf[0]) != CONNECT {
      return 0, before, None;
    }
    var cur := 1 + DecodeLength(buf[1..]).count;
    ghost var goal := ReadBody(before, buf[cur..], len - cur);
    assert Deserialized(before, buf, len) == goal;
    var ptr := new InPointer(buf, cur);
    var r := ReadBodyFields(before, ptr, len);
    return if r.ok then 1 else 0, r.data, r.torn;
  }

  // ---- the round trip ----

  /** What the reader makes of written data; fields the packet does not carry stay as they were. */
  function Recovered(before: ConnectData, d: ConnectData): ConnectData {
    before.(
      cleanSession := d.cleanSession % 2, keepAlive := d.keepAlive,
      clientId := Received(Content(d.clientId)), willFlag := Bit(d.willFlag != 0),
      will := if d.willFlag != 0 then Will(Received(Content(d.will.topic)), Received(Content(d.will.message)),
                                           d.will.qos % 4, d.will.retained % 2)
              else before.will,
      username := if Present(d.username) then Received(Content(d.username)) else before.username,
      password := if Present(d.password) then Received(Content(d.password)) else before.password)
  }

  /** A password needs a user name and at least a byte; an empty user name passes only in front of a password. */
  predicate CredentialsReadable(d: ConnectData) {
    && (Present(d.username) ==> |Content(d.username)| > 0 || Present(d.password))
    && (Present(d.password) ==> Present(d.username) && |Content(d.password)| > 0)
  }

  /** Reading succeeds exactly in this case, and then gives this structure. */
  predicate Gives(r: ConnectRead, readable: bool, d: ConnectData) {
    (r.ok <==> readable) && (readable ==> r == Done(d))
  }

  predicate AllSendable(d: ConnectData) {
    && Sendable(d.clientId) && Sendable(d.username) && Sendable(d.password)
    && (d.willFlag != 0 ==> Sendable(d.will.topic) && Sendable(d.will.message))
  }

  lemma BitsBack(u: nat, p: nat, r: nat, q: nat, w: nat, c: nat)
    requires u < 2 && p < 2 && r < 2 && q < 4 && w < 2 && c < 2
    ensures var f := u * 128 + p * 64 + (r * 32 + q * 8 + w * 4) + c * 2;
      && f / 128 == u && f / 64 % 2 == p && f / 32 % 2 == r && f / 8 % 4 == q && f / 4 % 2 == w && f / 2 % 2 == c
  {
    var f := u * 128 + p * 64 + (r * 32 + q * 8 + w * 4) + c * 2;
    assert f / 64 == u * 2 + p;
    assert f / 32 == u * 4 + p * 2 + r;
    assert f / 8 == u * 16 + p * 8 + r * 4 + q;
    assert f / 4 == u * 32 + p * 16 + r * 8 + q * 2 + w;
    assert f / 2 == u * 64 + p * 32 + r * 16 + q * 4 + w * 2 + c;
  }

  lemma FlagsBack(d: ConnectData)
    ensures var f := FlagsByte(d);
      && f / 128 == Bit(Present(d.username)) && f / 64 % 2 == Bit(Present(d.password))
      && f / 4 % 2 == Bit(d.willFlag != 0) && f / 2 % 2 == d.cleanSession % 2
      && (d.willFlag != 0 ==> f / 8 % 4 == d.will.qos % 4 && f / 32 % 2 == d.will.retained % 2)
  {
    var on := d.willFlag != 0;
    BitsBack(Bit(Present(d.username)), Bit(Present(d.password)), if on then d.will.retained % 2 else 0,
             if on then d.will.qos % 4 else 0, Bit(on), d.cleanSession % 2);
  }

  function WithCredentials(r: ConnectData, d: ConnectData): ConnectData {
    r.(username := if Present(d.username) then Received(Content(d.username)) else r.username,
       password := if Present(d.password) then Received(Content(d.password)) else r.password)
  }

  function WithWill(r: ConnectData, d: ConnectData): ConnectData {
    if d.willFlag != 0 then
      r.(will := Will(Received(Content(d.will.topic)), Received(Content(d.will.message)),
                      d.will.qos % 4, d.will.retained % 2))
    else r
  }

  lemma CredentialsBack(r: ConnectData, d: ConnectData, t: bytes, avail: int)
    requires AllSendable(d) && avail == |CredentialBytes(d)|
    ensures Gives(ReadCredentials(r, FlagsByte(d), CredentialBytes(d) + t, avail),
                  CredentialsReadable(d), WithCredentials(r, d))
  {
    var u, p := StringIf(Present(d.username), d.username), StringIf(Present(d.password), d.password);
    FlagsBack(d);
    assert u + p + t == u + (p + t);
    if Present(d.username) {
      StringBack(d.username, p + t, |u + p|);
      if Present(d.password) {
        StringBack(d.password, t, |p|);
      }
    }
  }

  lemma TwoStringsBack(x: MqttString, y: MqttString, rest: bytes, avail: nat)
    requires Sendable(x) && Sendable(y)
    requires |StringBytes(x)| + |StringBytes(y)| <= avail <= |StringBytes(x)| + |StringBytes(y)| + |rest|
    ensures var s, n := StringBytes(x) + StringBytes(y) + rest, |StringBytes(x)|;
      && ReadString(s, avail) == Some(Content(x)) && n == 2 + |Content(x)|
      && ReadString(s[n..], avail - n) == Some(Content(y))
      && s[n..][2 + |Content(y)|..] == rest
  {
    var a, b := StringBytes(x), StringBytes(y);
    assert a + b + rest == a + (b + rest);
    StringBack(x, b + rest, avail);
    StringBack(y, rest, avail - |a|);
  }

  lemma WillBack(r: ConnectData, d: ConnectData, rest: bytes, avail: nat)
    requires AllSendable(d) && |WillBytes(d)| <= avail <= |WillBytes(d) + rest|
    ensures ReadWill(r, FlagsByte(d), WillBytes(d) + rest, avail)
            == Step(Done(WithWill(r, d)), rest, avail - |WillBytes(d)|)
  {
    FlagsBack(d);
    if d.willFlag != 0 {
      TwoStringsBack(d.will.topic, d.will.message, rest, avail);
      var s, n := WillBytes(d) + rest, |StringBytes(d.will.topic)|;
      var m := n + 2 + |Content(d.will.message)|;
      assert s[m..] == s[n..][2 + |Content(d.will.message)|..];
    } else {
      assert WillBytes(d) + rest == rest;
    }
  }

  lemma PayloadSplit(d: ConnectData, t: bytes)
    ensures PayloadBytes(d) + t == StringBytes(d.clientId) + (WillBytes(d) + (CredentialBytes(d) + t))
    ensures |PayloadBytes(d)| == 2 + |Content(d.clientId)| + |WillBytes(d)| + |CredentialBytes(d)|
  {
    ThreeAndMore(StringBytes(d.clientId), WillBytes(d), CredentialBytes(d), t);
  }

  lemma ThreeAndMore(a: bytes, b: bytes, c: bytes, t: bytes)
    ensures a + (b + c) + t == a + (b + (c + t))
  {
  }

  /** The data once the client id and the will flag are read. */
  function WithId(r: ConnectData, d: ConnectData): ConnectData {
    r.(clientId := Received(Content(d.clientId)), willFlag := Bit(d.willFlag != 0))
  }

  lemma OptionalBack(r: ConnectData, d: ConnectData, t: bytes, avail: nat)
    requires AllSendable(d) && avail == |WillBytes(d)| + |CredentialBytes(d)|
    ensures Gives(ReadOptional(r, FlagsByte(d), WillBytes(d) + (CredentialBytes(d) + t), avail),
                  CredentialsReadable(d), WithCredentials(WithWill(r, d), d))
  {
    var rest := CredentialBytes(d) + t;
    WillBack(r, d, rest, avail);
    CredentialsBack(WithWill(r, d), d, t, |CredentialBytes(d)|);
    BehindWill(r, FlagsByte(d), WillBytes(d) + rest, avail, WithWill(r, d), rest, |CredentialBytes(d)|);
  }

  lemma BehindWill(r: ConnectData, flags: byte, s: bytes, avail: nat, w: ConnectData, rest: bytes, left: nat)
    requires avail <= |s| && left <= |rest| && ReadWill(r, flags, s, avail) == Step(Done(w), rest, left)
    ensures ReadOptional(r, flags, s, avail) == ReadCredentials(w, flags, rest, left)
  {
  }

  lemma PayloadBack(r: ConnectData, d: ConnectData, t: bytes)
    requires AllSendable(d)
    ensures Gives(ReadPayload(r, FlagsByte(d), PayloadBytes(d) + t, |PayloadBytes(d)|),
                  CredentialsReadable(d), WithCredentials(WithWill(WithId(r, d), d), d))
  {
    var id, p, rest := Content(d.clientId), PayloadBytes(d), WillBytes(d) + (CredentialBytes(d) + t);
    var left := |WillBytes(d)| + |CredentialBytes(d)|;
    PayloadSplit(d, t);
    StringBack(d.clientId, rest, |p|);
    FlagsBack(d);
    OptionalBack(WithId(r, d), d, t, left);
    ReadPayloadStep(r, FlagsByte(d), p + t, |p|, id, rest, left);
  }

  lemma ProtocolBack(version: nat, rest: bytes, avail: nat)
    requires version == 3 || version == 4
    requires |ProtocolBytes(version)| <= avail <= |ProtocolBytes(version) + rest|
    ensures var s, name := ProtocolBytes(version) + rest, if version == 4 then MQTT else MQISDP;
      && ReadString(s, avail) == Some(name) && |ProtocolBytes(version)| == 3 + |name|
      && s[2 + |name|] == version && CheckVersion(name, version) && s[3 + |name|..] == rest
  {
    var name := if version == 4 then MQTT else MQISDP;
    var m := MqttString(None, Some(name));
    assert ProtocolBytes(version) + rest == StringBytes(m) + ([version] + rest);
    StringBack(m, [version] + rest, avail);
  }

  /** Flags, keep-alive and payload, as they follow the protocol name and version. */
  ghost function AfterProtocol(d: ConnectData, t: bytes): bytes {
    [FlagsByte(d)] + IntBytes(d.keepAlive) + (PayloadBytes(d) + t)
  }

  lemma AfterProtocolBack(d: ConnectData, t: bytes)
    requires d.keepAlive < 65536
    ensures var rest := AfterProtocol(d, t);
      |rest| >= 3 && rest[0] == FlagsByte(d) && IntValue(rest[1], rest[2]) == d.keepAlive && rest[3..] == PayloadBytes(d) + t
  {
    IntBack(d.keepAlive);
    var head := [FlagsByte(d)] + IntBytes(d.keepAlive);
    assert (head + (PayloadBytes(d) + t))[|head|..] == PayloadBytes(d) + t;
  }

  lemma BodySplit(d: ConnectData, t: bytes)
    ensures Body(d) + t == ProtocolBytes(d.version) + AfterProtocol(d, t)
    ensures |Body(d)| == |ProtocolBytes(d.version)| + 3 + |PayloadBytes(d)|
  {
    FourAndMore(ProtocolBytes(d.version), [FlagsByte(d)], IntBytes(d.keepAlive), PayloadBytes(d), t);
  }

  lemma FourAndMore(a: bytes, b: bytes, c: bytes, d: bytes, t: bytes)
    ensures a + b + c + d + t == a + (b + c + (d + t))
  {
  }

  lemma ReadBodyStep(before: ConnectData, s: bytes, avail: int, name: bytes, rest: bytes, left: int)
    requires avail <= |s| && ReadString(s, avail) == Some(name) && 3 + |name| <= |s|
    requires CheckVersion(name, s[2 + |name|]) && rest == s[3 + |name|..] && |rest| >= 3 && left == avail - 6 - |name| <= |rest[3..]|
    ensures FramedBody(s, avail)
    ensures ReadBody(before, s, avail)
            == ReadPayload(before.(cleanSession := rest[0] / 2 % 2, keepAlive := IntValue(rest[1], rest[2])),
                           rest[0], rest[3..], left)
  {
    assert avail - (2 + |name|) - 1 - 3 == left;
  }

  lemma BodyBack(before: ConnectData, d: ConnectData, t: bytes)
    requires WellGiven(d) && AllSendable(d) && d.keepAlive < 65536
    ensures var b := Body(d);
      && FramedBody(b + t, |b|)
      && Gives(ReadBody(before, b + t, |b|), CredentialsReadable(d), Recovered(before, d))
  {
    var b, rest := Body(d), AfterProtocol(d, t);
    var name := if d.version == 4 then MQTT else MQISDP;
    BodySplit(d, t);
    AfterProtocolBack(d, t);
    ProtocolBack(d.version, rest, |b|);
    FlagsBack(d);
    var left := |b| - 6 - |name|;
    ReadBodyStep(before, b + t, |b|, name, rest, left);
    assert left == |PayloadBytes(d)|;
    PayloadBack(before.(cleanSession := d.cleanSession % 2, keepAlive := d.keepAlive), d, t);
  }

  /**
   Section 3.1: the serialized packet is read back exactly when its credentials are readable, and then every field but
   the version comes back, whatever follows the packet.
   */
  lemma RoundTrip(before: ConnectData, d: ConnectData, t: bytes)
    requires WellGiven(d) && AllSendable(d) && d.keepAlive < 65536 && SerializeLength(d) <= MAX_REMAINING_LENGTH
    ensures ReadsBack(before, ConnectPacket(d) + t, |ConnectPacket(d)|, CredentialsReadable(d), Recovered(before, d))
  {
    BodyBack(before, d, t);
    assert |Body(d)| <= MAX_REMAINING_LENGTH by {
      LengthIsSize(d);
    }
    ConnectHeader();
    PacketIsRead(before, HeaderByte(CONNECT, 0, 0, 0), Body(d), t);
    SameRead(before, ConnectPacket(d) + t, |ConnectPacket(d)|, ReadBody(before, Body(d) + t, |Body(d)|),
             CredentialsReadable(d), Recovered(before, d));
  }

  /** The first `len` bytes of the buffer are read with success exactly in this case, and then give this structure. */
  predicate ReadsBack(before: ConnectData, buf: bytes, len: nat, readable: bool, d: ConnectData) {
    Framed(buf, len) && Gives(Deserialized(before, buf, len), readable, d)
  }

  lemma SameRead(before: ConnectData, buf: bytes, len: nat, r: ConnectRead, readable: bool, d: ConnectData)
    requires Framed(buf, len) && Deserialized(before, buf, len) == r && Gives(r, readable, d)
    ensures ReadsBack(before, buf, len, readable, d)
  {
  }

  lemma ConnectHeader()
    ensures TypeOf(HeaderByte(CONNECT, 0, 0, 0)) == CONNECT
  {
    HeaderBack(CONNECT, 0, 0, 0);
  }

  lemma PacketIsRead(before: ConnectData, header: byte, body: bytes, t: bytes)
    requires |body| <= MAX_REMAINING_LENGTH && FramedBody(body + t, |body|) && TypeOf(header) == CONNECT
    ensures var packet := Packet(header, body);
      Framed(packet + t, |packet|) && Deserialized(before, packet + t, |packet|) == ReadBody(before, body + t, |body|)
  {
    PacketBack(header, body, t);
  }
}
