/** The MQTT 3.1.1 packet primitives: remaining length, integers, strings, and the two pointers that use them. */
module MqttPacket {
  import opened Bytes

  // ---- remaining length (section 2.2.3) ----

  const MAX_REMAINING_LENGTH: nat := 268435455
  const MAX_LENGTH_BYTES: nat := 4

  function EncodeLength(length: nat): (s: bytes)
    ensures s != []
    decreases length
  {
    var d := length % 128;
    if length / 128 > 0 then [d + 128] + EncodeLength(length / 128) else [d]
  }

  /** The value decoded, the count the decoder returns, and whether it stopped at a last length byte. */
  datatype LengthRead = LengthRead(value: nat, count: nat, complete: bool)

  /** Reads length bytes from the head of `s`, `count` of them having been read: a fifth one, or none left, ends it. */
  function DecodeLengthFrom(s: bytes, count: nat): (r: LengthRead)
    ensures count < r.count
    ensures r.complete ==> r.count - count <= |s| && r.count <= MAX_LENGTH_BYTES
    decreases |s|
  {
    if count + 1 > MAX_LENGTH_BYTES || s == [] then LengthRead(0, count + 1, false)
    else if s[0] >= 128 then
      var r := DecodeLengthFrom(s[1..], count + 1);
      LengthRead(s[0] % 128 + 128 * r.value, r.count, r.complete)
    else LengthRead(s[0], count + 1, true)
  }

  function DecodeLength(s: bytes): LengthRead {
    DecodeLengthFrom(s, 0)
  }

  /** The decoder counts one byte exactly if the first one is a last one, or there is none. */
  lemma OneLengthByte(s: bytes)
    ensures DecodeLength(s).count == 1 <==> s == [] || s[0] < 128
  {
    if s != [] && s[0] >= 128 {
      assert DecodeLength(s).count == DecodeLengthFrom(s[1..], 1).count;
    }
  }

  lemma {:induction false} EncodedSize(n: nat)
    ensures n < 128 ==> |EncodeLength(n)| == 1
    ensures 128 <= n < 16384 ==> |EncodeLength(n)| == 2
    ensures 16384 <= n < 2097152 ==> |EncodeLength(n)| == 3
    ensures 2097152 <= n <= MAX_REMAINING_LENGTH ==> |EncodeLength(n)| == 4
    decreases n
  {
    if n >= 128 {
      EncodedSize(n / 128);
    }
  }

  lemma {:induction false} DecodeEncodeFrom(n: nat, t: bytes, count: nat)
    requires count + |EncodeLength(n)| <= MAX_LENGTH_BYTES
    ensures DecodeLengthFrom(EncodeLength(n) + t, count) == LengthRead(n, count + |EncodeLength(n)|, true)
    decreases n
  {
    var s := EncodeLength(n) + t;
    if n >= 128 {
      assert s[1..] == EncodeLength(n / 128) + t;
      DecodeEncodeFrom(n / 128, t, count + 1);
    }
  }

  /** Decoding inverts encoding over the whole range the protocol allows, whatever follows. */
  lemma DecodeInvertsEncode(n: nat, t: bytes)
    requires n <= MAX_REMAINING_LENGTH
    ensures DecodeLength(EncodeLength(n) + t) == LengthRead(n, |EncodeLength(n)|, true)
    ensures |EncodeLength(n)| <= MAX_LENGTH_BYTES
  {
    EncodedSize(n);
    DecodeEncodeFrom(n, t, 0);
  }

  /** No accepted encoding of a value is shorter than the one the encoder writes. */
  lemma {:induction false} EncodeIsMinimal(s: bytes, count: nat)
    requires DecodeLengthFrom(s, count).complete
    ensures count + |EncodeLength(DecodeLengthFrom(s, count).value)| <= DecodeLengthFrom(s, count).count
    decreases |s|
  {
    if s[0] >= 128 {
      EncodeIsMinimal(s[1..], count + 1);
      var v := DecodeLengthFrom(s[1..], count + 1).value;
      assert (s[0] % 128 + 128 * v) / 128 == v;
      if v == 0 {
        assert |EncodeLength(s[0] % 128 + 128 * v)| == 1;
      }
    }
  }

  lemma {:induction false} DecodedIsInRange(s: bytes, count: nat)
    requires count <= MAX_LENGTH_BYTES
    ensures DecodeLengthFrom(s, count).value < Power128(MAX_LENGTH_BYTES - count)
    decreases |s|
  {
    if count < MAX_LENGTH_BYTES && s != [] {
      assert Power128(MAX_LENGTH_BYTES - count) == 128 * Power128(MAX_LENGTH_BYTES - count - 1);
      DecodedIsInRange(s[1..], count + 1);
    }
  }

  function Power128(k: nat): (p: nat)
    ensures p > 0
  {
    if k == 0 then 1 else 128 * Power128(k - 1)
  }

  /** Whatever the bytes are, the value decoded from them stays within the protocol's limit. */
  lemma DecodedIsBounded(s: bytes)
    ensures DecodeLength(s).value <= MAX_REMAINING_LENGTH
  {
    DecodedIsInRange(s, 0);
    assert Power128(4) == 128 * (128 * (128 * (128 * Power128(0))));
  }

  /** The packet size a serializer compares with the buffer before writing. */
  function PacketLength(remLen: nat): nat {
    var withHeader := remLen + 1;
    if withHeader < 128 then withHeader + 1
    else if withHeader < 16384 then withHeader + 2
    else if withHeader < 2097151 then withHeader + 3
    else withHeader + 4
  }

  /** The size check never underestimates, and overestimates by one byte at exactly four lengths. */
  lemma PacketLengthIsSafe(n: nat)
    requires n <= MAX_REMAINING_LENGTH
    ensures PacketLength(n) == 1 + |EncodeLength(n)| + n + if n in {127, 16383, 2097150, 2097151} then 1 else 0
  {
    EncodedSize(n);
  }

  lemma EncodeStep(done: bytes, left: nat)
    ensures var d := left % 128 + if left / 128 > 0 then 128 else 0;
      done + EncodeLength(left) == done + [d] + if left / 128 > 0 then EncodeLength(left / 128) else []
  {
  }

  method PutByte(buf: array<byte>, at: nat, d: byte, ghost before: bytes, ghost off: nat, ghost done: bytes)
    requires at == off + |done| < |before| == buf.Length && buf[..] == Overlay(before, off, done)
    modifies buf
    ensures buf[..] == Overlay(before, off, done + [d])
  {
    OverlayNext(before, off, done, d);
    buf[at] := d;
  }

  method Encode(buf: array<byte>, off: nat, length: nat) returns (rc: nat)
    requires off + |EncodeLength(length)| <= buf.Length
    modifies buf
    ensures rc == |EncodeLength(length)|
    ensures buf[..] == Overlay(old(buf[..]), off, EncodeLength(length))
  {
    rc := 0;
    var left := length;
    var more := true;
    ghost var before: bytes, done: bytes := buf[..], [];
    while more
      invariant rc == |done| && off + rc <= buf.Length
      invariant EncodeLength(length) == done + if more then EncodeLength(left) else []
      invariant buf[..] == Overlay(before, off, done)
      decreases more, left
    {
      EncodeStep(done, left);
      var d := left % 128;
      left := left / 128;
      if left > 0 {
        d := d + 128;
      }
      PutByte(buf, off + rc, d, before, off, done);
      rc := rc + 1;
      more := left > 0;
      done := done + [d];
    }
  }

  // ---- the header byte ----

  const CONNECT: nat := 1
  const PUBLISH: nat := 3
  const SUBSCRIBE: nat := 8
  const UNSUBSCRIBE: nat := 10

  /** The bit fields of the header: four bits of type, one of dup, two of QoS, one of retain. */
  function HeaderByte(packetType: nat, dup: nat, qos: nat, retain: nat): byte
    requires packetType < 16
  {
    packetType * 16 + dup % 2 * 8 + qos % 4 * 2 + retain % 2
  }

  function TypeOf(header: byte): nat { header / 16 }

  function DupOf(header: byte): nat { header / 8 % 2 }

  function QosOf(header: byte): nat { header / 2 % 4 }

  function RetainOf(header: byte): nat { header % 2 }

  lemma HeaderBack(packetType: nat, dup: nat, qos: nat, retain: nat)
    requires packetType < 16
    ensures var h := HeaderByte(packetType, dup, qos, retain);
      TypeOf(h) == packetType && DupOf(h) == dup % 2 && QosOf(h) == qos % 4 && RetainOf(h) == retain % 2
  {
    FieldsBack(packetType, dup % 2, qos % 4, retain % 2);
  }

  lemma FieldsBack(t: nat, d: nat, q: nat, r: nat)
    requires t < 16 && d < 2 && q < 4 && r < 2
    ensures var h := t * 16 + d * 8 + q * 2 + r;
      h < 256 && h / 16 == t && h / 8 % 2 == d && h / 2 % 4 == q && h % 2 == r
  {
    var h := t * 16 + d * 8 + q * 2 + r;
    assert h / 8 == t * 2 + d;
    assert h / 2 == t * 8 + d * 4 + q;
  }

  /** What a serializer writes: header byte, the remaining length it counted, and the body. */
  function Written(header: byte, length: nat, body: bytes): bytes {
    [header] + EncodeLength(length) + body
  }

  /** A packet: the length counted is the body's. */
  function Packet(header: byte, body: bytes): bytes {
    Written(header, |body|, body)
  }

  /** What a serializer needs of its buffer, which it compares only with the length it counted. */
  predicate RoomToWrite(buflen: nat, length: nat, body: bytes) {
    PacketLength(length) <= buflen ==> 1 + |EncodeLength(length)| + |body| <= buflen
  }

  /** It is given by a buffer of any size as soon as the length is counted right. */
  lemma RoomForPacket(buflen: nat, body: bytes)
    requires |body| <= MAX_REMAINING_LENGTH
    ensures RoomToWrite(buflen, |body|, body)
  {
    PacketLengthIsSafe(|body|);
  }

  /** Reading the front of a packet gives its header and its length, and leaves its body. */
  lemma PacketBack(header: byte, body: bytes, t: bytes)
    requires |body| <= MAX_REMAINING_LENGTH
    ensures var s := Packet(header, body) + t;
      && s != [] && s[0] == header
      && DecodeLength(s[1..]) == LengthRead(|body|, |EncodeLength(|body|)|, true)
      && s[1 + |EncodeLength(|body|)|..] == body + t
  {
    var s := Packet(header, body) + t;
    assert s[1..] == EncodeLength(|body|) + (body + t);
    DecodeInvertsEncode(|body|, body + t);
    assert s[1 + |EncodeLength(|body|)|..] == body + t;
  }

  const BUFFER_TOO_SHORT: int := -2

  // ---- integers and strings ----

  function IntBytes(n: nat): (s: bytes)
    ensures |s| == 2
  {
    [n / 256 % 256, n % 256]
  }

  function IntValue(high: byte, low: byte): nat {
    256 * high + low
  }

  lemma IntBack(n: nat)
    requires n < 65536
    ensures IntValue(IntBytes(n)[0], IntBytes(n)[1]) == n
  {
  }

  /** A string given as a C string, as counted data, as both, or not at all. */
  datatype MqttString = MqttString(cstring: Option<bytes>, data: Option<bytes>)

  /** What the length computation counts: the C string if there is one. */
  function StrLen(m: MqttString): nat {
    if m.cstring.Some? then |m.cstring.value| else if m.data.Some? then |m.data.value| else 0
  }

  /** What is written: the counted data if there is any. */
  function Content(m: MqttString): bytes {
    if m.data.Some? && |m.data.value| > 0 then m.data.value
    else if m.cstring.Some? then m.cstring.value
    else []
  }

  function StringBytes(m: MqttString): bytes {
    IntBytes(|Content(m)|) + Content(m)
  }

  predicate Present(m: MqttString) {
    m.cstring.Some? || m.data.Some?
  }

  /** The computed and the written length agree unless both forms are given and differ in length. */
  predicate Unambiguous(m: MqttString) {
    m.cstring.Some? && m.data.Some? && |m.data.value| > 0 ==> |m.cstring.value| == |m.data.value|
  }

  lemma LengthsAgree(m: MqttString)
    ensures |StringBytes(m)| == 2 + StrLen(m) <==> Unambiguous(m)
  {
  }

  /** A string the wire format can carry, with an unambiguous length. */
  predicate Sendable(m: MqttString) {
    Unambiguous(m) && |Content(m)| <= 65535
  }

  /** How the reader reports a string: counted data pointing into the packet. */
  function Received(content: bytes): MqttString {
    MqttString(None, Some(content))
  }

  /** A string read at a pointer with `avail` bytes before the end of the packet: the content, if it fits. */
  function ReadString(s: bytes, avail: int): (r: Option<bytes>)
    requires avail <= |s|
    ensures r.Some? ==> 2 + |r.value| <= avail
  {
    if avail > 1 then
      var length := IntValue(s[0], s[1]);
      if 2 + length <= avail then Some(s[2..2 + length]) else None
    else None
  }

  /** The length stored in a string while it is read, which happens before it is known to fit. */
  function StoredLength(s: bytes, avail: int): Option<nat>
    requires avail <= |s|
  {
    if avail > 1 then Some(IntValue(s[0], s[1])) else None
  }

  lemma StringBack(m: MqttString, t: bytes, avail: nat)
    requires |Content(m)| <= 65535 && |StringBytes(m)| <= avail <= |StringBytes(m) + t|
    ensures ReadString(StringBytes(m) + t, avail) == Some(Content(m))
    ensures (StringBytes(m) + t)[2 + |Content(m)|..] == t
  {
    var s := StringBytes(m) + t;
    IntBack(|Content(m)|);
    assert s[0] == IntBytes(|Content(m)|)[0] && s[1] == IntBytes(|Content(m)|)[1];
    assert s[2..2 + |Content(m)|] == Content(m);
  }

  // ---- the output pointer ----

  /** `ptr` moving through the caller's buffer, with everything written so far. */
  class OutPointer {
    const buf: array<byte>
    var pos: nat
    ghost const before: bytes
    ghost var text: bytes

    ghost predicate Consistent()
      reads this, buf
    {
      && pos == |text| <= |before| == buf.Length
      && buf[..] == text + before[pos..]
    }

    constructor (buf: array<byte>)
      ensures this.buf == buf && before == buf[..] && text == [] && Consistent()
    {
      this.buf, pos, before, text := buf, 0, buf[..], [];
    }

    lemma Extend(more: bytes)
      requires Consistent() && pos + |more| <= buf.Length
      ensures Overlay(buf[..], pos, more) == text + more + before[pos + |more|..]
    {
      assert buf[..][..pos] == text;
      assert buf[..][pos + |more|..] == before[pos + |more|..];
    }

    method WriteChar(c: byte)
      requires Consistent() && pos < buf.Length
      modifies this, buf
      ensures Consistent() && text == old(text) + [c]
    {
      Extend([c]);
      assert Overlay(buf[..], pos, [c]) == buf[..][pos := c];
      buf[pos] := c;
      pos := pos + 1;
      text := text + [c];
    }

    method WriteInt(n: nat)
      requires Consistent() && pos + 2 <= buf.Length
      modifies this, buf
      ensures Consistent() && text == old(text) + IntBytes(n)
    {
      WriteChar(n / 256 % 256);
      WriteChar(n % 256);
      assert text == old(text) + IntBytes(n);
    }

    method CopyBytes(data: bytes)
      requires Consistent() && pos + |data| <= buf.Length
      modifies this, buf
      ensures Consistent() && text == old(text) + data
    {
      Extend(data);
      ghost var now := Overlay(buf[..], pos, data);
      forall i | 0 <= i < |data| {
        buf[pos + i] := data[i];
      }
      assert buf[..] == now;
      pos := pos + |data|;
      text := text + data;
    }

    method WriteString(m: MqttString)
      requires Consistent() && pos + |StringBytes(m)| <= buf.Length
      modifies this, buf
      ensures Consistent() && text == old(text) + StringBytes(m)
    {
      ghost var lead := text;
      if m.data.Some? && |m.data.value| > 0 {
        WriteInt(|m.data.value|);
        CopyBytes(m.data.value);
      } else if m.cstring.Some? {
        WriteInt(|m.cstring.value|);
        CopyBytes(m.cstring.value);
      } else {
        WriteInt(0);
      }
      assert text == lead + StringBytes(m);
    }

    method WriteLength(length: nat)
      requires Consistent() && pos + |EncodeLength(length)| <= buf.Length
      modifies this, buf
      ensures Consistent() && text == old(text) + EncodeLength(length)
    {
      Extend(EncodeLength(length));
      var rc := Encode(buf, pos, length);
      pos := pos + rc;
      text := text + EncodeLength(length);
    }
  }

  // ---- the input pointer ----

  /** `curdata` moving through a received packet. */
  class InPointer {
    const buf: bytes
    var pos: nat

    function Rest(): bytes
      requires pos <= |buf|
      reads this
    {
      buf[pos..]
    }

    constructor (buf: bytes, pos: nat)
      ensures this.buf == buf && this.pos == pos
    {
      this.buf, this.pos := buf, pos;
    }

    method ReadChar() returns (c: byte)
      requires pos < |buf|
      modifies this
      ensures pos == old(pos) + 1 && c == old(Rest())[0] && Rest() == old(Rest())[1..]
    {
      c := buf[pos];
      pos := pos + 1;
    }

    method ReadInt() returns (n: nat)
      requires pos + 2 <= |buf|
      modifies this
      ensures pos == old(pos) + 2 && n == IntValue(old(Rest())[0], old(Rest())[1]) && Rest() == old(Rest())[2..]
    {
      n := IntValue(buf[pos], buf[pos + 1]);
      pos := pos + 2;
    }

    /**
     * Reads a string and moves behind it. A string that does not fit still has its length overwritten, if the two
     * bytes for it are there, and the pointer moved behind them.
     */
    method ReadLenString(end: nat) returns (ok: bool, m: MqttString, length: Option<nat>)
      requires pos <= |buf| && end <= |buf|
      modifies this
      ensures pos <= |buf| && length == StoredLength(old(Rest()), end - old(pos))
      ensures var r := ReadString(old(Rest()), end - old(pos));
        if r.Some? then
          && ok && m == Received(r.value) && length == Some(|r.value|)
          && pos == old(pos) + 2 + |r.value| && Rest() == old(Rest())[2 + |r.value|..]
        else !ok && pos == old(pos) + if length.Some? then 2 else 0
    {
      ghost var s := Rest();
      ok, m, length := false, Received([]), None;
      if end - pos > 1 {
        var n := ReadInt();
        length := Some(n);
        if pos + n <= end {
          assert buf[pos..pos + n] == s[2..2 + n];
          m := Received(buf[pos..pos + n]);
          pos := pos + n;
          ok := true;
        }
      }
    }
  }
}
