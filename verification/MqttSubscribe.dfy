/** SUBSCRIBE and UNSUBSCRIBE: a packet id and a list of topic filters, with a requested QoS each for SUBSCRIBE. */
module MqttSubscribe {
  import opened Bytes
  import opened MqttPacket

  datatype Kind = Subscribe | Unsubscribe

  function TypeCode(kind: Kind): nat {
    if kind.Subscribe? then SUBSCRIBE else UNSUBSCRIBE
  }

  /** One filter as written; the QoS is cut to a byte and only SUBSCRIBE has it. */
  function EntryBytes(kind: Kind, filter: MqttString, qos: nat): bytes {
    StringBytes(filter) + if kind.Subscribe? then [qos % 256] else []
  }

  function ListBytes(kind: Kind, filters: seq<MqttString>, qoss: seq<nat>): bytes
    requires |filters| == |qoss|
  {
    if filters == [] then [] else EntryBytes(kind, filters[0], qoss[0]) + ListBytes(kind, filters[1..], qoss[1..])
  }

  function Body(kind: Kind, packetId: nat, filters: seq<MqttString>, qoss: seq<nat>): bytes
    requires |filters| == |qoss|
  {
    IntBytes(packetId) + ListBytes(kind, filters, qoss)
  }

  /** The packet both serializers write: QoS 1 in the header, as the protocol fixes it. */
  function ListPacket(kind: Kind, dup: nat, packetId: nat, filters: seq<MqttString>, qoss: seq<nat>): bytes
    requires |filters| == |qoss|
  {
    Packet(HeaderByte(TypeCode(kind), dup, 1, 0), Body(kind, packetId, filters, qoss))
  }

  function EntryLength(kind: Kind, filter: MqttString): nat {
    2 + StrLen(filter) + if kind.Subscribe? then 1 else 0
  }

  function ListLength(kind: Kind, filters: seq<MqttString>): nat {
    if filters == [] then 0 else EntryLength(kind, filters[0]) + ListLength(kind, filters[1..])
  }

  predicate AllSendable(filters: seq<MqttString>) {
    forall i | 0 <= i < |filters| :: Sendable(filters[i])
  }

  /** The length computed beforehand is the length written. */
  lemma {:induction false} ListLengthIsSize(kind: Kind, filters: seq<MqttString>, qoss: seq<nat>)
    requires |filters| == |qoss| && forall i | 0 <= i < |filters| :: Unambiguous(filters[i])
    ensures ListLength(kind, filters) == |ListBytes(kind, filters, qoss)|
  {
    if filters != [] {
      LengthsAgree(filters[0]);
      ListLengthIsSize(kind, filters[1..], qoss[1..]);
    }
  }

  // ---- writing ----

  lemma {:induction false} ListLengthAt(kind: Kind, filters: seq<MqttString>, i: nat)
    requires i < |filters|
    ensures ListLength(kind, filters[..i + 1]) == ListLength(kind, filters[..i]) + EntryLength(kind, filters[i])
  {
    if i == 0 {
      assert filters[..1] == [filters[0]];
      assert ListLength(kind, [filters[0]]) == EntryLength(kind, filters[0]) + ListLength(kind, []);
    } else {
      ListLengthAt(kind, filters[1..], i - 1);
      assert filters[..i + 1][1..] == filters[1..][..i] && filters[..i][1..] == filters[1..][..i - 1];
      assert filters[..i + 1][0] == filters[0] == filters[..i][0];
    }
  }

  method SerializeLength(kind: Kind, filters: seq<MqttString>) returns (len: nat)
    ensures len == 2 + ListLength(kind, filters)
  {
    len := 2;
    for i := 0 to |filters|
      invariant len == 2 + ListLength(kind, filters[..i])
    {
      ListLengthAt(kind, filters, i);
      len := len + EntryLength(kind, filters[i]);
    }
    assert filters[..|filters|] == filters;
  }

  method WriteEntry(kind: Kind, ptr: OutPointer, filter: MqttString, qos: nat)
    requires ptr.Consistent() && ptr.pos + |EntryBytes(kind, filter, qos)| <= ptr.buf.Length
    modifies ptr, ptr.buf
    ensures ptr.Consistent() && ptr.text == old(ptr.text) + EntryBytes(kind, filter, qos)
  {
    ptr.WriteString(filter);
    if kind.Subscribe? {
      ptr.WriteChar(qos % 256);
    }
    assert ptr.text == old(ptr.text) + EntryBytes(kind, filter, qos);
  }

  method WriteEntries(kind: Kind, ptr: OutPointer, filters: seq<MqttString>, qoss: seq<nat>)
    requires |filters| == |qoss|
    requires ptr.Consistent() && ptr.pos + |ListBytes(kind, filters, qoss)| <= ptr.buf.Length
    modifies ptr, ptr.buf
    ensures ptr.Consistent() && ptr.text == old(ptr.text) + ListBytes(kind, filters, qoss)
  {
    ghost var whole := ptr.text + ListBytes(kind, filters, qoss);
    assert filters[0..] == filters && qoss[0..] == qoss;
    for i := 0 to |filters|
      invariant ptr.Consistent() && |whole| <= ptr.buf.Length
      invariant ptr.text + ListBytes(kind, filters[i..], qoss[i..]) == whole
    {
      ghost var lead, e := ptr.text, EntryBytes(kind, filters[i], qoss[i]);
      ghost var rest := ListBytes(kind, filters[i + 1..], qoss[i + 1..]);
      assert lead + (e + rest) == lead + e + rest;
      assert |lead| + |e| + |rest| == |whole|;
      WriteEntry(kind, ptr, filters[i], qoss[i]);
    }
  }

  /** What is written, whatever was counted: a filter given in two forms is counted by one and written by the other. */
  function WrittenPacket(kind: Kind, dup: nat, packetId: nat, filters: seq<MqttString>, qoss: seq<nat>): bytes
    requires |filters| == |qoss|
  {
    Written(HeaderByte(TypeCode(kind), dup, 1, 0), 2 + ListLength(kind, filters), Body(kind, packetId, filters, qoss))
  }

  /** Unambiguous filters make it the packet, and any buffer that passes the size check holds it. */
  lemma WrittenIsPacket(buflen: nat, kind: Kind, dup: nat, packetId: nat, filters: seq<MqttString>, qoss: seq<nat>)
    requires |filters| == |qoss| && forall i | 0 <= i < |filters| :: Unambiguous(filters[i])
    ensures WrittenPacket(kind, dup, packetId, filters, qoss) == ListPacket(kind, dup, packetId, filters, qoss)
    ensures var length := 2 + ListLength(kind, filters);
      length <= MAX_REMAINING_LENGTH ==> RoomToWrite(buflen, length, Body(kind, packetId, filters, qoss))
  {
    var body := Body(kind, packetId, filters, qoss);
    ListLengthIsSize(kind, filters, qoss);
    if |body| <= MAX_REMAINING_LENGTH {
      RoomForPacket(buflen, body);
    }
  }

  /** Either refuses a buffer shorter than the computed packet length, or writes the packet and nothing after it. */
  method Serialize(kind: Kind, buf: array<byte>, dup: nat, packetId: nat, filters: seq<MqttString>, qoss: seq<nat>)
    returns (rc: int)
    requires |filters| == |qoss|
    requires RoomToWrite(buf.Length, 2 + ListLength(kind, filters), Body(kind, packetId, filters, qoss))
    modifies buf
    ensures PacketLength(2 + ListLength(kind, filters)) > buf.Length ==>
            rc == BUFFER_TOO_SHORT && buf[..] == old(buf[..])
    ensures PacketLength(2 + ListLength(kind, filters)) <= buf.Length ==>
            var packet := WrittenPacket(kind, dup, packetId, filters, qoss);
            rc == |packet| <= buf.Length && buf[..] == packet + old(buf[..])[|packet|..]
  {
    var remLen := SerializeLength(kind, filters);
    if PacketLength(remLen) > buf.Length {
      return BUFFER_TOO_SHORT;
    }
    var header := HeaderByte(TypeCode(kind), dup, 1, 0);
    var ptr := new OutPointer(buf);
    ptr.WriteChar(header);
    ptr.WriteLength(remLen);
    ptr.WriteInt(packetId);
    WriteEntries(kind, ptr, filters, qoss);
    Grouped([header], EncodeLength(remLen), IntBytes(packetId), ListBytes(kind, filters, qoss));
    rc := ptr.pos;
  }

  lemma Grouped(a: bytes, b: bytes, c: bytes, d: bytes)
    ensures [] + a + b + c + d == a + b + (c + d)
  {
  }

  // ---- reading ----

  datatype Entry = Entry(filter: bytes, qos: nat)

  /** The entries read before the end of the packet, or before one that does not fit. */
  datatype Entries = Entries(list: seq<Entry>, ok: bool)

  datatype EntryRead = EntryRead(entry: Entry, taken: nat)

  /** One pass of the reading loop. */
  function ReadEntry(kind: Kind, s: bytes, avail: nat): (r: Option<EntryRead>)
    requires 0 < avail <= |s|
    ensures r.Some? ==> 0 < r.value.taken <= avail
  {
    var filter := ReadString(s, avail);
    if filter.None? then None
    else
      var n := 2 + |filter.value|;
      if kind.Unsubscribe? then Some(EntryRead(Entry(filter.value, 0), n))
      else if avail - n <= 0 then None
      else Some(EntryRead(Entry(filter.value, s[n]), n + 1))
  }

  function ReadEntries(kind: Kind, s: bytes, avail: int): (r: Entries)
    requires avail <= |s|
    decreases |s|
  {
    if avail <= 0 then Entries([], true)
    else
      var e := ReadEntry(kind, s, avail);
      if e.None? then Entries([], false)
      else
        var r := ReadEntries(kind, s[e.value.taken..], avail - e.value.taken);
        Entries([e.value.entry] + r.list, r.ok)
  }

  /** What a deserializer reports: nothing but the result for a packet of another type. */
  datatype ListRead = WrongType | ListRead(dup: nat, packetId: nat, list: seq<Entry>, ok: bool, count: nat)

  /** A wrong type is -1 or 0; a broken list leaves the number of length bytes as the result. */
  function ResultOf(kind: Kind, r: ListRead): int {
    match r
    case WrongType => if kind.Subscribe? then -1 else 0
    case ListRead(_, _, _, ok, count) => if ok then 1 else count
  }

  /** The buffer holds as much as its length field says, and at least the two bytes read as a packet id. */
  predicate Framed(buf: bytes) {
    && buf != []
    && var d := DecodeLength(buf[1..]);
       1 + d.count + Max(2, d.value) <= |buf|
  }

  /** Reading after the fixed header: `s` is what the pointer sees, `avail` the rest of the packet. */
  function ReadBody(kind: Kind, dup: nat, count: nat, s: bytes, avail: nat): (r: ListRead)
    requires Max(2, avail) <= |s|
    ensures r.ListRead?
  {
    var r := ReadEntries(kind, s[2..], avail - 2);
    ListRead(dup, IntValue(s[0], s[1]), r.list, r.ok, count)
  }

  function Deserialized(kind: Kind, buf: bytes): (r: ListRead)
    requires Framed(buf)
    ensures r.WrongType? <==> TypeOf(buf[0]) != TypeCode(kind)
  {
    if TypeOf(buf[0]) != TypeCode(kind) then WrongType
    else
      var d := DecodeLength(buf[1..]);
      ReadBody(kind, DupOf(buf[0]), d.count, buf[1 + d.count..], d.value)
  }

  function Requested(kind: Kind, filters: seq<MqttString>, qoss: seq<nat>): (list: seq<Entry>)
    requires |filters| == |qoss|
    ensures |list| == |filters|
    ensures forall i | 0 <= i < |list| ::
              list[i] == Asked(kind, filters[i], qoss[i])
  {
    seq(|filters|, i requires 0 <= i < |filters| => Asked(kind, filters[i], qoss[i]))
  }

  function Asked(kind: Kind, filter: MqttString, qos: nat): Entry {
    Entry(Content(filter), if kind.Subscribe? then qos else 0)
  }

  lemma EntryBack(kind: Kind, filter: MqttString, qos: nat, rest: bytes, avail: nat)
    requires |Content(filter)| <= 65535 && qos < 256
    requires |EntryBytes(kind, filter, qos)| <= avail <= |EntryBytes(kind, filter, qos) + rest|
    ensures ReadEntry(kind, EntryBytes(kind, filter, qos) + rest, avail)
            == Some(EntryRead(Asked(kind, filter, qos), |EntryBytes(kind, filter, qos)|))
  {
    var q: bytes := if kind.Subscribe? then [qos] else [];
    var s := EntryBytes(kind, filter, qos) + rest;
    assert s == StringBytes(filter) + (q + rest);
    StringBack(filter, q + rest, avail);
    if kind.Subscribe? {
      assert s[2 + |Content(filter)|] == s[2 + |Content(filter)|..][0] == qos;
    }
  }

  lemma FirstBack(kind: Kind, filter: MqttString, qos: nat, others: bytes, t: bytes)
    requires |Content(filter)| <= 65535 && qos < 256
    ensures var l, r := EntryBytes(kind, filter, qos) + others, ReadEntries(kind, others + t, |others|);
      ReadEntries(kind, l + t, |l|) == Entries([Asked(kind, filter, qos)] + r.list, r.ok)
  {
    var e := EntryBytes(kind, filter, qos);
    var l := e + others;
    assert l + t == e + (others + t) && (l + t)[|e|..] == others + t;
    EntryBack(kind, filter, qos, others + t, |l|);
  }

  lemma {:induction false} ListBack(kind: Kind, filters: seq<MqttString>, qoss: seq<nat>, t: bytes)
    requires |filters| == |qoss| && AllSendable(filters)
    requires forall i | 0 <= i < |qoss| :: qoss[i] < 256
    ensures var l := ListBytes(kind, filters, qoss);
      ReadEntries(kind, l + t, |l|) == Entries(Requested(kind, filters, qoss), true)
  {
    if filters != [] {
      var e, others := EntryBytes(kind, filters[0], qoss[0]), ListBytes(kind, filters[1..], qoss[1..]);
      ListBack(kind, filters[1..], qoss[1..], t);
      FirstBack(kind, filters[0], qoss[0], others, t);
    }
  }

  /**
   Sections 3.8 and 3.10: for a list of any length of filters of at most 65535 bytes, reading the serialized packet
   gives back the packet id, the dup bit, and every filter with its QoS in order, whatever follows the packet.
   */
  lemma RoundTrip(kind: Kind, dup: nat, packetId: nat, filters: seq<MqttString>, qoss: seq<nat>, t: bytes)
    requires |filters| == |qoss| && AllSendable(filters)
    requires forall i | 0 <= i < |qoss| :: qoss[i] < 256
    requires packetId < 65536 && 2 + ListLength(kind, filters) <= MAX_REMAINING_LENGTH
    ensures var buf := ListPacket(kind, dup, packetId, filters, qoss) + t;
      && Framed(buf)
      && Deserialized(kind, buf)
         == ListRead(dup % 2, packetId, Requested(kind, filters, qoss), true, DecodeLength(buf[1..]).count)
      && ResultOf(kind, Deserialized(kind, buf)) == 1
  {
    var body := Body(kind, packetId, filters, qoss);
    ListLengthIsSize(kind, filters, qoss);
    HeaderBack(TypeCode(kind), dup, 1, 0);
    PacketIsRead(kind, HeaderByte(TypeCode(kind), dup, 1, 0), body, t);
    BodyBack(kind, dup % 2, |EncodeLength(|body|)|, packetId, filters, qoss, t);
  }

  lemma PacketIsRead(kind: Kind, header: byte, body: bytes, t: bytes)
    requires 2 <= |body| <= MAX_REMAINING_LENGTH && TypeOf(header) == TypeCode(kind)
    ensures var buf, count := Packet(header, body) + t, |EncodeLength(|body|)|;
      && Framed(buf) && DecodeLength(buf[1..]).count == count
      && Deserialized(kind, buf) == ReadBody(kind, DupOf(header), count, body + t, |body|)
  {
    PacketBack(header, body, t);
  }

  lemma IdInFront(packetId: nat, list: bytes, t: bytes)
    ensures var s := IntBytes(packetId) + list + t;
      s[0] == IntBytes(packetId)[0] && s[1] == IntBytes(packetId)[1] && s[2..] == list + t
  {
  }

  lemma BodyBack(kind: Kind, dup: nat, count: nat, packetId: nat, filters: seq<MqttString>, qoss: seq<nat>, t: bytes)
    requires |filters| == |qoss| && AllSendable(filters) && packetId < 65536
    requires forall i | 0 <= i < |qoss| :: qoss[i] < 256
    ensures var body := Body(kind, packetId, filters, qoss);
      ReadBody(kind, dup, count, body + t, |body|)
      == ListRead(dup, packetId, Requested(kind, filters, qoss), true, count)
  {
    var list := ListBytes(kind, filters, qoss);
    IdInFront(packetId, list, t);
    IntBack(packetId);
    ListBack(kind, filters, qoss, t);
  }

  /**
   * A result of 1 means that the list was read, unless the length of the packet took a single byte: then a broken list
   * gives 1 as well, because the failure leaves the number of length bytes as the result.
   */
  lemma OneMeansRead(kind: Kind, buf: bytes)
    requires Framed(buf) && TypeOf(buf[0]) == TypeCode(kind)
    ensures ResultOf(kind, Deserialized(kind, buf)) == 1 <==> Deserialized(kind, buf).ok || buf[1] < 128
  {
    OneLengthByte(buf[1..]);
  }

  /** A packet of the second kind: one length byte, a list that ends inside its first entry, and a result of 1. */
  lemma OneIsAmbiguous()
    ensures var buf := [130, 3, 0, 1, 0];
      && Framed(buf) && Deserialized(Subscribe, buf) == ListRead(0, 1, [], false, 1)
      && ResultOf(Subscribe, Deserialized(Subscribe, buf)) == 1
  {
    var buf := [130, 3, 0, 1, 0];
    assert buf[1..][0] == 3;
    assert buf[2..][2..] == [0];
  }

  /** The entries read so far and those still to come make up the whole list. */
  ghost predicate Reading(kind: Kind, whole: Entries, done: seq<Entry>, s: bytes, avail: int) {
    avail <= |s| && whole == Entries(done + ReadEntries(kind, s, avail).list, ReadEntries(kind, s, avail).ok)
  }

  lemma ReadingGoesOn(kind: Kind, whole: Entries, done: seq<Entry>, s: bytes, avail: nat, e: EntryRead)
    returns (done': seq<Entry>, s': bytes, avail': int)
    requires 0 < avail && Reading(kind, whole, done, s, avail) && ReadEntry(kind, s, avail) == Some(e)
    ensures done' == done + [e.entry] && s' == s[e.taken..] && avail' == avail - e.taken
    ensures |done| < |whole.list| && Reading(kind, whole, done', s', avail')
  {
    done', s', avail' := done + [e.entry], s[e.taken..], avail - e.taken;
    assert done + ([e.entry] + ReadEntries(kind, s', avail').list) == done' + ReadEntries(kind, s', avail').list;
  }

  /** One pass in terms of the position in the buffer: either an entry more, or the end of a broken list. */
  lemma ReadingPass(kind: Kind, whole: Entries, done: seq<Entry>, s: bytes, avail: int,
                    buf: bytes, cur: nat, end: nat, e: Option<EntryRead>)
    returns (done': seq<Entry>, s': bytes, avail': int)
    requires cur < end <= |buf| && s == buf[cur..] && avail == end - cur
    requires Reading(kind, whole, done, s, avail) && e == ReadEntry(kind, s, avail)
    ensures e.None? ==> whole == Entries(done, false) && done' == done
    ensures e.Some? ==>
              && |done| < |whole.list| && done' == done + [e.value.entry]
              && cur + e.value.taken <= end
              && s' == buf[cur + e.value.taken..] && avail' == end - (cur + e.value.taken)
              && Reading(kind, whole, done', s', avail')
  {
    if e.Some? {
      done', s', avail' := ReadingGoesOn(kind, whole, done, s, avail, e.value);
      assert s' == buf[cur + e.value.taken..];
    } else {
      done', s', avail' := done, s, avail;
    }
  }

  /** The caller's arrays start with the entries: filters as strings into the packet, and the QoS values of a SUBSCRIBE. */
  ghost predicate Stored(kind: Kind, list: seq<Entry>, filters: seq<MqttString>, qoss: seq<nat>) {
    && |list| <= |filters| && |list| <= |qoss|
    && forall i | 0 <= i < |list| ::
         filters[i] == Received(list[i].filter) && (kind.Subscribe? ==> qoss[i] == list[i].qos)
  }

  /** One pass of the loop: the filter, then the QoS byte of a SUBSCRIBE if there is still one. */
  method ReadOne(kind: Kind, buf: bytes, cur: nat, end: nat, topicFilters: array<MqttString>, requestedQoSs: array<nat>,
                 count: nat, ghost list: seq<Entry>, ghost s: bytes, ghost avail: nat, ghost e: Option<EntryRead>)
    returns (ok: bool, next: nat)
    requires cur < end <= |buf| && s == buf[cur..] && avail == end - cur && e == ReadEntry(kind, s, avail)
    requires e.Some? ==> count < topicFilters.Length && count < requestedQoSs.Length
    requires count == |list| && Stored(kind, list, topicFilters[..], requestedQoSs[..])
    modifies topicFilters, requestedQoSs
    ensures ok == e.Some?
    ensures !ok ==> Stored(kind, list, topicFilters[..], requestedQoSs[..])
    ensures ok ==> next == cur + e.value.taken && Stored(kind, list + [e.value.entry], topicFilters[..], requestedQoSs[..])
  {
    var filter := ReadString(buf[cur..], end - cur);
    next := cur;
    if filter.None? {
      return false, next;
    }
    next := cur + 2 + |filter.value|;
    if kind.Subscribe? {
      if next >= end {
        return false, next;
      }
      assert s[2 + |filter.value|] == buf[next];
      requestedQoSs[count] := buf[next];
      next := next + 1;
    }
    topicFilters[count] := Received(filter.value);
    ok := true;
  }

  /** The entries read after one pass, given whether it succeeded. */
  ghost predicate Passed(kind: Kind, whole: Entries, done': seq<Entry>, buf: bytes, end: nat, ok: bool, next: nat) {
    if ok then next <= end <= |buf| && Reading(kind, whole, done', buf[next..], end - next)
    else whole == Entries(done', false)
  }

  lemma PassIs(kind: Kind, whole: Entries, done: seq<Entry>, buf: bytes, cur: nat, end: nat)
    returns (e: Option<EntryRead>, done': seq<Entry>)
    requires cur < end <= |buf| && Reading(kind, whole, done, buf[cur..], end - cur)
    ensures e == ReadEntry(kind, buf[cur..], end - cur)
    ensures done' == if e.Some? then done + [e.value.entry] else done
    ensures e.Some? ==> |done| < |whole.list|
    ensures Passed(kind, whole, done', buf, end, e.Some?, if e.Some? then cur + e.value.taken else cur)
  {
    e := ReadEntry(kind, buf[cur..], end - cur);
    var s, avail;
    done', s, avail := ReadingPass(kind, whole, done, buf[cur..], end - cur, buf, cur, end, e);
  }

  /** One pass of the loop in terms of what is read so far. */
  method ReadPass(kind: Kind, buf: bytes, cur: nat, end: nat, topicFilters: array<MqttString>, requestedQoSs: array<nat>,
                  count: nat, ghost whole: Entries, ghost done: seq<Entry>)
    returns (ok: bool, next: nat, ghost done': seq<Entry>)
    requires cur < end <= |buf| && count == |done| && Reading(kind, whole, done, buf[cur..], end - cur)
    requires |whole.list| <= topicFilters.Length && |whole.list| <= requestedQoSs.Length
    requires Stored(kind, done, topicFilters[..], requestedQoSs[..])
    modifies topicFilters, requestedQoSs
    ensures Stored(kind, done', topicFilters[..], requestedQoSs[..])
    ensures |done'| == (if ok then count + 1 else count) && (ok ==> cur < next)
    ensures Passed(kind, whole, done', buf, end, ok, next)
  {
    ghost var e;
    e, done' := PassIs(kind, whole, done, buf, cur, end);
    ok, next := ReadOne(kind, buf, cur, end, topicFilters, requestedQoSs, count, done, buf[cur..], end - cur, e);
  }

  /** Fills the caller's arrays entry by entry, without looking at their size. */
  method ReadList(kind: Kind, buf: bytes, from: nat, end: int, topicFilters: array<MqttString>, requestedQoSs: array<nat>,
                  ghost whole: Entries)
    returns (ok: bool, count: nat)
    requires from <= |buf| && end <= |buf| && whole == ReadEntries(kind, buf[from..], end - from)
    requires |whole.list| <= topicFilters.Length && |whole.list| <= requestedQoSs.Length
    modifies topicFilters, requestedQoSs
    ensures ok == whole.ok && count == |whole.list|
    ensures Stored(kind, whole.list, topicFilters[..], requestedQoSs[..])
  {
    var cur: nat := from;
    count := 0;
    ghost var done: seq<Entry> := [];
    while cur < end
      invariant cur <= |buf| && count == |done| && Reading(kind, whole, done, buf[cur..], end - cur)
      invariant Stored(kind, done, topicFilters[..], requestedQoSs[..])
      decreases end - cur
    {
      ok, cur, done := ReadPass(kind, buf, cur, end, topicFilters, requestedQoSs, count, whole, done);
      if !ok {
        return;
      }
      count := count + 1;
    }
    ok := true;
  }

  /** The list of a packet of the right type, as it lies in the buffer. */
  ghost function ListIn(kind: Kind, buf: bytes): Entries
    requires Framed(buf)
  {
    var d := DecodeLength(buf[1..]);
    var from := 1 + d.count + 2;
    ReadEntries(kind, buf[from..], d.value - 2)
  }

  /** What the list after a packet id makes of the whole packet. */
  lemma ListInIs(kind: Kind, buf: bytes)
    requires Framed(buf) && TypeOf(buf[0]) == TypeCode(kind)
    ensures var from, whole := 1 + DecodeLength(buf[1..]).count, ListIn(kind, buf);
      Deserialized(kind, buf)
      == ListRead(DupOf(buf[0]), IntValue(buf[from], buf[from + 1]), whole.list, whole.ok, from - 1)
  {
    var from := 1 + DecodeLength(buf[1..]).count;
    assert buf[from..][2..] == buf[from + 2..];
  }

  /** The packet id and the list of a packet of the right type. */
  method DeserializeList(
    kind: Kind, buf: bytes, topicFilters: array<MqttString>, requestedQoSs: array<nat>, ghost whole: Entries)
    returns (rc: int, packetId: nat, count: nat)
    requires Framed(buf) && whole == ListIn(kind, buf)
    requires |whole.list| <= topicFilters.Length && |whole.list| <= requestedQoSs.Length
    modifies topicFilters, requestedQoSs
    ensures var from := 1 + DecodeLength(buf[1..]).count;
      rc == (if whole.ok then 1 else from - 1) && packetId == IntValue(buf[from], buf[from + 1])
    ensures count == |whole.list| && Stored(kind, whole.list, topicFilters[..], requestedQoSs[..])
  {
    var d := DecodeLength(buf[1..]);
    rc := d.count;
    var cur := 1 + d.count;
    var end := cur + d.value;
    packetId := IntValue(buf[cur], buf[cur + 1]);
    cur := cur + 2;
    assert end - cur == d.value - 2;
    var ok;
    ok, count := ReadList(kind, buf, cur, end, topicFilters, requestedQoSs, whole);
    if ok {
      rc := 1;
    }
  }

  /** The variables after a call, given what they were before and what the packet gives. */
  predicate Reported(kind: Kind, r: ListRead, dup0: nat, packetId0: nat, count0: nat,
                     dup: nat, packetId: nat, count: nat) {
    match r
    case WrongType => dup == dup0 && packetId == packetId0 && count == count0
    case ListRead(d, id, list, _, _) => dup == d && packetId == id && count == |list|
  }

  /** The caller's variables and arrays are left as they were for a packet of another type. */
  method Deserialize(kind: Kind, buf: bytes, topicFilters: array<MqttString>, requestedQoSs: array<nat>,
                     dup0: nat, packetId0: nat, count0: nat)
    returns (rc: int, dup: nat, packetId: nat, count: nat)
    requires Framed(buf)
    requires var r := Deserialized(kind, buf);
      r.ListRead? ==> |r.list| <= topicFilters.Length && |r.list| <= requestedQoSs.Length
    modifies topicFilters, requestedQoSs
    ensures var r := Deserialized(kind, buf);
      rc == ResultOf(kind, r) && Reported(kind, r, dup0, packetId0, count0, dup, packetId, count)
    ensures Deserialized(kind, buf).WrongType? ==>
      topicFilters[..] == old(topicFilters[..]) && requestedQoSs[..] == old(requestedQoSs[..])
    ensures Deserialized(kind, buf).ListRead? ==>
      Stored(kind, Deserialized(kind, buf).list, topicFilters[..], requestedQoSs[..])
  {
    rc, dup, packetId, count := if kind.Subscribe? then -1 else 0, dup0, packetId0, count0;
    if TypeOf(buf[0]) != TypeCode(kind) {
      return;
    }
    ListInIs(kind, buf);
    dup := DupOf(buf[0]);
    rc, packetId, count := DeserializeList(kind, buf, topicFilters, requestedQoSs, ListIn(kind, buf));
  }
}
