/** Reading one packet from a transport: the blocking reader, and the resumable one that is polled. */
module MqttReader {
  import opened Bytes
  import opened MqttPacket

  // ---- the transport ----

  /** What the transport does when asked: fail, or hand over at most `most` bytes (none means "call again"). */
  datatype Answer = Failure | UpTo(most: nat)

  /** The bytes still to come and the answers still to be given; when those are used up, the transport stays silent. */
  datatype Feed = Feed(stream: bytes, answers: seq<Answer>)

  datatype Reply = Reply(rc: int, data: bytes, feed: Feed)

  function Get(f: Feed, count: nat): (r: Reply)
    ensures r.data + r.feed.stream == f.stream && |r.data| <= count
    ensures if r.rc == -1 then r.data == [] else r.rc == |r.data|
  {
    if f.answers == [] then Reply(0, [], f)
    else match f.answers[0]
      case Failure => Reply(-1, [], Feed(f.stream, f.answers[1..]))
      case UpTo(most) =>
        var n := Min(most, Min(count, |f.stream|));
        Reply(n, f.stream[..n], Feed(f.stream[n..], f.answers[1..]))
  }

  // ---- the blocking reader ----

  /** The result code, what is in the buffer, and what is left of the stream. */
  datatype PacketRead = PacketRead(rc: int, packet: bytes, rest: bytes)

  /** How many bytes the length decoder takes from a stream. */
  function LengthSize(s: bytes): (k: nat)
    ensures k <= |s|
  {
    LengthSizeBound(s, 0);
    var r := DecodeLength(s);
    if r.complete then r.count else r.count - 1
  }

  lemma {:induction false} LengthSizeBound(s: bytes, count: nat)
    ensures DecodeLengthFrom(s, count).count - count <= |s| + 1
    ensures DecodeLengthFrom(s, count).complete ==> DecodeLengthFrom(s, count).count - count <= |s|
    decreases |s|
  {
    if s != [] {
      LengthSizeBound(s[1..], count + 1);
    }
  }

  /** Reading one packet from a source that delivers whatever is asked for, or fails at the end of the stream. */
  function ReadPacket(s: bytes, buflen: nat): PacketRead {
    if s == [] then PacketRead(-1, [], s)
    else
      var n := DecodeLength(s[1..]).value;
      var front := [s[0]] + EncodeLength(n);
      var left := s[1 + LengthSize(s[1..])..];
      if n + |front| > buflen then PacketRead(-1, front, left)
      else if n > |left| then PacketRead(-1, front + left, [])
      else PacketRead(TypeOf(s[0]), front + left[..n], left[n..])
  }

  // ---- the resumable reader ----

  /** How far a packet has been read: polls counts every request for a length byte, answered or not. */
  datatype Phase =
    | Idle
    | Length(header: byte, polls: nat, seen: bytes)
    | Body(header: byte, seen: bytes, body: bytes)

  function Size(p: Phase): nat
    requires p.Body?
  {
    DecodeLength(p.seen).value
  }

  predicate AllContinue(seen: bytes) {
    forall i | 0 <= i < |seen| :: seen[i] >= 128
  }

  predicate WellFormed(p: Phase, buflen: nat) {
    match p
    case Idle => true
    case Length(_, polls, seen) => |seen| <= polls <= MAX_LENGTH_BYTES && AllContinue(seen)
    case Body(_, seen, body) =>
      && LengthComplete(seen) && |body| <= Size(p)
      && 1 + |EncodeLength(Size(p))| + Size(p) <= buflen
  }

  /** One to four bytes of which only the last has its top bit clear. */
  predicate LengthComplete(seen: bytes) {
    0 < |seen| <= MAX_LENGTH_BYTES && AllContinue(seen[..|seen| - 1]) && seen[|seen| - 1] < 128
  }

  /** Every byte taken from the stream since the last reset. */
  function Since(p: Phase): bytes {
    match p
    case Idle => []
    case Length(header, _, seen) => [header] + seen
    case Body(header, seen, body) => [header] + seen + body
  }

  /** The front part of the caller's buffer that a phase has filled. */
  function Filled(p: Phase): bytes {
    match p
    case Idle => []
    case Length(header, _, _) => [header]
    case Body(header, _, body) => [header] + EncodeLength(Size(p)) + body
  }

  /** The result code, the phase reached, the feed left, and the packet in the buffer if one was completed. */
  datatype Step = Step(rc: int, phase: Phase, feed: Feed, packet: bytes)

  /** Decoding the length, byte by byte, until it is complete, the transport has nothing, or the limit is passed. */
  function DecodeStep(p: Phase, f: Feed): (r: Step)
    requires p.Length? && p.polls <= MAX_LENGTH_BYTES
    ensures r.phase.Length?
    decreases MAX_LENGTH_BYTES + 1 - p.polls
  {
    var polls := p.polls + 1;
    if polls > MAX_LENGTH_BYTES then Step(-1, p.(polls := polls), f, [])
    else
      var g := Get(f, 1);
      if g.rc == -1 then Step(-1, p.(polls := polls), g.feed, [])
      else if g.rc == 0 then Step(0, p.(polls := polls), g.feed, [])
      else
        var q := Length(p.header, polls, p.seen + g.data);
        if g.data[0] >= 128 then DecodeStep(q, g.feed) else Step(polls, q, g.feed, [])
  }

  function BodyStep(p: Phase, f: Feed): Step
    requires p.Body? && |p.body| <= Size(p)
  {
    var g := Get(f, Size(p) - |p.body|);
    if g.rc == -1 then Step(-1, Idle, g.feed, [])
    else if g.rc == 0 then Step(0, p, g.feed, [])
    else
      var q := p.(body := p.body + g.data);
      if |q.body| < Size(p) then Step(0, q, g.feed, []) else Step(TypeOf(p.header), Idle, g.feed, Filled(q))
  }

  /** The packet must fit the buffer, header and canonical length included. */
  function BodyStart(q: Phase, f: Feed, buflen: nat): Step
    requires q.Body? && q.body == []
  {
    if Size(q) + 1 + |EncodeLength(Size(q))| > buflen then Step(-1, Idle, f, []) else BodyStep(q, f)
  }

  /** Once the length is complete its canonical encoding goes into the buffer, and the packet must fit. */
  function LengthStep(p: Phase, f: Feed, buflen: nat): Step
    requires p.Length? && WellFormed(p, buflen)
  {
    var d := DecodeStep(p, f);
    if d.rc == -1 then Step(-1, Idle, d.feed, [])
    else if d.rc == 0 then d
    else
      BodyStart(Body(p.header, d.phase.seen, []), d.feed, buflen)
  }

  /** One call of the resumable reader. */
  function ReadStep(p: Phase, f: Feed, buflen: nat): Step
    requires WellFormed(p, buflen)
  {
    match p
    case Idle =>
      var g := Get(f, 1);
      if g.rc == -1 then Step(-1, Idle, g.feed, [])
      else if g.rc == 0 then Step(0, Idle, g.feed, [])
      else LengthStep(Length(g.data[0], 0, []), g.feed, buflen)
    case Length(_, _, _) => LengthStep(p, f, buflen)
    case Body(_, _, _) => BodyStep(p, f)
  }

  // ---- lengths read in pieces ----

  /** A length that is read in two parts: first bytes that all announce another one, then the rest. */
  lemma {:induction false} DecodeSplits(seen: bytes, t: bytes, count: nat)
    requires AllContinue(seen) && count + |seen| <= MAX_LENGTH_BYTES
    ensures var r := DecodeLengthFrom(t, count + |seen|);
      DecodeLengthFrom(seen + t, count)
        == LengthRead(DecodeLengthFrom(seen, count).value + r.value * Power128(|seen|), r.count, r.complete)
    decreases |seen|
  {
    if seen == [] {
      assert seen + t == t;
      assert Power128(0) == 1;
    } else {
      assert (seen + t)[1..] == seen[1..] + t;
      DecodeSplits(seen[1..], t, count + 1);
      Distribute(DecodeLengthFrom(seen[1..], count + 1).value, DecodeLengthFrom(t, count + |seen|).value,
                 Power128(|seen| - 1));
    }
  }

  lemma OneByteValue(c: byte, count: nat)
    requires count < MAX_LENGTH_BYTES
    ensures DecodeLengthFrom([c], count).value == c % 128
  {
    assert [c][1..] == [];
  }

  /** A partly read length: the value so far, and what one more byte adds to it. */
  lemma ValueExtends(seen: bytes, c: byte)
    requires AllContinue(seen) && |seen| < MAX_LENGTH_BYTES
    ensures DecodeLength(seen + [c]).value == DecodeLength(seen).value + c % 128 * Power128(|seen|)
  {
    DecodeSplits(seen, [c], 0);
    OneByteValue(c, |seen|);
  }

  lemma Distribute(v: nat, d: nat, p: nat)
    ensures 128 * (v + d * p) == 128 * v + d * (128 * p)
  {
    assert d * (128 * p) == 128 * (d * p);
  }

  /** A complete length is decoded as it stands, whatever follows it. */
  lemma CompleteIsDecoded(seen: bytes, t: bytes)
    requires LengthComplete(seen)
    ensures DecodeLength(seen + t) == LengthRead(DecodeLength(seen).value, |seen|, true)
  {
    var first, last := seen[..|seen| - 1], seen[|seen| - 1];
    assert seen + t == first + ([last] + t) && seen == first + [last];
    DecodeSplits(first, [last] + t, 0);
    DecodeSplits(first, [last], 0);
  }

  // ---- one call ----

  lemma SinceGrows(p: Phase, f: Feed, data: bytes, g: Feed)
    requires p.Length? && f.stream == data + g.stream
    ensures Since(p) + f.stream == Since(Length(p.header, p.polls + 1, p.seen + data)) + g.stream
  {
    Associative([p.header], p.seen, data);
    Associative([p.header] + p.seen, data, g.stream);
  }

  lemma DecodeUnfolds(q: Phase, f: Feed)
    requires q.Length? && WellFormed(q, 0) && q.polls < MAX_LENGTH_BYTES
    ensures var g := Get(f, 1);
      g.rc <= 0 ==> DecodeStep(q, f) == Step(g.rc, Length(q.header, q.polls + 1, q.seen), g.feed, [])
    ensures var g := Get(f, 1);
      var r := Length(q.header, q.polls + 1, q.seen + g.data);
      g.rc > 0 ==>
        DecodeStep(q, f) == if g.data[0] >= 128 then DecodeStep(r, g.feed) else Step(q.polls + 1, r, g.feed, [])
  {
  }

  /** Decoding has lost and repeated no byte, and stopped with a complete length or within the limit. */
  predicate Conserved(p: Phase, f: Feed, d: Step) {
    && d.phase.Length? && p.Length? && d.phase.header == p.header && d.packet == [] && d.rc >= -1
    && Since(p) + f.stream == Since(d.phase) + d.feed.stream
    && (d.rc == 0 ==> WellFormed(d.phase, 0))
    && (d.rc > 0 ==> LengthComplete(d.phase.seen) && d.phase.polls == d.rc)
  }

  /** A length byte moves from the stream to what has been seen, and decoding goes on or has the whole length. */
  lemma ByteConserves(p: Phase, f: Feed, data: bytes, q: Phase, g: Feed, d: Step)
    requires p.Length? && WellFormed(p, 0) && |data| == 1 && f.stream == data + g.stream
    requires q == Length(p.header, p.polls + 1, p.seen + data)
    requires if data[0] >= 128 then Conserved(q, g, d) else d == Step(p.polls + 1, q, g, []) && p.polls < MAX_LENGTH_BYTES
    ensures Conserved(p, f, d)
  {
    SinceGrows(p, f, data, g);
    if data[0] < 128 {
      assert q.seen[..|q.seen| - 1] == p.seen;
    }
  }

  lemma {:induction false} DecodeConserves(p: Phase, f: Feed)
    requires p.Length? && WellFormed(p, 0)
    ensures Conserved(p, f, DecodeStep(p, f))
    decreases MAX_LENGTH_BYTES + 1 - p.polls
  {
    if p.polls < MAX_LENGTH_BYTES {
      DecodeUnfolds(p, f);
      var g := Get(f, 1);
      if g.rc <= 0 {
        assert g.feed.stream == f.stream;
      } else {
        var q := Length(p.header, p.polls + 1, p.seen + g.data);
        if g.data[0] >= 128 {
          DecodeConserves(q, g.feed);
        }
        ByteConserves(p, f, g.data, q, g.feed, DecodeStep(p, f));
      }
    }
  }

  /** A blocking read of `s` gives this packet of at least one byte after its complete length, and leaves `rest`. */
  predicate BlockingRead(s: bytes, buflen: nat, rc: int, packet: bytes, rest: bytes) {
    && s != [] && packet != []
    && DecodeLength(s[1..]).complete && DecodeLength(s[1..]).value > 0
    && ReadPacket(s, buflen) == PacketRead(rc, packet, rest)
  }

  /** What the blocking reader makes of a stream that starts with a whole packet. */
  lemma BlockingWhole(header: byte, seen: bytes, body: bytes, rest: bytes, buflen: nat)
    requires LengthComplete(seen) && DecodeLength(seen).value == |body| > 0
    requires 1 + |EncodeLength(|body|)| + |body| <= buflen
    ensures BlockingRead([header] + seen + body + rest, buflen, TypeOf(header), Packet(header, body), rest)
  {
    var s := [header] + seen + body + rest;
    BehindHeader(header, seen, body, rest);
    CompleteIsDecoded(seen, body + rest);
    assert s[1 + LengthSize(s[1..])..] == body + rest;
  }

  lemma BehindHeader(header: byte, seen: bytes, body: bytes, rest: bytes)
    ensures var s, t := [header] + seen + body + rest, body + rest;
      s[0] == header && s[1..] == seen + t && s[1 + |seen|..] == t && t[..|body|] == body && t[|body|..] == rest
  {
  }

  /** What one call keeps, and that completing a packet is what a blocking read of the same bytes would have done. */
  predicate Sound(since: bytes, f: Feed, buflen: nat, o: Step) {
    if o.packet != [] then o.phase == Idle && BlockingRead(since + f.stream, buflen, o.rc, o.packet, o.feed.stream)
    else if o.rc == 0 then WellFormed(o.phase, buflen) && since + f.stream == Since(o.phase) + o.feed.stream
    else o.rc == -1 && o.phase == Idle
  }

  /** Bytes taken from the feed before a step may be counted with it. */
  lemma SoundAfter(since: bytes, data: bytes, f: Feed, g: Feed, buflen: nat, o: Step)
    requires f.stream == data + g.stream && Sound(since + data, g, buflen, o)
    ensures Sound(since, f, buflen, o)
  {
    Associative(since, data, g.stream);
  }

  lemma BodyCompletes(p: Phase, data: bytes, f: Feed, g: Feed, buflen: nat)
    requires p.Body? && WellFormed(p, buflen) && data != [] && |p.body + data| == Size(p)
    requires f.stream == data + g.stream
    ensures Sound(Since(p), f, buflen, Step(TypeOf(p.header), Idle, g, Filled(p.(body := p.body + data))))
  {
    var body := p.body + data;
    BlockingWhole(p.header, p.seen, body, g.stream, buflen);
    assert [p.header] + p.seen + body + g.stream == Since(p) + f.stream;
  }

  lemma BodyGrows(p: Phase, data: bytes, f: Feed, g: Feed, buflen: nat)
    requires p.Body? && WellFormed(p, buflen) && |p.body + data| <= Size(p)
    requires f.stream == data + g.stream
    ensures Sound(Since(p), f, buflen, Step(0, p.(body := p.body + data), g, []))
  {
    Associative(Since(p), data, g.stream);
    Associative([p.header] + p.seen, p.body, data);
  }

  lemma BodyStepIsSound(p: Phase, f: Feed, buflen: nat)
    requires p.Body? && WellFormed(p, buflen)
    ensures Sound(Since(p), f, buflen, BodyStep(p, f))
  {
    var g := Get(f, Size(p) - |p.body|);
    if g.rc == 0 {
      assert g.feed.stream == f.stream;
    } else if g.rc > 0 {
      var q := p.(body := p.body + g.data);
      if |q.body| == Size(p) {
        BodyCompletes(p, g.data, f, g.feed, buflen);
      } else {
        BodyGrows(p, g.data, f, g.feed, buflen);
      }
    }
  }

  lemma LengthStepIsSound(p: Phase, f: Feed, buflen: nat)
    requires p.Length? && WellFormed(p, buflen)
    ensures Sound(Since(p), f, buflen, LengthStep(p, f, buflen))
  {
    DecodeConserves(p, f);
    var d := DecodeStep(p, f);
    if d.rc > 0 {
      var q := Body(p.header, d.phase.seen, []);
      if Size(q) + 1 + |EncodeLength(Size(q))| <= buflen {
        BodyStepIsSound(q, d.feed, buflen);
        assert Since(q) == Since(d.phase);
      }
    }
  }

  lemma ReadStepIsSound(p: Phase, f: Feed, buflen: nat)
    requires WellFormed(p, buflen)
    ensures Sound(Since(p), f, buflen, ReadStep(p, f, buflen))
  {
    match p
    case Idle =>
      var g := Get(f, 1);
      if g.rc > 0 {
        var q := Length(g.data[0], 0, []);
        LengthStepIsSound(q, g.feed, buflen);
        assert Since(q) == [] + g.data;
        SoundAfter([], g.data, f, g.feed, buflen, LengthStep(q, g.feed, buflen));
      } else if g.rc == 0 {
        assert g.feed.stream == f.stream;
      }
    case Length(_, _, _) => LengthStepIsSound(p, f, buflen);
    case Body(_, _, _) => BodyStepIsSound(p, f, buflen);
  }

  // ---- whole runs ----

  /** Calling the reader again as long as it says "call again", at most `calls` times. */
  function Poll(p: Phase, f: Feed, buflen: nat, calls: nat): Step
    requires WellFormed(p, buflen)
    decreases calls
  {
    if calls == 0 then Step(0, p, f, [])
    else
      ReadStepIsSound(p, f, buflen);
      var o := ReadStep(p, f, buflen);
      if o.rc == 0 && o.packet == [] then Poll(o.phase, o.feed, buflen, calls - 1) else o
  }

  /**
   * Whatever the transport answers and however often the reader is called, a packet it completes is the packet
   * that one blocking read takes from the bytes since the last reset: none lost, none read twice.
   */
  lemma {:induction false} PollingIsBlockingRead(p: Phase, f: Feed, buflen: nat, calls: nat)
    requires WellFormed(p, buflen)
    ensures Sound(Since(p), f, buflen, Poll(p, f, buflen, calls))
    decreases calls
  {
    if calls > 0 {
      ReadStepIsSound(p, f, buflen);
      var o := ReadStep(p, f, buflen);
      if o.rc == 0 && o.packet == [] {
        PollingIsBlockingRead(o.phase, o.feed, buflen, calls - 1);
      }
    }
  }

  // ---- failures of the transport ----

  /** How many answers have been used up between two feeds. */
  function Used(f: Feed, g: Feed): int {
    |f.answers| - |g.answers|
  }

  /**
   * The answers used up come off the front; a failure can only be the last of them, and `failed` tells whether it is.
   * The bytes taken come off the front of the stream.
   */
  predicate Consumes(f: Feed, g: Feed, failed: bool) {
    var n := Used(f, g);
    && 0 <= n && g.answers == f.answers[n..]
    && (forall i | 0 <= i < n - 1 :: f.answers[i].UpTo?)
    && (failed <==> n > 0 && f.answers[n - 1].Failure?)
    && |g.stream| <= |f.stream| && g.stream == f.stream[|f.stream| - |g.stream|..]
  }

  lemma GetConsumes(f: Feed, count: nat)
    ensures Consumes(f, Get(f, count).feed, Get(f, count).rc == -1)
  {
  }

  lemma AnswersTwice(a: seq<Answer>, m: nat, n: nat, failed: bool)
    requires m + n <= |a| && (forall i | 0 <= i < m :: a[i].UpTo?) && (forall i | 0 <= i < n - 1 :: a[m..][i].UpTo?)
    requires failed <==> n > 0 && a[m..][n - 1].Failure?
    ensures a[m..][n..] == a[m + n..] && (forall i | 0 <= i < m + n - 1 :: a[i].UpTo?)
    ensures failed <==> m + n > 0 && a[m + n - 1].Failure?
  {
    forall i | 0 <= i < m + n - 1 ensures a[i].UpTo? {
      if i >= m {
        assert a[i] == a[m..][i - m];
      }
    }
    assert n > 0 ==> a[m + n - 1] == a[m..][n - 1];
  }

  lemma SuffixTwice(s: bytes, k: nat, l: nat)
    requires k + l <= |s|
    ensures s[k..][l..] == s[k + l..]
  {
  }

  lemma ConsumesTwice(f: Feed, g: Feed, h: Feed, failed: bool)
    requires Consumes(f, g, false) && Consumes(g, h, failed)
    ensures Consumes(f, h, failed)
  {
    AnswersTwice(f.answers, Used(f, g), Used(g, h), failed);
    SuffixTwice(f.stream, |f.stream| - |g.stream|, |g.stream| - |h.stream|);
  }

  /** The last answer used up was a failure. */
  predicate MetFailure(f: Feed, g: Feed) {
    0 < Used(f, g) <= |f.answers| && f.answers[Used(f, g) - 1].Failure?
  }

  /** A failure among the answers used up is the last of them, the result is -1, and the reader is reset. */
  predicate FailsRight(f: Feed, o: Step) {
    && Consumes(f, o.feed, MetFailure(f, o.feed))
    && (MetFailure(f, o.feed) ==> o.rc == -1 && o.phase == Idle && o.packet == [])
  }

  predicate DecodeFailsRight(f: Feed, d: Step) {
    && Consumes(f, d.feed, MetFailure(f, d.feed))
    && (MetFailure(f, d.feed) ==> d.rc == -1)
  }

  lemma DecodeFailsLater(f: Feed, g: Feed, d: Step)
    requires Consumes(f, g, false) && DecodeFailsRight(g, d)
    ensures DecodeFailsRight(f, d)
  {
    ConsumesTwice(f, g, d.feed, MetFailure(g, d.feed));
  }

  /** Decoding stops with a request, or without one when the polls are spent. */
  lemma DecodeEnds(p: Phase, f: Feed, d: Step)
    requires p.Length? && p.polls <= MAX_LENGTH_BYTES && d == DecodeStep(p, f)
    requires p.polls == MAX_LENGTH_BYTES || Get(f, 1).rc <= 0 || Get(f, 1).data[0] < 128
    ensures d.feed == f || (d.feed == Get(f, 1).feed && (Get(f, 1).rc == -1 ==> d.rc == -1))
  {
  }

  lemma DecodeGoesOn(p: Phase, f: Feed, d: Step) returns (q: Phase, g: Feed)
    requires p.Length? && p.polls < MAX_LENGTH_BYTES && d == DecodeStep(p, f)
    requires Get(f, 1).rc > 0 && Get(f, 1).data[0] >= 128
    ensures q.Length? && q.polls == p.polls + 1 && d == DecodeStep(q, g) && Consumes(f, g, false)
  {
    q, g := Length(p.header, p.polls + 1, p.seen + Get(f, 1).data), Get(f, 1).feed;
    GetConsumes(f, 1);
  }

  lemma {:induction false} DecodeFails(p: Phase, f: Feed, d: Step)
    requires p.Length? && p.polls <= MAX_LENGTH_BYTES && d == DecodeStep(p, f)
    ensures DecodeFailsRight(f, d)
    decreases MAX_LENGTH_BYTES + 1 - p.polls
  {
    if p.polls < MAX_LENGTH_BYTES && Get(f, 1).rc > 0 && Get(f, 1).data[0] >= 128 {
      var q, g := DecodeGoesOn(p, f, d);
      DecodeFails(q, g, d);
      DecodeFailsLater(f, g, d);
    } else {
      DecodeEnds(p, f, d);
      GetConsumes(f, 1);
    }
  }

  lemma BodyFails(p: Phase, f: Feed)
    requires p.Body? && |p.body| <= Size(p)
    ensures FailsRight(f, BodyStep(p, f))
  {
    GetConsumes(f, Size(p) - |p.body|);
  }

  lemma FailsLater(f: Feed, g: Feed, o: Step)
    requires Consumes(f, g, false) && FailsRight(g, o)
    ensures FailsRight(f, o)
  {
    ConsumesTwice(f, g, o.feed, MetFailure(g, o.feed));
  }

  lemma BodyStartFails(q: Phase, f: Feed, buflen: nat)
    requires q.Body? && q.body == []
    ensures FailsRight(f, BodyStart(q, f, buflen))
  {
    BodyFails(q, f);
  }

  lemma LengthFails(p: Phase, f: Feed, buflen: nat)
    requires p.Length? && WellFormed(p, buflen)
    ensures FailsRight(f, LengthStep(p, f, buflen))
  {
    DecodeFails(p, f, DecodeStep(p, f));
    DecodeConserves(p, f);
    var d := DecodeStep(p, f);
    if d.rc > 0 {
      var q := Body(p.header, d.phase.seen, []);
      BodyStartFails(q, d.feed, buflen);
      FailsLater(f, d.feed, BodyStart(q, d.feed, buflen));
    }
  }

  lemma ReadStepFails(p: Phase, f: Feed, buflen: nat)
    requires WellFormed(p, buflen)
    ensures FailsRight(f, ReadStep(p, f, buflen))
  {
    match p
    case Idle =>
      var g := Get(f, 1);
      GetConsumes(f, 1);
      if g.rc > 0 {
        LengthFails(Length(g.data[0], 0, []), g.feed, buflen);
        FailsLater(f, g.feed, LengthStep(Length(g.data[0], 0, []), g.feed, buflen));
      }
    case Length(_, _, _) => LengthFails(p, f, buflen);
    case Body(_, _, _) => BodyFails(p, f);
  }

  /** A call after answers that were no failures: the run goes on only if it has met none either. */
  lemma CallFails(start: Feed, p: Phase, f: Feed, buflen: nat) returns (o: Step)
    requires WellFormed(p, buflen) && Consumes(start, f, false)
    ensures o == ReadStep(p, f, buflen) && FailsRight(start, o)
    ensures o.rc == 0 && o.packet == [] ==> WellFormed(o.phase, buflen) && Consumes(start, o.feed, false)
  {
    o := ReadStep(p, f, buflen);
    ReadStepIsSound(p, f, buflen);
    ReadStepFails(p, f, buflen);
    FailsLater(start, f, o);
  }

  lemma NotYet(start: Feed, p: Phase, f: Feed)
    requires Consumes(start, f, false)
    ensures FailsRight(start, Step(0, p, f, []))
  {
  }

  /** What holds between the calls, and lets every call end in a certain way, lets the run end in that way. */
  lemma {:induction false} PollKeeps(going: (Phase, Feed) -> bool, ended: Step -> bool, p: Phase, f: Feed, buflen: nat,
                                     calls: nat)
    requires forall q, g | going(q, g) :: WellFormed(q, buflen) && ended(Step(0, q, g, []))
    requires forall q, g | going(q, g) ::
      var o := ReadStep(q, g, buflen); if o.rc == 0 && o.packet == [] then going(o.phase, o.feed) else ended(o)
    requires going(p, f)
    ensures ended(Poll(p, f, buflen, calls))
    decreases calls
  {
    if calls > 0 {
      var o := ReadStep(p, f, buflen);
      if o.rc == 0 && o.packet == [] {
        PollKeeps(going, ended, o.phase, o.feed, buflen, calls - 1);
      }
    }
  }

  lemma RunFails(start: Feed, p: Phase, buflen: nat, calls: nat)
    requires WellFormed(p, buflen)
    ensures FailsRight(start, Poll(p, start, buflen, calls))
  {
    var going := (q, g) => WellFormed(q, buflen) && Consumes(start, g, false);
    var ended := (o: Step) => FailsRight(start, o);
    forall q, g | going(q, g)
      ensures ended(Step(0, q, g, []))
      ensures var o := ReadStep(q, g, buflen); if o.rc == 0 && o.packet == [] then going(o.phase, o.feed) else ended(o)
    {
      NotYet(start, q, g);
      var o := CallFails(start, q, g, buflen);
    }
    PollKeeps(going, ended, p, start, buflen, calls);
  }

  /** Such a step, and if its result is 0 then no answer used up was a failure. */
  predicate EndsAtFailure(f: Feed, o: Step) {
    && FailsRight(f, o)
    && (o.rc == 0 ==> forall i | 0 <= i < Used(f, o.feed) :: f.answers[i].UpTo?)
  }

  lemma NoneMissed(f: Feed, o: Step)
    requires FailsRight(f, o)
    ensures EndsAtFailure(f, o)
  {
    if o.rc == 0 {
      assert !MetFailure(f, o.feed);
    }
  }

  /**
   * In every phase, for any answers and any number of calls: a run that meets a failure of the transport, be it for the
   * header, the length or the body, ends there and then with -1 and the reader reset, and uses up no answer after it;
   * and so a run that ends in 0 has met none.
   */
  lemma FailureEndsTheRun(p: Phase, f: Feed, buflen: nat, calls: nat)
    requires WellFormed(p, buflen)
    ensures EndsAtFailure(f, Poll(p, f, buflen, calls))
  {
    var run := Poll(p, f, buflen, calls);
    RunFails(f, p, buflen, calls);
    NoneMissed(f, run);
  }

  /** What the decoder takes for a length: a complete one, four bytes without an end, or all that is left. */
  predicate LengthTaken(seen: bytes, t: bytes) {
    LengthComplete(seen) || (AllContinue(seen) && |seen| <= MAX_LENGTH_BYTES && (|seen| == MAX_LENGTH_BYTES || t == []))
  }

  lemma {:induction false} TakenIsDecoded(seen: bytes, t: bytes)
    requires LengthTaken(seen, t)
    ensures DecodeLength(seen + t).value == DecodeLength(seen).value && LengthSize(seen + t) == |seen|
  {
    if LengthComplete(seen) {
      CompleteIsDecoded(seen, t);
    } else {
      DecodeSplits(seen, t, 0);
      ContinuesToTheEnd(seen, 0);
    }
  }

  /** Bytes that all announce another one are decoded to the last, and the length is not complete. */
  lemma {:induction false} ContinuesToTheEnd(seen: bytes, count: nat)
    requires AllContinue(seen) && count + |seen| <= MAX_LENGTH_BYTES
    ensures DecodeLengthFrom(seen, count).count == count + |seen| + 1 && !DecodeLengthFrom(seen, count).complete
    decreases |seen|
  {
    if seen != [] {
      ContinuesToTheEnd(seen[1..], count + 1);
    }
  }

  /**
   * The blocking reader takes one packet, or reports why not and where it stopped. A length without an end goes
   * unnoticed: the value of its bytes so far counts.
   */
  lemma BlockingReadsOne(header: byte, seen: bytes, t: bytes, buflen: nat)
    requires LengthTaken(seen, t)
    ensures var n, r := DecodeLength(seen).value, ReadPacket([header] + seen + t, buflen);
      if 1 + |EncodeLength(n)| + n > buflen then r.rc == -1 && r.rest == t
      else if n > |t| then r.rc == -1 && r.rest == []
      else r == PacketRead(TypeOf(header), Packet(header, t[..n]), t[n..])
  {
    var s := [header] + seen + t;
    assert s[0] == header && s[1..] == seen + t;
    TakenIsDecoded(seen, t);
    assert s[1 + LengthSize(s[1..])..] == t;
  }

  /**
   * The packet at the head of the stream has been taken: header byte, shortest encoding of the length n, the n bytes
   * that follow the length, and the type as the result.
   */
  predicate TakesPacket(s: bytes, rc: int, packet: bytes, rest: bytes) {
    && s != [] && DecodeLength(s[1..]).complete
    && var n := DecodeLength(s[1..]).value;
       var from := 1 + LengthSize(s[1..]);
    && 0 < n && from + n <= |s|
    && packet == Packet(s[0], s[from..from + n]) && rest == s[from + n..] && rc == TypeOf(s[0])
  }

  lemma BlockingPacket(s: bytes, buflen: nat, rc: int, packet: bytes, rest: bytes)
    requires BlockingRead(s, buflen, rc, packet, rest) && rc >= 0
    ensures TakesPacket(s, rc, packet, rest)
  {
    var n := DecodeLength(s[1..]).value;
    var from := 1 + LengthSize(s[1..]);
    assert n <= |s[from..]|;
  }

  /** In particular, from a reset, a positive result means that the buffer holds the next packet of the stream. */
  lemma PolledPacket(f: Feed, buflen: nat, calls: nat)
    requires Poll(Idle, f, buflen, calls).rc > 0
    ensures var o := Poll(Idle, f, buflen, calls);
      TakesPacket(f.stream, o.rc, o.packet, o.feed.stream)
  {
    var o := Poll(Idle, f, buflen, calls);
    PollingIsBlockingRead(Idle, f, buflen, calls);
    assert Since(Idle) + f.stream == f.stream;
    BlockingPacket(f.stream, buflen, o.rc, o.packet, o.feed.stream);
  }

  // ---- which schedules deliver ----

  /** Polling completes a packet. */
  predicate Completes(p: Phase, f: Feed, buflen: nat, calls: nat)
    requires WellFormed(p, buflen)
  {
    Poll(p, f, buflen, calls).packet != []
  }

  predicate NoFailure(answers: seq<Answer>) {
    forall i | 0 <= i < |answers| :: answers[i].UpTo?
  }

  /** How many answers bring something. */
  function Bringing(answers: seq<Answer>): nat {
    if answers == [] then 0
    else (if answers[0].UpTo? && answers[0].most > 0 then 1 else 0) + Bringing(answers[1..])
  }

  /** The answers that come after the `k`-th one that brings something. */
  function After(answers: seq<Answer>, k: nat): seq<Answer>
    decreases answers
  {
    if k == 0 || answers == [] then answers
    else if answers[0].UpTo? && answers[0].most > 0 then After(answers[1..], k - 1)
    else After(answers[1..], k)
  }

  /** How many bytes the answers allow altogether. */
  function Total(answers: seq<Answer>): nat {
    if answers == [] then 0 else (if answers[0].UpTo? then answers[0].most else 0) + Total(answers[1..])
  }

  /** The length bytes come in time: at least `k` of the next `polls` answers bring something. */
  predicate InTime(answers: seq<Answer>, k: nat, polls: nat) {
    Bringing(answers[..Min(polls, |answers|)]) >= k
  }

  /** A transport that has fallen silent never completes a packet. */
  lemma {:induction false} SilenceDeliversNothing(p: Phase, f: Feed, buflen: nat, calls: nat)
    requires WellFormed(p, buflen) && f.answers == []
    ensures !Completes(p, f, buflen, calls)
    decreases calls
  {
    if calls > 0 {
      var o := ReadStep(p, f, buflen);
      if o.rc == 0 && o.packet == [] {
        ReadStepIsSound(p, f, buflen);
        SilenceDeliversNothing(o.phase, o.feed, buflen, calls - 1);
      }
    }
  }

  lemma PollOnce(p: Phase, f: Feed, buflen: nat, calls: nat)
    requires WellFormed(p, buflen) && calls > 0
    ensures var o := ReadStep(p, f, buflen);
      if o.rc == 0 && o.packet == []
      then WellFormed(o.phase, buflen) && Completes(p, f, buflen, calls) == Completes(o.phase, o.feed, buflen, calls - 1)
      else Completes(p, f, buflen, calls) <==> o.packet != []
  {
    ReadStepIsSound(p, f, buflen);
  }

  /** A body still being read; only an empty one has nothing left to read. */
  predicate Awaited(p: Phase, f: Feed, buflen: nat) {
    && p.Body? && WellFormed(p, buflen) && NoFailure(f.answers)
    && Size(p) - |p.body| <= |f.stream|
    && (Size(p) == |p.body| ==> Size(p) == 0)
  }

  /** The body of a packet arrives exactly if it is not empty and the answers allow for all of it. */
  lemma {:induction false} BodyArrives(p: Phase, f: Feed, buflen: nat, calls: nat)
    requires Awaited(p, f, buflen) && |f.answers| <= calls
    ensures Completes(p, f, buflen, calls) <==> Size(p) > 0 && Total(f.answers) >= Size(p) - |p.body|
    decreases calls
  {
    if f.answers == [] {
      SilenceDeliversNothing(p, f, buflen, calls);
    } else {
      PollOnce(p, f, buflen, calls);
      var o := BodyStep(p, f);
      assert o == ReadStep(p, f, buflen);
      if o.packet == [] {
        BodyArrives(o.phase, o.feed, buflen, calls - 1);
      }
    }
  }

  /** A body of `n` bytes after `k` length bytes arrives: the length in time, and room for the body afterwards. */
  predicate Delivers(answers: seq<Answer>, k: nat, polls: nat, n: nat) {
    n > 0 && InTime(answers, k, polls) && Total(After(answers, k)) >= n
  }

  /** The window of answers the length decoder sees, one answer later. */
  lemma WindowMoves(answers: seq<Answer>, k: nat, polls: nat, n: nat)
    requires NoFailure(answers) && answers != [] && polls > 0 && k > 0
    ensures Delivers(answers, k, polls, n)
      <==> Delivers(answers[1..], if answers[0].most > 0 then k - 1 else k, polls - 1, n)
  {
    var w := answers[..Min(polls, |answers|)];
    assert w[1..] == answers[1..][..Min(polls - 1, |answers| - 1)];
  }

  /** The length bytes `left` are still to come, then a body of `n` bytes that will be there and fits. */
  predicate Ahead(p: Phase, f: Feed, left: bytes, t: bytes, n: nat, buflen: nat) {
    && p.Length? && WellFormed(p, buflen) && NoFailure(f.answers)
    && left != [] && LengthComplete(p.seen + left) && f.stream == left + t
    && n == DecodeLength(p.seen + left).value <= |t| && 1 + |EncodeLength(n)| + n <= buflen
  }

  /** The answers still to come deliver the rest of the packet. */
  predicate Due(p: Phase, f: Feed, left: bytes, n: nat)
    requires p.Length? && p.polls <= MAX_LENGTH_BYTES
  {
    Delivers(f.answers, |left|, MAX_LENGTH_BYTES - p.polls, n)
  }

  lemma AheadAgain(p: Phase, f: Feed, left: bytes, t: bytes, n: nat, buflen: nat, calls: nat)
    requires Ahead(p, f, left, t, n, buflen) && p.polls < MAX_LENGTH_BYTES
    requires calls > 0 && f.answers != [] && f.answers[0].most == 0
    ensures var q := Length(p.header, p.polls + 1, p.seen);
      var g := Feed(f.stream, f.answers[1..]);
      && Ahead(q, g, left, t, n, buflen) && Completes(p, f, buflen, calls) == Completes(q, g, buflen, calls - 1)
      && Due(p, f, left, n) == Due(q, g, left, n)
  {
    WindowMoves(f.answers, |left|, MAX_LENGTH_BYTES - p.polls, n);
    AgainStep(p, f, buflen);
  }

  /** An answer that brings nothing counts as a poll and changes nothing else. */
  lemma AgainStep(p: Phase, f: Feed, buflen: nat)
    requires p.Length? && WellFormed(p, buflen) && p.polls < MAX_LENGTH_BYTES
    requires f.answers != [] && f.answers[0].UpTo? && f.answers[0].most == 0
    ensures ReadStep(p, f, buflen)
         == Step(0, Length(p.header, p.polls + 1, p.seen), Feed(f.stream, f.answers[1..]), [])
  {
    assert Get(f, 1) == Reply(0, [], Feed(f.stream, f.answers[1..]));
  }

  /** Splitting a complete length after its first byte, or at its end. */
  lemma SplitLength(seen: bytes, left: bytes, t: bytes)
    requires left != [] && LengthComplete(seen + left)
    ensures left + t == [left[0]] + (left[1..] + t) && seen + [left[0]] + left[1..] == seen + left
    ensures if |left| > 1 then left[0] >= 128 else left[0] < 128 && seen + [left[0]] == seen + left && left[1..] + t == t
  {
    var all := seen + left;
    assert |left| > 1 ==> all[..|all| - 1][|seen|] == left[0];
  }

  /** A length byte that announces another one is read in the same call as the next. */
  lemma ContinueStep(p: Phase, f: Feed, c: byte, rest: bytes, buflen: nat)
    requires p.Length? && WellFormed(p, buflen) && p.polls < MAX_LENGTH_BYTES && c >= 128 && f.stream == [c] + rest
    requires f.answers != [] && f.answers[0].UpTo? && f.answers[0].most > 0
    ensures var q := Length(p.header, p.polls + 1, p.seen + [c]);
      WellFormed(q, buflen) && ReadStep(p, f, buflen) == ReadStep(q, Feed(rest, f.answers[1..]), buflen)
  {
    assert f.stream[1..] == rest;
  }

  lemma AheadContinues(p: Phase, f: Feed, left: bytes, t: bytes, n: nat, buflen: nat, calls: nat)
    requires Ahead(p, f, left, t, n, buflen) && p.polls < MAX_LENGTH_BYTES && |left| > 1
    requires calls > 0 && f.answers != [] && f.answers[0].most > 0
    ensures var q := Length(p.header, p.polls + 1, p.seen + [left[0]]);
      var g := Feed(left[1..] + t, f.answers[1..]);
      && Ahead(q, g, left[1..], t, n, buflen) && Completes(p, f, buflen, calls) == Completes(q, g, buflen, calls)
      && Due(p, f, left, n) == Due(q, g, left[1..], n)
  {
    WindowMoves(f.answers, |left|, MAX_LENGTH_BYTES - p.polls, n);
    SplitLength(p.seen, left, t);
    ContinueStep(p, f, left[0], left[1..] + t, buflen);
  }

  /** After the last length byte the same call goes on with the body. */
  lemma LastStep(p: Phase, f: Feed, c: byte, rest: bytes, buflen: nat, calls: nat)
    requires p.Length? && WellFormed(p, buflen) && p.polls < MAX_LENGTH_BYTES && c < 128 && f.stream == [c] + rest
    requires f.answers != [] && f.answers[0].UpTo? && f.answers[0].most > 0 && calls > 0
    requires LengthComplete(p.seen + [c])
    requires var n := DecodeLength(p.seen + [c]).value; 1 + |EncodeLength(n)| + n <= buflen
    ensures var q := Body(p.header, p.seen + [c], []);
      && WellFormed(q, buflen) && ReadStep(p, f, buflen) == ReadStep(q, Feed(rest, f.answers[1..]), buflen)
  {
    assert Get(f, 1) == Reply(1, [c], Feed(rest, f.answers[1..]));
  }

  lemma DueAfterLast(answers: seq<Answer>, polls: nat, n: nat)
    requires NoFailure(answers) && answers != [] && answers[0].most > 0 && polls > 0
    ensures Delivers(answers, 1, polls, n) <==> n > 0 && Total(answers[1..]) >= n
  {
    WindowMoves(answers, 1, polls, n);
  }

  lemma AheadCompletes(p: Phase, f: Feed, left: bytes, t: bytes, n: nat, buflen: nat, calls: nat)
    requires Ahead(p, f, left, t, n, buflen) && p.polls < MAX_LENGTH_BYTES && |left| == 1
    requires |f.answers| <= calls && f.answers != [] && f.answers[0].most > 0
    ensures Completes(p, f, buflen, calls) == Due(p, f, left, n)
  {
    DueAfterLast(f.answers, MAX_LENGTH_BYTES - p.polls, n);
    SplitLength(p.seen, left, t);
    var q, g := Body(p.header, p.seen + [left[0]], []), Feed(t, f.answers[1..]);
    LastStep(p, f, left[0], t, buflen, calls);
    SameCall(p, f, q, g, buflen, calls);
    BodyArrives(q, g, buflen, calls);
  }

  lemma SameCall(p: Phase, f: Feed, q: Phase, g: Feed, buflen: nat, calls: nat)
    requires WellFormed(p, buflen) && WellFormed(q, buflen) && ReadStep(p, f, buflen) == ReadStep(q, g, buflen)
    requires calls > 0
    ensures Completes(p, f, buflen, calls) == Completes(q, g, buflen, calls)
  {
  }

  lemma NothingDue(p: Phase, f: Feed, left: bytes, t: bytes, n: nat, buflen: nat, calls: nat)
    requires Ahead(p, f, left, t, n, buflen) && f.answers == []
    ensures !Due(p, f, left, n) && !Completes(p, f, buflen, calls)
  {
    SilenceDeliversNothing(p, f, buflen, calls);
  }

  lemma TooLate(p: Phase, f: Feed, left: bytes, n: nat, buflen: nat, calls: nat)
    requires p.Length? && WellFormed(p, buflen) && p.polls == MAX_LENGTH_BYTES && left != []
    ensures !Completes(p, f, buflen, calls) && !Due(p, f, left, n)
  {
  }

  /** The rest of the length arrives exactly if it comes in time; then the body has to arrive as well. */
  lemma {:induction false} LengthArrives(p: Phase, f: Feed, left: bytes, t: bytes, n: nat, buflen: nat, calls: nat)
    requires Ahead(p, f, left, t, n, buflen) && |f.answers| <= calls
    ensures Completes(p, f, buflen, calls) == Due(p, f, left, n)
    decreases |f.answers|, 1
  {
    if f.answers == [] {
      NothingDue(p, f, left, t, n, buflen, calls);
    } else if p.polls == MAX_LENGTH_BYTES {
      TooLate(p, f, left, n, buflen, calls);
    } else if f.answers[0].most == 0 {
      ArrivesLater(p, f, left, t, n, buflen, calls);
    } else if |left| > 1 {
      ArrivesInPart(p, f, left, t, n, buflen, calls);
    } else {
      AheadCompletes(p, f, left, t, n, buflen, calls);
    }
  }

  lemma {:induction false} ArrivesLater(p: Phase, f: Feed, left: bytes, t: bytes, n: nat, buflen: nat, calls: nat)
    requires Ahead(p, f, left, t, n, buflen) && |f.answers| <= calls && p.polls < MAX_LENGTH_BYTES
    requires f.answers != [] && f.answers[0].most == 0
    ensures Completes(p, f, buflen, calls) == Due(p, f, left, n)
    decreases |f.answers|, 0
  {
    AheadAgain(p, f, left, t, n, buflen, calls);
    LengthArrives(Length(p.header, p.polls + 1, p.seen), Feed(f.stream, f.answers[1..]), left, t, n, buflen, calls - 1);
  }

  lemma {:induction false} ArrivesInPart(p: Phase, f: Feed, left: bytes, t: bytes, n: nat, buflen: nat, calls: nat)
    requires Ahead(p, f, left, t, n, buflen) && |f.answers| <= calls && p.polls < MAX_LENGTH_BYTES && |left| > 1
    requires f.answers != [] && f.answers[0].most > 0
    ensures Completes(p, f, buflen, calls) == Due(p, f, left, n)
    decreases |f.answers|, 0
  {
    AheadContinues(p, f, left, t, n, buflen, calls);
    LengthArrives(Length(p.header, p.polls + 1, p.seen + [left[0]]), Feed(left[1..] + t, f.answers[1..]),
                  left[1..], t, n, buflen, calls);
  }

  /** The header has no limit on how long it may take. */
  function FromFirst(answers: seq<Answer>): seq<Answer> {
    if answers == [] then []
    else if answers[0].UpTo? && answers[0].most > 0 then answers
    else FromFirst(answers[1..])
  }

  lemma HeaderArrives(header: byte, seen: bytes, t: bytes, answers: seq<Answer>, n: nat, buflen: nat, calls: nat)
    requires LengthComplete(seen) && NoFailure(answers) && |answers| <= calls
    requires n == DecodeLength(seen).value <= |t| && 1 + |EncodeLength(n)| + n <= buflen
    requires answers != [] && answers[0].most > 0
    ensures Completes(Idle, Feed([header] + seen + t, answers), buflen, calls)
      <==> Delivers(answers[1..], |seen|, MAX_LENGTH_BYTES, n)
  {
    Associative([header], seen, t);
    var q, g := Length(header, 0, []), Feed(seen + t, answers[1..]);
    assert q.seen + seen == seen;
    LengthArrives(q, g, seen, t, n, buflen, calls);
    assert Due(q, g, seen, n) == Delivers(answers[1..], |seen|, MAX_LENGTH_BYTES, n);
  }

  /**
   * When polling a source that never fails delivers a packet that is there and fits. After the header, all the length
   * bytes must be among the next four answers, empty ones included, and the packet must not be an empty one.
   */
  lemma {:induction false} WhenPollingDelivers(header: byte, seen: bytes, t: bytes, answers: seq<Answer>,
                                               n: nat, buflen: nat, calls: nat)
    requires LengthComplete(seen) && NoFailure(answers) && |answers| <= calls
    requires n == DecodeLength(seen).value <= |t| && 1 + |EncodeLength(n)| + n <= buflen
    ensures Completes(Idle, Feed([header] + seen + t, answers), buflen, calls)
      <==> FromFirst(answers) != [] && Delivers(FromFirst(answers)[1..], |seen|, MAX_LENGTH_BYTES, n)
    decreases answers
  {
    var f := Feed([header] + seen + t, answers);
    if answers == [] {
      SilenceDeliversNothing(Idle, f, buflen, calls);
    } else if answers[0].most == 0 {
      WhenPollingDelivers(header, seen, t, answers[1..], n, buflen, calls - 1);
    } else {
      HeaderArrives(header, seen, t, answers, n, buflen, calls);
    }
  }

  lemma {:induction false} BringingAtMost(answers: seq<Answer>)
    ensures Bringing(answers) <= |answers|
  {
    if answers != [] {
      BringingAtMost(answers[1..]);
    }
  }

  /** One "call again" among the length bytes is enough to lose any packet whose length takes four of them. */
  lemma OneEmptyAnswerLosesLongPackets(header: byte, seen: bytes, t: bytes, more: seq<Answer>,
                                       n: nat, buflen: nat, calls: nat)
    requires LengthComplete(seen) && |seen| == MAX_LENGTH_BYTES && NoFailure(more) && |more| + 2 <= calls
    requires n == DecodeLength(seen).value <= |t| && 1 + |EncodeLength(n)| + n <= buflen
    ensures !Completes(Idle, Feed([header] + seen + t, [UpTo(1), UpTo(0)] + more), buflen, calls)
  {
    var answers := [UpTo(1), UpTo(0)] + more;
    WhenPollingDelivers(header, seen, t, answers, n, buflen, calls);
    var w := answers[1..][..Min(MAX_LENGTH_BYTES, |more| + 1)];
    assert w[0] == UpTo(0);
    BringingAtMost(w[1..]);
  }

  function Singly(k: nat): (a: seq<Answer>)
    ensures |a| == k && NoFailure(a)
  {
    seq(k, _ => UpTo(1))
  }

  lemma {:induction false} SinglyBrings(k: nat, more: seq<Answer>)
    ensures Bringing(Singly(k)) == k && After(Singly(k) + more, k) == more
  {
    if k == 0 {
      assert Singly(0) + more == more;
    } else {
      assert Singly(k)[1..] == Singly(k - 1);
      assert (Singly(k) + more)[1..] == Singly(k - 1) + more;
      SinglyBrings(k - 1, more);
    }
  }

  /** Without it the packet arrives: header and length byte by byte, then the body in one piece. */
  lemma SteadyAnswersDeliver(header: byte, seen: bytes, t: bytes, n: nat, buflen: nat, calls: nat)
    requires LengthComplete(seen) && |seen| + 2 <= calls
    requires 0 < n == DecodeLength(seen).value <= |t| && 1 + |EncodeLength(n)| + n <= buflen
    ensures Completes(Idle, Feed([header] + seen + t, [UpTo(1)] + (Singly(|seen|) + [UpTo(n)])), buflen, calls)
  {
    var k := |seen|;
    var rest := Singly(k) + [UpTo(n)];
    var answers := [UpTo(1)] + rest;
    WhenPollingDelivers(header, seen, t, answers, n, buflen, calls);
    assert answers[1..] == rest;
    SinglyBrings(k, [UpTo(n)]);
    PrefixBrings(rest, k, Min(MAX_LENGTH_BYTES, |rest|));
    assert rest[..k] == Singly(k);
    assert [UpTo(n)][1..] == [];
  }

  lemma {:induction false} PrefixBrings(answers: seq<Answer>, k: nat, m: nat)
    requires k <= m <= |answers|
    ensures Bringing(answers[..k]) <= Bringing(answers[..m])
  {
    if k > 0 {
      assert answers[..k][1..] == answers[1..][..k - 1] && answers[..m][1..] == answers[1..][..m - 1];
      PrefixBrings(answers[1..], k - 1, m - 1);
    }
  }

  /** An empty packet, which a PINGRESP is, is never completed, whatever the transport answers. */
  lemma {:induction false} EmptyPacketNeverCompletes(p: Phase, f: Feed, buflen: nat, calls: nat)
    requires p.Body? && WellFormed(p, buflen) && Size(p) == 0
    ensures var o := Poll(p, f, buflen, calls);
      o.packet == [] && o.feed.stream == f.stream && (if o.rc == 0 then o.phase == p else o == Step(-1, Idle, o.feed, []))
    decreases calls
  {
    if calls > 0 {
      var g := Get(f, 0);
      assert g.data == [] && g.feed.stream == f.stream;
      if g.rc == 0 {
        EmptyPacketNeverCompletes(p, g.feed, buflen, calls - 1);
      }
    }
  }

  // ---- what the reader needs of the buffer ----

  /** A length completed in this call can be written behind the header. */
  predicate LengthFits(p: Phase, f: Feed, buflen: nat)
    requires p.Length? && WellFormed(p, 0)
  {
    var d := DecodeStep(p, f);
    d.rc > 0 ==> 1 + |EncodeLength(DecodeLength(d.phase.seen).value)| <= buflen
  }

  /** Header and length, which are written before the size of the buffer is looked at, find room in it. */
  predicate FrontFits(p: Phase, f: Feed, buflen: nat)
    requires WellFormed(p, buflen)
  {
    match p
    case Idle =>
      var g := Get(f, 1);
      buflen > 0 && (g.rc > 0 ==> LengthFits(Length(g.data[0], 0, []), g.feed, buflen))
    case Length(_, _, _) => LengthFits(p, f, buflen)
    case Body(_, _, _) => true
  }

  lemma FiveBytesSuffice(p: Phase, f: Feed, buflen: nat)
    requires WellFormed(p, buflen) && buflen >= 1 + MAX_LENGTH_BYTES
    ensures FrontFits(p, f, buflen)
  {
    if p.Length? {
      DecodedSize(DecodeStep(p, f).phase.seen);
    } else if p.Idle? && Get(f, 1).rc > 0 {
      var g := Get(f, 1);
      DecodedSize(DecodeStep(Length(g.data[0], 0, []), g.feed).phase.seen);
    }
  }

  // ---- the reader as it runs ----

  /** The transport behind `getfn`. */
  class Source {
    var stream: bytes
    var answers: seq<Answer>

    function Remaining(): Feed
      reads this
    {
      Feed(stream, answers)
    }

    method Read(buf: array<byte>, off: nat, count: nat) returns (rc: int)
      requires off + count <= buf.Length
      modifies this, buf
      ensures var g := Get(old(Remaining()), count);
        rc == g.rc && Remaining() == g.feed && buf[..] == Overlay(old(buf[..]), off, g.data)
    {
      ghost var g := Get(Remaining(), count);
      ghost var now := Overlay(buf[..], off, g.data);
      if answers == [] {
        assert now == buf[..];
        return 0;
      }
      var answer := answers[0];
      answers := answers[1..];
      match answer
      case Failure =>
        assert now == buf[..];
        return -1;
      case UpTo(most) =>
        var n := Min(most, Min(count, |stream|));
        forall i | 0 <= i < n {
          buf[off + i] := stream[i];
        }
        assert buf[..] == now;
        stream := stream[n..];
        return n;
    }

    /** Reads into a buffer of one byte. */
    method ReadByte() returns (rc: int, c: byte)
      modifies this
      ensures var g := Get(old(Remaining()), 1);
        rc == g.rc && Remaining() == g.feed && (rc > 0 ==> g.data == [c])
    {
      var buf := new byte[1];
      rc := Read(buf, 0, 1);
      c := buf[0];
    }
  }

  /** What is kept between two calls. */
  class Transport {
    const source: Source
    var multiplier: nat
    var remLen: nat
    var len: nat
    var state: nat

    /** The fields while a length is being decoded; before the first poll two of them hold stale values. */
    ghost predicate Counts(polls: nat, seen: bytes)
      reads this
    {
      && len == polls
      && (polls > 0 ==> remLen == DecodeLength(seen).value && multiplier == Power128(|seen|))
    }

    ghost predicate Represents(p: Phase, buf: array<byte>)
      reads this, buf
    {
      match p
      case Idle => state != 1 && state != 2
      case Length(header, polls, seen) => state == 1 && Counts(polls, seen) && 0 < buf.Length && buf[0] == header
      case Body(_, _, body) =>
        && state == 2 && len == |Filled(p)| <= buf.Length && buf[..len] == Filled(p)
        && remLen == Size(p) - |body|
    }

    constructor (source: Source)
      ensures this.source == source && state == 0
    {
      this.source := source;
      multiplier, remLen, len, state := 0, 0, 0, 0;
    }

    /** In the decoding loop: the fields are those of `q`, and what is left to do leads to `goal`. */
    ghost predicate Decoding(q: Phase, goal: Step)
      reads this, source
    {
      && q.Length? && WellFormed(q, 0) && len == q.polls
      && remLen == DecodeLength(q.seen).value && multiplier == Power128(|q.seen|)
      && goal == DecodeStep(q, source.Remaining())
    }

    /** Done: the result and the fields are those of `goal`. */
    ghost predicate Decoded(rc: int, goal: Step)
      requires goal.phase.Length?
      reads this, source
    {
      rc == goal.rc && source.Remaining() == goal.feed && Counts(goal.phase.polls, goal.phase.seen)
    }

    /** What a length byte adds to the value. */
    method CountByte(c: byte, ghost seen: bytes)
      requires AllContinue(seen) && |seen| < MAX_LENGTH_BYTES
      requires remLen == DecodeLength(seen).value && multiplier == Power128(|seen|)
      modifies `multiplier, `remLen
      ensures remLen == DecodeLength(seen + [c]).value && multiplier == Power128(|seen + [c]|)
    {
      ValueExtends(seen, c);
      remLen := remLen + c % 128 * multiplier;
      multiplier := 128 * multiplier;
    }

    /** One round of the decoding loop. */
    method DecodeByte(ghost q: Phase, ghost goal: Step) returns (rc: int, more: bool, ghost next: Phase)
      requires Decoding(q, goal) && goal.phase.Length?
      modifies `multiplier, `remLen, `len, source
      ensures if more then len == old(len) + 1 && Decoding(next, goal) else Decoded(rc, goal)
    {
      ghost var f := source.Remaining();
      next := q;
      len := len + 1;
      if len > MAX_LENGTH_BYTES {
        return -1, false, q;
      }
      DecodeUnfolds(q, f);
      var frc, c := source.ReadByte();
      if frc <= 0 {
        return frc, false, q;
      }
      next := Length(q.header, len, q.seen + [c]);
      CountByte(c, q.seen);
      rc := len;
      more := c >= 128;
      if more {
        OneMoreByte(q, c);
      }
    }

    method DecodeNb(ghost p: Phase) returns (rc: int)
      requires p.Length? && WellFormed(p, 0) && Counts(p.polls, p.seen)
      modifies `multiplier, `remLen, `len, source
      ensures Decoded(rc, DecodeStep(p, old(source.Remaining())))
    {
      if len == 0 {
        multiplier := 1;
        remLen := 0;
      }
      ghost var q := p;
      ghost var goal := DecodeStep(p, source.Remaining());
      rc := -1;
      var more := true;
      while more
        invariant if more then Decoding(q, goal) else Decoded(rc, goal)
        decreases more, MAX_LENGTH_BYTES - len
      {
        rc, more, q := DecodeByte(q, goal);
      }
    }

    /** The call has ended as the step says, with any completed packet at the front of the buffer. */
    ghost predicate Did(o: Step, rc: int, buf: array<byte>)
      reads this, source, buf
    {
      rc == o.rc && source.Remaining() == o.feed && Represents(o.phase, buf) && o.packet <= buf[..]
    }

    /** State 2: the rest of the packet. */
    method BodyNb(buf: array<byte>, ghost p: Phase) returns (rc: int)
      requires p.Body? && WellFormed(p, buf.Length) && Represents(p, buf)
      modifies this, source, buf
      ensures Did(BodyStep(p, old(source.Remaining())), rc, buf)
    {
      ghost var g := Get(source.Remaining(), remLen);
      BodyFits(p, g.data, buf[..]);
      var frc := source.Read(buf, len, remLen);
      if frc == -1 {
        state := 0;
        return -1;
      }
      if frc == 0 {
        return 0;
      }
      remLen := remLen - frc;
      len := len + frc;
      if remLen != 0 {
        return 0;
      }
      rc := TypeOf(buf[0]);
      state := 0;
    }

    /** The length is complete: its canonical encoding goes back into the buffer. */
    method LengthDone(buf: array<byte>, ghost q: Phase) returns (rc: int)
      requires q.Body? && LengthComplete(q.seen) && q.body == [] && remLen == Size(q)
      requires 1 + |EncodeLength(remLen)| <= buf.Length && buf[0] == q.header
      modifies this, source, buf
      ensures Did(BodyStart(q, old(source.Remaining()), buf.Length), rc, buf)
    {
      var k := Encode(buf, 1, remLen);
      len := 1 + k;
      if remLen + len > buf.Length {
        state := 0;
        return -1;
      }
      state := 2;
      rc := BodyNb(buf, q);
    }

    /** State 1, and on into state 2 once the length is complete. */
    method LengthNb(buf: array<byte>, ghost p: Phase) returns (rc: int)
      requires p.Length? && WellFormed(p, 0) && Represents(p, buf) && LengthFits(p, source.Remaining(), buf.Length)
      modifies this, source, buf
      ensures Did(LengthStep(p, old(source.Remaining()), buf.Length), rc, buf)
    {
      ghost var d := DecodeStep(p, source.Remaining());
      DecodeConserves(p, source.Remaining());
      var frc := DecodeNb(p);
      if frc == -1 {
        state := 0;
        return -1;
      }
      if frc == 0 {
        return 0;
      }
      rc := LengthDone(buf, Body(p.header, d.phase.seen, []));
    }

    /** One call of the resumable reader, for a buffer that holds what it writes before looking at its size. */
    method ReadNb(buf: array<byte>, ghost p: Phase) returns (rc: int)
      requires WellFormed(p, buf.Length) && Represents(p, buf) && FrontFits(p, source.Remaining(), buf.Length)
      modifies this, source, buf
      ensures Did(ReadStep(p, old(source.Remaining()), buf.Length), rc, buf)
    {
      if state == 1 {
        rc := LengthNb(buf, p);
      } else if state == 2 {
        rc := BodyNb(buf, p);
      } else {
        state := 0;
        var frc := source.Read(buf, 0, 1);
        if frc == -1 {
          return -1;
        }
        if frc == 0 {
          return 0;
        }
        len := 0;
        state := state + 1;
        rc := LengthNb(buf, Length(buf[0], 0, []));
      }
    }
  }

  /**
   * A caller that calls again as long as the result is 0. Since the reserved packet type 0 gives that result as well,
   * it must not be the type of the packet.
   */
  method PollNb(t: Transport, buf: array<byte>, calls: nat, ghost p: Phase) returns (rc: int)
    requires WellFormed(p, buf.Length) && t.Represents(p, buf) && buf.Length >= 1 + MAX_LENGTH_BYTES
    requires var s := Since(p) + t.source.Remaining().stream; s != [] ==> TypeOf(s[0]) > 0
    modifies t, t.source, buf
    ensures t.Did(Poll(p, old(t.source.Remaining()), buf.Length, calls), rc, buf)
    decreases calls
  {
    ghost var f := t.source.Remaining();
    ghost var s, goal := Since(p) + f.stream, Poll(p, f, buf.Length, calls);
    rc := 0;
    if calls > 0 {
      FiveBytesSuffice(p, f, buf.Length);
      PollingStep(p, f, buf.Length, s, calls, goal);
      rc := t.ReadNb(buf, p);
      if rc == 0 {
        rc := PollNb(t, buf, calls - 1, ReadStep(p, f, buf.Length).phase);
      }
    }
  }

  /** After some calls: the bytes taken and those to come make up `s`, and `left` more calls lead to `goal`. */
  ghost predicate Polling(q: Phase, f: Feed, buflen: nat, s: bytes, left: nat, goal: Step) {
    WellFormed(q, buflen) && Since(q) + f.stream == s && Poll(q, f, buflen, left) == goal
  }

  /** A call that completes a packet of any type but 0 has a positive result, so that the result decides what is next. */
  lemma PollingStep(q: Phase, f: Feed, buflen: nat, s: bytes, left: nat, goal: Step)
    requires Polling(q, f, buflen, s, left, goal) && left > 0 && (s != [] ==> TypeOf(s[0]) > 0)
    ensures var o := ReadStep(q, f, buflen);
      if o.rc == 0 then Polling(o.phase, o.feed, buflen, s, left - 1, goal) else o == goal
  {
    ReadStepIsSound(q, f, buflen);
    var o := ReadStep(q, f, buflen);
    if o.packet != [] && o.rc == 0 {
      BlockingPacket(s, buflen, o.rc, o.packet, o.feed.stream);
    }
  }

  /** More body bytes go right behind those already there, and stay inside the buffer. */
  lemma BodyFits(p: Phase, data: bytes, before: bytes)
    requires p.Body? && WellFormed(p, |before|) && |p.body + data| <= Size(p)
    requires Filled(p) <= before
    ensures |Filled(p)| + |data| <= |before|
    ensures Filled(p.(body := p.body + data)) <= Overlay(before, |Filled(p)|, data)
  {
    Associative([p.header] + EncodeLength(Size(p)), p.body, data);
    PutBehind(before, Filled(p), data);
  }

  lemma OneMoreByte(q: Phase, c: byte)
    requires q.Length? && WellFormed(q, 0) && q.polls < MAX_LENGTH_BYTES && c >= 128
    ensures WellFormed(Length(q.header, q.polls + 1, q.seen + [c]), 0)
  {
  }

  // ---- the blocking reader as it runs ----

  /** When the decoder stops after `seen`, and what it has then. */
  lemma DecodeStops(s: bytes, seen: bytes, left: bytes)
    requires s == seen + left && AllContinue(seen) && |seen| <= MAX_LENGTH_BYTES
    ensures |seen| == MAX_LENGTH_BYTES || left == [] ==>
      DecodeLength(s) == LengthRead(DecodeLength(seen).value, |seen| + 1, false) && s[LengthSize(s)..] == left
    ensures |seen| < MAX_LENGTH_BYTES && left != [] && left[0] < 128 ==>
      && DecodeLength(s) == LengthRead(DecodeLength(seen + [left[0]]).value, |seen| + 1, true)
      && s[LengthSize(s)..] == left[1..]
  {
    DecodeSplits(seen, left, 0);
    if |seen| < MAX_LENGTH_BYTES && left != [] && left[0] < 128 {
      ValueExtends(seen, left[0]);
    }
  }

  /** A source that delivers whatever is asked for as long as there is any. */
  class BlockingSource {
    var stream: bytes

    method Read(buf: array<byte>, off: nat, count: nat) returns (rc: int)
      requires off + count <= buf.Length
      modifies this, buf
      ensures var n := Min(count, |old(stream)|);
        rc == n && stream == old(stream)[n..] && buf[..] == Overlay(old(buf[..]), off, old(stream)[..n])
    {
      var n := Min(count, |stream|);
      ghost var now := Overlay(buf[..], off, stream[..n]);
      forall i | 0 <= i < n {
        buf[off + i] := stream[i];
      }
      assert buf[..] == now;
      stream := stream[n..];
      return n;
    }

    predicate Decoded(s: bytes, value: nat, len: nat)
      reads this
    {
      value == DecodeLength(s).value && len == DecodeLength(s).count && stream == s[LengthSize(s)..]
    }

    /** In the decoding loop: `seen` has been read of `s`, and the locals are its value and the next multiplier. */
    ghost predicate Decoding(s: bytes, seen: bytes, value: nat, len: nat, multiplier: nat)
      reads this
    {
      && s == seen + stream && AllContinue(seen) && len == |seen| <= MAX_LENGTH_BYTES
      && value == DecodeLength(seen).value && multiplier == Power128(|seen|)
    }

    /** One round of the decoding loop. */
    method DecodeByte(ghost s: bytes, ghost seen: bytes, value0: nat, len0: nat, multiplier0: nat)
      returns (more: bool, value: nat, len: nat, multiplier: nat, ghost next: bytes)
      requires Decoding(s, seen, value0, len0, multiplier0)
      modifies this
      ensures if more then len == len0 + 1 && Decoding(s, next, value, len, multiplier) else Decoded(s, value, len)
    {
      more, value, len, multiplier, next := false, value0, len0 + 1, multiplier0, seen;
      DecodeStops(s, seen, stream);
      if len > MAX_LENGTH_BYTES {
        return;
      }
      ghost var left := stream;
      var c := new byte[1];
      var rc := Read(c, 0, 1);
      if rc != 1 {
        return;
      }
      assert left == [c[0]] + stream;
      ValueExtends(seen, c[0]);
      value := value + c[0] % 128 * multiplier;
      multiplier := 128 * multiplier;
      next := seen + [c[0]];
      more := c[0] >= 128;
    }

    method Decode() returns (len: nat, value: nat)
      modifies this
      ensures Decoded(old(stream), value, len)
    {
      var multiplier: nat := 1;
      value, len := 0, 0;
      ghost var s, seen: bytes := stream, [];
      assert seen + s == s && Power128(0) == 1;
      var more := true;
      while more
        invariant if more then Decoding(s, seen, value, len, multiplier) else Decoded(s, value, len)
        decreases more, MAX_LENGTH_BYTES - len
      {
        more, value, len, multiplier, seen := DecodeByte(s, seen, value, len, multiplier);
      }
    }

    /** The whole packet in one call; the buffer holds header and length, which are written before its size matters. */
    method ReadInto(buf: array<byte>) returns (rc: int)
      requires buf.Length > 0
      requires stream != [] ==> 1 + |EncodeLength(DecodeLength(stream[1..]).value)| <= buf.Length
      modifies this, buf
      ensures var r := ReadPacket(old(stream), buf.Length);
        rc == r.rc && stream == r.rest && r.packet <= buf[..]
    {
      ghost var s := stream;
      var got := Read(buf, 0, 1);
      if got != 1 {
        return -1;
      }
      assert stream == s[1..] && buf[0] == s[0];
      var _, n := Decode();
      rc := FillBuffer(buf, s[0], n);
    }

    /** The length goes back into the buffer, then the body follows it. */
    method FillBuffer(buf: array<byte>, ghost header: byte, n: nat) returns (rc: int)
      requires 1 + |EncodeLength(n)| <= buf.Length && buf[0] == header
      modifies this, buf
      ensures var front := [header] + EncodeLength(n);
        var left := old(stream);
        if n + |front| > buf.Length then rc == -1 && front <= buf[..] && stream == left
        else
          var k := Min(n, |left|);
          && rc == (if k == n then TypeOf(header) else -1)
          && stream == left[k..] && front + left[..k] <= buf[..]
    {
      ghost var left, front := stream, [header] + EncodeLength(n);
      PutBehind(buf[..], [header], EncodeLength(n));
      var k := Encode(buf, 1, n);
      if n + 1 + k > buf.Length {
        return -1;
      }
      PutBehind(buf[..], front, left[..Min(n, |left|)]);
      var got := Read(buf, 1 + k, n);
      if got != n {
        return -1;
      }
      return TypeOf(buf[0]);
    }
  }

  /** Whatever the length bytes were, the value read from them takes at most four to write. */
  lemma DecodedSize(s: bytes)
    ensures |EncodeLength(DecodeLength(s).value)| <= MAX_LENGTH_BYTES
  {
    DecodedIsBounded(s);
    EncodedSize(DecodeLength(s).value);
  }

  lemma PutBehind(before: bytes, front: bytes, more: bytes)
    requires front <= before && |front| + |more| <= |before|
    ensures front + more <= Overlay(before, |front|, more)
  {
    assert before[..|front|] == front;
    assert Overlay(before, |front|, more)[..|front| + |more|] == front + more;
  }
}
