/** The kit protocol from end to end: what one side sends is what the other side understands. */
module KitRoundTrip {
  import opened Bytes
  import opened KitHex
  import opened KitReports
  import D = KitDevice
  import H = KitHost

  // ---- commands ----

  /** What the callers of the host put in front of the data. */
  predicate IsTarget(target: bytes) {
    NulFree(target) && LPAREN !in target && NEWLINE !in target
  }

  /** A command in the device's memory: gathered, lowered but for its newline, terminated, something behind it. */
  predicate InMemory(memory: bytes, text: bytes) {
    && text != [] && |text| + 2 <= |memory|
    && memory[..|text|] == LowerAll(text[..|text| - 1]) + [NEWLINE]
    && memory[|text|] == 0
  }

  lemma {:induction false} UpToNulIs(s: bytes, memory: bytes)
    requires NulFree(s) && |s| < |memory| && s == memory[..|s|] && memory[|s|] == 0
    ensures UpToNul(memory) == s
  {
    if s != [] {
      assert memory[0] == s[0];
      assert s[1..] == memory[1..][..|s| - 1];
      UpToNulIs(s[1..], memory[1..]);
    }
  }

  lemma LowerKeeps(s: bytes, c: byte)
    requires c !in s && !(LOWER_A <= c <= LOWER_Z)
    ensures c !in LowerAll(s)
  {
    forall i | 0 <= i < |s| ensures LowerAll(s)[i] != c {
      assert s[i] != c;
    }
  }

  lemma LowerJoined(a: bytes, b: bytes)
    ensures LowerAll(a + b) == LowerAll(a) + LowerAll(b)
  {
  }

  /** The text the device looks at: the target in lower case, the host's digits as they were. */
  function Lowered(target: bytes, data: bytes): bytes {
    LowerAll(target) + ([LPAREN] + LowerHex(data) + [RPAREN, NEWLINE])
  }

  lemma LoweredCommand(target: bytes, data: bytes)
    ensures var text := H.Command(target, data);
      LowerAll(text[..|text| - 1]) + [NEWLINE] == Lowered(target, data)
  {
    var text := H.Command(target, data);
    var load := [LPAREN] + LowerHex(data) + [RPAREN];
    assert text[..|text| - 1] == target + load;
    LowerJoined(target, load);
    LowerJoined([LPAREN] + LowerHex(data), [RPAREN]);
    LowerJoined([LPAREN], LowerHex(data));
    LowerHexIsLower(data);
    assert LowerAll([LPAREN]) == [LPAREN] && LowerAll([RPAREN]) == [RPAREN];
  }

  lemma LoweredIsText(target: bytes, data: bytes)
    requires IsTarget(target)
    ensures NulFree(Lowered(target, data))
  {
    LowerKeeps(target, 0);
    OnlyHexDigits(data, 0);
    var s := Lowered(target, data);
    forall i | 0 <= i < |s| ensures s[i] != 0 {
      assert s[i] in s;
    }
  }

  /** The load of a command is exactly the digits between its parentheses. */
  lemma LoadOfCommand(target: bytes, data: bytes)
    requires IsTarget(target)
    ensures D.FindLoad(Lowered(target, data)) == Some(D.Load(|target| + 1, 2 * |data|))
  {
    var lead, hex := LowerAll(target), LowerHex(data);
    var load := [LPAREN] + hex + [RPAREN, NEWLINE];
    LowerKeeps(target, LPAREN);
    D.IndexBehind(lead, load, LPAREN);
    assert (lead + load)[|lead|..] == load == ([LPAREN] + hex) + [RPAREN, NEWLINE];
    OnlyHexDigits(data, RPAREN);
    D.IndexBehind([LPAREN] + hex, [RPAREN, NEWLINE], RPAREN);
  }

  /** The data of a text in memory whose load is an even number of digits. */
  lemma LoadedDigits(memory: bytes, s: bytes, start: nat, end: nat, digits: bytes)
    requires NulFree(s) && |s| + 2 <= |memory| && memory[..|s|] == s && memory[|s|] == 0
    requires start <= end <= |memory| && memory[start..end] == digits && |digits| % 2 == 0
    requires D.FindLoad(s) == Some(D.Load(start, end - start))
    ensures |UpToNul(memory)| + 2 <= |memory| && D.DataOf(memory) == Some(Unhex(digits))
  {
    UpToNulIs(s, memory);
    D.DataOfLoad(memory, Some(D.Load(start, end - start)));
    LoadedIs(memory, start, end, end - start, digits);
  }

  lemma LoadedIs(memory: bytes, start: nat, end: nat, length: nat, digits: bytes)
    requires length == end - start && start + 2 * Pairs(length) <= |memory|
    requires start <= end <= |memory| && memory[start..end] == digits && |digits| % 2 == 0
    ensures D.Loaded(memory, start, length) == Unhex(digits)
  {
    EvenPairs(length);
  }

  lemma EvenPairs(n: nat)
    requires n % 2 == 0
    ensures 2 * Pairs(n) == n
  {
  }

  lemma SliceInMemory(memory: bytes, s: bytes, start: nat, end: nat)
    requires start <= end <= |s| <= |memory| && memory[..|s|] == s
    ensures memory[start..end] == s[start..end]
  {
    forall i | start <= i < end ensures memory[i] == s[i] {
      assert memory[..|s|][i] == memory[i];
    }
  }

  lemma DigitsInside(s: bytes, lead: bytes, hex: bytes, tail: bytes, start: nat)
    requires s == lead + ([LPAREN] + hex + tail) && start == |lead| + 1
    ensures start + |hex| <= |s| && s[start..start + |hex|] == hex
  {
    forall i | 0 <= i < |hex| ensures s[start + i] == hex[i] {
      assert s[start + i] == ([LPAREN] + hex + tail)[i + 1];
    }
  }

  /** The device extracts exactly the data, whatever the target and whatever else is in its memory. */
  lemma CommandIsUnderstood(target: bytes, data: bytes, memory: bytes)
    requires IsTarget(target) && InMemory(memory, H.Command(target, data))
    ensures |UpToNul(memory)| + 2 <= |memory| && D.DataOf(memory) == Some(data)
  {
    LoweredCommand(target, data);
    LoweredIsText(target, data);
    LoadOfCommand(target, data);
    LoadInside(memory, Lowered(target, data), LowerAll(target), LowerHex(data));
    LowerHexBack(data);
  }

  /** A load that lies inside the text. */
  lemma LoadInside(memory: bytes, s: bytes, lead: bytes, hex: bytes)
    requires NulFree(s) && |s| + 2 <= |memory| && memory[..|s|] == s && memory[|s|] == 0
    requires s == lead + ([LPAREN] + hex + [RPAREN, NEWLINE]) && |hex| % 2 == 0
    requires D.FindLoad(s) == Some(D.Load(|lead| + 1, |hex|))
    ensures |UpToNul(memory)| + 2 <= |memory| && D.DataOf(memory) == Some(Unhex(hex))
  {
    var start := |lead| + 1;
    var end := start + |hex|;
    DigitsInside(s, lead, hex, [RPAREN, NEWLINE], start);
    SliceInMemory(memory, s, start, end);
    LoadedDigits(memory, s, start, end, hex);
  }

  lemma LoweringInMemory(raw: bytes, text: bytes)
    requires text != [] && text[|text| - 1] == NEWLINE && |text| + 2 <= |raw|
    requires raw[..|text|] == text && raw[|text|] == 0
    ensures InMemory(D.LoweredMessage(raw, |text|), text)
  {
    var n := |text|;
    assert raw[..n - 1] == raw[..n][..n - 1];
    assert raw[n - 1] == raw[..n][n - 1];
    assert D.LoweredMessage(raw, n)[..n] == LowerAll(raw[..n - 1]) + [raw[n - 1]];
  }

  /**
   * Any command whose target has no parenthesis, newline or NUL, with any data: the device gathers exactly its text
   * from the padded reports and announces it once; and lowering that text in its buffer, ended by a NUL, and
   * extracting the data gives exactly the data, whatever the rest of the buffer holds.
   */
  lemma CommandArrives(target: bytes, data: bytes, messages: nat, raw: bytes)
    requires IsTarget(target)
    requires var text := H.Command(target, data);
      |text| + 2 <= |raw| && raw[..|text|] == text && raw[|text|] == 0
    ensures var text := H.Command(target, data);
      && Gather(Gathered([], messages), Reports(text, EOT)) == Gathered(text, messages + 1)
      && var memory := D.LoweredMessage(raw, |text|);
      |UpToNul(memory)| + 2 <= |memory| && D.DataOf(memory) == Some(data)
  {
    var text := H.Command(target, data);
    CommandIsOneLine(target, data);
    GatherReports(Gathered([], messages), text, EOT);
    assert [] + text == text;
    LoweringInMemory(raw, text);
    CommandIsUnderstood(target, data, D.LoweredMessage(raw, |text|));
  }

  /** The reports that are still to come are those of the rest of the text; after the last one the text is ended. */
  ghost predicate Fed(r: Receiver, text: bytes, rest: bytes, messages: nat)
    reads r, r.rx
  {
    && r.length <= r.rx.Length && |text| + 2 <= r.rx.Length
    && r.rx[..r.length] + rest == text
    && r.received == messages + (if rest == [] then 1 else 0)
    && (rest == [] ==> r.rx[r.length] == 0)
    && (rest != [] ==> rest[|rest| - 1] == NEWLINE && NEWLINE !in rest[..|rest| - 1])
  }

  method FeedReport(r: Receiver, report: bytes, ghost text: bytes, ghost rest: bytes, ghost messages: nat)
    returns (ghost next: bytes)
    requires Fed(r, text, rest, messages) && rest != [] && report == Report(rest[..Min(REPORT_SIZE, |rest|)], EOT)
    modifies r, r.rx
    ensures next == rest[Min(REPORT_SIZE, |rest|)..] && Fed(r, text, next, messages)
  {
    ghost var n := Min(REPORT_SIZE, |rest|);
    LineOfReport(rest, EOT, n);
    ghost var before: bytes := r.rx[..r.length];
    r.ReportOut(report);
    next := rest[n..];
    assert r.rx[..r.length] == before + rest[..n];
    assert before + rest[..n] + next == before + rest;
    if next != [] {
      assert next[..|next| - 1] == rest[..|rest| - 1][n..];
    }
  }

  /** Feeds the reports of a text to the receiver, one callback after the other. */
  method FeedReports(r: Receiver, reports: seq<bytes>, ghost text: bytes)
    requires Fed(r, text, text, r.received) && text != [] && reports == Reports(text, EOT)
    modifies r, r.rx
    ensures Fed(r, text, [], old(r.received))
  {
    ghost var rest, messages := text, r.received;
    var j: nat := 0;
    while j < |reports|
      invariant j <= |reports| && reports[j..] == Reports(rest, EOT) && Fed(r, text, rest, messages)
    {
      assert reports[j..][0] == reports[j] && reports[j..][1..] == reports[j + 1..];
      rest := FeedReport(r, reports[j], text, rest, messages);
      j := j + 1;
    }
    assert rest == [];
  }

  /**
   * The device's side of a command from the first report to the extracted data: gathering, lowering, extracting. For
   * the reports of any command whose target has no parenthesis, newline or NUL, exactly the data lies in the buffer.
   */
  method ReceiveCommand(r: Receiver, reports: seq<bytes>, ghost target: bytes, ghost data: bytes)
    returns (status: byte, at: nat, length: nat)
    requires IsTarget(target) && reports == Reports(H.Command(target, data), EOT)
    requires r.length == 0 && |H.Command(target, data)| + 2 <= r.rx.Length
    modifies r, r.rx
    ensures r.received == old(r.received) + 1
    ensures status == D.SUCCESS && length == |data| && at + length <= r.rx.Length && r.rx[at..at + length] == data
  {
    ghost var text := H.Command(target, data);
    CommandIsOneLine(target, data);
    assert r.rx[..0] + text == text;
    FeedReports(r, reports, text);
    assert r.rx[..r.length] == text;
    CommandArrives(target, data, 0, r.rx[..]);
    D.LowerMessage(r.rx, r.length);
    status, at, length := D.ExtractDataLoad(r.rx);
  }

  lemma CommandIsOneLine(target: bytes, data: bytes)
    requires IsTarget(target)
    ensures var text := H.Command(target, data);
      text[|text| - 1] == NEWLINE && NEWLINE !in text[..|text| - 1]
  {
    var text := H.Command(target, data);
    OnlyHexDigits(data, NEWLINE);
    assert text[..|text| - 1] == target + [LPAREN] + LowerHex(data) + [RPAREN];
  }

  /** A command text without its closing parenthesis. */
  function Unclosed(lead: bytes, data: bytes): bytes {
    lead + ([LPAREN] + LowerHex(data) + [NEWLINE])
  }

  lemma LoadOfUnclosed(lead: bytes, data: bytes)
    requires IsTarget(lead)
    ensures NulFree(Unclosed(lead, data))
    ensures var s, start := Unclosed(lead, data), |lead| + 1;
      s[start..] == LowerHex(data) + [NEWLINE] && D.FindLoad(s) == Some(D.Load(start, |s| + 1 - start))
  {
    var load := [LPAREN] + LowerHex(data) + [NEWLINE];
    var s := Unclosed(lead, data);
    OnlyHexDigits(data, 0);
    OnlyHexDigits(data, RPAREN);
    forall i | 0 <= i < |s| ensures s[i] != 0 {
      assert s[i] in s;
    }
    D.IndexBehind(lead, load, LPAREN);
    assert s[|lead|..] == load && RPAREN !in load;
  }

  /** The end of a text in memory, with its terminator. */
  lemma TailInMemory(memory: bytes, s: bytes, start: nat)
    requires start <= |s| < |memory| && memory[..|s|] == s && memory[|s|] == 0
    ensures memory[start..|s| + 1] == s[start..] + [0]
  {
    assert memory[start..|s|] == memory[..|s|][start..];
    assert memory[start..|s| + 1] == memory[start..|s|] + [memory[|s|]];
  }

  /** Two characters that are no digits, such as a newline and a NUL, stand for a zero byte. */
  lemma UnhexEnd(hex: bytes, a: byte, b: byte)
    requires |hex| % 2 == 0 && AsciiToNibble(a) == 0 && AsciiToNibble(b) == 0
    ensures Unhex(hex + [a, b]) == Unhex(hex) + [0]
  {
    UnhexPair(hex, a, b);
  }

  /** A load that runs to the end of the text, newline and terminator included. */
  lemma LoadToTheEnd(memory: bytes, s: bytes, start: nat, hex: bytes)
    requires NulFree(s) && |s| + 2 <= |memory| && memory[..|s|] == s && memory[|s|] == 0
    requires start <= |s| && s[start..] == hex + [NEWLINE] && |hex| % 2 == 0
    requires D.FindLoad(s) == Some(D.Load(start, |s| + 1 - start))
    ensures |UpToNul(memory)| + 2 <= |memory| && D.DataOf(memory) == Some(Unhex(hex) + [0])
  {
    TailInMemory(memory, s, start);
    var digits := hex + [NEWLINE, 0];
    assert hex + [NEWLINE] + [0] == digits;
    LoadedDigits(memory, s, start, |s| + 1, digits);
    UnhexEnd(hex, NEWLINE, 0);
  }

  /** Leaving out the closing parenthesis is allowed, but it costs: the newline and the NUL become one more byte. */
  lemma MissingParenthesisAddsAByte(lead: bytes, data: bytes, memory: bytes)
    requires IsTarget(lead)
    requires var s := Unclosed(lead, data); |s| + 2 <= |memory| && memory[..|s|] == s && memory[|s|] == 0
    ensures |UpToNul(memory)| + 2 <= |memory| && D.DataOf(memory) == Some(data + [0])
  {
    LoadOfUnclosed(lead, data);
    LoadToTheEnd(memory, Unclosed(lead, data), |lead| + 1, LowerHex(data));
    LowerHexBack(data);
  }

  // ---- responses ----

  /** What the host makes of the reports a response went out in, whatever else is waiting. */
  function HostReads(reports: seq<bytes>): Option<H.Reply> {
    match H.ReadFrom([], reports)
    case None => None
    case Some(read) => H.ParseReply(read.text)
  }

  lemma ResponseIsOneLine(status: byte, data: bytes)
    ensures var s := D.Response(status, data);
      s[0] > SPACE && s[|s| - 1] == NEWLINE && NEWLINE !in s[..|s| - 1]
  {
    var s := D.Response(status, data);
    OnlyHexDigits([status], NEWLINE);
    OnlyHexDigits(data, NEWLINE);
    H.ResponseShape(status, data);
    assert s[..|s| - 1] == Hex([status]) + [LPAREN] + Hex(data) + [RPAREN];
  }

  lemma ResponseIsRead(status: byte, data: bytes, more: seq<bytes>)
    ensures HostReads(Reports(D.Response(status, data), 0) + more) == Some(H.Reply(status, Hex(data)))
  {
    var s := D.Response(status, data);
    ResponseIsOneLine(status, data);
    H.ReadReports([], s, 0, more);
    assert [] + s == s;
    H.ParseResponse(status, data);
  }

  /**
   * The host recovers status and data exactly if the data has at most 122 bytes. At 123 bytes the last one is lost and
   * the status does not tell; from 124 bytes on the status does.
   */
  lemma ResponseArrives(status: byte, data: bytes, more: seq<bytes>)
    ensures var r := HostReads(Reports(D.Outgoing(status, data), 0) + more);
      && r.Some?
      && (r.value.status == status && Unhex(r.value.data) == data <==> |data| < D.MAX_RESPONSE)
      && (|data| == D.MAX_RESPONSE ==> r.value.status == status && Unhex(r.value.data) == data[..|data| - 1])
      && (|data| > D.MAX_RESPONSE ==> r.value.status == D.TX_OVERFLOW)
  {
    var kept := if |data| < D.MAX_RESPONSE then data else data[..D.MAX_RESPONSE - 1];
    ResponseIsRead(if |data| > D.MAX_RESPONSE then D.TX_OVERFLOW else status, kept, more);
    HexBack(kept);
  }

  /** A response that the sender reports as sent is one the host reads; otherwise only a part of its reports is out. */
  lemma SentResponseArrives(status: byte, data: bytes, answers: seq<bool>)
    ensures var reports := Reports(D.Response(status, data), 0);
      var r := Send(reports, answers, SEND_RETRIES, false);
      if r.ok then r.sent == reports && HostReads(r.sent) == Some(H.Reply(status, Hex(data)))
      else r.sent < reports
  {
    var reports := Reports(D.Response(status, data), 0);
    SuccessMeansAllSent(reports, answers, SEND_RETRIES, false);
    ResponseIsRead(status, data, []);
    assert reports + [] == reports;
  }
}
