/** The host end of the kit protocol, and that each end understands the other. */
module KitHost {
  import opened Bytes
  import opened KitHex
  import opened KitReports
  import D = KitDevice

  // ---- writing a command ----

  function Command(target: bytes, data: bytes): (s: bytes)
    ensures |s| == |target| + 2 * |data| + 3
  {
    target + [LPAREN] + LowerHex(data) + [RPAREN, NEWLINE]
  }

  /** Each report is written behind the report id zero. */
  function WithId(reports: seq<bytes>): seq<bytes> {
    if reports == [] then [] else [[0] + reports[0]] + WithId(reports[1..])
  }

  lemma {:induction false} WithIdMore(reports: seq<bytes>, r: bytes)
    ensures WithId(reports + [r]) == WithId(reports) + [[0] + r]
  {
    if reports == [] {
      assert reports + [r] == [r];
    } else {
      assert (reports + [r])[1..] == reports[1..] + [r];
      WithIdMore(reports[1..], r);
    }
  }

  /** The first `i` characters have gone into the reports `done`. */
  predicate CutUpTo(text: bytes, i: nat, done: seq<bytes>) {
    Reports(text, EOT) == done + Reports(text[Min(i, |text|)..], EOT)
  }

  lemma CutOne(text: bytes, i: nat, done: seq<bytes>, chunk: bytes)
    requires CutUpTo(text, i, done) && i < |text|
    requires chunk == text[i..Min(i + REPORT_SIZE, |text|)]
    ensures |chunk| <= REPORT_SIZE && CutUpTo(text, i + REPORT_SIZE, done + [Report(chunk, EOT)])
    ensures WithId(done + [Report(chunk, EOT)]) == WithId(done) + [[0] + chunk + Fill(REPORT_SIZE - |chunk|, EOT)]
  {
    var rest, end := text[i..], Min(i + REPORT_SIZE, |text|);
    assert rest[..|chunk|] == chunk && rest[|chunk|..] == text[end..];
    WithIdMore(done, Report(chunk, EOT));
    assert [0] + chunk + Fill(REPORT_SIZE - |chunk|, EOT) == [0] + Report(chunk, EOT);
    Associative(done, [Report(chunk, EOT)], Reports(text[end..], EOT));
  }

  method KitWrite(target: bytes, data: bytes) returns (writes: seq<bytes>)
    ensures writes == WithId(Reports(Command(target, data), EOT))
  {
    var text := Command(target, data);
    writes := [];
    ghost var done: seq<bytes> := [];
    var i: nat := 0;
    while i < |text|
      invariant CutUpTo(text, i, done) && writes == WithId(done)
    {
      var chunk := text[i..Min(i + REPORT_SIZE, |text|)];
      CutOne(text, i, done, chunk);
      writes := writes + [[0] + chunk + Fill(REPORT_SIZE - |chunk|, EOT)];
      done := done + [Report(chunk, EOT)];
      i := i + REPORT_SIZE;
    }
    assert text[|text|..] == [] && done + [] == done;
  }

  // ---- reading a reply ----

  /** A chunk without the blank and control characters it starts with; its last character always stays. */
  function SkipBlanks(chunk: bytes): bytes {
    if |chunk| <= 1 || chunk[0] > SPACE then chunk else SkipBlanks(chunk[1..])
  }

  datatype KitText = KitText(text: bytes, left: seq<bytes>)

  /** Reading reports until there is a newline; an empty report stands for a timeout. */
  function ReadFrom(data: bytes, incoming: seq<bytes>): Option<KitText>
    decreases |incoming|
  {
    if NEWLINE in data then Some(KitText(Line(data), incoming))
    else if incoming == [] || incoming[0] == [] then None
    else ReadFrom(data + if data == [] then SkipBlanks(incoming[0]) else incoming[0], incoming[1..])
  }

  method KitRead(incoming: seq<bytes>) returns (r: Option<KitText>)
    ensures r == ReadFrom([], incoming)
  {
    var data: bytes, left := [], incoming;
    while NEWLINE !in data
      invariant ReadFrom([], incoming) == ReadFrom(data, left)
      decreases |left|
    {
      if left == [] || left[0] == [] {
        return None;
      }
      var chunk := left[0];
      if data == [] {
        var i := 0;
        while i < |chunk| - 1 && chunk[i] <= SPACE
          invariant 0 <= i < |chunk|
          invariant SkipBlanks(chunk) == SkipBlanks(chunk[i..])
          decreases |chunk| - i
        {
          assert chunk[i..][1..] == chunk[i + 1..];
          i := i + 1;
        }
        chunk := chunk[i..];
      }
      data := data + chunk;
      left := left[1..];
    }
    return Some(KitText(Line(data), left));
  }

  lemma ReadOne(data: bytes, text: bytes, pad: byte, n: nat, more: seq<bytes>)
    requires text != [] && n == Min(REPORT_SIZE, |text|)
    requires NEWLINE !in data && (data == [] ==> text[0] > SPACE)
    ensures ReadFrom(data, Reports(text, pad) + more)
         == ReadFrom(data + Report(text[..n], pad), Reports(text[n..], pad) + more)
  {
    assert Report(text[..n], pad)[0] == text[0];
    assert (Reports(text, pad) + more)[1..] == Reports(text[n..], pad) + more;
  }

  /** A message comes back whole from its reports, without the padding behind its newline. */
  lemma {:induction false} ReadReports(data: bytes, text: bytes, pad: byte, more: seq<bytes>)
    requires text != [] && text[|text| - 1] == NEWLINE && NEWLINE !in text[..|text| - 1] && pad != NEWLINE
    requires NEWLINE !in data && (data == [] ==> text[0] > SPACE)
    ensures ReadFrom(data, Reports(text, pad) + more) == Some(KitText(data + text, more))
    decreases |text|
  {
    var n := Min(REPORT_SIZE, |text|);
    var r := Report(text[..n], pad);
    var rest := text[n..];
    ReadOne(data, text, pad, n, more);
    LineOfReport(text, pad, n);
    if n < |text| {
      assert r == text[..n];
      assert rest[..|rest| - 1] == text[..|text| - 1][n..];
      ReadReports(data + r, rest, pad, more);
      assert data + r + rest == data + text;
    } else {
      assert text[..n] == text && Reports(rest, pad) + more == more;
      LineBehind(data, r);
    }
  }

  lemma {:induction false} LineBehind(data: bytes, r: bytes)
    requires NEWLINE !in data
    ensures Line(data + r) == data + Line(r)
  {
    if data == [] {
      assert data + r == r;
    } else {
      assert (data + r)[1..] == data[1..] + r;
      LineBehind(data[1..], r);
    }
  }

  // ---- parsing a reply ----

  datatype Reply = Reply(status: byte, data: bytes)

  predicate IsAlphanumeric(c: byte) {
    ZERO <= c <= NINE || UPPER_A <= c <= UPPER_Z || LOWER_A <= c <= LOWER_Z
  }

  /** Two letters or digits, then anything but a closing parenthesis between two parentheses. */
  predicate MatchesHere(s: bytes) {
    |s| > 3 && IsAlphanumeric(s[0]) && IsAlphanumeric(s[1]) && s[2] == LPAREN && RPAREN in s[3..]
  }

  /** The first match in the text; its status must be hexadecimal. */
  function ParseReply(s: bytes): Option<Reply> {
    if s == [] then None
    else if MatchesHere(s) then
      if IsHexDigit(s[0]) && IsHexDigit(s[1]) then
        Some(Reply(16 * AsciiToNibble(s[0]) + AsciiToNibble(s[1]), s[3..3 + D.IndexOf(s[3..], RPAREN)]))
      else None
    else ParseReply(s[1..])
  }

  lemma HexOfStatus(status: byte)
    ensures Hex([status]) == [NibbleToAscii(status / 16), NibbleToAscii(status % 16)]
  {
    assert [status][1..] == [];
  }

  lemma ResponseShape(status: byte, data: bytes)
    ensures var s := D.Response(status, data);
      && s[0] == NibbleToAscii(status / 16) && s[1] == NibbleToAscii(status % 16) && s[2] == LPAREN
      && s[3..] == Hex(data) + [RPAREN, NEWLINE]
  {
    HexOfStatus(status);
  }

  lemma MatchesResponse(status: byte, data: bytes)
    ensures MatchesHere(D.Response(status, data))
  {
    var s := D.Response(status, data);
    ResponseShape(status, data);
    assert s[3..][2 * |data|] == RPAREN;
  }

  lemma StatusDigits(status: byte)
    ensures var hi, lo := NibbleToAscii(status / 16), NibbleToAscii(status % 16);
      IsHexDigit(hi) && IsHexDigit(lo) && 16 * AsciiToNibble(hi) + AsciiToNibble(lo) == status
  {
  }

  lemma ParseHere(s: bytes, hex: bytes, tail: bytes)
    requires MatchesHere(s) && IsHexDigit(s[0]) && IsHexDigit(s[1])
    requires s[3..] == hex + tail && RPAREN !in hex && tail != [] && tail[0] == RPAREN
    ensures ParseReply(s) == Some(Reply(16 * AsciiToNibble(s[0]) + AsciiToNibble(s[1]), hex))
  {
    D.IndexBehind(hex, tail, RPAREN);
    assert s[3..3 + |hex|] == s[3..][..|hex|];
    assert (hex + tail)[..|hex|] == hex;
  }

  lemma ParseShaped(s: bytes, status: byte, hex: bytes)
    requires MatchesHere(s) && s[0] == NibbleToAscii(status / 16) && s[1] == NibbleToAscii(status % 16)
    requires s[3..] == hex + [RPAREN, NEWLINE] && RPAREN !in hex
    ensures ParseReply(s) == Some(Reply(status, hex))
  {
    StatusDigits(status);
    ParseHere(s, hex, [RPAREN, NEWLINE]);
  }

  /** What the host parses from a response is the status and the hexadecimal data. */
  lemma ParseResponse(status: byte, data: bytes)
    ensures ParseReply(D.Response(status, data)) == Some(Reply(status, Hex(data)))
  {
    ResponseShape(status, data);
    MatchesResponse(status, data);
    OnlyHexDigits(data, RPAREN);
    ParseShaped(D.Response(status, data), status, Hex(data));
  }
}
