/** The kit protocol as it is written, apart from the code of either end. */
module KitWire {
  import opened Bytes
  import opened KitHex
  import opened KitReports
  import D = KitDevice
  import H = KitHost
  import R = KitRoundTrip

  /** The bytes of a plain text. */
  function Ascii(s: string): (r: bytes)
    ensures |r| == |s|
  {
    seq(|s|, i requires 0 <= i < |s| => (s[i] as int) % 256)
  }

  /** Two digits a byte, the high one first. */
  function Digits(alphabet: string, data: bytes): bytes
    requires |alphabet| == 16
  {
    if data == [] then []
    else
      [(alphabet[data[0] / 16] as int) % 256, (alphabet[data[0] % 16] as int) % 256] + Digits(alphabet, data[1..])
  }

  lemma DigitIs(n: nibble)
    ensures NibbleToAscii(n) == ("0123456789ABCDEF"[n] as int) % 256
    ensures NibbleToLower(n) == ("0123456789abcdef"[n] as int) % 256
    ensures AsciiToNibble(NibbleToAscii(n)) == n && AsciiToNibble(NibbleToLower(n)) == n
  {
  }

  lemma {:induction false} DigitsAre(data: bytes)
    ensures Hex(data) == Digits("0123456789ABCDEF", data)
    ensures LowerHex(data) == Digits("0123456789abcdef", data)
  {
    if data != [] {
      DigitIs(data[0] / 16);
      DigitIs(data[0] % 16);
      DigitsAre(data[1..]);
    }
  }

  /** A command is its target, its data in lower-case digits between parentheses, and a line feed. */
  lemma CommandIs(target: bytes, data: bytes)
    ensures H.Command(target, data) == target + Ascii("(") + Digits("0123456789abcdef", data) + Ascii(")\n")
  {
    DigitsAre(data);
    assert Ascii("(") == [40] && Ascii(")\n") == [41, 10];
  }

  /** A response is its status in upper-case digits, its data likewise between parentheses, and a line feed. */
  lemma ResponseIs(status: byte, data: bytes)
    ensures D.Response(status, data)
         == Digits("0123456789ABCDEF", [status]) + Ascii("(") + Digits("0123456789ABCDEF", data) + Ascii(")\n")
  {
    DigitsAre([status]);
    DigitsAre(data);
    assert Ascii("(") == [40] && Ascii(")\n") == [41, 10];
  }

  /** A report is 64 bytes: its part of the text, and padding, which is the byte 4 from the host and 0 from the device. */
  lemma ReportIs(chunk: bytes, pad: byte)
    requires |chunk| <= 64
    ensures var r := Report(chunk, pad);
      |r| == 64 && chunk <= r && forall i | |chunk| <= i < 64 :: r[i] == pad
    ensures EOT == 4
  {
  }

  // ---- letter case ----

  /** The same byte, or the same letter in the other case. */
  predicate SameLetter(a: byte, b: byte) {
    a == b || (a + 32 == b && 65 <= a <= 90) || (b + 32 == a && 65 <= b <= 90)
  }

  /** Lowering leaves no upper-case letter, and makes equal exactly what differs in the case of letters only. */
  lemma LoweringIsCaseFolding(s: bytes, t: bytes)
    ensures forall i | 0 <= i < |s| :: !(65 <= LowerAll(s)[i] <= 90)
    ensures LowerAll(s) == LowerAll(t) <==> |s| == |t| && forall i | 0 <= i < |s| :: SameLetter(s[i], t[i])
  {
    var a, b := LowerAll(s), LowerAll(t);
    assert forall i | 0 <= i < |s| :: a[i] == ToLower(s[i]);
    assert forall i | 0 <= i < |t| :: b[i] == ToLower(t[i]);
    if a == b {
      forall i | 0 <= i < |s| ensures SameLetter(s[i], t[i]) {
        assert ToLower(s[i]) == ToLower(t[i]);
      }
    }
    if |s| == |t| && forall i | 0 <= i < |s| :: SameLetter(s[i], t[i]) {
      forall i | 0 <= i < |s| ensures a[i] == b[i] {
        assert SameLetter(s[i], t[i]);
      }
    }
  }

  /** Two commands that differ in the case of letters only are the same to the device. */
  lemma CaseMakesNoDifference(raw: bytes, other: bytes, length: nat)
    requires 0 < length <= |raw| == |other| && raw[length - 1..] == other[length - 1..]
    requires forall i | 0 <= i < length - 1 :: SameLetter(raw[i], other[i])
    ensures D.LoweredMessage(raw, length) == D.LoweredMessage(other, length)
    ensures D.LoweredMessage(raw, length)[length - 1..] == raw[length - 1..]
  {
    LoweringIsCaseFolding(raw[..length - 1], other[..length - 1]);
  }

  // ---- what the host makes of reports ----

  /** Every report goes out behind a report id of zero. */
  lemma {:induction false} EveryReportHasAnId(reports: seq<bytes>, i: nat)
    requires i < |reports|
    ensures |H.WithId(reports)| == |reports| && H.WithId(reports)[i] == [0] + reports[i]
  {
    if |reports| > 1 {
      EveryReportHasAnId(reports[1..], if i > 0 then i - 1 else 0);
    }
  }

  lemma {:induction false} BlanksAreDropped(blanks: bytes, rest: bytes)
    requires (forall i | 0 <= i < |blanks| :: blanks[i] <= 32) && rest != [] && rest[0] > 32
    ensures H.SkipBlanks(blanks + rest) == rest
  {
    if blanks == [] {
      assert blanks + rest == rest;
    } else {
      assert (blanks + rest)[1..] == blanks[1..] + rest && (blanks + rest)[0] == blanks[0];
      BlanksAreDropped(blanks[1..], rest);
    }
  }

  lemma {:induction false} OnlyBlanksLeaveOne(blanks: bytes)
    requires blanks != [] && forall i | 0 <= i < |blanks| :: blanks[i] <= 32
    ensures H.SkipBlanks(blanks) == [blanks[|blanks| - 1]]
  {
    if |blanks| > 1 {
      assert blanks[1..][|blanks| - 2] == blanks[|blanks| - 1];
      OnlyBlanksLeaveOne(blanks[1..]);
    }
  }

  /** Whatever is not printable in front of the first report makes no difference; a report of nothing else leaves a byte. */
  lemma LeadingBlanksAreIgnored(blanks: bytes, rest: bytes, more: seq<bytes>)
    requires forall i | 0 <= i < |blanks| :: blanks[i] <= 32
    requires rest != [] && rest[0] > 32
    ensures H.ReadFrom([], [blanks + rest] + more) == H.ReadFrom([], [rest] + more)
    ensures blanks != [] ==> H.ReadFrom([], [blanks] + more) == H.ReadFrom([blanks[|blanks| - 1]], more)
  {
    BlanksAreDropped(blanks, rest);
    BlanksAreDropped([], rest);
    assert [] + rest == rest;
    if blanks != [] {
      OnlyBlanksLeaveOne(blanks);
      FirstReport(blanks, more);
    }
    FirstReport(blanks + rest, more);
    FirstReport(rest, more);
  }

  lemma FirstReport(chunk: bytes, more: seq<bytes>)
    requires chunk != []
    ensures H.ReadFrom([], [chunk] + more) == H.ReadFrom(H.SkipBlanks(chunk), more)
  {
    assert ([chunk] + more)[1..] == more && [] + H.SkipBlanks(chunk) == H.SkipBlanks(chunk);
  }

  predicate IsAlnum(c: byte) {
    48 <= c <= 57 || 65 <= c <= 90 || 97 <= c <= 122
  }

  /** Two letters or digits, an opening parenthesis, and somewhere behind it a closing one. */
  predicate ReplyAt(s: bytes, k: nat) {
    && k + 3 < |s| && IsAlnum(s[k]) && IsAlnum(s[k + 1]) && s[k + 2] == 40
    && 41 in s[k + 3..]
  }

  lemma ReplyLater(s: bytes, k: nat)
    requires s != []
    ensures ReplyAt(s[1..], k) <==> ReplyAt(s, k + 1)
  {
    if k + 4 < |s| {
      assert s[1..][k + 3..] == s[k + 4..];
    }
  }

  /** The first reply in a text counts; its data ends at the first closing parenthesis, at `e`. */
  lemma {:induction false} FirstReplyCounts(s: bytes, k: nat, e: nat)
    requires ReplyAt(s, k) && forall i | 0 <= i < k :: !ReplyAt(s, i)
    requires k + 3 <= e < |s| && s[e] == 41 && 41 !in s[k + 3..e]
    ensures var r := H.ParseReply(s);
      && (r.Some? <==> IsHexDigit(s[k]) && IsHexDigit(s[k + 1]))
      && (r.Some? ==> r.value.status == 16 * AsciiToNibble(s[k]) + AsciiToNibble(s[k + 1]))
      && (r.Some? ==> r.value.data == s[k + 3..e])
    decreases s
  {
    if k == 0 {
      FirstClosing(s[3..], e - 3);
      assert s[3..][..e - 3] == s[3..e];
    } else {
      assert !ReplyAt(s, 0);
      var next := s[1..];
      ReplyLater(s, k - 1);
      forall i | 0 <= i < k - 1 ensures !ReplyAt(next, i) {
        ReplyLater(s, i);
        assert !ReplyAt(s, i + 1);
      }
      assert next[k + 2..e - 1] == s[k + 3..e];
      FirstReplyCounts(next, k - 1, e - 1);
    }
  }

  lemma FirstClosing(s: bytes, n: nat)
    requires n < |s| && s[n] == 41 && 41 !in s[..n]
    ensures D.IndexOf(s, 41) == n
  {
    var k := D.IndexOf(s, 41);
    assert forall i | 0 <= i < n :: s[i] == s[..n][i];
    assert forall i | 0 <= i < k :: s[i] == s[..k][i];
  }

  /** And without one there is no reply. */
  lemma {:induction false} NoReplyIsRefused(s: bytes)
    requires forall i | 0 <= i < |s| :: !ReplyAt(s, i)
    ensures H.ParseReply(s) == None
  {
    if s != [] {
      assert !ReplyAt(s, 0);
      forall i | 0 <= i < |s[1..]| ensures !ReplyAt(s[1..], i) {
        ReplyLater(s, i);
        assert !ReplyAt(s, i + 1);
      }
      NoReplyIsRefused(s[1..]);
    }
  }

  // ---- the limits ----

  /** The host recovers status and data up to 122 bytes; then the last byte is lost, and above that the status is 0xC2. */
  lemma ResponseLimitIs122(status: byte, data: bytes, more: seq<bytes>)
    ensures var r := R.HostReads(Reports(D.Outgoing(status, data), 0) + more);
      && r.Some?
      && (r.value.status == status && Unhex(r.value.data) == data <==> |data| <= 122)
      && (|data| == 123 ==> r.value.status == status && Unhex(r.value.data) == data[..122])
      && (|data| > 123 ==> r.value.status == 0xC2)
  {
    R.ResponseArrives(status, data, more);
  }

  /** Six refusals of one response are too many, five are not: with them its last report goes out. */
  lemma FiveRefusalsAreTaken(reports: seq<bytes>, answers: seq<bool>)
    requires reports != []
    ensures Send(reports, answers, SEND_RETRIES, false).ok
       <==> Accepted(answers[..Min(|answers|, |reports| + 5)]) >= |reports|
  {
    WhenSendingSucceeds(reports, answers, 5, false);
  }
}
