/** Kit protocol messages cut into 64-byte reports, and put together again at either end. */
module KitReports {
  import opened Bytes

  const REPORT_SIZE: nat := 64
  const EOT: byte := 4
  const SEND_RETRIES: nat := 5

  function Fill(n: nat, c: byte): (s: bytes)
    ensures |s| == n
    ensures forall i | 0 <= i < n :: s[i] == c
  {
    seq(n, _ => c)
  }

  function Report(chunk: bytes, pad: byte): (r: bytes)
    requires |chunk| <= REPORT_SIZE
    ensures |r| == REPORT_SIZE
  {
    chunk + Fill(REPORT_SIZE - |chunk|, pad)
  }

  /** A text in full reports, the last one padded; no report for no text. */
  function Reports(text: bytes, pad: byte): seq<bytes>
    decreases |text|
  {
    if text == [] then []
    else
      var n := Min(REPORT_SIZE, |text|);
      [Report(text[..n], pad)] + Reports(text[n..], pad)
  }

  // ---- receiving on the device ----

  /** The bytes up to the first newline, which is included, or all of them. */
  function Line(s: bytes): (r: bytes)
    ensures r <= s
  {
    if s == [] then [] else if s[0] == NEWLINE then [NEWLINE] else [s[0]] + Line(s[1..])
  }

  /** What the buffer holds and how many messages have been announced after some reports. */
  datatype Gathered = Gathered(text: bytes, messages: nat)

  function Gather(g: Gathered, reports: seq<bytes>): Gathered
    decreases |reports|
  {
    if reports == [] then g else Gather(GatherOne(g, reports[0]), reports[1..])
  }

  function GatherOne(g: Gathered, report: bytes): Gathered {
    Gathered(g.text + Line(report), g.messages + if NEWLINE in report then 1 else 0)
  }

  lemma {:induction false} LineIs(s: bytes, k: nat)
    requires k <= |s| && NEWLINE !in s[..k]
    ensures k < |s| && s[k] == NEWLINE ==> Line(s) == s[..k + 1]
    ensures k == |s| ==> Line(s) == s
    decreases k
  {
    if k > 0 {
      assert s[0] == s[..k][0];
      assert s[1..][..k - 1] == s[..k][1..];
      LineIs(s[1..], k - 1);
      assert k < |s| ==> s[..k + 1] == [s[0]] + s[1..][..k];
    }
  }

  /** The part of a message that one report carries: whatever the padding, only the message's own bytes are kept. */
  lemma LineOfReport(text: bytes, pad: byte, n: nat)
    requires text != [] && text[|text| - 1] == NEWLINE && NEWLINE !in text[..|text| - 1] && pad != NEWLINE
    requires n == Min(REPORT_SIZE, |text|)
    ensures Line(Report(text[..n], pad)) == text[..n]
    ensures NEWLINE in Report(text[..n], pad) <==> n == |text|
  {
    var r := Report(text[..n], pad);
    if n == |text| {
      assert r[..n - 1] == text[..|text| - 1] && r[n - 1] == NEWLINE;
      LineIs(r, n - 1);
      assert r[..n] == text[..n];
    } else {
      assert r == text[..n];
      assert forall i | 0 <= i < n :: r[i] == text[..|text| - 1][i];
      LineIs(r, n);
    }
  }

  lemma GatherFirst(g: Gathered, text: bytes, pad: byte, n: nat)
    requires text != [] && text[|text| - 1] == NEWLINE && NEWLINE !in text[..|text| - 1] && pad != NEWLINE
    requires n == Min(REPORT_SIZE, |text|)
    ensures Gather(g, Reports(text, pad))
         == Gather(Gathered(g.text + text[..n], if n == |text| then g.messages + 1 else g.messages),
                   Reports(text[n..], pad))
  {
    LineOfReport(text, pad, n);
    assert Reports(text, pad)[1..] == Reports(text[n..], pad);
  }

  /** A message ended by its only newline is gathered whole, and announced once, with its last report. */
  lemma {:induction false} GatherReports(g: Gathered, text: bytes, pad: byte)
    requires text != [] && text[|text| - 1] == NEWLINE && NEWLINE !in text[..|text| - 1] && pad != NEWLINE
    ensures Gather(g, Reports(text, pad)) == Gathered(g.text + text, g.messages + 1)
    decreases |text|
  {
    var n := Min(REPORT_SIZE, |text|);
    GatherFirst(g, text, pad, n);
    var rest := text[n..];
    if n < |text| {
      assert rest[..|rest| - 1] == text[..|text| - 1][n..];
      GatherReports(Gathered(g.text + text[..n], g.messages), rest, pad);
      assert g.text + text[..n] + rest == g.text + text;
    } else {
      assert text[..n] == text && rest == [];
    }
  }

  lemma SoFarAndOne(text: bytes, report: bytes, index: nat)
    requires index < |report|
    ensures text + report[..index] + [report[index]] == text + report[..index + 1]
    ensures NEWLINE in report[..index + 1] <==> NEWLINE in report[..index] || report[index] == NEWLINE
  {
    assert report[..index + 1] == report[..index] + [report[index]];
  }

  /** The receiver: the buffer the callback fills, and the counters it shares with the main loop. */
  class Receiver {
    const rx: array<byte>
    var length: nat
    var received: nat

    ghost function Seen(): Gathered
      requires length <= rx.Length
      reads this, rx
    {
      Gathered(rx[..length], received)
    }

    constructor (size: nat)
      ensures fresh(rx) && rx.Length == size && length == 0 && received == 0
    {
      rx := new byte[size](_ => 0);
      length, received := 0, 0;
    }

    /** The room a report takes: its bytes up to a newline, and the NUL behind one. */
    predicate RoomFor(report: bytes)
      reads this
    {
      length + |Line(report)| + (if NEWLINE in report then 1 else 0) <= rx.Length
    }

    method ReportOut(report: bytes)
      requires |report| == REPORT_SIZE && length <= rx.Length && RoomFor(report)
      modifies this, rx
      ensures length <= rx.Length && Seen() == GatherOne(old(Seen()), report)
      ensures NEWLINE in report ==> length < rx.Length && rx[length] == 0
    {
      ghost var before := Seen();
      var index := 0;
      while index < REPORT_SIZE
        invariant 0 <= index <= REPORT_SIZE && length == |before.text| + index && received == before.messages
        invariant |before.text| + |Line(report)| + (if NEWLINE in report then 1 else 0) <= rx.Length
        invariant NEWLINE !in report[..index] && length <= rx.Length
        invariant rx[..length] == before.text + report[..index]
      {
        LineIs(report, index);
        LineReaches(report, index);
        rx[length] := report[index];
        length := length + 1;
        SoFarAndOne(before.text, report, index);
        if report[index] == NEWLINE {
          rx[length] := 0;
          received := received + 1;
          return;
        }
        index := index + 1;
      }
      assert report[..index] == report;
      LineIs(report, index);
    }
  }

  /** A line goes on at least to the first place not behind its newline. */
  lemma {:induction false} LineReaches(s: bytes, k: nat)
    requires k < |s| && NEWLINE !in s[..k]
    ensures k < |Line(s)|
    decreases k
  {
    if k > 0 {
      assert s[0] == s[..k][0];
      assert s[1..][..k - 1] == s[..k][1..];
      LineReaches(s[1..], k - 1);
    }
  }

  // ---- sending from the device ----

  /** The reports that went out, whether the sender reports success, and the port's answers still to come. */
  datatype Sending = Sending(sent: seq<bytes>, ok: bool, answers: seq<bool>)

  /** Sending reports over a port that accepts or refuses each attempt, and refuses when it has no answer left. */
  function Send(reports: seq<bytes>, answers: seq<bool>, retries: nat, last: bool): Sending
    decreases |reports| + retries
  {
    if reports == [] then Sending([], last, answers)
    else if answers != [] && answers[0] then
      var r := Send(reports[1..], answers[1..], retries, true);
      Sending([reports[0]] + r.sent, r.ok, r.answers)
    else
      var left := if answers == [] then [] else answers[1..];
      if retries > 0 then Send(reports, left, retries - 1, false) else Sending([], false, left)
  }

  function Accepted(answers: seq<bool>): nat {
    if answers == [] then 0 else (if answers[0] then 1 else 0) + Accepted(answers[1..])
  }

  /** What goes out is always a part of the reports from the front, once each; success means exactly all of them. */
  lemma {:induction false} SuccessMeansAllSent(reports: seq<bytes>, answers: seq<bool>, retries: nat, last: bool)
    requires reports != [] || last
    ensures var r := Send(reports, answers, retries, last);
      r.sent <= reports && (r.ok <==> r.sent == reports)
    decreases |reports| + retries
  {
    if reports != [] {
      if answers != [] && answers[0] {
        SuccessMeansAllSent(reports[1..], answers[1..], retries, true);
        assert reports == [reports[0]] + reports[1..];
      } else if retries > 0 {
        SuccessMeansAllSent(reports, if answers == [] then [] else answers[1..], retries - 1, false);
      }
    }
  }

  /** Success is decided by the refusals: at most `retries` of them before the last report has been accepted. */
  lemma {:induction false} WhenSendingSucceeds(reports: seq<bytes>, answers: seq<bool>, retries: nat, last: bool)
    requires reports != [] || last
    ensures Send(reports, answers, retries, last).ok
      <==> Accepted(answers[..Min(|answers|, |reports| + retries)]) >= |reports|
    decreases |reports| + retries
  {
    if reports != [] {
      var n := Min(|answers|, |reports| + retries);
      if answers == [] {
        if retries > 0 {
          WhenSendingSucceeds(reports, [], retries - 1, false);
        }
      } else {
        AcceptedFirst(answers, n);
        if answers[0] {
          WhenSendingSucceeds(reports[1..], answers[1..], retries, true);
        } else if retries > 0 {
          WhenSendingSucceeds(reports, answers[1..], retries - 1, false);
        } else {
          AcceptedAtMost(answers[1..][..n - 1]);
        }
      }
    }
  }

  lemma AcceptedFirst(answers: seq<bool>, n: nat)
    requires 0 < n <= |answers|
    ensures Accepted(answers[..n]) == (if answers[0] then 1 else 0) + Accepted(answers[1..][..n - 1])
  {
    assert answers[..n][1..] == answers[1..][..n - 1];
  }

  lemma {:induction false} AcceptedAtMost(answers: seq<bool>)
    ensures Accepted(answers) <= |answers|
  {
    if answers != [] {
      AcceptedAtMost(answers[1..]);
    }
  }

  /** The driver's side of the interface. */
  class Port {
    var answers: seq<bool>
    var sent: seq<bytes>

    method SendReportIn(report: array<byte>) returns (ok: bool)
      modifies this
      ensures ok == (old(answers) != [] && old(answers)[0])
      ensures answers == if old(answers) == [] then [] else old(answers)[1..]
      ensures sent == if ok then old(sent) + [report[..]] else old(sent)
    {
      ok := answers != [] && answers[0];
      if answers != [] {
        answers := answers[1..];
      }
      if ok {
        sent := sent + [report[..]];
      }
    }
  }

  method FillReport(report: array<byte>, response: array<byte>, location: nat, n: nat)
    requires report != response && report.Length == REPORT_SIZE && n <= REPORT_SIZE
    requires location + n <= response.Length
    modifies report
    ensures report[..] == Report(response[location..location + n], 0)
  {
    forall i | 0 <= i < REPORT_SIZE {
      report[i] := if i < n then response[location + i] else 0;
    }
  }

  /** One attempt: the next report is filled and offered to the port. */
  method Attempt(
    port: Port, report: array<byte>, response: array<byte>, location: nat, n: nat, retries: nat, ghost text: bytes,
    ghost last: bool, ghost goal: Sending, ghost start: seq<bytes>, ghost done: seq<bytes>)
    returns (ok: bool, ghost done': seq<bytes>, ghost text': bytes)
    requires report != response && report.Length == REPORT_SIZE && location + |text| <= response.Length
    requires text != [] && text == response[location..location + |text|] && n == Min(REPORT_SIZE, |text|)
    requires Pending(goal, done, text, port.answers, retries, last) && port.sent == start + done
    modifies port, report
    ensures text' == if ok then text[n..] else text
    ensures port.sent == start + done'
    ensures if ok then Pending(goal, done', text', port.answers, retries, true)
            else if retries > 0 then Pending(goal, done', text', port.answers, retries - 1, false)
            else goal == Sending(done', false, port.answers)
  {
    SendOne(goal, done, text, port.answers, retries, last, n);
    assert text[..n] == response[location..location + n];
    FillReport(report, response, location, n);
    ok := port.SendReportIn(report);
    done', text' := if ok then done + [Report(text[..n], 0)] else done, if ok then text[n..] else text;
  }

  /** Sends a response in zero-padded reports; five refusals are retried, the sixth ends it. */
  method SendResponseMessage(port: Port, response: array?<byte>, length: nat) returns (ok: bool)
    requires response != null ==> length <= response.Length
    modifies port
    ensures response == null ==> !ok && port.sent == old(port.sent) && port.answers == old(port.answers)
    ensures response != null ==>
      var r := Send(Reports(response[..length], 0), old(port.answers), SEND_RETRIES, false);
      ok == r.ok && port.sent == old(port.sent) + r.sent && port.answers == r.answers
  {
    ok := false;
    if response == null {
      return;
    }
    var report := new byte[REPORT_SIZE];
    var location: nat, left: nat, retries: nat := 0, length, SEND_RETRIES;
    ghost var text: bytes := response[..length];
    ghost var goal := Send(Reports(text, 0), port.answers, SEND_RETRIES, false);
    ghost var start, done: seq<bytes> := port.sent, [];
    while left > 0
      invariant location + left == length && |text| == left && text == response[location..length]
      invariant port.sent == start + done
      invariant Pending(goal, done, text, port.answers, retries, ok)
      decreases left + retries
    {
      var n := Min(REPORT_SIZE, left);
      ok, done, text := Attempt(port, report, response, location, n, retries, text, ok, goal, start, done);
      if ok {
        location := location + n;
        left := left - n;
      } else if retries > 0 {
        retries := retries - 1;
      } else {
        return;
      }
    }
    assert text == [];
    Finished(goal, done, port.answers, retries, ok);
  }

  /** With `done` sent, sending the rest of the text leads to `goal`. */
  predicate Pending(goal: Sending, done: seq<bytes>, text: bytes, answers: seq<bool>, retries: nat, last: bool) {
    var r := Send(Reports(text, 0), answers, retries, last);
    goal == Sending(done + r.sent, r.ok, r.answers)
  }

  lemma Finished(goal: Sending, done: seq<bytes>, answers: seq<bool>, retries: nat, last: bool)
    requires Pending(goal, done, [], answers, retries, last)
    ensures goal == Sending(done, last, answers)
  {
    assert done + [] == done;
  }

  /** One attempt of the sender. */
  lemma SendOne(goal: Sending, done: seq<bytes>, text: bytes, answers: seq<bool>, retries: nat, last: bool, n: nat)
    requires text != [] && n == Min(REPORT_SIZE, |text|) && Pending(goal, done, text, answers, retries, last)
    ensures var left := if answers == [] then [] else answers[1..];
      if answers != [] && answers[0] then
        Pending(goal, done + [Report(text[..n], 0)], text[n..], left, retries, true)
      else if retries > 0 then Pending(goal, done, text, left, retries - 1, false)
      else goal == Sending(done, false, left)
  {
    assert Reports(text, 0)[1..] == Reports(text[n..], 0);
    if answers != [] && answers[0] {
      var next := Send(Reports(text[n..], 0), answers[1..], retries, true);
      assert done + ([Report(text[..n], 0)] + next.sent) == done + [Report(text[..n], 0)] + next.sent;
    } else {
      assert done + [] == done;
    }
  }
}
