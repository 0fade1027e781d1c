/** The device end of the kit protocol: commands in, responses out, and the reports they travel in. */
module KitDevice {
  import opened Bytes
  import opened KitHex

  const SUCCESS: byte := 0x00
  const TX_OVERFLOW: byte := 0xC2
  const INVALID_PARAMS: byte := 0xC3

  /** The longest response, status included: 1147, but cast to eight bits. */
  const MAX_RESPONSE: nat := (2300 - 5) / 2 % 256

  // ---- responses ----

  /** Status in hexadecimal, data in hexadecimal between parentheses, end of packet. */
  function Response(status: byte, data: bytes): (s: bytes)
    ensures |s| == 2 * |data| + 5
  {
    Hex([status]) + [LPAREN] + Hex(data) + [RPAREN, NEWLINE]
  }

  /** The last `n - b` data bytes have been expanded at their final place; status and the first `b` are untouched. */
  predicate Expanded(before: bytes, n: nat, b: nat, now: bytes) {
    && b <= n && 2 * n + 5 <= |before| == |now|
    && now[..b + 1] == before[..b + 1]
    && now[2 * b + 3..2 * n + 5] == Hex(before[b + 1..n + 1]) + [RPAREN, NEWLINE]
    && now[2 * n + 5..] == before[2 * n + 5..]
  }

  lemma ExpandOne(before: bytes, n: nat, b: nat, now: bytes)
    requires Expanded(before, n, b, now) && b > 0
    ensures now[b] == before[b]
    ensures Expanded(before, n, b - 1,
                     now[2 * b + 2 := NibbleToAscii(before[b] % 16)][2 * b + 1 := NibbleToAscii(before[b] / 16)])
  {
    var hi, lo := NibbleToAscii(before[b] / 16), NibbleToAscii(before[b] % 16);
    var next := now[2 * b + 2 := lo][2 * b + 1 := hi];
    var rest := before[b + 1..n + 1];
    assert now[..b + 1][b] == before[..b + 1][b];
    assert before[b..n + 1] == [before[b]] + rest && ([before[b]] + rest)[1..] == rest;
    assert next[2 * b + 1..2 * n + 5] == [hi, lo] + now[2 * b + 3..2 * n + 5];
    assert [hi, lo] + (Hex(rest) + [RPAREN, NEWLINE]) == [hi, lo] + Hex(rest) + [RPAREN, NEWLINE];
    assert next[..b] == now[..b + 1][..b] && before[..b] == before[..b + 1][..b];
  }

  lemma ExpandStatus(before: bytes, n: nat, now: bytes)
    requires Expanded(before, n, 0, now)
    ensures now[0] == before[0]
    ensures now[2 := LPAREN][1 := NibbleToAscii(before[0] % 16)][0 := NibbleToAscii(before[0] / 16)]
         == Overlay(before, 0, Response(before[0], before[1..n + 1]))
  {
    var hi, lo := NibbleToAscii(before[0] / 16), NibbleToAscii(before[0] % 16);
    var last := now[2 := LPAREN][1 := lo][0 := hi];
    assert now[..1][0] == before[..1][0];
    assert [before[0]][1..] == [];
    assert Hex([before[0]]) == [hi, lo];
    assert last == [hi, lo] + [LPAREN] + now[3..2 * n + 5] + now[2 * n + 5..];
    Associative([hi, lo] + [LPAREN], Hex(before[1..n + 1]), [RPAREN, NEWLINE]);
    assert before[..0] == [];
  }

  /** Expansion in place, from the last byte to the first: no byte is written over before it has been read. */
  method CreateUsbPacket(length: nat, buf: array<byte>) returns (asciiLength: nat)
    requires length >= 1 && 2 * (length - 1) + 5 <= buf.Length
    modifies buf
    ensures var s := Response(old(buf[0]), old(buf[1..length]));
      asciiLength == |s| && buf[..] == Overlay(old(buf[..]), 0, s)
  {
    ghost var before: bytes, n := buf[..], length - 1;
    var binIndex := length - 1;
    asciiLength := 2 * (length - 1) + 5;
    var asciiIndex := asciiLength - 1;
    buf[asciiIndex] := NEWLINE;
    asciiIndex := asciiIndex - 1;
    buf[asciiIndex] := RPAREN;
    asciiIndex := asciiIndex - 1;
    Terminated(before, n);
    assert buf[..] == before[2 * n + 4 := NEWLINE][2 * n + 3 := RPAREN];
    while binIndex > 0
      invariant asciiIndex == 2 * binIndex + 2
      invariant Expanded(before, n, binIndex, buf[..])
    {
      ExpandOne(before, n, binIndex, buf[..]);
      WriteByte(buf, buf[binIndex], asciiIndex);
      binIndex := binIndex - 1;
      asciiIndex := asciiIndex - 2;
    }
    ExpandStatus(before, n, buf[..]);
    buf[asciiIndex] := LPAREN;
    WriteByte(buf, buf[0], asciiIndex - 1);
  }

  lemma Terminated(before: bytes, n: nat)
    requires 2 * n + 5 <= |before|
    ensures Expanded(before, n, n, before[2 * n + 4 := NEWLINE][2 * n + 3 := RPAREN])
  {
    assert before[n + 1..n + 1] == [];
  }

  /** The two digits of a byte, the low one at `at` and the high one before it. */
  method WriteByte(buf: array<byte>, value: byte, at: nat)
    requires 0 < at < buf.Length
    modifies buf
    ensures buf[..] == old(buf[..])[at := NibbleToAscii(value % 16)][at - 1 := NibbleToAscii(value / 16)]
  {
    buf[at] := NibbleToAscii(value % 16);
    buf[at - 1] := NibbleToAscii(value / 16);
  }

  /**
   * What goes out for a status and the data a command has left behind it: the length is increased for the status byte
   * only below the limit, and only above the limit the status tells of the overflow.
   */
  function Outgoing(status: byte, data: bytes): bytes {
    if |data| < MAX_RESPONSE then Response(status, data)
    else if |data| == MAX_RESPONSE then Response(status, data[..MAX_RESPONSE - 1])
    else Response(TX_OVERFLOW, data[..MAX_RESPONSE - 1])
  }

  method ConvertData(length: nat, buf: array<byte>) returns (asciiLength: nat)
    requires length >= 1 && length <= buf.Length && 2 * (MAX_RESPONSE - 1) + 5 <= buf.Length
    modifies buf
    ensures var s := if length > MAX_RESPONSE then Response(TX_OVERFLOW, old(buf[1..MAX_RESPONSE]))
                     else Response(old(buf[0]), old(buf[1..length]));
      asciiLength == |s| && s <= buf[..]
  {
    var n := length;
    if n > MAX_RESPONSE {
      buf[0] := TX_OVERFLOW;
      n := MAX_RESPONSE;
    }
    asciiLength := CreateUsbPacket(n, buf);
  }

  /** The end of processing a command that left `txLength` bytes of data behind the place for the status. */
  method FinishResponse(status: byte, txLength: nat, buf: array<byte>) returns (asciiLength: nat)
    requires 1 + txLength <= buf.Length && 2 * (MAX_RESPONSE - 1) + 5 <= buf.Length
    modifies buf
    ensures var s := Outgoing(status, old(buf[1..1 + txLength]));
      asciiLength == |s| && s <= buf[..]
  {
    ghost var data := buf[1..1 + txLength];
    buf[0] := status;
    var length := txLength;
    if length < MAX_RESPONSE {
      length := length + 1;
    }
    assert buf[1..1 + txLength] == data;
    assert txLength >= MAX_RESPONSE ==> data[..MAX_RESPONSE - 1] == buf[1..MAX_RESPONSE];
    asciiLength := ConvertData(length, buf);
  }

  // ---- commands ----

  /** The first place of a character, or the length if there is none. */
  function IndexOf(s: bytes, c: byte): (k: nat)
    ensures k <= |s|
    ensures k < |s| ==> s[k] == c
    ensures c !in s[..k]
    decreases |s|
  {
    if s == [] || s[0] == c then 0
    else
      var k := 1 + IndexOf(s[1..], c);
      assert s[..k] == [s[0]] + s[1..][..k - 1];
      k
  }

  lemma {:induction false} IndexBehind(lead: bytes, s: bytes, c: byte)
    requires c !in lead && s != [] && s[0] == c
    ensures IndexOf(lead + s, c) == |lead|
  {
    if lead == [] {
      assert lead + s == s;
    } else {
      assert (lead + s)[1..] == lead[1..] + s;
      IndexBehind(lead[1..], s, c);
    }
  }

  /** Where the data of a command starts and how many characters are taken for it. */
  datatype Load = Load(start: nat, length: nat)

  /** The data is what is between parentheses; without a closing one, what follows the opening one and the terminator. */
  function FindLoad(text: bytes): Option<Load> {
    var p := IndexOf(text, LPAREN);
    if p == |text| then None
    else
      var e := EndOfLoad(text, p);
      Some(Load(p + 1, (if e == |text| then e else e - 1) - p))
  }

  function EndOfLoad(text: bytes, p: nat): (e: nat)
    requires p < |text| && text[p] == LPAREN
    ensures p < e <= |text|
  {
    assert text[p..][0] == LPAREN;
    p + IndexOf(text[p..], RPAREN)
  }

  lemma FindLoadFits(text: bytes)
    ensures var load := FindLoad(text);
      load.Some? ==> load.value.start + load.value.length <= |text| + 1
  {
  }

  /** The bytes that `length` characters stand for; of an odd length, the character behind completes the last pair. */
  function Loaded(memory: bytes, start: nat, length: nat): bytes
    requires start + 2 * Pairs(length) <= |memory|
  {
    if length < 2 then [] else Unhex(memory[start..start + 2 * Pairs(length)])
  }

  /** The binary data of a command in memory, its text ended by a NUL and at least one more character behind it. */
  function DataOf(memory: bytes): Option<bytes>
    requires |UpToNul(memory)| + 2 <= |memory|
  {
    var text := UpToNul(memory);
    FindLoadFits(text);
    match FindLoad(text)
    case None => None
    case Some(load) => Some(Loaded(memory, load.start, load.length))
  }

  lemma DataOfLoad(memory: bytes, found: Option<Load>)
    requires |UpToNul(memory)| + 2 <= |memory| && FindLoad(UpToNul(memory)) == found
    ensures found == None ==> DataOf(memory) == None
    ensures found.Some? ==>
      var start, length := found.value.start, found.value.length;
      start + 2 * Pairs(length) <= |memory| && DataOf(memory) == Some(Loaded(memory, start, length))
  {
    FindLoadFits(UpToNul(memory));
  }

  /** The first place of a character in a C string, or its terminator. */
  method Strchr(buf: array<byte>, from: nat, c: byte) returns (at: nat)
    requires from <= |UpToNul(buf[..])| < buf.Length && c != 0
    ensures at == from + IndexOf(UpToNul(buf[..])[from..], c)
    ensures buf[at] == 0 <==> at == |UpToNul(buf[..])|
  {
    ghost var text := UpToNul(buf[..]);
    EndsAtNul(buf[..]);
    at := from;
    while buf[at] != 0 && buf[at] != c
      invariant from <= at <= |text|
      invariant from + IndexOf(text[from..], c) == at + IndexOf(text[at..], c)
      decreases |text| - at
    {
      assert text[at] == buf[at];
      assert text[at..][1..] == text[at + 1..];
      at := at + 1;
    }
    assert at < |text| ==> text[at] == buf[at];
  }

  lemma {:induction false} EndsAtNul(s: bytes)
    ensures |UpToNul(s)| < |s| ==> s[|UpToNul(s)|] == 0
  {
    if s != [] && s[0] != 0 {
      EndsAtNul(s[1..]);
    }
  }

  /** Finds the two parentheses. */
  method LocateParentheses(buf: array<byte>) returns (found: bool, start: nat, length: nat)
    requires |UpToNul(buf[..])| < buf.Length
    ensures FindLoad(UpToNul(buf[..])) == if found then Some(Load(start, length)) else None
  {
    ghost var text := UpToNul(buf[..]);
    assert text[0..] == text;
    var pToken := Strchr(buf, 0, LPAREN);
    if buf[pToken] == 0 {
      return false, 0, 0;
    }
    var dataEnd := Strchr(buf, pToken, RPAREN);
    assert dataEnd == EndOfLoad(text, pToken);
    if buf[dataEnd] != 0 {
      dataEnd := dataEnd - 1;
    }
    return true, pToken + 1, dataEnd - pToken;
  }

  /** Finds the characters that carry the data. */
  method LocateData(buf: array<byte>) returns (found: bool, start: nat, length: nat)
    requires |UpToNul(buf[..])| + 2 <= buf.Length
    ensures !found ==> DataOf(buf[..]) == None
    ensures found ==>
      start + 2 * Pairs(length) <= buf.Length && DataOf(buf[..]) == Some(Loaded(buf[..], start, length))
  {
    found, start, length := LocateParentheses(buf);
    DataOfLoad(buf[..], if found then Some(Load(start, length)) else None);
  }

  method ContractLoad(buf: array<byte>, start: nat, length: nat, ghost d: bytes) returns (dataLength: nat)
    requires start + 2 * Pairs(length) <= buf.Length && d == Loaded(buf[..], start, length)
    modifies buf
    ensures dataLength == |d| && start + |d| <= buf.Length && buf[start..start + |d|] == d
  {
    ghost var before: bytes := buf[..];
    dataLength := ConvertAsciiToBinary(length, buf, start);
    ContractedData(before, start, dataLength, buf[..]);
  }

  /** Contracted data is found again where it was put. */
  lemma ContractedData(before: bytes, off: nat, k: nat, now: bytes)
    requires Contracted(before, off, k, now)
    ensures off + k <= |now| && now[off..off + k] == Unhex(before[off..off + 2 * k])
  {
    var data := Unhex(before[off..off + 2 * k]);
    assert now == before[..off] + data + before[off + |data|..];
  }

  /** Finds the data of a command and contracts it in place, right behind the opening parenthesis. */
  method ExtractDataLoad(buf: array<byte>) returns (status: byte, data: nat, dataLength: nat)
    requires |UpToNul(buf[..])| + 2 <= buf.Length
    modifies buf
    ensures var d := DataOf(old(buf[..]));
      if d.None? then status == INVALID_PARAMS && buf[..] == old(buf[..])
      else status == SUCCESS && dataLength == |d.value| && data + dataLength <= buf.Length
           && buf[data..data + dataLength] == d.value
  {
    ghost var d := DataOf(buf[..]);
    var found, start, length := LocateData(buf);
    if !found {
      return INVALID_PARAMS, 0, 0;
    }
    data := start;
    dataLength := ContractLoad(buf, start, length, d.value);
    status := SUCCESS;
  }

  function LoweredMessage(memory: bytes, rxLength: nat): (r: bytes)
    requires 0 < rxLength <= |memory|
    ensures |r| == |memory|
  {
    LowerAll(memory[..rxLength - 1]) + memory[rxLength - 1..]
  }

  /** Lowers a received message, all but its newline. */
  method LowerMessage(buf: array<byte>, rxLength: nat)
    requires 0 < rxLength <= buf.Length
    modifies buf
    ensures buf[..] == LoweredMessage(old(buf[..]), rxLength)
  {
    ghost var before: bytes := buf[..];
    var i := 0;
    while i < rxLength - 1
      invariant 0 <= i <= rxLength - 1
      invariant buf[i..] == before[i..]
      invariant forall j | 0 <= j < i :: buf[j] == ToLower(before[j])
    {
      assert buf[i] == before[i..][0];
      buf[i] := ToLower(buf[i]);
      i := i + 1;
    }
    assert buf[..rxLength - 1] == LowerAll(before[..rxLength - 1]);
    assert buf[..] == buf[..rxLength - 1] + buf[rxLength - 1..];
  }
}
