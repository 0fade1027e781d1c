/** Hexadecimal text, and its expansion and contraction inside one buffer. */
module KitHex {
  import opened Bytes

  const LPAREN: byte := 40
  const RPAREN: byte := 41
  const NINE: byte := 57
  const UPPER_A: byte := 65
  const UPPER_F: byte := 70
  const UPPER_Z: byte := 90
  const LOWER_A: byte := 97
  const LOWER_F: byte := 102
  const LOWER_Z: byte := 122

  type nibble = n: int | 0 <= n < 16

  function NibbleToAscii(n: nibble): byte {
    if n <= 9 then n + ZERO else n + UPPER_A - 10
  }

  /** The digits the host writes. */
  function NibbleToLower(n: nibble): byte {
    if n <= 9 then n + ZERO else n + LOWER_A - 10
  }

  /** Anything but a hexadecimal digit counts as zero. */
  function AsciiToNibble(c: byte): nibble {
    if ZERO <= c <= NINE then c - ZERO
    else if UPPER_A <= c <= UPPER_F then c - (UPPER_A - 10)
    else if LOWER_A <= c <= LOWER_F then c - (LOWER_A - 10)
    else 0
  }

  function ToLower(c: byte): byte {
    if UPPER_A <= c <= UPPER_Z then c + 32 else c
  }

  function Hex(data: bytes): (s: bytes)
    ensures |s| == 2 * |data|
  {
    if data == [] then [] else [NibbleToAscii(data[0] / 16), NibbleToAscii(data[0] % 16)] + Hex(data[1..])
  }

  function LowerHex(data: bytes): (s: bytes)
    ensures |s| == 2 * |data|
  {
    if data == [] then [] else [NibbleToLower(data[0] / 16), NibbleToLower(data[0] % 16)] + LowerHex(data[1..])
  }

  /** The bytes that pairs of digits stand for; a last digit without a partner is left out. */
  function Unhex(s: bytes): (data: bytes)
    ensures |data| == |s| / 2
  {
    if |s| < 2 then [] else [16 * AsciiToNibble(s[0]) + AsciiToNibble(s[1])] + Unhex(s[2..])
  }

  function LowerAll(s: bytes): (r: bytes)
    ensures |r| == |s|
  {
    seq(|s|, i requires 0 <= i < |s| => ToLower(s[i]))
  }

  lemma {:induction false} HexBack(data: bytes)
    ensures Unhex(Hex(data)) == data
  {
    if data != [] {
      HexBack(data[1..]);
      assert Hex(data)[2..] == Hex(data[1..]);
    }
  }

  lemma {:induction false} LowerHexBack(data: bytes)
    ensures Unhex(LowerHex(data)) == data
  {
    if data != [] {
      LowerHexBack(data[1..]);
      assert LowerHex(data)[2..] == LowerHex(data[1..]);
    }
  }

  predicate IsHexDigit(c: byte) {
    ZERO <= c <= NINE || UPPER_A <= c <= UPPER_F || LOWER_A <= c <= LOWER_F
  }

  /** A hexadecimal text holds no character but digits. */
  lemma {:induction false} OnlyHexDigits(data: bytes, c: byte)
    requires !IsHexDigit(c)
    ensures c !in Hex(data) && c !in LowerHex(data)
  {
    if data != [] {
      OnlyHexDigits(data[1..], c);
    }
  }

  /** The host's digits are unchanged by lowering. */
  lemma {:induction false} LowerHexIsLower(data: bytes)
    ensures LowerAll(LowerHex(data)) == LowerHex(data)
  {
    if data != [] {
      LowerHexIsLower(data[1..]);
      assert LowerHex(data)[2..] == LowerHex(data[1..]);
      assert forall i | 2 <= i < |LowerHex(data)| :: LowerAll(LowerHex(data[1..]))[i - 2] == LowerHex(data)[i];
    }
  }

  lemma {:induction false} UnhexPair(s: bytes, a: byte, b: byte)
    requires |s| % 2 == 0
    ensures Unhex(s + [a, b]) == Unhex(s) + [16 * AsciiToNibble(a) + AsciiToNibble(b)]
    decreases |s|
  {
    if |s| == 0 {
      assert s + [a, b] == [a, b];
      assert [a, b][2..] == [];
    } else {
      assert (s + [a, b])[2..] == s[2..] + [a, b];
      UnhexPair(s[2..], a, b);
    }
  }

  /** `k` pairs from offset `off` on have been contracted into `now`. */
  predicate Contracted(before: bytes, off: nat, k: nat, now: bytes) {
    off + 2 * k <= |before| && now == Overlay(before, off, Unhex(before[off..off + 2 * k]))
  }

  /** The next pair is still as it was, and the byte it stands for goes behind the others. */
  lemma ContractPair(before: bytes, off: nat, k: nat, now: bytes)
    requires Contracted(before, off, k, now) && off + 2 * k + 2 <= |before|
    ensures |now| == |before|
    ensures var a, b := before[off + 2 * k], before[off + 2 * k + 1];
      && now[off + 2 * k] == a && now[off + 2 * k + 1] == b
      && Contracted(before, off, k + 1, now[off + k := 16 * AsciiToNibble(a) + AsciiToNibble(b)])
  {
    var a, b := before[off + 2 * k], before[off + 2 * k + 1];
    var s := before[off..off + 2 * k];
    UnhexPair(s, a, b);
    assert s + [a, b] == before[off..off + 2 * (k + 1)];
    OverlayNext(before, off, Unhex(s), 16 * AsciiToNibble(a) + AsciiToNibble(b));
  }

  lemma NothingContracted(before: bytes, off: nat)
    requires off <= |before|
    ensures Contracted(before, off, 0, before)
  {
    assert before[off..off] == [] && before[..off] + [] + before[off..] == before;
  }

  /** The next pair in place: its byte is written in two steps, and the first may already destroy the first digit. */
  method ContractNext(buf: array<byte>, off: nat, k: nat, ghost before: bytes)
    requires Contracted(before, off, k, buf[..]) && off + 2 * k + 2 <= |before|
    modifies buf
    ensures Contracted(before, off, k + 1, buf[..])
  {
    ghost var now := buf[..];
    ContractPair(before, off, k, now);
    var from, to := off + 2 * k, off + k;
    var high := 16 * AsciiToNibble(buf[from]);
    buf[to] := high;
    var low := AsciiToNibble(buf[from + 1]);
    buf[to] := buf[to] + low;
    assert buf[..] == now[to := high + low];
  }

  /** How many pairs a length makes; a last single character counts as one, completed by what is behind it. */
  function Pairs(length: nat): (k: nat)
    ensures length <= 2 * k <= length + 1
  {
    if length < 2 then length else 1 + Pairs(length - 2)
  }

  /**
   * Contraction in place, at an offset of the caller's buffer; a single character is too short. Every pair is read
   * before the byte it turns into can overwrite it.
   */
  method ConvertAsciiToBinary(length: nat, buf: array<byte>, off: nat) returns (binIndex: nat)
    requires off <= buf.Length && (length >= 2 ==> off + 2 * Pairs(length) <= buf.Length)
    modifies buf
    ensures binIndex == if length < 2 then 0 else Pairs(length)
    ensures Contracted(old(buf[..]), off, binIndex, buf[..])
  {
    NothingContracted(buf[..], off);
    if length < 2 {
      return 0;
    }
    binIndex := ContractPairs(length, buf, off);
  }

  /** The loop, two characters at a time. */
  method ContractPairs(length: nat, buf: array<byte>, off: nat) returns (binIndex: nat)
    requires off + 2 * Pairs(length) <= buf.Length
    modifies buf
    ensures binIndex == Pairs(length) && Contracted(old(buf[..]), off, binIndex, buf[..])
  {
    ghost var before, pairs := buf[..], Pairs(length);
    NothingContracted(before, off);
    binIndex := 0;
    var i := 0;
    while i < length
      invariant i == 2 * binIndex && binIndex <= pairs
      invariant Contracted(before, off, binIndex, buf[..])
    {
      ContractNext(buf, off, binIndex, before);
      binIndex := binIndex + 1;
      i := i + 2;
    }
  }
}
