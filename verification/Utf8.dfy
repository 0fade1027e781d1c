/**
 UTF-8 checking and the \u escapes. Masks and shifts are written as remainders and divisions by powers of two:
 (b & 0x3F) is b % 64, (cp >> 6) is cp / 64, and x | y is x + y when the bits are disjoint.
 */
module Utf8 {
  import opened Bytes

  predicate IsCont(b: byte) {
    b / 64 == 2
  }

  function NumBytes(c: byte): (n: nat)
    ensures n <= 4
  {
    if c == 0xC0 || c == 0xC1 || c > 0xF4 || IsCont(c) then 0
    else if c / 128 == 0 then 1
    else if c / 32 == 6 then 2
    else if c / 16 == 14 then 3
    else if c / 8 == 30 then 4
    else 0
  }

  /** The six payload bits of a continuation byte, appended to those already read. */
  function Join6(high: nat, b: byte): nat {
    high * 64 + b % 64
  }

  /** The continuation byte carrying the low six bits. */
  function Low6(cp: nat): (b: byte)
    ensures IsCont(b) && Tail(b)
  {
    0x80 + cp % 64
  }

  /** The code point the verifier assembles from the first sequence, before any range check. */
  function Assembled(s: bytes): Option<nat> {
    var n := NumBytes(Head(s));
    if n == 1 then Some(Head(s))
    else if n == 2 && IsCont(At(s, 1)) then
      Some(Join6(s[0] % 32, s[1]))
    else if n == 3 && IsCont(At(s, 1)) && IsCont(At(s, 2)) then
      Some(Join6(Join6(s[0] % 16, s[1]), s[2]))
    else if n == 4 && IsCont(At(s, 1)) && IsCont(At(s, 2)) && IsCont(At(s, 3)) then
      Some(Join6(Join6(Join6(s[0] % 8, s[1]), s[2]), s[3]))
    else None
  }

  /** Length of the sequence at the head of the text when it is acceptable, else zero. */
  function VerifySequence(s: bytes): (n: nat) {
    var n, cp := NumBytes(Head(s)), Assembled(s);
    if cp.None? then 0
    else if (cp.value < 0x80 && n > 1) || (cp.value < 0x800 && n > 2) || (cp.value < 0x10000 && n > 3) then 0
    else if cp.value > 0x10FFFF then 0
    else if 0xD800 <= cp.value <= 0xDFFF then 0
    else n
  }

  // ---- RFC 3629 ----

  predicate Tail(b: byte) {
    0x80 <= b <= 0xBF
  }

  /** UTF8-char of section 4 of RFC 3629. */
  predicate Utf8Char(s: bytes) {
    || (|s| == 1 && s[0] <= 0x7F)
    || (|s| == 2 && 0xC2 <= s[0] <= 0xDF && Tail(s[1]))
    || (|s| == 3 && Tail(s[2]) && (
          || (s[0] == 0xE0 && 0xA0 <= s[1] <= 0xBF)
          || (0xE1 <= s[0] <= 0xEC && Tail(s[1]))
          || (s[0] == 0xED && 0x80 <= s[1] <= 0x9F)
          || (0xEE <= s[0] <= 0xEF && Tail(s[1]))))
    || (|s| == 4 && Tail(s[2]) && Tail(s[3]) && (
          || (s[0] == 0xF0 && 0x90 <= s[1] <= 0xBF)
          || (0xF1 <= s[0] <= 0xF3 && Tail(s[1]))
          || (s[0] == 0xF4 && 0x80 <= s[1] <= 0x8F)))
  }

  predicate IsScalar(cp: nat) {
    cp <= 0x10FFFF && !(0xD800 <= cp <= 0xDFFF)
  }

  type Scalar = cp: nat | cp <= 0x10FFFF && !(0xD800 <= cp <= 0xDFFF)

  /** The encoding table of section 3 of RFC 3629. */
  function Encode(cp: Scalar): (s: bytes)
    ensures 1 <= |s| <= 4
  {
    if cp < 0x80 then [cp]
    else if cp < 0x800 then [0xC0 + cp / 64, Low6(cp)]
    else if cp < 0x10000 then [0xE0 + cp / 64 / 64, Low6(cp / 64), Low6(cp)]
    else [0xF0 + cp / 64 / 64 / 64, Low6(cp / 64 / 64), Low6(cp / 64), Low6(cp)]
  }

  lemma Join6Low6(cp: nat)
    ensures Join6(cp / 64, Low6(cp)) == cp
  {
  }

  lemma Low6Join6(high: nat, b: byte)
    requires IsCont(b)
    ensures Low6(Join6(high, b)) == b && Join6(high, b) / 64 == high
  {
  }

  /** The verifier accepts exactly the sequences the grammar allows, and reports their length. */
  lemma VerifyIsRfc3629(s: bytes, k: nat)
    requires s != [] && 0 < k
    ensures VerifySequence(s) == k <==> k <= |s| && Utf8Char(s[..k])
  {
    if |s| >= 1 && k >= 1 && k <= |s| { assert s[..k][0] == s[0]; }
    if k >= 2 && k <= |s| { assert s[..k][1] == s[1]; }
    if k >= 3 && k <= |s| { assert s[..k][2] == s[2]; }
    if k >= 4 && k <= |s| { assert s[..k][3] == s[3]; }
  }

  lemma AssembledEncode(cp: Scalar, rest: bytes)
    ensures Assembled(Encode(cp) + rest) == Some(cp)
  {
    var e := Encode(cp);
    var s := e + rest;
    assert forall i | 0 <= i < |e| :: s[i] == e[i];
    Join6Low6(cp);
    if cp >= 0x800 { Join6Low6(cp / 64); }
    if cp >= 0x10000 { Join6Low6(cp / 64 / 64); }
  }

  /** An encoded code point is accepted, and the same code point is recomputed. */
  lemma VerifyEncode(cp: Scalar, rest: bytes)
    ensures VerifySequence(Encode(cp) + rest) == |Encode(cp)|
    ensures Assembled(Encode(cp) + rest) == Some(cp)
  {
    AssembledEncode(cp, rest);
    assert Head(Encode(cp) + rest) == Encode(cp)[0];
  }

  lemma AcceptedThree(s: bytes)
    requires s != [] && VerifySequence(s) == 3
    ensures |s| >= 3 && Assembled(s).Some? && IsScalar(Assembled(s).value)
    ensures [s[0], s[1], s[2]] == Encode(Assembled(s).value)
  {
    var high := Join6(s[0] % 16, s[1]);
    var cp := Join6(high, s[2]);
    Low6Join6(s[0] % 16, s[1]);
    Low6Join6(high, s[2]);
    assert cp / 64 == high && high / 64 == s[0] % 16;
    assert 0x800 <= cp < 0x10000;
  }

  lemma FourBytes(top: nat, b1: byte, b2: byte, b3: byte, cp: nat)
    requires top < 8 && IsCont(b1) && IsCont(b2) && IsCont(b3)
    requires cp == Join6(Join6(Join6(top, b1), b2), b3) && 0x10000 <= cp <= 0x10FFFF
    ensures IsScalar(cp) && Encode(cp) == [0xF0 + top, b1, b2, b3]
  {
    var high := Join6(top, b1);
    var middle := Join6(high, b2);
    Low6Join6(top, b1);
    Low6Join6(high, b2);
    Low6Join6(middle, b3);
  }

  lemma AcceptedFour(s: bytes)
    requires s != [] && VerifySequence(s) == 4
    ensures |s| >= 4 && Assembled(s).Some? && IsScalar(Assembled(s).value)
    ensures [s[0], s[1], s[2], s[3]] == Encode(Assembled(s).value)
  {
    var cp := Assembled(s).value;
    assert |s| >= 4 && s[0] == 0xF0 + s[0] % 8 && 0x10000 <= cp <= 0x10FFFF;
    FourBytes(s[0] % 8, s[1], s[2], s[3], cp);
  }

  /** Whatever is accepted is the encoding of a code point. */
  lemma AcceptedIsEncoded(s: bytes)
    requires s != [] && VerifySequence(s) != 0
    ensures VerifySequence(s) <= |s|
    ensures Assembled(s).Some? && IsScalar(Assembled(s).value)
    ensures s[..VerifySequence(s)] == Encode(Assembled(s).value)
  {
    var n := VerifySequence(s);
    if n == 2 {
      assert s[..2] == [s[0], s[1]];
    } else if n == 3 {
      AcceptedThree(s);
      assert s[..3] == [s[0], s[1], s[2]];
    } else if n == 4 {
      AcceptedFour(s);
      assert s[..4] == [s[0], s[1], s[2], s[3]];
    }
  }

  // ---- whole texts ----

  function ValidUtf8(s: bytes): bool {
    if s == [] then true
    else
      var n := VerifySequence(s);
      if n == 0 || n > |s| then false else ValidUtf8(s[n..])
  }

  function EncodeAll(cps: seq<Scalar>): bytes {
    if cps == [] then [] else Encode(cps[0]) + EncodeAll(cps[1..])
  }

  method IsValidUtf8(s: bytes) returns (valid: bool)
    ensures valid == ValidUtf8(s)
  {
    var pos := 0;
    while pos < |s|
      invariant pos <= |s|
      invariant ValidUtf8(s[pos..]) == ValidUtf8(s)
    {
      var len := VerifySequence(s[pos..]);
      if len == 0 {
        return false;
      }
      AcceptedIsEncoded(s[pos..]);
      assert s[pos..][len..] == s[pos + len..];
      pos := pos + len;
    }
    return true;
  }

  lemma {:induction false} EncodeAllIsValid(cps: seq<Scalar>)
    ensures ValidUtf8(EncodeAll(cps))
  {
    if cps != [] {
      var rest := EncodeAll(cps[1..]);
      VerifyEncode(cps[0], rest);
      EncodeAllIsValid(cps[1..]);
      assert (Encode(cps[0]) + rest)[|Encode(cps[0])|..] == rest;
    }
  }

  lemma EncodeAllCons(cp: Scalar, cps: seq<Scalar>)
    ensures EncodeAll([cp] + cps) == Encode(cp) + EncodeAll(cps)
  {
    assert ([cp] + cps)[1..] == cps;
  }

  lemma FirstDecoded(s: bytes) returns (cp: Scalar, rest: bytes)
    requires s != [] && ValidUtf8(s)
    ensures ValidUtf8(rest) && |rest| < |s| && s == Encode(cp) + rest
  {
    AcceptedIsEncoded(s);
    var n := VerifySequence(s);
    cp, rest := Assembled(s).value, s[n..];
    assert s == s[..n] + rest;
  }

  lemma {:induction false} ValidIsEncodeAll(s: bytes) returns (cps: seq<Scalar>)
    requires ValidUtf8(s)
    ensures EncodeAll(cps) == s
  {
    if s == [] {
      cps := [];
    } else {
      var cp, rest := FirstDecoded(s);
      var tail := ValidIsEncodeAll(rest);
      cps := [cp] + tail;
      EncodeAllCons(cp, tail);
    }
  }

  /** A text is valid exactly when it encodes some sequence of code points. */
  lemma ValidIffEncoded(s: bytes)
    ensures ValidUtf8(s) <==> exists cps :: EncodeAll(cps) == s
  {
    if ValidUtf8(s) {
      var cps := ValidIsEncodeAll(s);
    }
    if cps :| EncodeAll(cps) == s {
      EncodeAllIsValid(cps);
    }
  }

  lemma SplitAppend(s: bytes, n: nat, t: bytes)
    requires n <= |s|
    ensures s + t == s[..n] + (s[n..] + t) && (s + t)[n..] == s[n..] + t
  {
  }

  lemma {:induction false} ValidConcat(s: bytes, t: bytes)
    requires ValidUtf8(s) && ValidUtf8(t)
    ensures ValidUtf8(s + t)
    decreases |s|
  {
    if s == [] {
      assert s + t == t;
    } else {
      var n := VerifySequence(s);
      SplitAppend(s, n, t);
      ValidConcat(s[n..], t);
    }
  }

  // ---- \u escapes ----

  function HexDigit(b: byte): (d: Option<nat>)
    ensures d.Some? ==> d.value < 16 && b != 0
  {
    if 48 <= b <= 57 then Some(b - 48)
    else if 65 <= b <= 70 then Some(b - 55)
    else if 97 <= b <= 102 then Some(b - 87)
    else None
  }

  /** The value of four hexadecimal digits at the head of the text. */
  function Hex4(s: bytes): (r: Option<nat>)
    ensures r.Some? ==> |s| >= 4 && r.value <= 0xFFFF
  {
    var a, b, c, d := HexDigit(At(s, 0)), HexDigit(At(s, 1)), HexDigit(At(s, 2)), HexDigit(At(s, 3));
    if a.Some? && b.Some? && c.Some? && d.Some?
    then Some(a.value * 4096 + b.value * 256 + c.value * 16 + d.value)
    else None
  }

  const LOWER_U: byte := 117

  /** Bytes emitted for an escape, and how many bytes of text after the `u` it takes up. */
  datatype Escape = Escape(emitted: bytes, taken: nat)

  /** The bytes written for a code point, with the masks the C code applies. */
  function Emit(cp: nat): (s: bytes)
    ensures 1 <= |s| <= 4
    ensures cp <= 0xFFFF ==> |s| <= 3
  {
    if cp < 0x80 then [cp]
    else if cp < 0x800 then [0xC0 + cp / 64 % 32, Low6(cp)]
    else if cp < 0x10000 then [0xE0 + cp / 64 / 64 % 16, Low6(cp / 64), Low6(cp)]
    else [0xF0 + cp / 64 / 64 / 64 % 8, Low6(cp / 64 / 64), Low6(cp / 64), Low6(cp)]
  }

  function PairCodePoint(lead: nat, trail: nat): nat
    requires 0xD800 <= lead && 0xDC00 <= trail
  {
    (lead - 0xD800) % 1024 * 1024 + (trail - 0xDC00) % 1024 + 0x10000
  }

  function ParseUtf16(s: bytes): (r: Option<Escape>)
    ensures r.Some? ==> r.value.taken <= |s| && 1 <= |r.value.emitted| <= r.value.taken
  {
    var first := Hex4(s);
    if first.None? then None
    else
      var cp := first.value;
      if cp < 0xD800 || cp > 0xDFFF then Some(Escape(Emit(cp), 4))
      else if cp <= 0xDBFF then
        if At(s, 4) != BACKSLASH || At(s, 5) != LOWER_U then None
        else
          var second := Hex4(s[6..]);
          if second.None? || second.value < 0xDC00 || second.value > 0xDFFF then None
          else Some(Escape(Emit(PairCodePoint(cp, second.value)), 10))
      else None
  }

  /** The code point an escape denotes: section 7 of RFC 8259, surrogate pairs included. */
  function EscapedScalar(s: bytes): Option<Scalar> {
    var first := Hex4(s);
    if first.None? then None
    else if IsScalar(first.value) then Some(first.value)
    else if first.value >= 0xDC00 || At(s, 4) != BACKSLASH || At(s, 5) != LOWER_U then None
    else
      var second := Hex4(s[6..]);
      if second.None? || !(0xDC00 <= second.value <= 0xDFFF) then None
      else Some(0x10000 + (first.value - 0xD800) * 0x400 + (second.value - 0xDC00))
  }

  lemma EmitIsEncode(cp: Scalar)
    ensures Emit(cp) == Encode(cp)
  {
  }

  lemma PairIsSupplementary(lead: nat, trail: nat)
    requires 0xD800 <= lead <= 0xDBFF && 0xDC00 <= trail <= 0xDFFF
    ensures PairCodePoint(lead, trail) == 0x10000 + (lead - 0xD800) * 0x400 + (trail - 0xDC00)
    ensures 0x10000 <= PairCodePoint(lead, trail) <= 0x10FFFF
  {
  }

  lemma EscapeEmits(s: bytes)
    ensures ParseUtf16(s).Some? <==> EscapedScalar(s).Some?
    ensures ParseUtf16(s).Some? ==> ParseUtf16(s).value.emitted == Encode(EscapedScalar(s).value)
  {
    var first := Hex4(s);
    if first.Some? {
      if IsScalar(first.value) {
        EmitIsEncode(first.value);
      } else if first.value <= 0xDBFF && At(s, 4) == BACKSLASH && At(s, 5) == LOWER_U {
        var second := Hex4(s[6..]);
        if second.Some? && 0xDC00 <= second.value <= 0xDFFF {
          PairIsSupplementary(first.value, second.value);
          EmitIsEncode(PairCodePoint(first.value, second.value));
        }
      }
    }
  }

  /** An escape is accepted exactly when it denotes a code point; what it emits is that code point's encoding, and verifies. */
  lemma EscapeEmitsEncoding(s: bytes)
    ensures ParseUtf16(s).Some? <==> EscapedScalar(s).Some?
    ensures ParseUtf16(s).Some? ==> ParseUtf16(s).value.emitted == Encode(EscapedScalar(s).value)
    ensures ParseUtf16(s).Some? ==> VerifySequence(ParseUtf16(s).value.emitted) == |ParseUtf16(s).value.emitted|
    ensures ParseUtf16(s).Some? ==> Assembled(ParseUtf16(s).value.emitted) == Some(EscapedScalar(s).value)
  {
    EscapeEmits(s);
    if EscapedScalar(s).Some? {
      var cp := EscapedScalar(s).value;
      VerifyEncode(cp, []);
      assert Encode(cp) + [] == Encode(cp);
    }
  }
}
