/** Bytes, C strings and the two result shapes every other module uses. */
module Bytes {
  type byte = b: int | 0 <= b < 256
  type bytes = seq<byte>

  datatype Option<+T> = None | Some(value: T)

  const QUOTE: byte := 34
  const COMMA: byte := 44
  const DOT: byte := 46
  const SLASH: byte := 47
  const COLON: byte := 58
  const BACKSLASH: byte := 92
  const LBRACKET: byte := 91
  const RBRACKET: byte := 93
  const LBRACE: byte := 123
  const RBRACE: byte := 125
  const NEWLINE: byte := 10
  const SPACE: byte := 32
  const MINUS: byte := 45
  const ZERO: byte := 48

  /** The byte a C pointer sees: the terminating NUL once the text is used up. */
  function Head(s: bytes): byte {
    if s == [] then 0 else s[0]
  }

  /** Reading at an offset; the terminator stops every reader before it gets further. */
  function At(s: bytes, i: nat): byte {
    if i < |s| then s[i] else 0
  }

  predicate NulFree(s: bytes) {
    forall i | 0 <= i < |s| :: s[i] != 0
  }

  /** What the C library sees of a buffer: the bytes before the first NUL. */
  function UpToNul(s: bytes): (r: bytes)
    ensures NulFree(r) && r <= s
    ensures NulFree(s) ==> r == s
  {
    if s == [] || s[0] == 0 then [] else [s[0]] + UpToNul(s[1..])
  }

  function Max(a: nat, b: nat): nat {
    if a > b then a else b
  }

  function Min(a: nat, b: nat): nat {
    if a < b then a else b
  }

  /** `before` with `text` laid over it from offset `off` on. */
  function Overlay(before: bytes, off: nat, text: bytes): (r: bytes)
    requires off + |text| <= |before|
    ensures |r| == |before|
  {
    before[..off] + text + before[off + |text|..]
  }

  lemma OverlayNext(before: bytes, off: nat, text: bytes, c: byte)
    requires off + |text| < |before|
    ensures Overlay(before, off, text)[off + |text| := c] == Overlay(before, off, text + [c])
  {
  }

  lemma Associative<T>(a: seq<T>, b: seq<T>, c: seq<T>)
    ensures a + b + c == a + (b + c)
  {
  }
}
