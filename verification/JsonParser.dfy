/**
 The recursive-descent parser. A pointer into the text is modelled as the text from there on; its first byte, or the
 terminating NUL, is Head. Every function returns the value read and the text left, or nothing where the C code
 returns NULL.
 */
module JsonParser {
  import opened Bytes
  import opened JsonValue
  import opened JsonText
  import opened Utf8

  datatype Parsed<+T> = Parsed(value: T, rest: bytes)

  predicate IsSpace(c: byte) {
    c == SPACE || 9 <= c <= 13
  }

  function SkipSpaces(s: bytes): (r: bytes)
    ensures |r| <= |s|
    ensures !IsSpace(Head(r))
  {
    if IsSpace(Head(s)) then SkipSpaces(s[1..]) else s
  }

  function Tail1(s: bytes): bytes {
    if s == [] then [] else s[1..]
  }

  // ---- strings ----

  /** How far the closing quote is, stepping over escapes in pairs; none if a NUL comes first. */
  function QuoteAt(s: bytes): (k: Option<nat>)
    ensures k.Some? ==> k.value < |s| && s[k.value] == QUOTE
  {
    if Head(s) == 0 then None
    else if s[0] == QUOTE then Some(0)
    else if s[0] == BACKSLASH then
      if At(s, 1) == 0 then None
      else
        var k := QuoteAt(s[2..]);
        if k.Some? then Some(2 + k.value) else None
    else
      var k := QuoteAt(s[1..]);
      if k.Some? then Some(1 + k.value) else None
  }

  function SimpleEscape(c: byte): (e: Option<byte>)
    ensures e.Some? ==> c != 0
  {
    if c == QUOTE || c == BACKSLASH || c == SLASH then Some(c)
    else if c == 98 then Some(8)
    else if c == 102 then Some(12)
    else if c == 110 then Some(10)
    else if c == 114 then Some(13)
    else if c == 116 then Some(9)
    else None
  }

  function Prepend(a: bytes, r: Option<bytes>): Option<bytes> {
    if r.Some? then Some(a + r.value) else None
  }

  /** One pass of the unescaping loop: the bytes it emits and how far it reads on. */
  function Unescape(s: bytes): (u: Option<Escape>)
    requires Head(s) != 0
    ensures u.Some? ==> 1 <= |u.value.emitted| <= u.value.taken <= |s|
  {
    if s[0] == BACKSLASH then
      var c := At(s, 1);
      var simple := SimpleEscape(c);
      if simple.Some? then Some(Escape([simple.value], 2))
      else if c == LOWER_U then
        var escape := ParseUtf16(s[2..]);
        if escape.None? then None else Some(Escape(escape.value.emitted, 2 + escape.value.taken))
      else None
    else if s[0] < 0x20 then None
    else Some(Escape([s[0]], 1))
  }

  /** The bytes `len` bytes of string body stand for; escapes may look past `len`. */
  function Process(s: bytes, len: int): Option<bytes>
    decreases |s|
  {
    if Head(s) == 0 || len <= 0 then Some([])
    else
      var u := Unescape(s);
      if u.None? then None else Prepend(u.value.emitted, Process(s[u.value.taken..], len - u.value.taken))
  }

  /** The first byte is skipped unseen; a closing quote at the very end of the text is not accepted. */
  function QuotedString(s: bytes): (r: Option<Parsed<bytes>>)
    requires Head(s) != 0
    ensures r.Some? ==> |r.value.rest| < |s|
  {
    var k := QuoteAt(s[1..]);
    if k.None? || Head(s[k.value + 2..]) == 0 then None
    else
      var processed := Process(s[1..], k.value);
      if processed.None? then None else Some(Parsed(UpToNul(processed.value), s[k.value + 2..]))
  }

  // ---- numbers ----

  predicate IsDigit(c: byte) {
    48 <= c <= 57
  }

  function DigitCount(s: bytes): (n: nat)
    ensures n <= |s|
    ensures forall i | 0 <= i < n :: IsDigit(s[i])
    ensures n < |s| ==> !IsDigit(s[n])
  {
    if IsDigit(Head(s)) then 1 + DigitCount(s[1..]) else 0
  }

  predicate AllDigits(s: bytes) {
    forall i | 0 <= i < |s| :: IsDigit(s[i])
  }

  function DecimalValue(digits: bytes): nat
    requires AllDigits(digits)
  {
    if digits == [] then 0
    else
      var last := digits[|digits| - 1];
      assert IsDigit(last);
      10 * DecimalValue(digits[..|digits| - 1]) + (last - 48)
  }

  /** Bytes that would carry strtod beyond an integer: a fraction, an exponent, a hexadecimal prefix, inf or nan. */
  predicate LeavesIntegers(c: byte) {
    c in {46, 69, 101, 88, 120, 73, 105, 78, 110}
  }

  predicate IsExponent(c: byte) {
    c == 69 || c == 101
  }

  /** How long a fraction that adds nothing is: a dot and zeros, if that is where the number ends. */
  function ZeroFraction(s: bytes): (n: Option<nat>)
    requires Head(s) == DOT
    ensures n.Some? ==> 0 < n.value <= |s|
  {
    var n := DigitCount(s[1..]);
    if (forall i | 1 <= i <= n :: s[i] == ZERO) && !IsExponent(Head(s[n + 1..])) then Some(n + 1) else None
  }

  /** The digits of a number: its magnitude and how many bytes it takes, as long as they make an integer. */
  function StrtodDigits(digits: bytes): (r: Option<(nat, nat)>)
    ensures r.Some? ==> r.value.1 <= |digits|
  {
    var n := DigitCount(digits);
    var magnitude, rest := DecimalValue(digits[..n]), digits[n..];
    if n > 0 && Head(rest) == DOT then
      var fraction := ZeroFraction(rest);
      if fraction.None? then None else Some((magnitude, n + fraction.value))
    else if LeavesIntegers(Head(rest)) then None
    else Some((magnitude, n))
  }

  /** strtod on integer text: the number and how many bytes it took; "-" alone is no conversion and takes none. */
  function StrtodInteger(s: bytes): (r: Option<(int, nat)>)
    ensures r.Some? ==> r.value.1 <= |s|
  {
    var negative := Head(s) == MINUS;
    var d := StrtodDigits(if negative then s[1..] else s);
    if d.None? then None
    else if d.value.1 == 0 then Some((0, 0))
    else
      var magnitude: int := d.value.0;
      Some(if negative then (-magnitude, d.value.1 + 1) else (magnitude, d.value.1))
  }

  /** No leading zero before another digit, signed or not, and no x. */
  predicate IsDecimal(s: bytes, length: nat)
    requires length <= |s|
  {
    && !(length > 1 && s[0] == ZERO && s[1] != DOT)
    && !(length > 2 && s[0] == MINUS && s[1] == ZERO && s[2] != DOT)
    && (forall i | 0 <= i < length :: s[i] != 120 && s[i] != 88)
  }

  function ParseNumber(s: bytes): (r: Option<Parsed<Json>>)
    ensures r.Some? ==> |r.value.rest| <= |s|
  {
    var number := StrtodInteger(s);
    if number.None? || !IsDecimal(s, number.value.1) then None
    else Some(Parsed(Number(number.value.0), s[number.value.1..]))
  }

  // ---- values ----

  const MAX_NESTING: nat := 19
  const LOWER_T: byte := 116
  const LOWER_F: byte := 102
  const LOWER_N: byte := 110

  function ParseToken(s: bytes, token: bytes, v: Json): (r: Option<Parsed<Json>>)
    ensures r.Some? ==> |r.value.rest| <= |s|
  {
    if token <= s then Some(Parsed(v, s[|token|..])) else None
  }

  function ParseValue(text: bytes, nesting: nat): (r: Option<Parsed<Json>>)
    ensures r.Some? ==> |r.value.rest| <= |text|
    decreases |text|, 3
  {
    if nesting > MAX_NESTING then None
    else
      var s := SkipSpaces(text);
      var c := Head(s);
      if c == LBRACE then ParseObject(s, nesting + 1)
      else if c == LBRACKET then ParseArray(s, nesting + 1)
      else if c == QUOTE then
        var str := QuotedString(s);
        if str.None? then None else Some(Parsed(Str(str.value.value), str.value.rest))
      else if c == LOWER_T || c == LOWER_F then
        if TRUE_TEXT <= s then ParseToken(s, TRUE_TEXT, Bool(true)) else ParseToken(s, FALSE_TEXT, Bool(false))
      else if c == MINUS || IsDigit(c) then ParseNumber(s)
      else if c == LOWER_N then ParseToken(s, NULL_TEXT, Null)
      else None
  }

  /** Cuts the store of a finished container to its count. */
  function Trimmed(v: Json): Json {
    match v
    case Array(items, _) => Array(items, |items|)
    case Object(ms, _) => Object(ms, |ms|)
    case _ => v
  }

  /** The closing bracket, after which the store is cut to its count; cutting an empty store fails. */
  function Close(v: Json, text: bytes, bracket: byte): (r: Option<Parsed<Json>>)
    requires v.Array? || v.Object?
    ensures r.Some? ==> |r.value.rest| <= |text|
  {
    var s := SkipSpaces(text);
    var count := if v.Array? then |v.items| else |v.members|;
    if Head(s) != bracket || count == 0 then None else Some(Parsed(Trimmed(v), Tail1(s)))
  }

  function ParseObject(s: bytes, nesting: nat): (r: Option<Parsed<Json>>)
    requires s != []
    ensures r.Some? ==> |r.value.rest| <= |s|
    decreases |s|, 2
  {
    var inner := SkipSpaces(s[1..]);
    if Head(inner) == RBRACE then Some(Parsed(EMPTY_OBJECT, inner[1..]))
    else ParseMembers(inner, EMPTY_OBJECT, nesting)
  }

  /** The loop over the members: `sofar` is the object under construction. */
  function ParseMembers(s: bytes, sofar: Json, nesting: nat): (r: Option<Parsed<Json>>)
    requires sofar.Object?
    ensures r.Some? ==> |r.value.rest| <= |s|
    decreases |s|, 1
  {
    if Head(s) == 0 then Close(sofar, s, RBRACE)
    else
      var key := QuotedString(s);
      if key.None? then None
      else
        var colon := SkipSpaces(key.value.rest);
        if Head(colon) != COLON then None
        else
          var value := ParseValue(colon[1..], nesting);
          if value.None? then None
          else
            var added := ObjectAdd(sofar, key.value.value, value.value.value);
            if !added.ok then None
            else
              var after := SkipSpaces(value.value.rest);
              if Head(after) == COMMA then ParseMembers(SkipSpaces(after[1..]), added.value, nesting)
              else Close(added.value, after, RBRACE)
  }

  function ParseArray(s: bytes, nesting: nat): (r: Option<Parsed<Json>>)
    requires s != []
    ensures r.Some? ==> |r.value.rest| <= |s|
    decreases |s|, 2
  {
    var inner := SkipSpaces(s[1..]);
    if Head(inner) == RBRACKET then Some(Parsed(EMPTY_ARRAY, inner[1..]))
    else ParseItems(inner, EMPTY_ARRAY, nesting)
  }

  function ParseItems(s: bytes, sofar: Json, nesting: nat): (r: Option<Parsed<Json>>)
    requires sofar.Array?
    ensures r.Some? ==> |r.value.rest| <= |s|
    decreases |s|, 4
  {
    if Head(s) == 0 then Close(sofar, s, RBRACKET)
    else
      var value := ParseValue(s, nesting);
      if value.None? then None
      else
        var added := ArrayAdd(sofar, value.value.value);
        if !added.ok then None
        else
          var after := SkipSpaces(value.value.rest);
          if Head(after) == COMMA then ParseItems(SkipSpaces(after[1..]), added.value, nesting)
          else Close(added.value, after, RBRACKET)
  }

  function ParseString(text: bytes): Option<Parsed<Json>> {
    var s := SkipSpaces(text);
    if Head(s) != LBRACE && Head(s) != LBRACKET then None else ParseValue(s, 0)
  }
}
