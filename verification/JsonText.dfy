/** The serializer: what text a value has, and the two passes that measure it and write it. */
module JsonText {
  import opened Bytes
  import opened JsonValue

  // ---- the text of a value ----

  /** A string byte as it appears between the quotes; control bytes without a short escape go out raw. */
  function EscapeByte(c: byte): bytes {
    if c == QUOTE then [BACKSLASH, QUOTE]
    else if c == BACKSLASH then [BACKSLASH, BACKSLASH]
    else if c == 8 then [BACKSLASH, 98]
    else if c == 12 then [BACKSLASH, 102]
    else if c == 10 then [BACKSLASH, 110]
    else if c == 13 then [BACKSLASH, 114]
    else if c == 9 then [BACKSLASH, 116]
    else [c]
  }

  function EscapeAll(s: bytes): bytes {
    if s == [] then [] else EscapeByte(s[0]) + EscapeAll(s[1..])
  }

  function StringText(s: bytes): bytes {
    [QUOTE] + EscapeAll(s) + [QUOTE]
  }

  function Digits(n: nat): (s: bytes)
    ensures s != []
    ensures forall i | 0 <= i < |s| :: 48 <= s[i] <= 57
  {
    if n < 10 then [ZERO + n] else Digits(n / 10) + [ZERO + n % 10]
  }

  /** What "%d" prints. */
  function IntText(n: int): bytes {
    if n < 0 then [MINUS] + Digits(-n) else Digits(n)
  }

  predicate InIntRange(n: int) {
    -0x8000_0000 <= n < 0x8000_0000
  }

  const FRACTION: bytes := [DOT, 48, 48, 48, 48, 48, 48]

  /** Numbers beyond an int go through "%f", which adds six decimals. */
  function NumberText(n: int): bytes {
    if InIntRange(n) then IntText(n) else IntText(n) + FRACTION
  }

  const FOUR_SPACES: bytes := [32, 32, 32, 32]
  const TRUE_TEXT: bytes := [116, 114, 117, 101]
  const FALSE_TEXT: bytes := [102, 97, 108, 115, 101]
  const NULL_TEXT: bytes := [110, 117, 108, 108]

  function Indent(level: nat): bytes {
    if level == 0 then [] else Indent(level - 1) + FOUR_SPACES
  }

  function PrettyOnly(pretty: bool, text: bytes): bytes {
    if pretty then text else []
  }

  function CommaUnlessLast(left: nat): bytes {
    if left > 1 then [COMMA] else []
  }

  function Serialize(v: Json, level: nat, pretty: bool): bytes
    decreases v, 1
  {
    match v
    case Null => NULL_TEXT
    case Bool(b) => if b then TRUE_TEXT else FALSE_TEXT
    case Number(n) => NumberText(n)
    case Str(s) => StringText(s)
    case Array(items, _) =>
      [LBRACKET] + Opening(|items|, pretty) + SerializeItems(items, level + 1, pretty)
      + Closing(|items|, level, pretty) + [RBRACKET]
    case Object(ms, _) =>
      [LBRACE] + Opening(|ms|, pretty) + SerializeMembers(ms, level + 1, pretty)
      + Closing(|ms|, level, pretty) + [RBRACE]
  }

  function Opening(count: nat, pretty: bool): bytes {
    PrettyOnly(count > 0 && pretty, [NEWLINE])
  }

  function Closing(count: nat, level: nat, pretty: bool): bytes {
    PrettyOnly(count > 0 && pretty, Indent(level))
  }

  function SerializeItems(items: seq<Json>, level: nat, pretty: bool): bytes
    decreases items, 0
  {
    if items == [] then []
    else
      PrettyOnly(pretty, Indent(level)) + Serialize(items[0], level, pretty)
      + CommaUnlessLast(|items|) + PrettyOnly(pretty, [NEWLINE])
      + SerializeItems(items[1..], level, pretty)
  }

  function SerializeMembers(ms: seq<Member>, level: nat, pretty: bool): bytes
    decreases ms, 0
  {
    if ms == [] then []
    else
      PrettyOnly(pretty, Indent(level)) + StringText(ms[0].name) + [COLON] + PrettyOnly(pretty, [SPACE])
      + Serialize(ms[0].value, level, pretty)
      + CommaUnlessLast(|ms|) + PrettyOnly(pretty, [NEWLINE])
      + SerializeMembers(ms[1..], level, pretty)
  }

  // ---- writing ----

  /** `after` is `before` with `text` and a terminating NUL laid over it. */
  ghost predicate Printed(before: bytes, off: nat, text: bytes, after: bytes) {
    off + |text| < |before| && after == Overlay(before, off, text + [0])
  }

  /** The same, when the terminator may still be missing. */
  ghost predicate Laid(before: bytes, off: nat, text: bytes, after: bytes) {
    off + |text| < |before| && (after == Overlay(before, off, text + [0]) || after == Overlay(before, off, text))
  }

  ghost predicate Fits(buf: array?<byte>, off: nat, text: bytes) {
    buf != null ==> off + |text| < buf.Length
  }

  /** Without a buffer nothing is written. */
  ghost function Contents(buf: array?<byte>): (c: bytes)
    reads buf
    ensures buf != null ==> |c| == buf.Length
  {
    if buf == null then [] else buf[..]
  }

  /** Printing right after what was laid down continues the text. */
  lemma PrintedMore(before: bytes, off: nat, first: bytes, middle: bytes, at: nat, second: bytes, after: bytes)
    requires at == off + |first| && Laid(before, off, first, middle) && Printed(middle, at, second, after)
    ensures Printed(before, off, first + second, after)
  {
    assert first + [] == first;
    assert first + (second + [0]) == first + second + [0];
  }

  lemma LaidMore(before: bytes, off: nat, first: bytes, middle: bytes, at: nat, second: bytes, after: bytes)
    requires at == off + |first| && second != []
    requires Laid(before, off, first, middle) && Laid(middle, at, second, after)
    ensures Laid(before, off, first + second, after)
  {
    if Printed(middle, at, second, after) {
      PrintedMore(before, off, first, middle, at, second, after);
    } else {
      assert first + [] == first;
    }
  }

  method AppendString(buf: array?<byte>, off: nat, text: bytes) returns (written: nat)
    requires Fits(buf, off, text)
    modifies buf
    ensures written == |text|
    ensures buf != null ==> Printed(old(Contents(buf)), off, text, Contents(buf))
  {
    if buf == null {
      return |text|;
    }
    forall i | 0 <= i < |text| {
      buf[off + i] := text[i];
    }
    buf[off + |text|] := 0;
    assert buf[..] == Overlay(old(buf[..]), off, text + [0]);
    return |text|;
  }

  method AppendIndent(buf: array?<byte>, off: nat, level: nat) returns (written: nat)
    requires Fits(buf, off, Indent(level))
    requires buf != null ==> buf[off] == 0
    modifies buf
    ensures written == |Indent(level)|
    ensures buf != null ==> Printed(old(Contents(buf)), off, Indent(level), Contents(buf))
  {
    ghost var before := Contents(buf);
    written := 0;
    assert buf != null ==> buf[..] == Overlay(before, off, [] + [0]);
    for i := 0 to level
      invariant written == |Indent(i)|
      invariant buf != null ==> Printed(before, off, Indent(i), Contents(buf))
    {
      IndentGrows(i + 1, level);
      ghost var middle := Contents(buf);
      var w := AppendString(buf, off + written, FOUR_SPACES);
      if buf != null {
        PrintedMore(before, off, Indent(i), middle, off + written, FOUR_SPACES, Contents(buf));
      }
      written := written + w;
    }
  }

  lemma {:induction false} IndentGrows(i: nat, level: nat)
    requires i <= level
    ensures |Indent(i)| <= |Indent(level)|
  {
    if i < level {
      IndentGrows(i, level - 1);
    }
  }

  lemma {:induction false} EscapeAllAt(s: bytes, i: nat)
    requires i < |s|
    ensures EscapeAll(s[..i + 1]) == EscapeAll(s[..i]) + EscapeByte(s[i])
    ensures |EscapeAll(s[..i])| + |EscapeByte(s[i])| <= |EscapeAll(s)|
  {
    EscapeAllFirst(s, i + 1);
    if i == 0 {
      assert s[1..][..0] == [];
    } else {
      EscapeAllAt(s[1..], i - 1);
      EscapeAllFirst(s, i);
      Associative(EscapeByte(s[0]), EscapeAll(s[1..][..i - 1]), EscapeByte(s[i]));
    }
  }

  lemma EscapeAllFirst(s: bytes, i: nat)
    requires 0 < i <= |s|
    ensures EscapeAll(s[..i]) == EscapeByte(s[0]) + EscapeAll(s[1..][..i - 1])
  {
    assert s[..i][1..] == s[1..][..i - 1] && s[..i][0] == s[0];
  }

  /** The opening quote and the first `i` bytes. */
  ghost function TextUpTo(s: bytes, i: nat): (t: bytes)
    requires i <= |s|
    ensures i == 0 ==> t == [QUOTE]
  {
    [QUOTE] + EscapeAll(s[..i])
  }

  lemma TextUpToNext(s: bytes, i: nat)
    requires i < |s|
    ensures TextUpTo(s, i + 1) == TextUpTo(s, i) + EscapeByte(s[i])
    ensures |TextUpTo(s, i)| + |EscapeByte(s[i])| < |StringText(s)|
  {
    EscapeAllAt(s, i);
  }

  lemma TextUpToAll(s: bytes)
    ensures StringText(s) == TextUpTo(s, |s|) + [QUOTE]
  {
    assert s[..|s|] == s;
  }

  /** An escape is printed; any other byte is stored without a terminator. */
  method SerializeByte(c: byte, buf: array?<byte>, off: nat) returns (written: nat)
    requires Fits(buf, off, EscapeByte(c))
    modifies buf
    ensures written == |EscapeByte(c)|
    ensures buf != null ==> Laid(old(Contents(buf)), off, EscapeByte(c), Contents(buf))
  {
    if |EscapeByte(c)| == 2 {
      written := AppendString(buf, off, EscapeByte(c));
    } else {
      if buf != null {
        buf[off] := c;
        assert buf[..] == Overlay(old(Contents(buf)), off, [c]);
      }
      written := 1;
    }
  }

  /** One byte of a string, behind what has been written of it. */
  method SerializeNext(s: bytes, i: nat, buf: array?<byte>, off: nat, written: nat, ghost before: bytes)
    returns (next: nat)
    requires i < |s| && Fits(buf, off, StringText(s)) && written == |TextUpTo(s, i)|
    requires buf != null ==> Laid(before, off, TextUpTo(s, i), Contents(buf))
    modifies buf
    ensures next == |TextUpTo(s, i + 1)|
    ensures buf != null ==> Laid(before, off, TextUpTo(s, i + 1), Contents(buf))
  {
    TextUpToNext(s, i);
    ghost var middle := Contents(buf);
    var w := SerializeByte(s[i], buf, off + written);
    if buf != null {
      LaidMore(before, off, TextUpTo(s, i), middle, off + written, EscapeByte(s[i]), Contents(buf));
    }
    next := written + w;
  }

  method SerializeString(s: bytes, buf: array?<byte>, off: nat) returns (written: nat)
    requires Fits(buf, off, StringText(s))
    modifies buf
    ensures written == |StringText(s)|
    ensures buf != null ==> Printed(old(Contents(buf)), off, StringText(s), Contents(buf))
  {
    ghost var before := Contents(buf);
    written := AppendString(buf, off, [QUOTE]);
    for i := 0 to |s|
      invariant written == |TextUpTo(s, i)|
      invariant buf != null ==> Laid(before, off, TextUpTo(s, i), Contents(buf))
    {
      written := SerializeNext(s, i, buf, off, written, before);
    }
    TextUpToAll(s);
    ghost var middle := Contents(buf);
    var w := AppendString(buf, off + written, [QUOTE]);
    if buf != null {
      PrintedMore(before, off, TextUpTo(s, |s|), middle, off + written, [QUOTE], Contents(buf));
    }
    written := written + w;
  }
}
