/** The parser as it runs: a position moves through the text, loops fill stores and buffers. */
module JsonReader {
  import opened Bytes
  import opened JsonValue
  import opened JsonStore
  import opened JsonParser
  import opened JsonText
  import opened Utf8

  /** A method read what the specification says: the same value, and the position at the text that is left. */
  ghost predicate Agrees<T>(text: bytes, spec: Option<Parsed<T>>, r: Option<T>, pos: nat) {
    && (r.Some? ==> pos <= |text|)
    && spec == if r.Some? then Some(Parsed(r.value, text[pos..])) else None
  }

  method SkipWhitespaces(text: bytes, from: nat) returns (pos: nat)
    requires from <= |text|
    ensures from <= pos <= |text| && text[pos..] == SkipSpaces(text[from..])
  {
    pos := from;
    while IsSpace(At(text, pos))
      invariant from <= pos <= |text|
      invariant SkipSpaces(text[pos..]) == SkipSpaces(text[from..])
      decreases |text| - pos
    {
      assert text[pos..][1..] == text[pos + 1..];
      pos := pos + 1;
    }
  }

  function Shift(n: nat, r: Option<nat>): Option<nat> {
    if r.Some? then Some(n + r.value) else None
  }

  /** From `pos` on the quote is found at the same place of the text as from `from` on. */
  predicate Searching(text: bytes, from: nat, pos: nat) {
    from <= pos <= |text| && QuoteAt(text[from..]) == Shift(pos - from, QuoteAt(text[pos..]))
  }

  lemma SearchGoesOn(text: bytes, from: nat, pos: nat)
    requires Searching(text, from, pos) && pos < |text| && text[pos] != QUOTE
    ensures text[pos] == 0 || (text[pos] == BACKSLASH && At(text, pos + 1) == 0) ==> QuoteAt(text[from..]).None?
    ensures text[pos] == BACKSLASH && At(text, pos + 1) != 0 ==> Searching(text, from, pos + 2)
    ensures text[pos] != 0 && text[pos] != BACKSLASH ==> Searching(text, from, pos + 1)
  {
  }

  /** Stops past the closing quote, or at the NUL that comes first. */
  method SkipQuotes(text: bytes, from: nat) returns (pos: nat)
    requires from < |text|
    ensures from < pos <= |text|
    ensures match QuoteAt(text[from + 1..])
            case Some(k) => pos == from + 2 + k
            case None => At(text, pos) == 0
  {
    pos := from + 1;
    while At(text, pos) != QUOTE
      invariant Searching(text, from + 1, pos)
      decreases |text| - pos
    {
      if At(text, pos) == 0 {
        return;
      }
      SearchGoesOn(text, from + 1, pos);
      if At(text, pos) == BACKSLASH {
        pos := pos + 1;
        if At(text, pos) == 0 {
          return;
        }
      }
      pos := pos + 1;
    }
    pos := pos + 1;
  }

  // ---- unescaping in place ----

  lemma PrependPrepend(a: bytes, b: bytes, r: Option<bytes>)
    ensures Prepend(a, Prepend(b, r)) == Prepend(a + b, r)
  {
    if r.Some? {
      assert a + (b + r.value) == a + b + r.value;
    }
  }

  /** Hexadecimal digits, a backslash and a u are none of them a quote, so an accepted escape ends before the quote. */
  lemma EscapeStaysInside(s: bytes, k: nat)
    requires ParseUtf16(s).Some? && QuoteAt(s) == Some(k)
    ensures ParseUtf16(s).value.taken <= k
    ensures QuoteAt(s[ParseUtf16(s).value.taken..]) == Some(k - ParseUtf16(s).value.taken)
  {
    assert HexDigit(s[0]).Some? && HexDigit(s[1]).Some? && HexDigit(s[2]).Some? && HexDigit(s[3]).Some?;
    PlainBytes(s, 4, k);
    if ParseUtf16(s).value.taken == 10 {
      var t := s[6..];
      assert s[4..][2..] == t;
      assert HexDigit(t[0]).Some? && HexDigit(t[1]).Some? && HexDigit(t[2]).Some? && HexDigit(t[3]).Some?;
      assert s[4..][0] == BACKSLASH && s[4..][1] == LOWER_U;
      PlainBytes(t, 4, k - 6);
      assert t[4..] == s[10..];
    }
  }

  /** The quote is found just as far on when bytes that are neither quote, backslash nor NUL are passed. */
  lemma {:induction false} PlainBytes(s: bytes, n: nat, k: nat)
    requires n <= |s| && QuoteAt(s) == Some(k)
    requires forall i | 0 <= i < n :: s[i] != QUOTE && s[i] != BACKSLASH && s[i] != 0
    ensures n <= k && QuoteAt(s[n..]) == Some(k - n)
  {
    if n > 0 {
      PlainBytes(s[1..], n - 1, k - 1);
      assert s[1..][n - 1..] == s[n..];
    } else {
      assert s[0..] == s;
    }
  }

  lemma UtfEscapeStaysInside(s: bytes, k: nat, u: Escape)
    requires |s| > 1 && s[0] == BACKSLASH && k > 1 && QuoteAt(s[2..]) == Some(k - 2)
    requires SimpleEscape(At(s, 1)).None? && Unescape(s) == Some(u)
    ensures u.taken <= k && QuoteAt(s[u.taken..]) == Some(k - u.taken)
  {
    EscapeStaysInside(s[2..], k - 2);
    assert s[2..][u.taken - 2..] == s[u.taken..];
  }

  /** A pass of the loop never reads past the quote, and finds it just as far on. */
  lemma UnescapeStaysInside(s: bytes, k: nat, u: Escape)
    requires Head(s) != 0 && k > 0 && QuoteAt(s) == Some(k) && Unescape(s) == Some(u)
    ensures u.taken <= k && QuoteAt(s[u.taken..]) == Some(k - u.taken)
  {
    assert s[0..] == s;
    if s[0] == BACKSLASH {
      if SimpleEscape(At(s, 1)).None? {
        UtfEscapeStaysInside(s, k, u);
      } else {
        assert u.taken == 2;
      }
    } else {
      assert u.taken == 1;
    }
  }

  /** `done` is written, and unescaping the `left` bytes of `s` up to the quote completes the result. */
  ghost predicate Unescaping(whole: Option<bytes>, s: bytes, left: nat, done: bytes) {
    QuoteAt(s) == Some(left) && whole == Prepend(done, Process(s, left))
  }

  lemma UnescapingStarts(s: bytes, left: nat)
    requires QuoteAt(s) == Some(left)
    ensures Unescaping(Process(s, left), s, left, [])
  {
    var whole := Process(s, left);
    if whole.Some? {
      assert [] + whole.value == whole.value;
    }
  }

  lemma UnescapingStuck(whole: Option<bytes>, s: bytes, left: nat, done: bytes)
    requires Unescaping(whole, s, left, done)
    ensures Head(s) != 0
    ensures left > 0 && Unescape(s) == None ==> whole == None
    ensures left == 0 ==> whole == Some(done)
  {
    assert done + [] == done;
  }

  lemma UnescapingGoesOn(whole: Option<bytes>, s: bytes, left: nat, done: bytes, u: Escape)
    returns (s': bytes, left': nat, done': bytes)
    requires left > 0 && Unescaping(whole, s, left, done) && Head(s) != 0 && Unescape(s) == Some(u)
    ensures u.taken <= left && s' == s[u.taken..] && left' == left - u.taken && done' == done + u.emitted
    ensures Unescaping(whole, s', left', done')
  {
    UnescapeStaysInside(s, left, u);
    PrependPrepend(done, u.emitted, Process(s[u.taken..], left - u.taken));
    s', left', done' := s[u.taken..], left - u.taken, done + u.emitted;
  }

  /**
   Unescapes the `len` bytes before the closing quote into a buffer of len + 1. The writing position never overtakes
   the reading one, so the buffer suffices and keeps room for the NUL.
   */
  method ProcessString(input: bytes, len: nat) returns (r: Option<bytes>)
    requires QuoteAt(input) == Some(len)
    ensures Process(input, len) == None <==> r == None
    ensures r.Some? ==> r.value == UpToNul(Process(input, len).value)
  {
    var output := new byte[len + 1];
    var i: nat, o: nat := 0, 0;
    ghost var whole, s, left, done := Process(input, len), input, len, [];
    UnescapingStarts(input, len);
    while At(input, i) != 0 && i < len
      invariant o <= i <= len && i <= |input|
      invariant s == input[i..] && left == len - i && done == output[..o]
      invariant Unescaping(whole, s, left, done)
      decreases len - i
    {
      UnescapingStuck(whole, s, left, done);
      var unescaped := Unescape(input[i..]);
      if unescaped.None? {
        return None;
      }
      var u := unescaped.value;
      s, left, done := UnescapingGoesOn(whole, s, left, done, u);
      StoreAt(output, o, u.emitted);
      i, o := i + u.taken, o + |u.emitted|;
    }
    UnescapingStuck(whole, s, left, done);
    r := Some(UpToNul(output[..o]));
    output[o] := 0;
  }

  /** Stores bytes from an offset on and leaves the rest of the buffer alone. */
  method StoreAt(buf: array<byte>, off: nat, text: bytes)
    requires off + |text| <= buf.Length
    modifies buf
    ensures buf[..] == Overlay(old(buf[..]), off, text)
    ensures buf[..off + |text|] == old(buf[..off]) + text
  {
    forall j | 0 <= j < |text| {
      buf[off + j] := text[j];
    }
    assert buf[..] == Overlay(old(buf[..]), off, text);
  }

  method GetQuotedString(text: bytes, from: nat) returns (r: Option<bytes>, pos: nat)
    requires from < |text| && At(text, from) != 0
    ensures from < pos <= |text|
    ensures Agrees(text, QuotedString(text[from..]), r, pos)
  {
    assert text[from..][1..] == text[from + 1..];
    pos := SkipQuotes(text, from);
    if At(text, pos) == 0 {
      ghost var k := QuoteAt(text[from + 1..]);
      assert k.Some? ==> text[from..][k.value + 2..] == text[pos..];
      return None, pos;
    }
    var len := pos - from - 2;
    r := ProcessString(text[from + 1..], len);
    assert text[from..][len + 2..] == text[pos..];
  }

  // ---- values ----

  method ParseNumberValue(text: bytes, from: nat) returns (r: Option<Json>, pos: nat)
    requires from <= |text|
    ensures Agrees(text, ParseNumber(text[from..]), r, pos)
  {
    var number := StrtodInteger(text[from..]);
    pos := from;
    if number.None? || !IsDecimal(text[from..], number.value.1) {
      return None, pos;
    }
    pos := from + number.value.1;
    assert text[from..][number.value.1..] == text[pos..];
    return Some(Number(number.value.0)), pos;
  }

  method ParseTokenValue(text: bytes, from: nat, token: bytes, v: Json) returns (r: Option<Json>, pos: nat)
    requires from <= |text|
    ensures Agrees(text, ParseToken(text[from..], token, v), r, pos)
  {
    pos := from;
    if token <= text[from..] {
      pos := from + |token|;
      assert text[from..][|token|..] == text[pos..];
      return Some(v), pos;
    }
    return None, pos;
  }

  method ParseJsonValue(text: bytes, from: nat, nesting: nat) returns (r: Option<Json>, pos: nat)
    requires from <= |text|
    ensures Agrees(text, ParseValue(text[from..], nesting), r, pos)
    ensures r.Some? ==> from <= pos <= |text|
    decreases |text| - from, 2
  {
    pos := from;
    if nesting > MAX_NESTING {
      return None, pos;
    }
    pos := SkipWhitespaces(text, from);
    var c := At(text, pos);
    if c == LBRACE {
      r, pos := ParseObjectValue(text, pos, nesting + 1);
    } else if c == LBRACKET {
      r, pos := ParseArrayValue(text, pos, nesting + 1);
    } else if c == QUOTE {
      var str;
      str, pos := GetQuotedString(text, pos);
      r := if str.None? then None else Some(Str(str.value));
    } else if c == LOWER_T || c == LOWER_F {
      if TRUE_TEXT <= text[pos..] {
        r, pos := ParseTokenValue(text, pos, TRUE_TEXT, Bool(true));
      } else {
        r, pos := ParseTokenValue(text, pos, FALSE_TEXT, Bool(false));
      }
    } else if c == MINUS || IsDigit(c) {
      r, pos := ParseNumberValue(text, pos);
    } else if c == LOWER_N {
      r, pos := ParseTokenValue(text, pos, NULL_TEXT, Null);
    } else {
      r := None;
    }
  }

  /** A pass of the member loop that finds everything it needs. */
  lemma MemberRead(s: bytes, sofar: Json, nesting: nat, key: Parsed<bytes>, colon: bytes, v: Parsed<Json>, added: Json, after: bytes)
    requires Head(s) != 0 && sofar.Object?
    requires QuotedString(s) == Some(key) && colon == SkipSpaces(key.rest) && Head(colon) == COLON
    requires ParseValue(Tail1(colon), nesting) == Some(v) && after == SkipSpaces(v.rest)
    requires ObjectAdd(sofar, key.value, v.value) == Result(true, added)
    ensures added.Object?
    ensures ParseMembers(s, sofar, nesting)
            == if Head(after) == COMMA then ParseMembers(SkipSpaces(Tail1(after)), added, nesting)
               else Close(added, after, RBRACE)
  {
  }

  lemma Suffix(text: bytes, pos: nat)
    requires pos <= |text|
    ensures Head(text[pos..]) == At(text, pos)
    ensures pos < |text| ==> Tail1(text[pos..]) == text[pos + 1..]
  {
  }

  /** Past a comma and the spaces after it. */
  method NextElement(text: bytes, from: nat, ghost s: bytes) returns (pos: nat, ghost rest: bytes)
    requires from < |text| && s == text[from..]
    ensures from < pos <= |text| && rest == text[pos..] && rest == SkipSpaces(Tail1(s))
  {
    assert Tail1(s) == text[from + 1..];
    pos := SkipWhitespaces(text, from + 1);
    rest := text[pos..];
  }

  /** One pass over a member: its name, the colon, its value, and the insertion. */
  method ParseMember(text: bytes, from: nat, store: JsonObject, nesting: nat, ghost s: bytes, ghost sofar: Json)
    returns (ok: bool, pos: nat, ghost after: bytes)
    requires from < |text| && At(text, from) != 0 && s == text[from..]
    requires store.Consistent() && sofar == store.View()
    modifies store, store.names, store.values
    ensures store.Consistent()
    ensures store.names == old(store.names) || fresh(store.names)
    ensures store.values == old(store.values) || fresh(store.values)
    ensures !ok ==> ParseMembers(s, sofar, nesting) == None
    ensures ok ==> from < pos <= |text| && after == text[pos..]
    ensures ok ==> ParseMembers(s, sofar, nesting)
                   == if Head(after) == COMMA then ParseMembers(SkipSpaces(Tail1(after)), store.View(), nesting)
                      else Close(store.View(), after, RBRACE)
    decreases |text| - from, 0
  {
    Suffix(text, from);
    after := [];
    var key, value;
    key, pos := GetQuotedString(text, from);
    if key.None? {
      return false, pos, after;
    }
    ghost var parsedKey := Parsed(key.value, text[pos..]);
    pos := SkipWhitespaces(text, pos);
    Suffix(text, pos);
    ghost var colon := text[pos..];
    if At(text, pos) != COLON {
      return false, pos, after;
    }
    var start := pos + 1;
    assert Tail1(colon) == text[start..];
    value, pos := ParseJsonValue(text, start, nesting);
    assert ParseValue(Tail1(colon), nesting) == if value.Some? then Some(Parsed(value.value, text[pos..])) else None;
    if value.None? {
      return false, pos, after;
    }
    ghost var parsed := Parsed(value.value, text[pos..]);
    ok := store.Add(key.value, value.value);
    if !ok {
      return false, pos, after;
    }
    pos := SkipWhitespaces(text, pos);
    after := text[pos..];
    MemberRead(s, sofar, nesting, parsedKey, colon, parsed, store.View(), after);
  }

  method ParseObjectValue(text: bytes, from: nat, nesting: nat) returns (r: Option<Json>, pos: nat)
    requires from < |text|
    ensures Agrees(text, ParseObject(text[from..], nesting), r, pos)
    ensures r.Some? ==> from < pos <= |text|
    decreases |text| - from, 1
  {
    var store := new JsonObject.Init();
    Suffix(text, from);
    pos := SkipWhitespaces(text, from + 1);
    Suffix(text, pos);
    if At(text, pos) == RBRACE {
      return Some(EMPTY_OBJECT), pos + 1;
    }
    ghost var whole := ParseMembers(text[pos..], EMPTY_OBJECT, nesting);
    ghost var s, sofar := text[pos..], EMPTY_OBJECT;
    while At(text, pos) != 0
      invariant from < pos <= |text| && s == text[pos..]
      invariant fresh(store) && store.Consistent() && sofar == store.View()
      invariant store.names == null || fresh(store.names)
      invariant store.values == null || fresh(store.values)
      invariant whole == ParseMembers(s, sofar, nesting)
      decreases |text| - pos
    {
      var ok;
      ok, pos, s := ParseMember(text, pos, store, nesting, s, sofar);
      sofar := store.View();
      if !ok {
        return None, pos;
      }
      Suffix(text, pos);
      if At(text, pos) != COMMA {
        break;
      }
      pos, s := NextElement(text, pos, s);
    }
    assert whole == Close(sofar, s, RBRACE) by { Suffix(text, pos); }
    r, pos := FinishObject(text, pos, store);
  }

  /** The closing brace, and the store cut to its count. */
  method FinishObject(text: bytes, from: nat, store: JsonObject) returns (r: Option<Json>, pos: nat)
    requires from <= |text| && store.Consistent()
    modifies store
    ensures Agrees(text, Close(old(store.View()), text[from..], RBRACE), r, pos)
    ensures r.Some? ==> from < pos <= |text|
  {
    pos := SkipWhitespaces(text, from);
    Suffix(text, pos);
    if At(text, pos) != RBRACE {
      return None, pos;
    }
    var members := store.count;
    var ok := store.Resize(members);
    if !ok {
      return None, pos;
    }
    var ms := store.Members();
    r, pos := Some(Object(ms, store.capacity)), pos + 1;
  }

  method FinishArray(text: bytes, from: nat, store: JsonArray) returns (r: Option<Json>, pos: nat)
    requires from <= |text| && store.Consistent()
    modifies store
    ensures Agrees(text, Close(old(store.View()), text[from..], RBRACKET), r, pos)
    ensures r.Some? ==> from < pos <= |text|
  {
    pos := SkipWhitespaces(text, from);
    Suffix(text, pos);
    if At(text, pos) != RBRACKET {
      return None, pos;
    }
    var elements := store.count;
    var ok := store.Resize(elements);
    if !ok {
      return None, pos;
    }
    var vs := store.Items();
    r, pos := Some(Array(vs, store.capacity)), pos + 1;
  }

  /** One pass over an array element. */
  method ParseItem(text: bytes, from: nat, store: JsonArray, nesting: nat, ghost s: bytes, ghost sofar: Json)
    returns (ok: bool, pos: nat, ghost after: bytes)
    requires from < |text| && At(text, from) != 0 && s == text[from..]
    requires store.Consistent() && sofar == store.View()
    modifies store, store.items
    ensures store.Consistent()
    ensures store.items == old(store.items) || fresh(store.items)
    ensures !ok ==> ParseItems(s, sofar, nesting) == None
    ensures ok ==> from <= pos <= |text| && after == text[pos..]
    ensures ok ==> ParseItems(s, sofar, nesting)
                   == if Head(after) == COMMA then ParseItems(SkipSpaces(Tail1(after)), store.View(), nesting)
                      else Close(store.View(), after, RBRACKET)
    decreases |text| - from, 3
  {
    Suffix(text, from);
    after := [];
    var value;
    value, pos := ParseJsonValue(text, from, nesting);
    if value.None? {
      return false, pos, after;
    }
    ghost var parsed := Parsed(value.value, text[pos..]);
    ok := store.Add(value.value);
    if !ok {
      return false, pos, after;
    }
    pos := SkipWhitespaces(text, pos);
    after := text[pos..];
  }

  method ParseArrayValue(text: bytes, from: nat, nesting: nat) returns (r: Option<Json>, pos: nat)
    requires from < |text|
    ensures Agrees(text, ParseArray(text[from..], nesting), r, pos)
    ensures r.Some? ==> from < pos <= |text|
    decreases |text| - from, 1
  {
    var store := new JsonArray.Init();
    Suffix(text, from);
    pos := SkipWhitespaces(text, from + 1);
    Suffix(text, pos);
    if At(text, pos) == RBRACKET {
      return Some(EMPTY_ARRAY), pos + 1;
    }
    ghost var whole := ParseItems(text[pos..], EMPTY_ARRAY, nesting);
    ghost var s, sofar := text[pos..], EMPTY_ARRAY;
    while At(text, pos) != 0
      invariant from < pos <= |text| && s == text[pos..]
      invariant fresh(store) && store.Consistent() && sofar == store.View()
      invariant store.items == null || fresh(store.items)
      invariant whole == ParseItems(s, sofar, nesting)
      decreases |text| - pos
    {
      var ok;
      ok, pos, s := ParseItem(text, pos, store, nesting, s, sofar);
      sofar := store.View();
      if !ok {
        return None, pos;
      }
      Suffix(text, pos);
      if At(text, pos) != COMMA {
        break;
      }
      pos, s := NextElement(text, pos, s);
    }
    assert whole == Close(sofar, s, RBRACKET) by { Suffix(text, pos); }
    r, pos := FinishArray(text, pos, store);
  }

  method ParseJsonString(text: bytes) returns (r: Option<Json>, pos: nat)
    ensures Agrees(text, ParseString(text), r, pos)
  {
    assert text[0..] == text;
    pos := SkipWhitespaces(text, 0);
    if At(text, pos) != LBRACE && At(text, pos) != LBRACKET {
      return None, pos;
    }
    r, pos := ParseJsonValue(text, pos, 0);
  }
}
