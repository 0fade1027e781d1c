/** Blanking comments in place, as the comment-tolerant parser does before it parses. */
module JsonComments {
  import opened Bytes
  import opened JsonValue
  import opened JsonText
  import opened JsonParser
  import opened JsonReader

  /** Offset of the first occurrence of `token`. */
  function Find(s: bytes, token: bytes): (p: Option<nat>)
    ensures p.Some? ==> p.value + |token| <= |s|
  {
    if token <= s then Some(0)
    else if s == [] then None
    else
      var p := Find(s[1..], token);
      if p.Some? then Some(1 + p.value) else None
  }

  /** The token is found where it stands first, and missed only when it stands nowhere. */
  lemma {:induction false} FindIsFirst(s: bytes, token: bytes, q: nat)
    requires q <= |s|
    ensures Find(s, token) == Some(q) ==> token <= s[q..]
    ensures token <= s[q..] ==> Find(s, token).Some? && Find(s, token).value <= q
  {
    if q == 0 {
      assert s[0..] == s;
    } else {
      FindIsFirst(s[1..], token, q - 1);
      assert s[1..][q - 1..] == s[q..];
    }
  }

  function Spaces(n: nat): (s: bytes)
    ensures |s| == n
    ensures forall i | 0 <= i < n :: s[i] == SPACE
  {
    seq(n, _ => SPACE)
  }

  /** The text after blanking; the two flags are the state of the scanner at its head. */
  function Blank(s: bytes, inString: bool, escaped: bool, start: bytes, end: bytes): (r: bytes)
    requires start != [] && end != []
    ensures |r| == |s|
    decreases |s|
  {
    if Head(s) == 0 then s
    else if s[0] == BACKSLASH && !escaped then [s[0]] + Blank(s[1..], inString, true, start, end)
    else if s[0] == QUOTE && !escaped then [s[0]] + Blank(s[1..], !inString, false, start, end)
    else if !inString && start <= s then
      var body := s[|start|..];
      var found := Find(body, end);
      var length := CommentLength(found, |start|, |end|);
      if found.None? then Spaces(length) + s[length..]
      else Spaces(length) + Blank(s[length..], inString, false, start, end)
    else [s[0]] + Blank(s[1..], inString, false, start, end)
  }

  /** Blanking replaces bytes by spaces and does nothing else. */
  lemma {:induction false} BlankOnlyBlanks(s: bytes, inString: bool, escaped: bool, start: bytes, end: bytes, i: nat)
    requires start != [] && end != [] && i < |s|
    ensures var r := Blank(s, inString, escaped, start, end); r[i] == s[i] || r[i] == SPACE
    decreases |s|
  {
    if Head(s) == 0 {
    } else if (s[0] == BACKSLASH || s[0] == QUOTE) && !escaped {
      if i > 0 {
        BlankOnlyBlanks(s[1..], if s[0] == QUOTE then !inString else inString, s[0] == BACKSLASH, start, end, i - 1);
      }
    } else if !inString && start <= s {
      var p := Find(s[|start|..], end);
      if p.Some? {
        var length := CommentLength(p, |start|, |end|);
        if i >= length {
          BlankOnlyBlanks(s[length..], false, false, start, end, i - length);
        }
      }
    } else if i > 0 {
      BlankOnlyBlanks(s[1..], inString, false, start, end, i - 1);
    }
  }

  /** How much a comment takes up, from its opening token on, given where its end was found after it. */
  function CommentLength(found: Option<nat>, startLen: nat, endLen: nat): nat {
    if found.Some? then startLen + found.value + endLen else startLen
  }

  const SLASH_STAR: bytes := [47, 42]
  const STAR_SLASH: bytes := [42, 47]
  const SLASH_SLASH: bytes := [47, 47]
  const LINE_END: bytes := [10]

  function WithoutComments(text: bytes): bytes {
    Blank(Blank(text, false, false, SLASH_STAR, STAR_SLASH), false, false, SLASH_SLASH, LINE_END)
  }

  function ParseWithComments(text: bytes): Option<Parsed<Json>> {
    ParseString(WithoutComments(text))
  }

  // ---- in place ----

  /** `done` is settled, and scanning `rest` from the current state completes the result. */
  ghost predicate Scanning(whole: bytes, done: bytes, rest: bytes, inString: bool, escaped: bool, start: bytes, end: bytes)
    requires start != [] && end != []
  {
    NulFree(rest) && whole == done + Blank(rest, inString, escaped, start, end)
  }

  /** One byte that is no comment: it stays, and the state moves on. */
  lemma ScanByte(whole: bytes, done: bytes, rest: bytes, inString: bool, escaped: bool, start: bytes, end: bytes)
    returns (done': bytes, rest': bytes)
    requires start != [] && end != [] && rest != [] && Scanning(whole, done, rest, inString, escaped, start, end)
    requires (rest[0] == BACKSLASH && !escaped) || (rest[0] == QUOTE && !escaped) || inString || !(start <= rest)
    ensures done' == done + [rest[0]] && rest' == rest[1..] && done' + rest' == done + rest
    ensures Scanning(whole, done', rest',
                     if rest[0] == QUOTE && !escaped then !inString else inString,
                     rest[0] == BACKSLASH && !escaped, start, end)
  {
    done', rest' := done + [rest[0]], rest[1..];
    var c := rest[0];
    var next := Blank(rest', if c == QUOTE && !escaped then !inString else inString, c == BACKSLASH && !escaped, start, end);
    assert Blank(rest, inString, escaped, start, end) == [c] + next;
    Associative(done, [c], next);
  }

  /** A whole comment: it turns into spaces. */
  lemma ScanComment(whole: bytes, done: bytes, rest: bytes, escaped: bool, start: bytes, end: bytes)
    returns (done': bytes, rest': bytes)
    requires start != [] && end != [] && start <= rest && Scanning(whole, done, rest, false, escaped, start, end)
    requires !(rest[0] == BACKSLASH && !escaped) && !(rest[0] == QUOTE && !escaped)
    ensures var found := Find(rest[|start|..], end);
      var length := CommentLength(found, |start|, |end|);
      && length <= |rest| && done' == done + Spaces(length) && rest' == rest[length..]
      && (found.None? ==> whole == done' + rest')
      && (found.Some? ==> Scanning(whole, done', rest', false, false, start, end))
  {
    var p := Find(rest[|start|..], end);
    var length := CommentLength(p, |start|, |end|);
    done', rest' := done + Spaces(length), rest[length..];
    var next := if p.None? then rest' else Blank(rest', false, false, start, end);
    Associative(done, Spaces(length), next);
  }

  method FillSpaces(buf: array<byte>, from: nat, count: nat)
    requires from + count <= buf.Length
    modifies buf
    ensures buf[..] == Overlay(old(buf[..]), from, Spaces(count))
  {
    for i := 0 to count
      invariant buf[..] == Overlay(old(buf[..]), from, Spaces(i))
    {
      OverlayNext(old(buf[..]), from, Spaces(i), SPACE);
      assert Spaces(i) + [SPACE] == Spaces(i + 1);
      buf[from + i] := SPACE;
    }
  }

  /** Overwrites `count` bytes of the middle part. */
  method FillMiddle(buf: array<byte>, from: nat, count: nat, ghost done: bytes, ghost rest: bytes, ghost after: bytes)
    requires buf[..] == done + rest + after && from == |done| && count <= |rest|
    modifies buf
    ensures buf[..] == done + Spaces(count) + rest[count..] + after
  {
    FillSpaces(buf, from, count);
    assert Overlay(done + rest + after, from, Spaces(count)) == done + Spaces(count) + rest[count..] + after;
  }

  /** The two loops of the comment branch: the opening token at once, the rest when an end is found. */
  method BlankOut(buf: array<byte>, pos: nat, found: Option<nat>, startLen: nat, endLen: nat,
                  ghost done: bytes, ghost rest: bytes, ghost after: bytes)
    requires buf[..] == done + rest + after && pos == |done|
    requires CommentLength(found, startLen, endLen) <= |rest|
    modifies buf
    ensures var length := CommentLength(found, startLen, endLen);
      buf[..] == (done + Spaces(length)) + rest[length..] + after
  {
    FillMiddle(buf, pos, startLen, done, rest, after);
    if found.Some? {
      FillMiddle(buf, pos + startLen, found.value + endLen, done + Spaces(startLen), rest[startLen..], after);
      ghost var length := CommentLength(found, startLen, endLen);
      assert rest[startLen..][found.value + endLen..] == rest[length..];
      assert (done + Spaces(startLen)) + Spaces(found.value + endLen) == done + Spaces(length);
    }
  }

  /** Overwrites comments with spaces in the first `n` bytes of the buffer, which end at its first NUL. */
  method RemoveComments(buf: array<byte>, n: nat, start: bytes, end: bytes)
    requires n < buf.Length && buf[n] == 0 && NulFree(buf[..n])
    modifies buf
    ensures start == [] || end == [] ==> buf[..] == old(buf[..])
    ensures start != [] && end != [] ==>
            buf[..] == Blank(old(buf[..n]), false, false, start, end) + old(buf[n..])
  {
    if |start| == 0 || |end| == 0 {
      return;
    }
    var inString, escaped, pos: nat := false, false, 0;
    ghost var whole := Blank(buf[..n], false, false, start, end);
    ghost var done, rest, after := [], buf[..n], buf[n..];
    while buf[pos] != 0
      invariant pos <= n && buf[..] == done + rest + after && |done| == pos && |rest| == n - pos
      invariant |after| == buf.Length - n && after[0] == 0
      invariant Scanning(whole, done, rest, inString, escaped, start, end)
      decreases n - pos
    {
      if buf[pos] == BACKSLASH && !escaped {
        done, rest := ScanByte(whole, done, rest, inString, escaped, start, end);
        escaped := true;
        pos := pos + 1;
        continue;
      } else if buf[pos] == QUOTE && !escaped {
        done, rest := ScanByte(whole, done, rest, inString, escaped, start, end);
        inString := !inString;
      } else if !inString && start <= buf[pos..n] {
        var found := Find(buf[pos + |start|..n], end);
        assert buf[pos + |start|..n] == rest[|start|..];
        ghost var done0, rest0 := done, rest;
        done, rest := ScanComment(whole, done, rest, escaped, start, end);
        BlankOut(buf, pos, found, |start|, |end|, done0, rest0, after);
        if found.None? {
          return;
        }
        pos := pos + CommentLength(found, |start|, |end|) - 1;
      } else {
        done, rest := ScanByte(whole, done, rest, inString, escaped, start, end);
      }
      escaped := false;
      pos := pos + 1;
    }
  }

  lemma {:induction false} BlankKeepsNulFree(s: bytes, start: bytes, end: bytes)
    requires start != [] && end != [] && NulFree(s)
    ensures NulFree(Blank(s, false, false, start, end))
  {
    var r := Blank(s, false, false, start, end);
    forall i | 0 <= i < |r| ensures r[i] != 0 {
      BlankOnlyBlanks(s, false, false, start, end, i);
    }
  }

  /** Blanks both kinds of comment in a copy, then parses the copy. */
  method ParseStringWithComments(text: bytes) returns (r: Option<Json>, pos: nat)
    requires NulFree(text)
    ensures Agrees(WithoutComments(text), ParseWithComments(text), r, pos)
  {
    var n := |text|;
    var copy := new byte[n + 1](i => At(text, i));
    assert copy[..n] == text;
    RemoveComments(copy, n, SLASH_STAR, STAR_SLASH);
    ghost var once := Blank(text, false, false, SLASH_STAR, STAR_SLASH);
    BlankKeepsNulFree(text, SLASH_STAR, STAR_SLASH);
    assert copy[..n] == once && copy[n] == copy[n..][0] == 0;
    RemoveComments(copy, n, SLASH_SLASH, LINE_END);
    assert copy[..n] == WithoutComments(text);
    r, pos := ParseJsonString(copy[..n]);
  }
}
