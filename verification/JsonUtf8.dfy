/** Unescaping a string keeps well-formed UTF-8 well formed. */
module JsonUtf8 {
  import opened Bytes
  import opened Utf8
  import opened JsonParser
  import opened JsonReader

  lemma {:induction false} AsciiDropped(s: bytes, n: nat)
    requires n <= |s| && ValidUtf8(s) && forall i | 0 <= i < n :: s[i] < 0x80
    ensures ValidUtf8(s[n..])
  {
    if n == 0 {
      assert s[0..] == s;
    } else {
      AsciiDropped(s[1..], n - 1);
      assert s[1..][n - 1..] == s[n..];
    }
  }

  /** Every byte of an escape is ASCII. */
  lemma EscapeIsAscii(s: bytes, u: Escape)
    requires Head(s) == BACKSLASH && Unescape(s) == Some(u)
    ensures forall i | 0 <= i < u.taken :: s[i] < 0x80
  {
    if SimpleEscape(At(s, 1)).None? {
      var t := s[2..];
      assert HexDigit(t[0]).Some? && HexDigit(t[1]).Some? && HexDigit(t[2]).Some? && HexDigit(t[3]).Some?;
      assert s[2] == t[0] && s[3] == t[1] && s[4] == t[2] && s[5] == t[3];
      if u.taken == 12 {
        var w := t[6..];
        assert HexDigit(w[0]).Some? && HexDigit(w[1]).Some? && HexDigit(w[2]).Some? && HexDigit(w[3]).Some?;
        assert s[6] == t[4] && s[7] == t[5];
        assert s[8] == w[0] && s[9] == w[1] && s[10] == w[2] && s[11] == w[3];
      }
    }
  }

  lemma EscapeEmitsValid(s: bytes, u: Escape)
    requires Head(s) == BACKSLASH && Unescape(s) == Some(u)
    ensures ValidUtf8(u.emitted)
  {
    if SimpleEscape(At(s, 1)).Some? {
      assert u.emitted[1..] == [];
    } else {
      EscapeEmitsEncoding(s[2..]);
    }
  }

  lemma NothingCopied(s: bytes, k: nat)
    ensures Process(s, k) == Prepend(s[..0], Process(s[0..], k))
  {
    assert s[0..] == s && s[..0] == [];
    if Process(s, k).Some? {
      assert [] + Process(s, k).value == Process(s, k).value;
    }
  }

  /** The first `n` bytes are above ASCII. */
  predicate StartsHigh(s: bytes, n: nat) {
    n == 0 || (s != [] && s[0] >= 0x80 && StartsHigh(s[1..], n - 1))
  }

  lemma {:induction false} AllHigh(s: bytes, n: nat)
    requires n <= |s| && forall i | 0 <= i < n :: s[i] >= 0x80
    ensures StartsHigh(s, n)
  {
    if n > 0 {
      assert forall i | 0 <= i < n - 1 :: s[1..][i] == s[i + 1];
      AllHigh(s[1..], n - 1);
    }
  }

  /** Copying one byte and then some is copying them all. */
  lemma OneMoreCopied(s: bytes, n: nat, whole: Option<bytes>, next: Option<bytes>, last: Option<bytes>)
    requires 0 < n <= |s|
    requires whole == Prepend([s[0]], next) && next == Prepend(s[1..][..n - 1], last)
    ensures whole == Prepend(s[..n], last)
  {
    PrependPrepend([s[0]], s[1..][..n - 1], last);
    assert [s[0]] + s[1..][..n - 1] == s[..n];
  }

  /** Bytes above ASCII are copied one by one. */
  lemma {:induction false} HighBytesCopied(s: bytes, k: nat, n: nat, rest: bytes)
    requires n <= |s| && n <= k && QuoteAt(s) == Some(k) && StartsHigh(s, n) && rest == s[n..]
    ensures Process(s, k) == Prepend(s[..n], Process(rest, k - n))
    decreases n
  {
    if n == 0 {
      NothingCopied(s, k);
    } else {
      ByteCopied(s, k);
      var t := s[1..];
      assert t[n - 1..] == rest;
      HighBytesCopied(t, k - 1, n - 1, rest);
      OneMoreCopied(s, n, Process(s, k), Process(t, k - 1), Process(rest, k - n));
    }
  }

  lemma ByteCopied(s: bytes, k: nat)
    requires s != [] && QuoteAt(s) == Some(k) && s[0] >= 0x20 && s[0] != QUOTE && s[0] != BACKSLASH
    ensures k > 0 && QuoteAt(s[1..]) == Some(k - 1)
    ensures Process(s, k) == Prepend([s[0]], Process(s[1..], k - 1))
  {
    assert Unescape(s) == Some(Escape([s[0]], 1));
    assert s[0..] == s;
  }

  lemma MultibyteIsHigh(s: bytes)
    requires s != [] && VerifySequence(s) >= 1
    ensures VerifySequence(s) <= |s|
    ensures if s[0] < 0x80 then VerifySequence(s) == 1
            else forall i | 0 <= i < VerifySequence(s) :: s[i] >= 0x80
    ensures ValidUtf8(s[..VerifySequence(s)])
  {
    AcceptedIsEncoded(s);
  }

  /** The body of a string, cut at its head into a part that has been read and the body of the rest. */
  lemma BodyCut(s: bytes, k: nat, n: nat)
    requires n <= k <= |s|
    ensures s[..k][n..] == s[n..][..k - n] && s[..k][..n] == s[..n]
  {
  }

  /** A part of `n` bytes is read at the head of a string body and `emitted` is put out for it. */
  predicate ReadsPart(s: bytes, k: nat, n: nat, emitted: bytes) {
    && 0 < n <= k <= |s| && |emitted| <= n && ValidUtf8(emitted)
    && QuoteAt(s[n..]) == Some(k - n) && ValidUtf8(s[n..][..k - n])
    && Process(s, k) == Prepend(emitted, Process(s[n..], k - n))
  }

  /** One ASCII character. */
  lemma ReadsAscii(s: bytes, k: nat)
    requires 0 < k <= |s| && QuoteAt(s) == Some(k) && Process(s, k).Some?
    requires s[0] != BACKSLASH && s[0] < 0x80 && ValidUtf8(s[..k])
    ensures ReadsPart(s, k, 1, s[..1])
  {
    assert s[..k][0] == s[0] && s[..1] == [s[0]];
    ByteCopied(s, k);
    BodyCut(s, k, 1);
    MultibyteIsHigh(s[..k]);
  }

  /** One character of several bytes. */
  lemma ReadsMultibyte(s: bytes, k: nat)
    requires 0 < k <= |s| && QuoteAt(s) == Some(k) && s[0] >= 0x80 && ValidUtf8(s[..k])
    ensures var n := VerifySequence(s[..k]); n <= k && ReadsPart(s, k, n, s[..n])
  {
    var body := s[..k];
    var n := VerifySequence(body);
    MultibyteIsHigh(body);
    BodyCut(s, k, n);
    assert forall i | 0 <= i < n :: s[i] == body[i];
    PlainBytes(s, n, k);
    AllHigh(s, n);
    HighBytesCopied(s, k, n, s[n..]);
  }

  lemma ReadsEscape(s: bytes, k: nat)
    requires 0 < k <= |s| && s[0] == BACKSLASH
    requires QuoteAt(s) == Some(k) && ValidUtf8(s[..k]) && Process(s, k).Some?
    ensures ReadsPart(s, k, Unescape(s).value.taken, Unescape(s).value.emitted)
  {
    var u := Unescape(s).value;
    UnescapeStaysInside(s, k, u);
    EscapeIsAscii(s, u);
    BodyCut(s, k, u.taken);
    AsciiDropped(s[..k], u.taken);
    EscapeEmitsValid(s, u);
  }

  lemma ReadPart(s: bytes, k: nat) returns (n: nat, emitted: bytes, rest: bytes, left: nat)
    requires 0 < k && QuoteAt(s) == Some(k) && ValidUtf8(s[..k]) && Process(s, k).Some?
    ensures n + left == k && 0 < n && |emitted| <= n && ValidUtf8(emitted)
    ensures QuoteAt(rest) == Some(left) && ValidUtf8(rest[..left])
    ensures Process(s, k) == Prepend(emitted, Process(rest, left))
  {
    if s[0] == BACKSLASH {
      ReadsEscape(s, k);
      n, emitted := Unescape(s).value.taken, Unescape(s).value.emitted;
    } else if s[0] < 0x80 {
      ReadsAscii(s, k);
      n, emitted := 1, s[..1];
    } else {
      ReadsMultibyte(s, k);
      n := VerifySequence(s[..k]);
      emitted := s[..n];
    }
    rest, left := s[n..], k - n;
  }

  /** A successful result is well-formed and no longer than what it was made from. */
  predicate Kept(r: Option<bytes>, k: int) {
    r.Some? ==> ValidUtf8(r.value) && |r.value| <= k
  }

  lemma PartKept(whole: Option<bytes>, part: Option<bytes>, emitted: bytes, n: nat, k: nat)
    requires whole == Prepend(emitted, part) && ValidUtf8(emitted) && |emitted| <= n && Kept(part, k - n)
    ensures Kept(whole, k)
  {
    if part.Some? {
      ValidConcat(emitted, part.value);
    }
  }

  /** Well-formed in, well-formed out, and never longer. */
  lemma {:induction false} ProcessKeepsUtf8(s: bytes, k: nat)
    requires QuoteAt(s) == Some(k) && ValidUtf8(s[..k])
    ensures Kept(Process(s, k), k)
    decreases k
  {
    if k > 0 && Process(s, k).Some? {
      var n, emitted, rest, left := ReadPart(s, k);
      ProcessKeepsUtf8(rest, left);
      PartKept(Process(s, k), Process(rest, left), emitted, n, k);
    }
  }

  lemma {:induction false} UpToNulConcat(a: bytes, b: bytes)
    requires NulFree(a)
    ensures UpToNul(a + b) == a + UpToNul(b)
  {
    if a == [] {
      assert a + b == b;
    } else {
      assert (a + b)[1..] == a[1..] + b;
      UpToNulConcat(a[1..], b);
    }
  }

  /** The first character of a well-formed text is well-formed and holds no NUL unless it is one. */
  lemma FirstCharacter(s: bytes, n: nat)
    requires s != [] && s[0] != 0 && ValidUtf8(s) && n == VerifySequence(s)
    ensures 0 < n <= |s| && NulFree(s[..n]) && ValidUtf8(s[..n]) && ValidUtf8(s[n..])
  {
    MultibyteIsHigh(s);
  }

  lemma KeptBehind(first: bytes, rest: bytes)
    requires NulFree(first) && ValidUtf8(first) && ValidUtf8(UpToNul(rest))
    ensures ValidUtf8(UpToNul(first + rest))
  {
    UpToNulConcat(first, rest);
    ValidConcat(first, UpToNul(rest));
  }

  lemma {:induction false} UpToNulKeepsUtf8(s: bytes)
    requires ValidUtf8(s)
    ensures ValidUtf8(UpToNul(s))
  {
    if s != [] && s[0] != 0 {
      var n := VerifySequence(s);
      FirstCharacter(s, n);
      UpToNulKeepsUtf8(s[n..]);
      KeptBehind(s[..n], s[n..]);
      assert s == s[..n] + s[n..];
    }
  }

  /** A string literal of well-formed text, as the C string its reader sees, is well-formed UTF-8. */
  lemma QuotedStringKeepsUtf8(s: bytes)
    requires Head(s) != 0 && QuotedString(s).Some?
    requires ValidUtf8(s[1..][..QuoteAt(s[1..]).value])
    ensures ValidUtf8(QuotedString(s).value.value)
  {
    ProcessKeepsUtf8(s[1..], QuoteAt(s[1..]).value);
    UpToNulKeepsUtf8(Process(s[1..], QuoteAt(s[1..]).value).value);
  }
}
