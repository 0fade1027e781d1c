/** A string literal is read to exactly what its pieces stand for, and nothing but such literals is read. */
module JsonLiterals {
  import opened Bytes
  import opened JsonParser
  import opened JsonReader
  import opened JsonGrammar
  import opened Utf8

  // ---- one piece in front of any rest ----

  lemma Hex4Read(s: bytes, u: Unit, t: bytes)
    requires s == UnitText(u) + t
    ensures Hex4(s) == Some(UnitValue(u))
  {
    assert s[0] == HexByte(u.a) && s[1] == HexByte(u.b) && s[2] == HexByte(u.c) && s[3] == HexByte(u.d);
  }

  lemma PairRead(s: bytes, lead: Unit, trail: Unit, t: bytes)
    requires ValidPiece(Pair(lead, trail)) && s == UnitText(lead) + ([92, 117] + UnitText(trail) + t)
    ensures ParseUtf16(s) == Some(Escape(PieceMeaning(Pair(lead, trail)), 10))
  {
    Hex4Read(s, lead, [92, 117] + UnitText(trail) + t);
    Hex4Read(s[6..], trail, t);
    PairIsSupplementary(UnitValue(lead), UnitValue(trail));
    EmitIsEncode(PairCodePoint(UnitValue(lead), UnitValue(trail)));
  }

  lemma UnicodeRead(s: bytes, u: Unit, t: bytes)
    requires ValidPiece(Unicode(u)) && s == UnitText(u) + t
    ensures ParseUtf16(s) == Some(Escape(PieceMeaning(Unicode(u)), 4))
  {
    Hex4Read(s, u, t);
    EmitIsEncode(UnitValue(u));
  }

  /** A piece is unescaped to what it stands for, and exactly its own text is taken, whatever follows. */
  lemma PieceUnescaped(s: bytes, p: Piece, t: bytes)
    requires ValidPiece(p) && s == PieceText(p) + t
    ensures Head(s) != 0
    ensures Unescape(s) == if Raw(p) then None else Some(Escape(PieceMeaning(p), |PieceText(p)|))
    ensures s[|PieceText(p)|..] == t
  {
    assert s[0] == PieceText(p)[0];
    match p
    case Plain(_) =>
    case Short(_) => assert s[1] == PieceText(p)[1];
    case Unicode(u) =>
      assert s[1] == 117 && s[2..] == UnitText(u) + t;
      UnicodeRead(s[2..], u, t);
    case Pair(lead, trail) =>
      assert s[1] == 117 && s[2..] == UnitText(lead) + ([92, 117] + UnitText(trail) + t);
      PairRead(s[2..], lead, trail, t);
  }

  lemma {:induction false} QuotePastPlain(s: bytes, w: bytes, t: bytes, k: nat)
    requires s == w + t && QuoteAt(t) == Some(k) && forall i | 0 <= i < |w| :: w[i] !in {0, 34, 92}
    ensures QuoteAt(s) == Some(|w| + k)
  {
    if w == [] {
      assert s == t;
    } else {
      assert s[0] == w[0] && s[1..] == w[1..] + t;
      QuotePastPlain(s[1..], w[1..], t, k);
    }
  }

  /** A backslash and whatever it escapes are stepped over. */
  lemma QuotePastEscape(s: bytes, letter: byte, t: bytes, k: nat)
    requires s == [92, letter] + t && letter != 0 && QuoteAt(t) == Some(k)
    ensures QuoteAt(s) == Some(2 + k)
  {
    assert s[2..] == t;
  }

  lemma QuotePastUnit(s: bytes, u: Unit, t: bytes, k: nat)
    requires s == [92, 117] + UnitText(u) + t && QuoteAt(t) == Some(k)
    ensures QuoteAt(s) == Some(6 + k)
  {
    var rest := UnitText(u) + t;
    QuotePastPlain(rest, UnitText(u), t, k);
    QuotePastEscape(s, 117, rest, 4 + k);
  }

  lemma QuotePastPiece(s: bytes, p: Piece, t: bytes, k: nat)
    requires ValidPiece(p) && s == PieceText(p) + t && QuoteAt(t) == Some(k)
    ensures QuoteAt(s) == Some(|PieceText(p)| + k)
  {
    match p
    case Plain(_) => QuotePastPlain(s, PieceText(p), t, k);
    case Short(letter) => QuotePastEscape(s, letter, t, k);
    case Unicode(u) => QuotePastUnit(s, u, t, k);
    case Pair(lead, trail) => QuotePastPair(s, [92, 117] + UnitText(trail) + t, lead, trail, t, k);
  }

  lemma QuotePastPair(s: bytes, rest: bytes, lead: Unit, trail: Unit, t: bytes, k: nat)
    requires s == [92, 117] + UnitText(lead) + ([92, 117] + UnitText(trail)) + t
    requires rest == [92, 117] + UnitText(trail) + t && QuoteAt(t) == Some(k)
    ensures QuoteAt(s) == Some(12 + k)
  {
    QuotePastUnit(rest, trail, t, k);
    Associative([92, 117] + UnitText(lead), [92, 117] + UnitText(trail), t);
    QuotePastUnit(s, lead, rest, 6 + k);
  }

  // ---- whole bodies ----

  lemma {:induction false} QuotePastBody(s: bytes, ps: seq<Piece>, t: bytes)
    requires ValidBody(ps) && s == BodyText(ps) + ([34] + t)
    ensures QuoteAt(s) == Some(|BodyText(ps)|)
    decreases ps
  {
    if ps == [] {
      assert s == [34] + t;
    } else {
      var others := BodyText(ps[1..]);
      Associative(PieceText(ps[0]), others, [34] + t);
      QuotePastBody(others + ([34] + t), ps[1..], t);
      QuotePastPiece(s, ps[0], others + ([34] + t), |others|);
    }
  }

  lemma ProcessPiece(s: bytes, n: nat, p: Piece, t: bytes, k: nat)
    requires ValidPiece(p) && s == PieceText(p) + t && n == |PieceText(p)| + k
    ensures Process(s, n) == if Raw(p) then None else Prepend(PieceMeaning(p), Process(t, k))
  {
    PieceUnescaped(s, p, t);
  }

  lemma {:induction false} ProcessBody(s: bytes, n: nat, ps: seq<Piece>, t: bytes)
    requires ValidBody(ps) && s == BodyText(ps) + ([34] + t) && n == |BodyText(ps)|
    ensures Process(s, n) == if NoRaw(ps) then Some(BodyMeaning(ps)) else None
    decreases ps
  {
    if ps != [] {
      var rest, k := BodyText(ps[1..]) + ([34] + t), |BodyText(ps[1..])|;
      assert s == PieceText(ps[0]) + rest;
      ProcessBody(rest, k, ps[1..], t);
      ProcessPiece(s, n, ps[0], rest, k);
      assert NoRaw(ps) <==> !Raw(ps[0]) && NoRaw(ps[1..]);
    }
  }

  /**
   * For every body, whatever stands in place of the opening quote and whatever follows the closing one: the literal is
   * read to exactly the concatenation of what its pieces stand for, and the text behind it is left; a raw control byte
   * makes it unreadable.
   */
  lemma LiteralRead(s: bytes, opener: byte, ps: seq<Piece>, t: bytes)
    requires ValidBody(ps) && opener != 0 && Head(t) != 0 && s == [opener] + BodyText(ps) + [34] + t
    ensures QuotedString(s) == if NoRaw(ps) then Some(Parsed(Chars(ps), t)) else None
  {
    var body := BodyText(ps) + ([34] + t);
    assert s[1..] == body;
    QuotePastBody(body, ps, t);
    ProcessBody(body, |BodyText(ps)|, ps, t);
    assert s[|BodyText(ps)| + 2..] == t;
  }

  // ---- and back: what is read is such a literal ----

  function HexCharOf(b: byte): (h: HexChar)
    requires HexDigit(b).Some?
    ensures HexByte(h) == b
  {
    HexChar(HexDigit(b).value, b < 97)
  }

  lemma UnitAt(s: bytes) returns (u: Unit)
    requires Hex4(s).Some?
    ensures UnitText(u) == s[..4] && UnitValue(u) == Hex4(s).value
  {
    u := Unit(HexCharOf(s[0]), HexCharOf(s[1]), HexCharOf(s[2]), HexCharOf(s[3]));
  }

  /** What one pass of the unescaping loop takes is a piece. */
  lemma PieceAt(s: bytes) returns (p: Piece)
    requires Head(s) != 0 && s[0] != QUOTE && Unescape(s).Some?
    ensures ValidPiece(p) && !Raw(p) && PieceText(p) == s[..Unescape(s).value.taken]
  {
    if s[0] != BACKSLASH {
      p := Plain(s[0]);
    } else if SimpleEscape(At(s, 1)).Some? {
      p := Short(s[1]);
    } else {
      var lead := UnitAt(s[2..]);
      if ParseUtf16(s[2..]).value.taken == 4 {
        p := Unicode(lead);
        assert s[..6] == [92, 117] + s[2..][..4];
      } else {
        var trail := UnitAt(s[2..][6..]);
        p := Pair(lead, trail);
        assert s[2..][6..][..4] == s[8..12] && s[2..][4] == s[6] && s[2..][5] == s[7];
        assert s[..12] == [92, 117] + s[2..][..4] + ([92, 117] + s[8..12]);
      }
    }
  }

  lemma OneMorePiece(s: bytes, k: nat, n: nat, p: Piece, others: seq<Piece>) returns (ps: seq<Piece>)
    requires n <= k <= |s| && ValidPiece(p) && !Raw(p) && ValidBody(others) && NoRaw(others)
    requires PieceText(p) == s[..n] && BodyText(others) == s[n..][..k - n]
    ensures ValidBody(ps) && NoRaw(ps) && BodyText(ps) == s[..k]
  {
    ps := [p] + others;
    assert ps[1..] == others;
    assert s[..k] == s[..n] + s[n..][..k - n];
  }

  lemma FirstPieceTaken(s: bytes, k: nat) returns (n: nat)
    requires k > 0 && QuoteAt(s) == Some(k) && Process(s, k).Some?
    ensures s[0] != QUOTE && Unescape(s).Some? && n == Unescape(s).value.taken && 0 < n <= k
    ensures QuoteAt(s[n..]) == Some(k - n) && Process(s[n..], k - n).Some?
  {
    n := Unescape(s).value.taken;
    UnescapeStaysInside(s, k, Unescape(s).value);
  }

  /** A body that is unescaped is made of pieces. */
  lemma {:induction false} BodyAt(s: bytes, k: nat) returns (ps: seq<Piece>)
    requires QuoteAt(s) == Some(k) && Process(s, k).Some?
    ensures ValidBody(ps) && NoRaw(ps) && BodyText(ps) == s[..k]
    decreases k
  {
    if k == 0 {
      ps := [];
    } else {
      var n := FirstPieceTaken(s, k);
      var p := PieceAt(s);
      var others := BodyAt(s[n..], k - n);
      ps := OneMorePiece(s, k, n, p, others);
    }
  }

  lemma AroundTheQuotes(s: bytes, k: nat)
    requires k + 2 <= |s| && s[1..][k] == QUOTE
    ensures s == [s[0]] + s[1..][..k] + [34] + s[k + 2..]
  {
  }

  /** What is read as a string is a literal, but for its first byte. */
  lemma LiteralAt(s: bytes) returns (ps: seq<Piece>)
    requires Head(s) != 0 && QuotedString(s).Some?
    ensures ValidBody(ps) && NoRaw(ps) && s == [s[0]] + BodyText(ps) + [34] + QuotedString(s).value.rest
    ensures Head(QuotedString(s).value.rest) != 0
  {
    var k := QuoteAt(s[1..]).value;
    ps := BodyAt(s[1..], k);
    AroundTheQuotes(s, k);
  }
}
