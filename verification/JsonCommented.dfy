/** Comments of either kind between any two tokens are invisible to the comment-tolerant parser. */
module JsonCommented {
  import opened Bytes
  import opened JsonValue
  import opened JsonText
  import opened JsonParser
  import opened JsonGrammar
  import opened JsonSpelling
  import opened JsonRoundTrip
  import opened JsonComments

  // ---- comments ----

  datatype Kind = Blocks | Lines

  function Start(kind: Kind): (s: bytes)
    ensures s != [] && s[0] == 47
  {
    if kind.Blocks? then [47, 42] else [47, 47]
  }

  function End(kind: Kind): (s: bytes)
    ensures s != []
  {
    if kind.Blocks? then [42, 47] else [10]
  }

  /** One of the two passes, from the neutral state. */
  function Pass(kind: Kind, s: bytes): bytes {
    Blank(s, false, false, Start(kind), End(kind))
  }

  /** Whether the scanner is inside a string after `c`, given whether it was, and whether a backslash came last. */
  predicate QuotedAfter(c: bytes, quoted: bool, escaped: bool) {
    if c == [] then quoted
    else if c[0] == 92 && !escaped then QuotedAfter(c[1..], quoted, true)
    else if c[0] == 34 && !escaped then QuotedAfter(c[1..], !quoted, false)
    else QuotedAfter(c[1..], quoted, false)
  }

  /** Nowhere an `a` right in front of a `b`. */
  predicate Without(s: bytes, a: byte, b: byte) {
    forall i | 0 <= i < |s| - 1 :: s[i] == a ==> s[i + 1] != b
  }

  lemma WithoutTail(s: bytes, a: byte, b: byte)
    requires s != [] && Without(s, a, b)
    ensures Without(s[1..], a, b)
  {
    var r := s[1..];
    forall i | 0 <= i < |r| - 1 ensures r[i] == a ==> r[i + 1] != b {
      assert r[i] == s[i + 1];
    }
  }

  /** A block comment may hold anything but its end and a NUL. */
  predicate BlockComment(c: bytes) {
    NulFree(c) && Without(c, 42, 47)
  }

  /** A line comment with neither its end, a NUL, nor the start of a block comment. */
  predicate LineComment(c: bytes) {
    (forall i | 0 <= i < |c| :: c[i] != 0 && c[i] != 10) && Without([47] + c, 47, 42)
  }

  /** Its double quotes come in pairs, but for those behind a backslash. */
  predicate QuotesPaired(c: bytes) {
    !QuotedAfter(c, false, false)
  }

  predicate ValidFiller(f: Filler) {
    match f
    case White(b) => b in {32, 9, 10, 11, 12, 13}
    case Block(c) => BlockComment(c)
    case Line(c) => LineComment(c) && QuotesPaired(c)
  }

  /** A gap as a pass finds it: the second one finds no block comments any more. */
  predicate ValidGap(kind: Kind, g: Gap) {
    forall i | 0 <= i < |g| :: ValidFiller(g[i]) && (kind.Lines? ==> !g[i].Block?)
  }

  /** Gaps with comments everywhere, and every name in double quotes. */
  predicate Commented(kind: Kind, sp: Spelling)
    decreases sp, 1
  {
    match sp
    case ArrayOf(inside, es) => ValidGap(kind, inside) && CommentedElements(kind, es)
    case ObjectOf(inside, es) => ValidGap(kind, inside) && CommentedEntries(kind, es)
    case _ => true
  }

  predicate CommentedElements(kind: Kind, es: seq<Element>)
    decreases es, 0
  {
    es == [] || (
      && ValidGap(kind, es[0].before) && Commented(kind, es[0].value) && ValidGap(kind, es[0].after)
      && CommentedElements(kind, es[1..]))
  }

  predicate CommentedEntries(kind: Kind, es: seq<Entry>)
    decreases es, 0
  {
    es == [] || (
      && es[0].opener == 34 && ValidGap(kind, es[0].before) && ValidGap(kind, es[0].afterName)
      && ValidGap(kind, es[0].beforeValue) && Commented(kind, es[0].value) && ValidGap(kind, es[0].after)
      && CommentedEntries(kind, es[1..]))
  }

  // ---- with the comments of one kind blanked ----

  function Whites(n: nat): (g: Gap)
    ensures PlainGap(g)
  {
    if n == 0 then [] else [White(32)] + Whites(n - 1)
  }

  function StripFiller(kind: Kind, f: Filler): Gap {
    match f
    case White(_) => [f]
    case Block(c) => if kind.Blocks? then Whites(|c| + 4) else [f]
    case Line(c) => if kind.Lines? then Whites(|c| + 3) else [f]
  }

  function StripGap(kind: Kind, g: Gap): Gap {
    if g == [] then [] else StripFiller(kind, g[0]) + StripGap(kind, g[1..])
  }

  function Strip(kind: Kind, sp: Spelling): (r: Spelling)
    ensures r.ArrayOf? <==> sp.ArrayOf?
    ensures r.ObjectOf? <==> sp.ObjectOf?
    decreases sp, 1
  {
    match sp
    case ArrayOf(inside, es) => ArrayOf(StripGap(kind, inside), StripElements(kind, es))
    case ObjectOf(inside, es) => ObjectOf(StripGap(kind, inside), StripEntries(kind, es))
    case _ => sp
  }

  function StripElements(kind: Kind, es: seq<Element>): (r: seq<Element>)
    ensures |r| == |es|
    decreases es, 0
  {
    if es == [] then []
    else
      [Element(StripGap(kind, es[0].before), Strip(kind, es[0].value), StripGap(kind, es[0].after))]
      + StripElements(kind, es[1..])
  }

  function StripEntry(kind: Kind, e: Entry): Entry
    decreases e, 1
  {
    Entry(StripGap(kind, e.before), e.opener, e.name, StripGap(kind, e.afterName), StripGap(kind, e.beforeValue),
          Strip(kind, e.value), StripGap(kind, e.after))
  }

  function StripEntries(kind: Kind, es: seq<Entry>): (r: seq<Entry>)
    ensures |r| == |es|
    ensures es != [] ==> r[0].opener == es[0].opener
    decreases es, 0
  {
    if es == [] then [] else [StripEntry(kind, es[0])] + StripEntries(kind, es[1..])
  }

  /** Stripping changes neither what is spelled nor what it stands for. */
  lemma {:induction false} StripMeans(kind: Kind, sp: Spelling)
    requires WellSpelled(sp)
    ensures var r := Strip(kind, sp);
      WellSpelled(r) && Value(r) == Value(sp) && (Legible(r) <==> Legible(sp))
    decreases sp, 1
  {
    match sp
    case ArrayOf(_, es) => StripElementsMeans(kind, es);
    case ObjectOf(_, es) => StripEntriesMeans(kind, es);
    case _ =>
  }

  lemma {:induction false} StripElementsMeans(kind: Kind, es: seq<Element>)
    requires WellSpelledElements(es)
    ensures var r := StripElements(kind, es);
      && WellSpelledElements(r) && ElementValues(r) == ElementValues(es)
      && (LegibleElements(r) <==> LegibleElements(es))
    decreases es, 0
  {
    if es != [] {
      assert StripElements(kind, es)[1..] == StripElements(kind, es[1..]);
      StripMeans(kind, es[0].value);
      StripElementsMeans(kind, es[1..]);
    }
  }

  lemma {:induction false} StripEntriesMeans(kind: Kind, es: seq<Entry>)
    requires WellSpelledEntries(es)
    ensures var r := StripEntries(kind, es);
      && WellSpelledEntries(r) && EntryMembers(r) == EntryMembers(es)
      && (LegibleEntries(r) <==> LegibleEntries(es))
    decreases es, 0
  {
    if es != [] {
      assert StripEntries(kind, es)[1..] == StripEntries(kind, es[1..]);
      StripMeans(kind, es[0].value);
      StripEntriesMeans(kind, es[1..]);
    }
  }

  // ---- after the passes ----

  lemma {:induction false} StripGapLeaves(kind: Kind, g: Gap)
    requires ValidGap(kind, g)
    ensures if kind.Blocks? then ValidGap(Lines, StripGap(kind, g)) else PlainGap(StripGap(kind, g))
  {
    if g != [] {
      assert forall i | 0 <= i < |g| - 1 :: g[1..][i] == g[i + 1];
      StripGapLeaves(kind, g[1..]);
    }
  }

  /** What one pass leaves is fit for the next, and after both no comment is left. */
  ghost predicate Left(kind: Kind, sp: Spelling) {
    if kind.Blocks? then Commented(Lines, sp) else PlainGaps(sp)
  }

  lemma {:induction false} StripLeaves(kind: Kind, sp: Spelling)
    requires Commented(kind, sp)
    ensures Left(kind, Strip(kind, sp))
    decreases sp, 1
  {
    match sp
    case ArrayOf(inside, es) =>
      StripGapLeaves(kind, inside);
      StripElementsLeaves(kind, es);
    case ObjectOf(inside, es) =>
      StripGapLeaves(kind, inside);
      StripEntriesLeaves(kind, es);
    case _ =>
  }

  lemma {:induction false} StripElementsLeaves(kind: Kind, es: seq<Element>)
    requires CommentedElements(kind, es)
    ensures var r := StripElements(kind, es); if kind.Blocks? then CommentedElements(Lines, r) else PlainElements(r)
    decreases es, 0
  {
    if es != [] {
      assert StripElements(kind, es)[1..] == StripElements(kind, es[1..]);
      StripGapLeaves(kind, es[0].before);
      StripGapLeaves(kind, es[0].after);
      StripLeaves(kind, es[0].value);
      StripElementsLeaves(kind, es[1..]);
    }
  }

  lemma {:induction false} StripEntriesLeaves(kind: Kind, es: seq<Entry>)
    requires CommentedEntries(kind, es)
    ensures var r := StripEntries(kind, es); if kind.Blocks? then CommentedEntries(Lines, r) else PlainEntries(r)
    decreases es, 0
  {
    if es != [] {
      assert StripEntries(kind, es)[1..] == StripEntries(kind, es[1..]);
      StripGapLeaves(kind, es[0].before);
      StripGapLeaves(kind, es[0].afterName);
      StripGapLeaves(kind, es[0].beforeValue);
      StripGapLeaves(kind, es[0].after);
      StripLeaves(kind, es[0].value);
      StripEntriesLeaves(kind, es[1..]);
    }
  }

  // ---- what a pass does ----

  /** From the neutral state to the neutral state a pass turns `a` into `b`, whatever follows. */
  predicate PassesTo(kind: Kind, a: bytes, b: bytes, t: bytes) {
    Pass(kind, a + t) == b + Pass(kind, t)
  }

  lemma PassesBoth(kind: Kind, a: bytes, a': bytes, b: bytes, b': bytes, t: bytes)
    requires PassesTo(kind, a, a', b + t) && PassesTo(kind, b, b', t)
    ensures PassesTo(kind, a + b, a' + b', t)
  {
    Associative(a, b, t);
    Associative(a', b', Pass(kind, t));
  }

  lemma NothingPasses(kind: Kind, t: bytes)
    ensures PassesTo(kind, [], [], t)
  {
    assert [] + t == t && [] + Pass(kind, t) == Pass(kind, t);
  }

  /** Neither quote, backslash, slash nor NUL: all that occurs outside literals and comments. */
  predicate Inert(w: bytes) {
    forall i | 0 <= i < |w| :: w[i] !in {0, 34, 47, 92}
  }

  lemma {:induction false} InertPasses(kind: Kind, w: bytes, t: bytes)
    requires Inert(w)
    ensures PassesTo(kind, w, w, t)
  {
    if w == [] {
      NothingPasses(kind, t);
    } else {
      InertPasses(kind, w[1..], t);
      OneInert(kind, w + t, w[0], w[1..] + t);
      Associative([w[0]], w[1..], Pass(kind, t));
      assert w == [w[0]] + w[1..];
    }
  }

  lemma OneInert(kind: Kind, s: bytes, b: byte, t: bytes)
    requires b !in {0, 34, 47, 92} && s == [b] + t
    ensures Pass(kind, s) == [b] + Pass(kind, t)
  {
    assert s[1..] == t;
  }

  // ---- literals ----

  function Inside(kind: Kind, s: bytes): bytes {
    Blank(s, true, false, Start(kind), End(kind))
  }

  lemma {:induction false} InertInside(kind: Kind, s: bytes, w: bytes, t: bytes)
    requires s == w + t && forall i | 0 <= i < |w| :: w[i] !in {0, 34, 92}
    ensures Inside(kind, s) == w + Inside(kind, t)
    decreases w
  {
    if w == [] {
      assert s == t;
    } else {
      assert s[0] == w[0] && s[1..] == w[1..] + t;
      InertInside(kind, s[1..], w[1..], t);
      Associative([w[0]], w[1..], Inside(kind, t));
      assert w == [w[0]] + w[1..];
    }
  }

  lemma EscapeInside(kind: Kind, s: bytes, letter: byte, t: bytes)
    requires s == [92, letter] + t && letter != 0
    ensures Inside(kind, s) == [92, letter] + Inside(kind, t)
  {
    var rest := [letter] + t;
    assert s[0] == 92 && s[1..] == rest && rest[1..] == t;
    assert Blank(rest, true, true, Start(kind), End(kind)) == [letter] + Inside(kind, t);
    assert [92] + ([letter] + Inside(kind, t)) == [92, letter] + Inside(kind, t);
  }

  lemma UnitInside(kind: Kind, s: bytes, u: Unit, t: bytes)
    requires s == [92, 117] + UnitText(u) + t
    ensures Inside(kind, s) == [92, 117] + UnitText(u) + Inside(kind, t)
  {
    var rest := UnitText(u) + t;
    EscapeInside(kind, s, 117, rest);
    InertInside(kind, rest, UnitText(u), t);
    Associative([92, 117], UnitText(u), Inside(kind, t));
  }

  lemma PieceInside(kind: Kind, s: bytes, p: Piece, t: bytes)
    requires ValidPiece(p) && s == PieceText(p) + t
    ensures Inside(kind, s) == PieceText(p) + Inside(kind, t)
  {
    match p
    case Plain(_) => InertInside(kind, s, PieceText(p), t);
    case Short(letter) => EscapeInside(kind, s, letter, t);
    case Unicode(u) => UnitInside(kind, s, u, t);
    case Pair(lead, trail) =>
      var a, b := [92, 117] + UnitText(lead), [92, 117] + UnitText(trail);
      Associative(a, b, t);
      UnitInside(kind, s, lead, b + t);
      UnitInside(kind, b + t, trail, t);
      Associative(a, b, Inside(kind, t));
  }

  lemma {:induction false} BodyInside(kind: Kind, s: bytes, ps: seq<Piece>, t: bytes)
    requires ValidBody(ps) && s == BodyText(ps) + t
    ensures Inside(kind, s) == BodyText(ps) + Inside(kind, t)
    decreases ps
  {
    if ps == [] {
      assert s == t;
    } else {
      var rest := BodyText(ps[1..]) + t;
      Associative(PieceText(ps[0]), BodyText(ps[1..]), t);
      BodyInside(kind, rest, ps[1..], t);
      PieceInside(kind, s, ps[0], rest);
      Associative(PieceText(ps[0]), BodyText(ps[1..]), Inside(kind, t));
    }
  }

  lemma QuoteSwitches(kind: Kind, s: bytes, t: bytes)
    requires s == [34] + t
    ensures Pass(kind, s) == [34] + Inside(kind, t) && Inside(kind, s) == [34] + Pass(kind, t)
  {
    assert s[1..] == t;
  }

  lemma LiteralPasses(kind: Kind, ps: seq<Piece>, t: bytes)
    requires ValidBody(ps)
    ensures PassesTo(kind, [34] + BodyText(ps) + [34], [34] + BodyText(ps) + [34], t)
  {
    var body := BodyText(ps);
    QuoteSwitches(kind, [34] + t, t);
    BodyInside(kind, body + ([34] + t), ps, [34] + t);
    QuoteSwitches(kind, [34] + (body + ([34] + t)), body + ([34] + t));
    AroundBody(body, t);
    AroundBody(body, Pass(kind, t));
  }

  lemma AroundBody(body: bytes, t: bytes)
    ensures [34] + body + [34] + t == [34] + (body + ([34] + t))
  {
  }

  // ---- comments ----

  lemma {:induction false} WhitesText(n: nat)
    ensures GapText(Whites(n)) == Spaces(n)
  {
    if n > 0 {
      assert Whites(n)[1..] == Whites(n - 1);
      WhitesText(n - 1);
      assert [32] + Spaces(n - 1) == Spaces(n);
    }
  }

  lemma {:induction false} EndOfBlock(s: bytes, c: bytes, t: bytes)
    requires s == c + ([42, 47] + t) && Without(c, 42, 47)
    ensures Find(s, [42, 47]) == Some(|c|)
    decreases c
  {
    if c == [] {
      assert s == [42, 47] + t;
    } else {
      assert s[0] == c[0] && s[1..] == c[1..] + ([42, 47] + t);
      WithoutTail(c, 42, 47);
      EndOfBlock(s[1..], c[1..], t);
      NotTheEnd(s, c);
    }
  }

  lemma NotTheEnd(s: bytes, c: bytes)
    requires c != [] && c <= s && |s| >= |c| + 2 && s[|c|] == 42 && Without(c, 42, 47)
    ensures !([42, 47] <= s)
  {
    assert c[0] == s[0] && (|c| > 1 ==> c[1] == s[1]);
    assert s[0] == 42 ==> s[1] != 47;
  }

  lemma {:induction false} EndOfLine(s: bytes, c: bytes, t: bytes)
    requires s == c + ([10] + t) && forall i | 0 <= i < |c| :: c[i] != 10
    ensures Find(s, [10]) == Some(|c|)
    decreases c
  {
    if c == [] {
      assert s == [10] + t;
    } else {
      assert s[0] == c[0] && s[1..] == c[1..] + ([10] + t);
      EndOfLine(s[1..], c[1..], t);
    }
  }

  /** A comment of the kind of the pass turns into as many blanks. */
  lemma CommentPasses(kind: Kind, c: bytes, t: bytes)
    requires if kind.Blocks? then BlockComment(c) else LineComment(c)
    ensures PassesTo(kind, Start(kind) + c + End(kind), Spaces(|Start(kind) + c + End(kind)|), t)
  {
    var s := Start(kind) + c + End(kind) + t;
    var body := c + (End(kind) + t);
    assert s == Start(kind) + body && s[2..] == body;
    if kind.Blocks? {
      EndOfBlock(body, c, t);
    } else {
      EndOfLine(body, c, t);
    }
    var length := CommentLength(Some(|c|), 2, |End(kind)|);
    assert s[length..] == t;
    CommentIsBlanked(s, kind, |c|, length);
  }

  lemma CommentIsBlanked(s: bytes, kind: Kind, k: nat, length: nat)
    requires Start(kind) <= s && Find(s[2..], End(kind)) == Some(k)
    requires length == CommentLength(Some(k), 2, |End(kind)|) <= |s|
    ensures Pass(kind, s) == Spaces(length) + Pass(kind, s[length..])
  {
    assert s[0] == Start(kind)[0];
  }

  lemma InsideEnds(s: bytes, quoted: bool, escaped: bool, t: bytes)
    requires s == [10] + t
    ensures Blank(s, quoted, escaped, [47, 42], [42, 47]) == [10] + Blank(t, quoted, false, [47, 42], [42, 47])
  {
    assert s[1..] == t;
  }

  /** The pass for block comments goes over the inside of a line comment; only its quotes matter. */
  lemma {:induction false} InsideLine(s: bytes, c: bytes, quoted: bool, escaped: bool, t: bytes, behind: bool)
    requires s == c + ([10] + t) && (forall i | 0 <= i < |c| :: c[i] != 0 && c[i] != 10) && Without(c, 47, 42)
    requires behind == QuotedAfter(c, quoted, escaped)
    ensures Blank(s, quoted, escaped, [47, 42], [42, 47]) == c + ([10] + Blank(t, behind, false, [47, 42], [42, 47]))
    decreases c
  {
    if c == [] {
      assert s == [10] + t;
      InsideEnds(s, quoted, escaped, t);
    } else {
      var escapes, quotes := c[0] == 92 && !escaped, if c[0] == 34 && !escaped then !quoted else quoted;
      var rest := c[1..] + ([10] + t);
      WithoutTail(c, 47, 42);
      NoBlockStarts(s, c, t);
      InsideLine(rest, c[1..], quotes, escapes, t, behind);
      OneMoreInside(s, c, quoted, escaped, rest, [10] + Blank(t, behind, false, [47, 42], [42, 47]));
    }
  }

  /** The inside of the comment is a byte longer. */
  lemma OneMoreInside(s: bytes, c: bytes, quoted: bool, escaped: bool, rest: bytes, after: bytes)
    requires c != [] && c[0] != 0 && s == [c[0]] + rest && !([47, 42] <= s)
    requires Blank(rest, if c[0] == 34 && !escaped then !quoted else quoted, c[0] == 92 && !escaped, [47, 42], [42, 47])
          == c[1..] + after
    ensures Blank(s, quoted, escaped, [47, 42], [42, 47]) == c + after
  {
    OneByteInside(s, quoted, escaped, c[0], rest);
    assert [c[0]] + (c[1..] + after) == c + after;
  }

  /** A byte that starts no comment stays, and the state moves on. */
  lemma OneByteInside(s: bytes, quoted: bool, escaped: bool, b: byte, rest: bytes)
    requires s == [b] + rest && b != 0 && !([47, 42] <= s)
    ensures Blank(s, quoted, escaped, [47, 42], [42, 47])
         == [b] + Blank(rest, if b == 34 && !escaped then !quoted else quoted, b == 92 && !escaped, [47, 42], [42, 47])
  {
    assert s[0] == b && s[1..] == rest;
  }

  lemma NoBlockStarts(s: bytes, c: bytes, t: bytes)
    requires c != [] && s == c + ([10] + t) && Without(c, 47, 42)
    ensures !([47, 42] <= s)
  {
    assert c[0] == s[0] && (|c| > 1 ==> c[1] == s[1]) && (|c| == 1 ==> s[1] == 10);
    assert s[0] == 47 ==> s[1] != 42;
  }

  /** A whole line comment under the pass for block comments. */
  lemma LineUnderBlocks(c: bytes, t: bytes)
    requires LineComment(c)
    ensures Pass(Blocks, [47, 47] + c + [10] + t)
         == [47, 47] + c + [10] + Blank(t, QuotedAfter(c, false, false), false, [47, 42], [42, 47])
  {
    var line := [47] + c;
    var rest := line + ([10] + t);
    InsideLine(rest, line, false, false, t, QuotedAfter(line, false, false));
    assert line[1..] == c;
    FirstSlash([47] + rest, rest);
    SlashesApart(c, t);
    SlashesApart(c, Blank(t, QuotedAfter(c, false, false), false, [47, 42], [42, 47]));
  }

  lemma FirstSlash(s: bytes, rest: bytes)
    requires s == [47] + rest && rest != [] && rest[0] == 47
    ensures Pass(Blocks, s) == [47] + Pass(Blocks, rest)
  {
    assert s[1..] == rest && s[1] == 47;
  }

  lemma SlashesApart(c: bytes, t: bytes)
    ensures [47, 47] + c + [10] + t == [47] + ([47] + c + ([10] + t))
  {
  }

  lemma OneFillerText(f: Filler)
    ensures GapText([f]) == FillerText(f)
  {
    assert [f][1..] == [] && FillerText(f) + [] == FillerText(f);
  }

  lemma FillerPasses(kind: Kind, f: Filler, t: bytes)
    requires ValidFiller(f) && (kind.Lines? ==> !f.Block?)
    ensures PassesTo(kind, FillerText(f), GapText(StripFiller(kind, f)), t)
  {
    match f
    case White(b) =>
      InertPasses(kind, [b], t);
      OneFillerText(f);
    case Block(c) =>
      CommentPasses(kind, c, t);
      WhitesText(|c| + 4);
    case Line(c) =>
      if kind.Lines? {
        CommentPasses(kind, c, t);
        WhitesText(|c| + 3);
      } else {
        LineUnderBlocks(c, t);
        OneFillerText(f);
      }
  }

  lemma {:induction false} GapTextJoined(g: Gap, h: Gap)
    ensures GapText(g + h) == GapText(g) + GapText(h)
  {
    if g == [] {
      assert g + h == h && [] + GapText(h) == GapText(h);
    } else {
      assert (g + h)[1..] == g[1..] + h;
      GapTextJoined(g[1..], h);
      Associative(FillerText(g[0]), GapText(g[1..]), GapText(h));
    }
  }

  lemma {:induction false} GapPasses(kind: Kind, g: Gap, t: bytes)
    requires ValidGap(kind, g)
    ensures PassesTo(kind, GapText(g), GapText(StripGap(kind, g)), t)
  {
    if g == [] {
      NothingPasses(kind, t);
    } else {
      assert forall i | 0 <= i < |g| - 1 :: g[1..][i] == g[i + 1];
      GapPasses(kind, g[1..], t);
      FillerPasses(kind, g[0], GapText(g[1..]) + t);
      PassesBoth(kind, FillerText(g[0]), GapText(StripFiller(kind, g[0])), GapText(g[1..]),
                 GapText(StripGap(kind, g[1..])), t);
      GapTextJoined(StripFiller(kind, g[0]), StripGap(kind, g[1..]));
    }
  }

  // ---- values ----

  /** Text that a pass turns into other text, whatever follows. */
  ghost predicate Turns(kind: Kind, a: bytes, b: bytes) {
    forall t :: PassesTo(kind, a, b, t)
  }

  lemma TurnsBoth(kind: Kind, a: bytes, a': bytes, b: bytes, b': bytes)
    requires Turns(kind, a, a') && Turns(kind, b, b')
    ensures Turns(kind, a + b, a' + b')
  {
    forall t ensures PassesTo(kind, a + b, a' + b', t) {
      PassesBoth(kind, a, a', b, b', t);
    }
  }

  lemma GapTurns(kind: Kind, g: Gap)
    requires ValidGap(kind, g)
    ensures Turns(kind, GapText(g), GapText(StripGap(kind, g)))
  {
    forall t ensures PassesTo(kind, GapText(g), GapText(StripGap(kind, g)), t) {
      GapPasses(kind, g, t);
    }
  }

  lemma InertTurns(kind: Kind, w: bytes)
    requires Inert(w)
    ensures Turns(kind, w, w)
  {
    forall t ensures PassesTo(kind, w, w, t) {
      InertPasses(kind, w, t);
    }
  }

  lemma LiteralTurns(kind: Kind, ps: seq<Piece>)
    requires ValidBody(ps)
    ensures Turns(kind, [34] + BodyText(ps) + [34], [34] + BodyText(ps) + [34])
  {
    forall t ensures PassesTo(kind, [34] + BodyText(ps) + [34], [34] + BodyText(ps) + [34], t) {
      LiteralPasses(kind, ps, t);
    }
  }

  lemma BracketsTurn(kind: Kind, open: byte, a: bytes, b: bytes, close: byte)
    requires Turns(kind, a, b) && open in {91, 123} && close in {93, 125}
    ensures Turns(kind, [open] + a + [close], [open] + b + [close])
  {
    InertTurns(kind, [open]);
    InertTurns(kind, [close]);
    TurnsBoth(kind, [open], [open], a, b);
    TurnsBoth(kind, [open] + a, [open] + b, [close], [close]);
  }

  lemma NumeralIsInert(sp: Spelling)
    requires sp.Numeral? && WellSpelled(sp)
    ensures Inert(Text(sp))
  {
    var sign: bytes := if sp.negative then [45] else [];
    assert Inert(sign) && Inert(DigitsText(sp.digits)) && Inert(FractionText(sp.zeros));
  }

  /** A pass turns a spelling into the same spelling with blanks for the comments of its kind. */
  lemma {:induction false} SpellingTurns(kind: Kind, sp: Spelling)
    requires WellSpelled(sp) && Commented(kind, sp)
    ensures WellSpelled(Strip(kind, sp)) && Turns(kind, Text(sp), Text(Strip(kind, sp)))
    decreases sp, 1
  {
    StripMeans(kind, sp);
    match sp
    case Literal(body) => LiteralTurns(kind, body);
    case Numeral(_, _, _) =>
      NumeralIsInert(sp);
      InertTurns(kind, Text(sp));
    case ArrayOf(inside, es) => ArrayTurns(kind, sp);
    case ObjectOf(inside, es) => ObjectTurns(kind, sp);
    case _ => InertTurns(kind, Text(sp));
  }

  lemma {:induction false} ArrayTurns(kind: Kind, sp: Spelling)
    requires sp.ArrayOf? && WellSpelled(sp) && Commented(kind, sp)
    ensures WellSpelled(Strip(kind, sp)) && Turns(kind, Text(sp), Text(Strip(kind, sp)))
    decreases sp, 0
  {
    StripMeans(kind, sp);
    var es := sp.elements;
    if es == [] {
      GapTurns(kind, sp.inside);
      BracketsTurn(kind, 91, GapText(sp.inside), GapText(StripGap(kind, sp.inside)), 93);
    } else {
      ElementsTurn(kind, es);
      BracketsTurn(kind, 91, ElementsText(es), ElementsText(StripElements(kind, es)), 93);
    }
  }

  lemma {:induction false} ObjectTurns(kind: Kind, sp: Spelling)
    requires sp.ObjectOf? && WellSpelled(sp) && Commented(kind, sp)
    ensures WellSpelled(Strip(kind, sp)) && Turns(kind, Text(sp), Text(Strip(kind, sp)))
    decreases sp, 0
  {
    StripMeans(kind, sp);
    var es := sp.entries;
    if es == [] {
      GapTurns(kind, sp.inside);
      BracketsTurn(kind, 123, GapText(sp.inside), GapText(StripGap(kind, sp.inside)), 125);
    } else {
      EntriesTurn(kind, es);
      BracketsTurn(kind, 123, EntriesText(es), EntriesText(StripEntries(kind, es)), 125);
    }
  }

  lemma TailTurns(kind: Kind, more: bool, a: bytes, b: bytes)
    requires more ==> Turns(kind, a, b)
    ensures Turns(kind, if more then [44] + a else [], if more then [44] + b else [])
  {
    InertTurns(kind, [44]);
    InertTurns(kind, []);
    if more {
      TurnsBoth(kind, [44], [44], a, b);
    }
  }

  lemma {:induction false} ElementsTurn(kind: Kind, es: seq<Element>)
    requires es != [] && WellSpelledElements(es) && CommentedElements(kind, es)
    ensures WellSpelledElements(StripElements(kind, es))
    ensures Turns(kind, ElementsText(es), ElementsText(StripElements(kind, es)))
    decreases es, 0
  {
    var e, r := es[0], StripElements(kind, es);
    StripElementsMeans(kind, es);
    assert r[1..] == StripElements(kind, es[1..]);
    SpellingTurns(kind, e.value);
    if |es| > 1 {
      ElementsTurn(kind, es[1..]);
    }
    TailTurns(kind, |es| > 1, ElementsText(es[1..]), ElementsText(r[1..]));
    FourTurn(kind, e.before, Text(e.value), Text(r[0].value), e.after,
             if |es| > 1 then [44] + ElementsText(es[1..]) else [], if |es| > 1 then [44] + ElementsText(r[1..]) else []);
  }

  lemma FourTurn(kind: Kind, before: Gap, a: bytes, b: bytes, after: Gap, tail: bytes, tail': bytes)
    requires ValidGap(kind, before) && ValidGap(kind, after) && Turns(kind, a, b) && Turns(kind, tail, tail')
    ensures Turns(kind, GapText(before) + a + GapText(after) + tail,
                  GapText(StripGap(kind, before)) + b + GapText(StripGap(kind, after)) + tail')
  {
    var g, g', h, h' := GapText(before), GapText(StripGap(kind, before)), GapText(after), GapText(StripGap(kind, after));
    GapTurns(kind, before);
    GapTurns(kind, after);
    TurnsBoth(kind, g, g', a, b);
    TurnsBoth(kind, g + a, g' + b, h, h');
    TurnsBoth(kind, g + a + h, g' + b + h', tail, tail');
  }

  /** An entry up to its value. */
  function UpToValue(e: Entry): bytes {
    GapText(e.before) + NameText(e) + GapText(e.afterName) + [58] + GapText(e.beforeValue)
  }

  lemma UpToValueTurns(kind: Kind, e: Entry)
    requires ValidBody(e.name) && e.opener == 34
    requires ValidGap(kind, e.before) && ValidGap(kind, e.afterName) && ValidGap(kind, e.beforeValue)
    ensures Turns(kind, UpToValue(e), UpToValue(StripEntry(kind, e)))
  {
    var r := StripEntry(kind, e);
    LiteralTurns(kind, e.name);
    FourTurn(kind, e.before, NameText(e), NameText(r), e.afterName, [], []) by {
      InertTurns(kind, []);
    }
    var a, b := GapText(e.before) + NameText(e) + GapText(e.afterName), GapText(r.before) + NameText(r) + GapText(r.afterName);
    assert a + [] == a && b + [] == b;
    InertTurns(kind, [58]);
    GapTurns(kind, e.beforeValue);
    TurnsBoth(kind, a, b, [58], [58]);
    TurnsBoth(kind, a + [58], b + [58], GapText(e.beforeValue), GapText(r.beforeValue));
  }

  lemma {:induction false} EntriesTurn(kind: Kind, es: seq<Entry>)
    requires es != [] && WellSpelledEntries(es) && CommentedEntries(kind, es)
    ensures WellSpelledEntries(StripEntries(kind, es))
    ensures Turns(kind, EntriesText(es), EntriesText(StripEntries(kind, es)))
    decreases es, 0
  {
    var e, r := es[0], StripEntries(kind, es);
    StripEntriesMeans(kind, es);
    assert r[1..] == StripEntries(kind, es[1..]);
    UpToValueTurns(kind, e);
    SpellingTurns(kind, e.value);
    if |es| > 1 {
      EntriesTurn(kind, es[1..]);
    }
    TailTurns(kind, |es| > 1, EntriesText(es[1..]), EntriesText(r[1..]));
    var tail := if |es| > 1 then [44] + EntriesText(es[1..]) else [];
    var tail' := if |es| > 1 then [44] + EntriesText(r[1..]) else [];
    GapTurns(kind, e.after);
    TurnsBoth(kind, UpToValue(e), UpToValue(r[0]), Text(e.value), Text(r[0].value));
    TurnsBoth(kind, UpToValue(e) + Text(e.value), UpToValue(r[0]) + Text(r[0].value), GapText(e.after), GapText(r[0].after));
    TurnsBoth(kind, UpToValue(e) + Text(e.value) + GapText(e.after), UpToValue(r[0]) + Text(r[0].value) + GapText(r[0].after),
              tail, tail');
  }

  // ---- the theorem ----

  lemma PassOver(kind: Kind, gap: Gap, sp: Spelling, t: bytes)
    requires ValidGap(kind, gap) && WellSpelled(sp) && Commented(kind, sp)
    ensures WellSpelled(Strip(kind, sp))
    ensures Pass(kind, GapText(gap) + Text(sp) + t)
         == GapText(StripGap(kind, gap)) + Text(Strip(kind, sp)) + Pass(kind, t)
  {
    SpellingTurns(kind, sp);
    GapTurns(kind, gap);
    TurnsBoth(kind, GapText(gap), GapText(StripGap(kind, gap)), Text(sp), Text(Strip(kind, sp)));
    assert PassesTo(kind, GapText(gap) + Text(sp), GapText(StripGap(kind, gap)) + Text(Strip(kind, sp)), t);
  }

  lemma BothPasses(s: bytes)
    ensures WithoutComments(s) == Pass(Lines, Pass(Blocks, s))
  {
  }

  /**
   * For every spelling of an object or array, with any white space and any comments of either kind anywhere between its
   * tokens: the comment-tolerant parser gives what the plain one gives for the same spelling without them. Block comments
   * hold anything but their end; line comments hold no start of a block comment, and their quotes come in pairs.
   */
  lemma CommentsAreInvisible(gap: Gap, sp: Spelling, t: bytes)
    requires ValidGap(Blocks, gap) && WellSpelled(sp) && Commented(Blocks, sp) && (sp.ArrayOf? || sp.ObjectOf?)
    ensures ParseWithComments(GapText(gap) + Text(sp) + t)
         == if Legible(sp) && Valid(Value(sp)) && Depth(Value(sp)) <= MAX_NESTING
            then Some(Parsed(Value(sp), WithoutComments(t))) else None
  {
    var gap1, sp1 := StripGap(Blocks, gap), Strip(Blocks, sp);
    var gap2, sp2 := StripGap(Lines, gap1), Strip(Lines, sp1);
    PassOver(Blocks, gap, sp, t);
    StripGapLeaves(Blocks, gap);
    StripLeaves(Blocks, sp);
    StripMeans(Blocks, sp);
    PassOver(Lines, gap1, sp1, Pass(Blocks, t));
    StripGapLeaves(Lines, gap1);
    StripLeaves(Lines, sp1);
    StripMeans(Lines, sp1);
    BothPasses(GapText(gap) + Text(sp) + t);
    BothPasses(t);
    SpelledIsRead(gap2, sp2, WithoutComments(t));
  }

  // ---- serialized text ----

  lemma {:induction false} PlainGapIsValid(kind: Kind, g: Gap)
    requires PlainGap(g)
    ensures ValidGap(kind, g) && StripGap(kind, g) == g
  {
    if g != [] {
      assert forall i | 0 <= i < |g| - 1 :: g[1..][i] == g[i + 1];
      PlainGapIsValid(kind, g[1..]);
      assert g == [g[0]] + g[1..];
    }
  }

  lemma NewLineIsValid(kind: Kind, pretty: bool, level: nat)
    ensures ValidGap(kind, NewLine(pretty, level)) && StripGap(kind, NewLine(pretty, level)) == NewLine(pretty, level)
  {
    NewLineIsPlain(pretty, level);
    PlainGapIsValid(kind, NewLine(pretty, level));
  }

  /** The layout of the writer has no comments, so a pass has nothing to strip. */
  lemma {:induction false} LayoutIsCommented(kind: Kind, v: Json, level: nat, pretty: bool)
    ensures var sp := Layout(v, level, pretty); Commented(kind, sp) && Strip(kind, sp) == sp
    decreases v, 1
  {
    match v
    case Array(items, _) => LaidItemsAreCommented(kind, items, level, pretty);
    case Object(ms, _) => LaidMembersAreCommented(kind, ms, level, pretty);
    case _ =>
  }

  lemma {:induction false} LaidItemsAreCommented(kind: Kind, items: seq<Json>, level: nat, pretty: bool)
    ensures var es := LaidItems(items, level, pretty); CommentedElements(kind, es) && StripElements(kind, es) == es
    decreases items, 0
  {
    if items != [] {
      var es := LaidItems(items, level, pretty);
      assert es[1..] == LaidItems(items[1..], level, pretty);
      NewLineIsValid(kind, pretty, level + 1);
      NewLineIsValid(kind, pretty, level);
      LayoutIsCommented(kind, items[0], level + 1, pretty);
      LaidItemsAreCommented(kind, items[1..], level, pretty);
    }
  }

  lemma {:induction false} LaidMembersAreCommented(kind: Kind, ms: seq<Member>, level: nat, pretty: bool)
    ensures var es := LaidMembers(ms, level, pretty); CommentedEntries(kind, es) && StripEntries(kind, es) == es
    decreases ms, 0
  {
    if ms != [] {
      var es := LaidMembers(ms, level, pretty);
      assert es[1..] == LaidMembers(ms[1..], level, pretty);
      NewLineIsValid(kind, pretty, level + 1);
      NewLineIsValid(kind, pretty, level);
      PlainGapIsValid(kind, [White(32)]);
      LayoutIsCommented(kind, ms[0].value, level + 1, pretty);
      LaidMembersAreCommented(kind, ms[1..], level, pretty);
    }
  }

  lemma SerializedPasses(kind: Kind, v: Json, pretty: bool, t: bytes)
    requires Valid(v)
    ensures PassesTo(kind, Serialize(v, 0, pretty), Serialize(v, 0, pretty), t)
  {
    LayoutMeans(v, 0, pretty);
    SerializeIsLaidOut(v, 0, pretty);
    LayoutIsCommented(kind, v, 0, pretty);
    SpellingTurns(kind, Layout(v, 0, pretty));
  }

  /** Blanking comments leaves serialized text exactly as it is. */
  lemma SerializedTextHasNoComments(v: Json, pretty: bool)
    requires Valid(v)
    ensures WithoutComments(Serialize(v, 0, pretty)) == Serialize(v, 0, pretty)
  {
    var s := Serialize(v, 0, pretty);
    assert s + [] == s;
    SerializedPasses(Blocks, v, pretty, []);
    SerializedPasses(Lines, v, pretty, []);
  }

  /** So the comment-tolerant parser undoes the serializer exactly when the plain one does. */
  lemma RoundTripWithComments(v: Json, pretty: bool)
    requires Valid(v) && IsContainer(v)
    ensures ParseWithComments(Serialize(v, 0, pretty))
            == if Depth(v) <= MAX_NESTING && CleanStrings(v) then Some(Parsed(Trim(v), [])) else None
  {
    SerializedTextHasNoComments(v, pretty);
    RoundTrip(v, pretty);
  }

  /** White space and comments of either kind in front of serialized text are invisible. */
  lemma LeadingCommentIsInvisible(v: Json, pretty: bool, gap: Gap)
    requires Valid(v) && IsContainer(v) && ValidGap(Blocks, gap)
    ensures ParseWithComments(GapText(gap) + Serialize(v, 0, pretty)) == ParseString(Serialize(v, 0, pretty))
  {
    LayoutMeans(v, 0, pretty);
    SerializeIsLaidOut(v, 0, pretty);
    LayoutIsCommented(Blocks, v, 0, pretty);
    var sp := Layout(v, 0, pretty);
    GapIsInvisible(gap, sp, GapText(gap), Text(sp));
  }

  lemma GapIsInvisible(gap: Gap, sp: Spelling, s: bytes, text: bytes)
    requires ValidGap(Blocks, gap) && WellSpelled(sp) && PlainGaps(sp) && Commented(Blocks, sp)
    requires (sp.ArrayOf? || sp.ObjectOf?) && s == GapText(gap) && text == Text(sp)
    ensures ParseWithComments(s + text) == ParseString(text)
  {
    assert s + text + [] == s + text;
    CommentsAreInvisible(gap, sp, []);
    AloneIsRead(sp, text);
  }

  // ---- quotes in a line comment ----

  lemma {:induction false} NoBlockNoChange(s: bytes, quoted: bool, escaped: bool)
    requires Without(s, 47, 42)
    ensures Blank(s, quoted, escaped, [47, 42], [42, 47]) == s
  {
    if Head(s) != 0 {
      WithoutTail(s, 47, 42);
      assert |s| > 1 && s[0] == 47 ==> s[1] != 42;
      assert s == [s[0]] + s[1..];
      var c, next := s[0], s[1..];
      NoBlockNoChange(next, if c == 34 && !escaped then !quoted else quoted, c == 92 && !escaped);
    }
  }

  /** Read both from within a string and from without and changed by neither, a text holds no start of a block comment. */
  lemma {:induction false} ChangedEitherWay(s: bytes, escaped: bool)
    requires NulFree(s)
    requires Blank(s, false, escaped, [47, 42], [42, 47]) == s && Blank(s, true, escaped, [47, 42], [42, 47]) == s
    ensures Without(s, 47, 42)
  {
    if s != [] {
      var c, next := s[0], s[1..];
      var escapes := c == 92 && !escaped;
      var out, inside := Blank(s, false, escaped, [47, 42], [42, 47]), Blank(s, true, escaped, [47, 42], [42, 47]);
      if |s| > 1 && s[0] == 47 && s[1] == 42 {
        StartIsBlanked(s, escaped);
        assert false;
      }
      assert out[1..] == next && inside[1..] == next;
      ChangedEitherWay(next, escapes);
      FirstTwo(s);
    }
  }

  lemma FirstTwo(s: bytes)
    requires s != [] && !(|s| > 1 && s[0] == 47 && s[1] == 42) && Without(s[1..], 47, 42)
    ensures Without(s, 47, 42)
  {
    forall i | 0 <= i < |s| - 1 ensures s[i] == 47 ==> s[i + 1] != 42 {
      if i > 0 {
        assert s[1..][i - 1] == s[i] && s[1..][i - 1 + 1] == s[i + 1];
      }
    }
  }

  lemma StartIsBlanked(s: bytes, escaped: bool)
    requires |s| > 1 && s[0] == 47 && s[1] == 42
    ensures Blank(s, false, escaped, [47, 42], [42, 47])[0] == 32
  {
    assert [47, 42] <= s;
  }

  /** A byte that a pass has blanked is not brought back by the next. */
  lemma BlankedStays(s: bytes, t: bytes, kind: Kind)
    requires |s| == |t| && (forall i | 0 <= i < |s| :: s[i] == t[i] || s[i] == 32) && Pass(kind, s) == t
    ensures s == t
  {
    forall i | 0 <= i < |s| ensures s[i] == t[i] {
      BlankOnlyBlanks(s, false, false, Start(kind), End(kind), i);
    }
  }

  /**
   * A line comment in front of a text without comments: it alone is blanked exactly if its double quotes come in pairs
   * or the text behind it holds no start of a block comment, not even in a string.
   */
  lemma QuoteInALineComment(c: bytes, t: bytes)
    requires LineComment(c) && NulFree(t) && Pass(Blocks, t) == t && Pass(Lines, t) == t
    ensures WithoutComments([47, 47] + c + [10] + t) == Spaces(|c| + 3) + t
       <==> QuotesPaired(c) || Without(t, 47, 42)
  {
    var t' := Blank(t, QuotedAfter(c, false, false), false, [47, 42], [42, 47]);
    LineUnderBlocks(c, t);
    CommentPasses(Lines, c, t');
    assert WithoutComments([47, 47] + c + [10] + t) == Spaces(|c| + 3) + Pass(Lines, t');
    if Without(t, 47, 42) {
      NoBlockNoChange(t, true, false);
    }
    if Pass(Lines, t') == t && !QuotesPaired(c) {
      BlankedText(t);
      BlankedStays(t', t, Lines);
      ChangedEitherWay(t, false);
    }
    SameBehind(Spaces(|c| + 3), Pass(Lines, t'), t);
  }

  lemma SameBehind(w: bytes, a: bytes, b: bytes)
    ensures w + a == w + b <==> a == b
  {
    assert (w + a)[|w|..] == a && (w + b)[|w|..] == b;
  }

  lemma BlankedText(t: bytes)
    ensures var r := Blank(t, true, false, [47, 42], [42, 47]);
      |r| == |t| && forall i | 0 <= i < |r| :: r[i] == t[i] || r[i] == 32
  {
    var r := Blank(t, true, false, [47, 42], [42, 47]);
    forall i | 0 <= i < |r| ensures r[i] == t[i] || r[i] == 32 {
      BlankOnlyBlanks(t, true, false, [47, 42], [42, 47], i);
    }
  }

  // ---- comments without an end ----

  lemma Begins(s: bytes, a: byte, b: byte)
    requires s != []
    ensures [a, b] <= s ==> |s| > 1 && s[0] == a && s[1] == b
    ensures [10] <= s ==> 10 in s
  {
    assert s[0] in s;
  }

  lemma {:induction false} EndIsNotFound(kind: Kind, s: bytes)
    requires if kind.Blocks? then Without(s, 42, 47) else 10 !in s
    ensures Find(s, End(kind)) == None
  {
    if s != [] {
      if kind.Blocks? {
        WithoutTail(s, 42, 47);
        assert |s| > 1 && s[0] == 42 ==> s[0 + 1] != 47;
      }
      Begins(s, 42, 47);
      EndIsNotFound(kind, s[1..]);
    }
  }

  /** A comment that is never ended loses its start and nothing else, and the pass ends there. */
  lemma UnendedPass(kind: Kind, s: bytes)
    requires if kind.Blocks? then Without(s, 42, 47) else 10 !in s
    ensures Pass(kind, Start(kind) + s) == [32, 32] + s
  {
    var text := Start(kind) + s;
    EndIsNotFound(kind, s);
    assert Start(kind) <= text && text[2..] == s && Spaces(2) == [32, 32];
  }

  lemma TwoBlanksInFront(s: bytes)
    ensures ParseString([32, 32] + s) == ParseString(s)
    ensures Pass(Lines, [32, 32] + s) == [32, 32] + Pass(Lines, s)
  {
    assert [32, 32] + s == [32] + ([32] + s) && [32] + ([32] + Pass(Lines, s)) == [32, 32] + Pass(Lines, s);
    OneBlankInFront([32] + s);
    OneBlankInFront(s);
  }

  lemma OneBlankInFront(s: bytes)
    ensures SkipSpaces([32] + s) == SkipSpaces(s)
    ensures Pass(Lines, [32] + s) == [32] + Pass(Lines, s)
  {
    var text := [32] + s;
    assert text[0] == 32 && text[1..] == s;
    assert !(Start(Lines) <= text);
  }

  /** What a comment that is never ended was to hide is read, save that a block comment's line comments are blanked. */
  lemma UnendedCommentIsRead(s: bytes)
    ensures Without(s, 42, 47) ==> ParseWithComments([47, 42] + s) == ParseString(Pass(Lines, s))
    ensures LineComment(s) ==> ParseWithComments([47, 47] + s) == ParseString(s)
  {
    if Without(s, 42, 47) {
      UnendedPass(Blocks, s);
      TwoBlanksInFront(s);
      TwoBlanksInFront(Pass(Lines, s));
    }
    if LineComment(s) {
      SlashesKept(s);
      UnendedPass(Lines, s);
      TwoBlanksInFront(s);
    }
  }

  lemma SlashesKept(s: bytes)
    requires LineComment(s)
    ensures Pass(Blocks, [47, 47] + s) == [47, 47] + s
  {
    var line := [47] + s;
    FirstTwo([47] + line);
    assert ([47] + line)[1..] == line && [47] + line == [47, 47] + s;
    NoBlockNoChange([47] + line, false, false);
  }
}
