/** What the parser accepts is a spelling: with JsonSpelling, it accepts exactly the grammar. */
module JsonAccepted {
  import opened Bytes
  import opened JsonValue
  import opened JsonText
  import opened JsonParser
  import opened JsonGrammar
  import opened JsonLiterals
  import opened JsonSpelling

  // ---- gaps ----

  lemma {:induction false} GapAt(s: bytes) returns (g: Gap)
    ensures PlainGap(g) && s == GapText(g) + SkipSpaces(s)
  {
    if IsSpace(Head(s)) {
      var others := GapAt(s[1..]);
      g := [White(s[0])] + others;
      assert g[1..] == others && s == [s[0]] + s[1..];
      Associative([s[0]], GapText(others), SkipSpaces(s));
    } else {
      g := [];
      assert s == [] + s;
    }
  }

  lemma SkipTwice(s: bytes)
    ensures SkipSpaces(SkipSpaces(s)) == SkipSpaces(s)
  {
    SkipNone(SkipSpaces(s));
  }

  // ---- numbers ----

  lemma {:induction false} DigitsAt(d: bytes) returns (ds: seq<nat>)
    requires AllDigits(d)
    ensures |ds| == |d| && DecimalDigits(ds) && DigitsText(ds) == d
    ensures forall i | 0 <= i < |d| :: ds[i] == d[i] - 48
  {
    if d == [] {
      ds := [];
    } else {
      assert IsDigit(d[0]);
      var others := DigitsAt(d[1..]);
      ds := [d[0] - 48] + others;
      assert ds[1..] == others;
    }
  }

  lemma ZerosAt(s: bytes, n: nat)
    requires Head(s) == DOT && ZeroFraction(s) == Some(n + 1)
    ensures s[..n + 1] == FractionText(Some(n))
  {
  }

  lemma MagnitudeParts(u: bytes, taken: nat, n: nat)
    requires StrtodDigits(u).Some? && StrtodDigits(u).value.1 == taken > 0 && n == DigitCount(u)
    ensures 0 < n <= taken <= |u|
    ensures if Head(u[n..]) == DOT then n < taken && ZeroFraction(u[n..]) == Some(taken - n) else taken == n
  {
  }

  /** The magnitude in front: digits, and perhaps a fraction of zeros. */
  lemma MagnitudeAt(u: bytes, taken: nat, n: nat) returns (ds: seq<nat>, zeros: Option<nat>)
    requires n == DigitCount(u) && 0 < n <= taken <= |u|
    requires if Head(u[n..]) == DOT then n < taken && ZeroFraction(u[n..]) == Some(taken - n) else taken == n
    ensures |ds| == n && DecimalDigits(ds) && DigitsText(ds) + FractionText(zeros) == u[..taken]
  {
    ds := DigitsAt(u[..n]);
    if Head(u[n..]) == DOT {
      zeros := Some(taken - n - 1);
      ZerosAt(u[n..], taken - n - 1);
      assert u[..taken] == u[..n] + u[n..][..taken - n];
    } else {
      zeros := None;
      assert u[..n] + [] == u[..taken];
    }
  }

  lemma NoLeadingZero(s: bytes, negative: bool, u: bytes, taken: nat)
    requires s == (if negative then [45] else []) + u && 1 < DigitCount(u) <= taken <= |u|
    requires IsDecimal(s, (if negative then 1 else 0) + taken)
    ensures u[0] != 48
  {
    assert IsDigit(u[0]) && IsDigit(u[1]);
    if negative {
      assert s[0] == 45 && s[1] == u[0] && s[2] == u[1];
    } else {
      assert s == u;
    }
  }

  lemma NumberParts(s: bytes, negative: bool, u: bytes, sign: nat)
    requires s != [] && ParseNumber(s).Some? && |ParseNumber(s).value.rest| < |s|
    requires negative == (s[0] == MINUS) && u == (if negative then s[1..] else s) && sign == (if negative then 1 else 0)
    ensures StrtodDigits(u).Some?
    ensures var taken := StrtodDigits(u).value.1;
      0 < taken <= |u| && IsDecimal(s, sign + taken) && ParseNumber(s).value.rest == s[sign + taken..]
  {
  }

  lemma NumeralAt(s: bytes) returns (sp: Spelling)
    requires s != [] && ParseNumber(s).Some? && |ParseNumber(s).value.rest| < |s|
    ensures sp.Numeral? && WellSpelled(sp) && s == Text(sp) + ParseNumber(s).value.rest
  {
    var negative := s[0] == MINUS;
    var u, sign := if negative then s[1..] else s, if negative then 1 else 0;
    NumberParts(s, negative, u, sign);
    assert s == (if negative then [45] else []) + u;
    sp := SignedAt(s, negative, u, sign, StrtodDigits(u).value.1);
  }

  lemma SignedAt(s: bytes, negative: bool, u: bytes, sign: nat, taken: nat) returns (sp: Spelling)
    requires s == (if negative then [45] else []) + u && sign == (if negative then 1 else 0)
    requires StrtodDigits(u).Some? && StrtodDigits(u).value.1 == taken > 0 && IsDecimal(s, sign + taken)
    ensures sp.Numeral? && WellSpelled(sp) && s == Text(sp) + s[sign + taken..]
  {
    var n := DigitCount(u);
    MagnitudeParts(u, taken, n);
    var ds, zeros := MagnitudeAt(u, taken, n);
    if n > 1 {
      NoLeadingZero(s, negative, u, taken);
      assert u[..taken][0] == DigitsText(ds)[0];
    }
    sp := Numeral(negative, ds, zeros);
    NumeralTextAt(s, sp, u, taken);
  }

  lemma NumeralTextAt(s: bytes, sp: Spelling, u: bytes, taken: nat)
    requires sp.Numeral? && WellSpelled(sp) && s == (if sp.negative then [45] else []) + u && taken <= |u|
    requires DigitsText(sp.digits) + FractionText(sp.zeros) == u[..taken]
    ensures s == Text(sp) + s[(if sp.negative then 1 else 0) + taken..]
  {
    var sign: bytes := if sp.negative then [45] else [];
    Associative(sign, DigitsText(sp.digits), FractionText(sp.zeros));
    assert s[|sign| + taken..] == u[taken..];
    assert u == u[..taken] + u[taken..];
    Associative(sign, u[..taken], u[taken..]);
  }

  // ---- values ----

  /** What stands behind an element or a member ends it. */
  lemma EndsBefore(next: bytes, g: Gap, after: bytes)
    requires PlainGap(g) && next == GapText(g) + after && Head(after) in {44, 93, 125}
    ensures Ends(next)
  {
    if g == [] {
      assert next == after;
    } else {
      assert next[0] == g[0].b;
    }
  }

  lemma HeadAndTail(s: bytes)
    requires s != []
    ensures s == [s[0]] + s[1..]
  {
  }

  /** The spelling in front of `text`, given that it is read and properly ended. */
  lemma {:induction false} SpellingAt(text: bytes, nesting: nat) returns (gap: Gap, sp: Spelling)
    requires ParseValue(text, nesting).Some?
    requires var r := ParseValue(text, nesting).value; IsContainer(r.value) || Ends(r.rest)
    ensures PlainGap(gap) && WellSpelled(sp) && PlainGaps(sp)
    ensures text == GapText(gap) + (Text(sp) + ParseValue(text, nesting).value.rest)
    decreases |text|, 3
  {
    gap := GapAt(text);
    var s := SkipSpaces(text);
    if Head(s) == LBRACE {
      sp := ObjectAt(s, nesting + 1);
    } else if Head(s) == LBRACKET {
      sp := ArrayAt(s, nesting + 1);
    } else {
      sp := ScalarAt(s, nesting);
    }
  }

  lemma ScalarAt(s: bytes, nesting: nat) returns (sp: Spelling)
    requires !IsSpace(Head(s)) && Head(s) != LBRACE && Head(s) != LBRACKET
    requires ParseValue(s, nesting).Some? && Ends(ParseValue(s, nesting).value.rest)
    ensures WellSpelled(sp) && PlainGaps(sp) && s == Text(sp) + ParseValue(s, nesting).value.rest
  {
    SkipNone(s);
    if s[0] == QUOTE {
      var body := LiteralAt(s);
      sp := Literal(body);
    } else if s[0] == LOWER_T || s[0] == LOWER_F {
      sp := if TRUE_TEXT <= s then TrueWord else FalseWord;
    } else if s[0] == LOWER_N {
      sp := NullWord;
    } else {
      sp := NumeralAt(s);
    }
  }

  lemma {:induction false} ArrayAt(s: bytes, nesting: nat) returns (sp: Spelling)
    requires Head(s) == LBRACKET && ParseArray(s, nesting).Some?
    ensures sp.ArrayOf? && WellSpelled(sp) && PlainGaps(sp) && s == Text(sp) + ParseArray(s, nesting).value.rest
    decreases |s|, 2
  {
    var rest := ParseArray(s, nesting).value.rest;
    var inner := SkipSpaces(s[1..]);
    HeadAndTail(s);
    if Head(inner) == RBRACKET {
      var g := GapAt(s[1..]);
      HeadAndTail(inner);
      sp := ArrayOf(g, []);
      Bracketed(91, GapText(g), 93, rest);
    } else {
      var es := ElementsAt(s[1..], EMPTY_ARRAY, nesting);
      sp := ArrayOf([], es);
      Bracketed(91, ElementsText(es), 93, rest);
    }
  }

  lemma OneMoreElement(s: bytes, e: Element, others: seq<Element>, rest: bytes, next: bytes) returns (es: seq<Element>)
    requires WellSpelled(e.value) && PlainGap(e.before) && PlainGaps(e.value) && PlainGap(e.after)
    requires WellSpelledElements(others) && PlainElements(others)
    requires next == GapText(e.after) + Behind(others != [], ElementsText(others) + ([93] + rest), 93, rest)
    requires s == GapText(e.before) + (Text(e.value) + next)
    ensures es != [] && WellSpelledElements(es) && PlainElements(es) && s == ElementsText(es) + ([93] + rest)
  {
    es := [e] + others;
    assert es[1..] == others;
    FirstElementText(es, rest, next);
  }

  lemma {:induction false} ElementsAt(s: bytes, sofar: Json, nesting: nat) returns (es: seq<Element>)
    requires sofar.Array? && ParseItems(SkipSpaces(s), sofar, nesting).Some?
    ensures es != [] && WellSpelledElements(es) && PlainElements(es)
    ensures s == ElementsText(es) + ([93] + ParseItems(SkipSpaces(s), sofar, nesting).value.rest)
    decreases |s|, 4
  {
    SkipTwice(s);
    var value := ParseValue(s, nesting).value;
    assert ParseValue(SkipSpaces(s), nesting).value == value;
    var after := SkipSpaces(value.rest);
    var g := GapAt(value.rest);
    EndsBefore(value.rest, g, after);
    var gap, sp := SpellingAt(s, nesting);
    HeadAndTail(after);
    var others := [];
    if Head(after) == COMMA {
      others := ElementsAt(after[1..], ArrayAdd(sofar, value.value).value, nesting);
    }
    es := OneMoreElement(s, Element(gap, sp, g), others, ParseItems(SkipSpaces(s), sofar, nesting).value.rest, value.rest);
  }

  lemma {:induction false} ObjectAt(s: bytes, nesting: nat) returns (sp: Spelling)
    requires Head(s) == LBRACE && ParseObject(s, nesting).Some?
    ensures sp.ObjectOf? && WellSpelled(sp) && PlainGaps(sp) && s == Text(sp) + ParseObject(s, nesting).value.rest
    decreases |s|, 2
  {
    var rest := ParseObject(s, nesting).value.rest;
    var inner := SkipSpaces(s[1..]);
    HeadAndTail(s);
    if Head(inner) == RBRACE {
      var g := GapAt(s[1..]);
      HeadAndTail(inner);
      sp := ObjectOf(g, []);
      Bracketed(123, GapText(g), 125, rest);
    } else {
      var es := EntriesAt(s[1..], EMPTY_OBJECT, nesting);
      sp := ObjectOf([], es);
      Bracketed(123, EntriesText(es), 125, rest);
    }
  }

  lemma OneMoreEntry(s: bytes, e: Entry, others: seq<Entry>, rest: bytes, next: bytes) returns (es: seq<Entry>)
    requires ValidBody(e.name) && e.opener !in {0, 32, 9, 10, 11, 12, 13} && WellSpelled(e.value)
    requires PlainGap(e.before) && PlainGap(e.afterName) && PlainGap(e.beforeValue) && PlainGaps(e.value)
    requires PlainGap(e.after) && WellSpelledEntries(others) && PlainEntries(others)
    requires next == GapText(e.after) + Behind(others != [], EntriesText(others) + ([125] + rest), 125, rest)
    requires s == GapText(e.before) + (NameText(e) + (GapText(e.afterName) + ([58] + FromValue(e, next))))
    ensures es != [] && es[0] == e && WellSpelledEntries(es) && PlainEntries(es)
    ensures s == EntriesText(es) + ([125] + rest)
  {
    es := [e] + others;
    assert es[1..] == others;
    FirstEntryText(es, rest, next);
  }

  /** An entry from its name to behind its value. */
  lemma {:induction false} EntryAt(s: bytes, x: bytes, nesting: nat) returns (e: Entry, value: Parsed<Json>)
    requires x == SkipSpaces(s) && Head(x) != 0 && QuotedString(x).Some?
    requires Head(SkipSpaces(QuotedString(x).value.rest)) == COLON
    requires ParseValue(SkipSpaces(QuotedString(x).value.rest)[1..], nesting).Some?
    requires var r := ParseValue(SkipSpaces(QuotedString(x).value.rest)[1..], nesting).value;
      Head(SkipSpaces(r.rest)) in {44, 93, 125}
    ensures value == ParseValue(SkipSpaces(QuotedString(x).value.rest)[1..], nesting).value
    ensures ValidBody(e.name) && e.opener == x[0] && WellSpelled(e.value)
    ensures PlainGap(e.before) && PlainGap(e.afterName) && PlainGap(e.beforeValue) && PlainGaps(e.value)
    ensures PlainGap(e.after) && value.rest == GapText(e.after) + SkipSpaces(value.rest)
    ensures s == GapText(e.before) + (NameText(e) + (GapText(e.afterName) + ([58] + FromValue(e, value.rest))))
    decreases |s|, 0
  {
    var before := GapAt(s);
    var t := QuotedString(x).value.rest;
    var body := LiteralAt(x);
    var afterName := GapAt(t);
    var colon := SkipSpaces(t);
    HeadAndTail(colon);
    value := ParseValue(colon[1..], nesting).value;
    var after := GapAt(value.rest);
    EndsBefore(value.rest, after, SkipSpaces(value.rest));
    var beforeValue, sp := SpellingAt(colon[1..], nesting);
    e := Entry(before, x[0], body, afterName, beforeValue, sp, after);
  }

  lemma {:induction false} EntriesAt(s: bytes, sofar: Json, nesting: nat) returns (es: seq<Entry>)
    requires sofar.Object? && ParseMembers(SkipSpaces(s), sofar, nesting).Some?
    ensures es != [] && WellSpelledEntries(es) && PlainEntries(es) && es[0].opener == Head(SkipSpaces(s))
    ensures s == EntriesText(es) + ([125] + ParseMembers(SkipSpaces(s), sofar, nesting).value.rest)
    decreases |s|, 2
  {
    var rest := ParseMembers(SkipSpaces(s), sofar, nesting).value.rest;
    var e, next, after, grown := EntryInFront(s, sofar, nesting, rest);
    var others := [];
    if after[0] == COMMA {
      others := EntriesAt(after[1..], grown, nesting);
    }
    HeadAndTail(after);
    es := OneMoreEntry(s, e, others, rest, next);
  }

  /** The entry in front, what comes `after` it, and the object it has `grown` to. */
  lemma {:induction false} EntryInFront(s: bytes, sofar: Json, nesting: nat, rest: bytes)
    returns (e: Entry, next: bytes, after: bytes, grown: Json)
    requires sofar.Object? && ParseMembers(SkipSpaces(s), sofar, nesting).Some?
    requires rest == ParseMembers(SkipSpaces(s), sofar, nesting).value.rest
    ensures ValidBody(e.name) && e.opener == Head(SkipSpaces(s)) && !IsSpace(e.opener) && e.opener != 0
    ensures PlainGap(e.before) && PlainGap(e.afterName) && PlainGap(e.beforeValue) && PlainGap(e.after)
    ensures WellSpelled(e.value) && PlainGaps(e.value) && next == GapText(e.after) + after
    ensures s == GapText(e.before) + (NameText(e) + (GapText(e.afterName) + ([58] + FromValue(e, next))))
    ensures 0 < |after| < |s| && (after[0] != 44 ==> after[0] == 125 && after[1..] == rest)
    ensures after[0] == 44 ==> grown.Object? && ParseMembers(SkipSpaces(after[1..]), grown, nesting).Some?
    ensures after[0] == 44 ==> ParseMembers(SkipSpaces(after[1..]), grown, nesting).value.rest == rest
    decreases |s|, 1
  {
    var x := SkipSpaces(s);
    SkipTwice(s);
    after, grown := PassOverMember(x, sofar, nesting, rest);
    var value;
    e, value := EntryAt(s, x, nesting);
    next := value.rest;
  }

  /** What a pass that does not fail has found, and how it goes on. */
  lemma PassOverMember(x: bytes, sofar: Json, nesting: nat, rest: bytes) returns (after: bytes, grown: Json)
    requires sofar.Object? && ParseMembers(x, sofar, nesting).Some? && rest == ParseMembers(x, sofar, nesting).value.rest
    ensures Head(x) != 0 && QuotedString(x).Some? && Head(SkipSpaces(QuotedString(x).value.rest)) == COLON
    ensures ParseValue(SkipSpaces(QuotedString(x).value.rest)[1..], nesting).Some?
    ensures after == SkipSpaces(ParseValue(SkipSpaces(QuotedString(x).value.rest)[1..], nesting).value.rest)
    ensures 0 < |after| < |x| && (after[0] != 44 ==> after[0] == 125 && after[1..] == rest)
    ensures after[0] == 44 ==> grown.Object? && ParseMembers(SkipSpaces(after[1..]), grown, nesting).Some?
    ensures after[0] == 44 ==> ParseMembers(SkipSpaces(after[1..]), grown, nesting).value.rest == rest
  {
    var value := ParseValue(SkipSpaces(QuotedString(x).value.rest)[1..], nesting).value;
    SkipTwice(value.rest);
    after := SkipSpaces(value.rest);
    grown := ObjectAdd(sofar, QuotedString(x).value.value, value.value).value;
  }

  // ---- the theorem ----

  /** Whatever is accepted is a spelling with its white space in front and anything behind it. */
  lemma AcceptedIsSpelled(text: bytes) returns (gap: Gap, sp: Spelling)
    requires ParseString(text).Some?
    ensures PlainGap(gap) && WellSpelled(sp) && PlainGaps(sp) && (sp.ArrayOf? || sp.ObjectOf?)
    ensures Legible(sp) && Valid(Value(sp)) && Depth(Value(sp)) <= MAX_NESTING
    ensures text == GapText(gap) + Text(sp) + ParseString(text).value.rest
    ensures ParseString(text).value.value == Value(sp)
  {
    var s := SkipSpaces(text);
    var rest := ParseString(text).value.rest;
    SkipTwice(text);
    if Head(s) == LBRACE {
      sp := ObjectAt(s, 1);
    } else {
      sp := ArrayAt(s, 1);
    }
    gap := GapAt(text);
    Associative(GapText(gap), Text(sp), rest);
    SpelledIsRead(gap, sp, rest);
  }

  /** The texts of the grammar: a spelling the library can hold, white space in front, and anything behind. */
  ghost predicate Spells(text: bytes, v: Json, rest: bytes) {
    exists gap, sp ::
      && PlainGap(gap) && WellSpelled(sp) && PlainGaps(sp) && (sp.ArrayOf? || sp.ObjectOf?) && Legible(sp)
      && text == GapText(gap) + Text(sp) + rest && Value(sp) == v
  }

  /** The parser accepts exactly the grammar, with exactly the value spelled and the text behind it. */
  lemma AcceptsExactlyTheGrammar(text: bytes, v: Json, rest: bytes)
    ensures ParseString(text) == Some(Parsed(v, rest))
       <==> Spells(text, v, rest) && Valid(v) && Depth(v) <= MAX_NESTING
  {
    if ParseString(text) == Some(Parsed(v, rest)) {
      var gap, sp := AcceptedIsSpelled(text);
    }
    if Spells(text, v, rest) && Valid(v) && Depth(v) <= MAX_NESTING {
      var gap, sp :| PlainGap(gap) && WellSpelled(sp) && PlainGaps(sp) && (sp.ArrayOf? || sp.ObjectOf?) && Legible(sp)
        && text == GapText(gap) + Text(sp) + rest && Value(sp) == v;
      SpelledIsRead(gap, sp, rest);
    }
  }
}
