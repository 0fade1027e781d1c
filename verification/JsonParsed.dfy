/** What the parser hands out: every value it accepts is one the rest of the library may rely on. */
module JsonParsed {
  import opened Bytes
  import opened JsonValue
  import opened JsonText
  import opened JsonParser
  import opened JsonGrammar
  import opened JsonSpelling
  import opened JsonAccepted
  import opened JsonRoundTrip

  lemma {:induction false} ValueIsTrimmed(sp: Spelling)
    requires WellSpelled(sp)
    ensures Trim(Value(sp)) == Value(sp)
    decreases sp, 1
  {
    match sp
    case ArrayOf(_, es) => ElementValuesAreTrimmed(es);
    case ObjectOf(_, es) => EntryMembersAreTrimmed(es);
    case _ =>
  }

  lemma {:induction false} ElementValuesAreTrimmed(es: seq<Element>)
    requires WellSpelledElements(es)
    ensures TrimItems(ElementValues(es)) == ElementValues(es)
    decreases es, 0
  {
    if es != [] {
      ValueIsTrimmed(es[0].value);
      ElementValuesAreTrimmed(es[1..]);
      assert ElementValues(es)[1..] == ElementValues(es[1..]);
    }
  }

  lemma {:induction false} EntryMembersAreTrimmed(es: seq<Entry>)
    requires WellSpelledEntries(es)
    ensures TrimMembers(EntryMembers(es)) == EntryMembers(es)
    decreases es, 0
  {
    if es != [] {
      ValueIsTrimmed(es[0].value);
      EntryMembersAreTrimmed(es[1..]);
      assert EntryMembers(es)[1..] == EntryMembers(es[1..]);
    }
  }

  /** Whatever text is accepted, its value is a valid container, cut to size at all levels, at most nineteen deep. */
  lemma ParsedIsValid(text: bytes)
    requires ParseString(text).Some?
    ensures var v := ParseString(text).value.value;
      IsContainer(v) && Valid(v) && Trim(v) == v && Depth(v) <= MAX_NESTING
  {
    var gap, sp := AcceptedIsSpelled(text);
    ValueIsTrimmed(sp);
  }

  /**
   * Writing a parsed value and parsing it again gives back the very same value exactly if its strings are clean, and
   * nothing otherwise.
   */
  lemma ParsedComesBack(text: bytes, pretty: bool)
    requires ParseString(text).Some?
    ensures var v := ParseString(text).value.value;
      ParseString(Serialize(v, 0, pretty)) == if CleanStrings(v) then Some(Parsed(v, [])) else None
  {
    ParsedIsValid(text);
    RoundTrip(ParseString(text).value.value, pretty);
  }

  /** [literal], with nothing in between. */
  function OneString(body: seq<Piece>): Spelling {
    ArrayOf([], [Element([], Literal(body), [])])
  }

  lemma OneElementIs(e: Element)
    requires WellSpelled(e.value)
    ensures WellSpelledElements([e]) && ElementsText([e]) == GapText(e.before) + Text(e.value) + GapText(e.after)
    ensures ElementValues([e]) == [Value(e.value)] && (LegibleElements([e]) <==> Legible(e.value))
    ensures PlainElements([e]) <==> PlainGap(e.before) && PlainGaps(e.value) && PlainGap(e.after)
  {
    assert [e][1..] == [];
  }

  lemma OneStringIs(body: seq<Piece>)
    requires ValidBody(body)
    ensures WellSpelled(OneString(body)) && PlainGaps(OneString(body))
    ensures Text(OneString(body)) == [91, 34] + BodyText(body) + [34, 93]
    ensures Value(OneString(body)) == Array([Str(Chars(body))], 1)
    ensures Legible(OneString(body)) <==> NoRaw(body)
  {
    var e := Element([], Literal(body), []);
    OneElementIs(e);
    InBrackets([34] + BodyText(body) + [34], BodyText(body));
  }

  lemma InBrackets(literal: bytes, body: bytes)
    requires literal == [34] + body + [34]
    ensures [91] + ([] + literal + []) + [93] == [91, 34] + body + [34, 93]
  {
  }

  lemma OneStringFits(s: bytes, v: Json)
    requires v == Array([Str(s)], 1) && NulFree(s)
    ensures Valid(v) && Depth(v) <= MAX_NESTING
  {
    assert Valid(v.items[0]) && v.items[1..] == [] && DepthOfItems(v.items) == 0;
  }

  /** A string in an array is read to what its pieces stand for. */
  lemma StringIsRead(body: seq<Piece>)
    requires ValidBody(body) && NoRaw(body)
    ensures ParseString([91, 34] + BodyText(body) + [34, 93]) == Some(Parsed(Array([Str(Chars(body))], 1), []))
  {
    OneStringIs(body);
    OneStringFits(Chars(body), Array([Str(Chars(body))], 1));
    AloneIsRead(OneString(body), [91, 34] + BodyText(body) + [34, 93]);
  }

  const ZERO_DIGIT := HexChar(0, false)
  const ESCAPED_ONE := Unicode(Unit(ZERO_DIGIT, ZERO_DIGIT, ZERO_DIGIT, HexChar(1, false)))

  lemma EscapedOneIs(body: seq<Piece>)
    requires body == [ESCAPED_ONE]
    ensures ValidBody(body) && NoRaw(body) && BodyText(body) == [92, 117, 48, 48, 48, 49] && Chars(body) == [1]
  {
    assert body[1..] == [] && PieceText(ESCAPED_ONE) == [92, 117, 48, 48, 48, 49];
    assert BodyMeaning(body) == PieceMeaning(ESCAPED_ONE) + [] == [1];
    assert NulFree([1]);
  }

  lemma EscapedOneIsAccepted(text: bytes, v: Json)
    requires text == [91, 34, 92, 117, 48, 48, 48, 49, 34, 93] && v == Array([Str([1])], 1)
    ensures ParseString(text) == Some(Parsed(v, []))
  {
    EscapedOneIs([ESCAPED_ONE]);
    StringIsRead([ESCAPED_ONE]);
    assert text == [91, 34] + [92, 117, 48, 48, 48, 49] + [34, 93];
  }

  lemma RawOneIsRefused(v: Json)
    requires v == Array([Str([1])], 1)
    ensures ParseString(Serialize(v, 0, false)) == None
  {
    RoundTrip(v, false);
    assert !Clean([1]) && !CleanStrings(v.items[0]);
  }

  /** ["\u0001"] is accepted, and what is written for its value is not. */
  lemma AcceptedThenRefused()
    ensures var text, v := [91, 34, 92, 117, 48, 48, 48, 49, 34, 93], Array([Str([1])], 1);
      ParseString(text) == Some(Parsed(v, [])) && ParseString(Serialize(v, 0, false)) == None
  {
    EscapedOneIsAccepted([91, 34, 92, 117, 48, 48, 48, 49, 34, 93], Array([Str([1])], 1));
    RawOneIsRefused(Array([Str([1])], 1));
  }

  /** {name:value}, with nothing in between, the name opened by any byte. */
  function OneMember(opener: byte, name: seq<Piece>, value: Spelling): Spelling {
    ObjectOf([], [Entry([], opener, name, [], [], value, [])])
  }

  /** Nothing looks at the byte that opens a name: any but a NUL, white space and a closing brace does for a quote. */
  lemma AnyByteOpensAName(opener: byte, name: seq<Piece>, value: Spelling)
    requires opener !in {0, 32, 9, 10, 11, 12, 13, 125}
    requires ValidBody(name) && WellSpelled(value) && PlainGaps(value)
    ensures WellSpelled(OneMember(opener, name, value)) && WellSpelled(OneMember(34, name, value))
    ensures ParseString(Text(OneMember(opener, name, value))) == ParseString(Text(OneMember(34, name, value)))
  {
    OneMemberRead(opener, name, value);
    OneMemberRead(34, name, value);
  }

  lemma OneEntryIs(e: Entry)
    requires ValidBody(e.name) && e.opener !in {0, 32, 9, 10, 11, 12, 13} && WellSpelled(e.value)
    ensures WellSpelledEntries([e]) && EntryMembers([e]) == [Member(Chars(e.name), Value(e.value))]
    ensures LegibleEntries([e]) <==> NoRaw(e.name) && Legible(e.value)
    ensures PlainEntries([e]) <==>
      && PlainGap(e.before) && PlainGap(e.afterName) && PlainGap(e.beforeValue) && PlainGaps(e.value) && PlainGap(e.after)
  {
    assert [e][1..] == [];
  }

  lemma OneMemberRead(opener: byte, name: seq<Piece>, value: Spelling)
    requires opener !in {0, 32, 9, 10, 11, 12, 13, 125}
    requires ValidBody(name) && WellSpelled(value) && PlainGaps(value)
    ensures WellSpelled(OneMember(opener, name, value))
    ensures var v := Object([Member(Chars(name), Value(value))], 1);
      ParseString(Text(OneMember(opener, name, value)))
      == if NoRaw(name) && Legible(value) && Valid(v) && Depth(v) <= MAX_NESTING then Some(Parsed(v, [])) else None
  {
    var sp := OneMember(opener, name, value);
    OneEntryIs(sp.entries[0]);
    AloneIsRead(sp, Text(sp));
  }
}
