/** The writer writes spellings, laid out by rule, and so the parser undoes it: exactly when, and with which value. */
module JsonRoundTrip {
  import opened Bytes
  import opened JsonValue
  import opened JsonText
  import opened JsonParser
  import opened JsonGrammar
  import opened JsonLiterals
  import opened JsonSpelling
  import opened JsonCompare

  // ---- strings ----

  /** The short escapes the writer knows; every other byte goes out as it is. */
  function PieceFor(b: byte): Piece {
    if b in {34, 92} then Short(b)
    else if b == 8 then Short(98)
    else if b == 12 then Short(102)
    else if b == 10 then Short(110)
    else if b == 13 then Short(114)
    else if b == 9 then Short(116)
    else Plain(b)
  }

  function PiecesFor(s: bytes): (ps: seq<Piece>)
    ensures |ps| == |s|
    ensures forall i | 0 <= i < |s| :: ps[i] == PieceFor(s[i])
  {
    if s == [] then [] else [PieceFor(s[0])] + PiecesFor(s[1..])
  }

  /** No control byte that would have to go out raw. */
  predicate Clean(s: bytes) {
    forall i | 0 <= i < |s| :: s[i] >= 0x20 || s[i] in {8, 9, 10, 12, 13}
  }

  lemma PieceForMeans(b: byte)
    requires b != 0
    ensures var p := PieceFor(b);
      && ValidPiece(p) && PieceText(p) == EscapeByte(b) && PieceMeaning(p) == [b]
      && (Raw(p) <==> !(b >= 0x20 || b in {8, 9, 10, 12, 13}))
  {
  }

  lemma CleanCons(s: bytes)
    requires s != []
    ensures Clean(s) <==> (s[0] >= 0x20 || s[0] in {8, 9, 10, 12, 13}) && Clean(s[1..])
  {
    assert forall i | 1 <= i < |s| :: s[i] == s[1..][i - 1];
  }

  lemma NoRawCons(ps: seq<Piece>)
    requires ps != []
    ensures NoRaw(ps) <==> !Raw(ps[0]) && NoRaw(ps[1..])
    ensures ValidBody(ps) <==> ValidPiece(ps[0]) && ValidBody(ps[1..])
  {
    assert forall i | 1 <= i < |ps| :: ps[i] == ps[1..][i - 1];
  }

  lemma {:induction false} PiecesMean(s: bytes)
    requires NulFree(s)
    ensures var ps := PiecesFor(s);
      && ValidBody(ps) && (NoRaw(ps) <==> Clean(s))
      && BodyText(ps) == EscapeAll(s) && BodyMeaning(ps) == s && Chars(ps) == s
  {
    if s != [] {
      var ps := PiecesFor(s);
      assert ps[1..] == PiecesFor(s[1..]);
      PieceForMeans(s[0]);
      PiecesMean(s[1..]);
      NoRawCons(ps);
      CleanCons(s);
      assert s == [s[0]] + s[1..];
    }
  }

  lemma StringBack(x: bytes, t: bytes)
    requires NulFree(x) && Head(t) != 0
    ensures Head(StringText(x) + t) == QUOTE
    ensures QuotedString(StringText(x) + t) == if Clean(x) then Some(Parsed(x, t)) else None
  {
    PiecesMean(x);
    LiteralRead(StringText(x) + t, 34, PiecesFor(x), t);
  }

  // ---- numbers ----

  function DigitsOf(n: nat): (ds: seq<nat>)
    ensures ds != [] && DecimalDigits(ds)
  {
    if n < 10 then [n] else DigitsOf(n / 10) + [n % 10]
  }

  function NumeralFor(n: int): Spelling {
    Numeral(n < 0, DigitsOf(if n < 0 then -n else n), if -0x8000_0000 <= n < 0x8000_0000 then None else Some(6))
  }

  lemma DigitsTextJoined(a: seq<nat>, b: seq<nat>, c: seq<nat>)
    requires DecimalDigits(a) && DecimalDigits(b) && c == a + b
    ensures DecimalDigits(c) && DigitsText(c) == DigitsText(a) + DigitsText(b)
  {
    JoinedByPlace(a, b, c, DigitsText(a), DigitsText(b), DigitsText(c));
  }

  lemma JoinedByPlace(a: seq<nat>, b: seq<nat>, c: seq<nat>, s: bytes, t: bytes, u: bytes)
    requires c == a + b && |s| == |a| && |t| == |b| && |u| == |c|
    requires forall i | 0 <= i < |a| :: s[i] == 48 + a[i]
    requires forall i | 0 <= i < |b| :: t[i] == 48 + b[i]
    requires forall i | 0 <= i < |c| :: u[i] == 48 + c[i]
    ensures u == s + t
  {
  }

  lemma OneDigit(n: nat)
    requires n < 10
    ensures DigitsText([n]) == [48 + n] && DigitsValue([n]) == n
  {
    assert DigitsText([n]) == [48 + n] + DigitsText([]);
    assert [n][..0] == [];
  }

  lemma LastDigit(front: seq<nat>, n: nat)
    requires DecimalDigits(front) && n < 10
    ensures DecimalDigits(front + [n])
    ensures DigitsText(front + [n]) == DigitsText(front) + [48 + n]
    ensures DigitsValue(front + [n]) == 10 * DigitsValue(front) + n
  {
    DigitsTextJoined(front, [n], front + [n]);
    OneDigit(n);
    assert (front + [n])[..|front|] == front;
  }

  lemma {:induction false} DigitsAre(n: nat)
    ensures DigitsText(DigitsOf(n)) == Digits(n) && DigitsValue(DigitsOf(n)) == n
    ensures |DigitsOf(n)| > 1 ==> DigitsOf(n)[0] != 0
    ensures DigitsOf(n)[0] == 0 ==> n == 0
  {
    if n < 10 {
      OneDigit(n);
    } else {
      DigitsAre(n / 10);
      LastDigit(DigitsOf(n / 10), n % 10);
      MoreDigits(n, DigitsOf(n / 10), Digits(n / 10));
    }
  }

  lemma MoreDigits(n: nat, front: seq<nat>, d: bytes)
    requires n >= 10 && front == DigitsOf(n / 10) && d == Digits(n / 10)
    ensures DigitsOf(n) == front + [n % 10] && Digits(n) == d + [48 + n % 10]
  {
  }

  lemma SixZeros()
    ensures FractionText(Some(6)) == FRACTION
  {
  }

  lemma NumberTextIs(n: int, d: bytes)
    requires d == Digits(if n < 0 then -n else n)
    ensures NumberText(n) == (if n < 0 then [45] else []) + d + (if -0x8000_0000 <= n < 0x8000_0000 then [] else FRACTION)
  {
    assert [] + d == d;
  }

  lemma NumeralIs(n: int)
    ensures WellSpelled(NumeralFor(n)) && Text(NumeralFor(n)) == NumberText(n) && Value(NumeralFor(n)) == Number(n)
  {
    var m := if n < 0 then -n else n;
    DigitsAre(m);
    NumeralTextIs(n, DigitsOf(m), Digits(m));
  }

  lemma NumeralTextIs(n: int, ds: seq<nat>, d: bytes)
    requires ds == DigitsOf(if n < 0 then -n else n) && d == Digits(if n < 0 then -n else n)
    requires DigitsText(ds) == d && WellSpelled(NumeralFor(n))
    ensures Text(NumeralFor(n)) == NumberText(n)
  {
    SixZeros();
    NumberTextIs(n, d);
  }

  /** Whatever follows, a printed number is read back and nothing more, be it printed by "%d" or by "%f". */
  lemma NumberBack(n: int, t: bytes)
    requires Ends(t)
    ensures ParseNumber(NumberText(n) + t) == Some(Parsed(Number(n), t))
  {
    NumeralIs(n);
    NumeralRead(NumeralFor(n), NumberText(n) + t, t);
  }

  // ---- the layout ----

  function Blanks(n: nat): Gap {
    if n == 0 then [] else [White(32)] + Blanks(n - 1)
  }

  /** In pretty text every element and every closing bracket stands on a line of its own, four blanks a level. */
  function NewLine(pretty: bool, level: nat): Gap {
    if pretty then [White(10)] + Blanks(4 * level) else []
  }

  /** Behind the last of several elements the closing bracket follows on a new line. */
  function AtTheEnd(left: nat, pretty: bool, level: nat): Gap {
    if left == 1 then NewLine(pretty, level) else []
  }

  /** How the writer spells a value: compact without any gap, pretty with these and a blank behind every colon. */
  function Layout(v: Json, level: nat, pretty: bool): Spelling
    decreases v, 1
  {
    match v
    case Null => NullWord
    case Bool(b) => if b then TrueWord else FalseWord
    case Number(n) => NumeralFor(n)
    case Str(s) => Literal(PiecesFor(s))
    case Array(items, _) => ArrayOf([], LaidItems(items, level, pretty))
    case Object(ms, _) => ObjectOf([], LaidMembers(ms, level, pretty))
  }

  function LaidItems(items: seq<Json>, level: nat, pretty: bool): (es: seq<Element>)
    ensures |es| == |items|
    decreases items, 0
  {
    if items == [] then []
    else
      [Element(NewLine(pretty, level + 1), Layout(items[0], level + 1, pretty), AtTheEnd(|items|, pretty, level))]
      + LaidItems(items[1..], level, pretty)
  }

  function LaidMembers(ms: seq<Member>, level: nat, pretty: bool): (es: seq<Entry>)
    ensures |es| == |ms|
    ensures es != [] ==> es[0].opener == 34
    decreases ms, 0
  {
    if ms == [] then []
    else
      [Entry(NewLine(pretty, level + 1), 34, PiecesFor(ms[0].name), [], if pretty then [White(32)] else [],
             Layout(ms[0].value, level + 1, pretty), AtTheEnd(|ms|, pretty, level))]
      + LaidMembers(ms[1..], level, pretty)
  }

  // ---- what the layout stands for ----

  /** No string or name, at any level, holds a control byte without a short escape. */
  predicate CleanStrings(v: Json) {
    match v
    case Str(s) => Clean(s)
    case Array(items, _) => forall i | 0 <= i < |items| :: CleanStrings(items[i])
    case Object(ms, _) => forall i | 0 <= i < |ms| :: Clean(ms[i].name) && CleanStrings(ms[i].value)
    case _ => true
  }

  lemma {:induction false} BlanksArePlain(n: nat)
    ensures PlainGap(Blanks(n))
  {
    if n > 0 {
      BlanksArePlain(n - 1);
    }
  }

  lemma NewLineIsPlain(pretty: bool, level: nat)
    ensures PlainGap(NewLine(pretty, level))
  {
    BlanksArePlain(4 * level);
  }

  lemma GapsArePlain(left: nat, pretty: bool, level: nat)
    ensures PlainGap(NewLine(pretty, level + 1)) && PlainGap(AtTheEnd(left, pretty, level))
  {
    NewLineIsPlain(pretty, level + 1);
    NewLineIsPlain(pretty, level);
  }

  predicate CleanItems(items: seq<Json>) {
    forall i | 0 <= i < |items| :: CleanStrings(items[i])
  }

  predicate CleanMembers(ms: seq<Member>) {
    forall i | 0 <= i < |ms| :: Clean(ms[i].name) && CleanStrings(ms[i].value)
  }

  lemma CleanItemsCons(items: seq<Json>)
    requires items != []
    ensures CleanItems(items) <==> CleanStrings(items[0]) && CleanItems(items[1..])
  {
    assert forall i | 1 <= i < |items| :: items[i] == items[1..][i - 1];
  }

  lemma CleanMembersCons(ms: seq<Member>)
    requires ms != []
    ensures CleanMembers(ms) <==> Clean(ms[0].name) && CleanStrings(ms[0].value) && CleanMembers(ms[1..])
  {
    assert forall i | 1 <= i < |ms| :: ms[i] == ms[1..][i - 1];
  }

  /** What holds of a spelling that stands for `v`. */
  predicate StandsFor(sp: Spelling, v: Json) {
    WellSpelled(sp) && PlainGaps(sp) && Value(sp) == Trim(v) && (Legible(sp) <==> CleanStrings(v))
  }

  predicate ElementsStandFor(es: seq<Element>, items: seq<Json>) {
    && WellSpelledElements(es) && PlainElements(es) && ElementValues(es) == TrimItems(items)
    && (LegibleElements(es) <==> CleanItems(items))
  }

  predicate EntriesStandFor(es: seq<Entry>, ms: seq<Member>) {
    && WellSpelledEntries(es) && PlainEntries(es) && EntryMembers(es) == TrimMembers(ms)
    && (LegibleEntries(es) <==> CleanMembers(ms))
  }

  lemma OneMoreStands(e: Element, es: seq<Element>, items: seq<Json>)
    requires items != [] && StandsFor(e.value, items[0]) && PlainGap(e.before) && PlainGap(e.after)
    requires ElementsStandFor(es, items[1..])
    ensures ElementsStandFor([e] + es, items)
  {
    assert ([e] + es)[1..] == es;
    CleanItemsCons(items);
  }

  lemma OneMoreEntryStands(e: Entry, es: seq<Entry>, ms: seq<Member>)
    requires ms != [] && StandsFor(e.value, ms[0].value) && e.opener == 34
    requires ValidBody(e.name) && Chars(e.name) == ms[0].name && (NoRaw(e.name) <==> Clean(ms[0].name))
    requires PlainGap(e.before) && PlainGap(e.afterName) && PlainGap(e.beforeValue) && PlainGap(e.after)
    requires EntriesStandFor(es, ms[1..])
    ensures EntriesStandFor([e] + es, ms)
  {
    assert ([e] + es)[1..] == es;
    CleanMembersCons(ms);
  }

  lemma LiteralStands(body: seq<Piece>, s: bytes)
    requires ValidBody(body) && Chars(body) == s && (NoRaw(body) <==> Clean(s))
    ensures StandsFor(Literal(body), Str(s))
  {
  }

  lemma NumberStands(sp: Spelling, n: int)
    requires sp.Numeral? && WellSpelled(sp) && Value(sp) == Number(n)
    ensures StandsFor(sp, Number(n))
  {
  }

  lemma ScalarStands(v: Json, level: nat, pretty: bool)
    requires Valid(v) && !IsContainer(v)
    ensures StandsFor(Layout(v, level, pretty), v)
  {
    match v
    case Number(n) =>
      NumeralIs(n);
      NumberStands(NumeralFor(n), n);
    case Str(s) =>
      PiecesMean(s);
      LiteralStands(PiecesFor(s), s);
    case _ =>
  }

  lemma {:induction false} LayoutMeans(v: Json, level: nat, pretty: bool)
    requires Valid(v)
    ensures StandsFor(Layout(v, level, pretty), v)
    decreases v, 1
  {
    if v.Array? {
      LaidItemsMean(v.items, level, pretty);
      ArrayStands(LaidItems(v.items, level, pretty), v);
    } else if v.Object? {
      LaidMembersMean(v.members, level, pretty);
      ObjectStands(LaidMembers(v.members, level, pretty), v);
    } else {
      ScalarStands(v, level, pretty);
    }
  }

  lemma ArrayStands(es: seq<Element>, v: Json)
    requires v.Array? && |es| == |v.items| && ElementsStandFor(es, v.items)
    ensures StandsFor(ArrayOf([], es), v)
  {
  }

  lemma ObjectStands(es: seq<Entry>, v: Json)
    requires v.Object? && |es| == |v.members| && EntriesStandFor(es, v.members) && (es != [] ==> es[0].opener == 34)
    ensures StandsFor(ObjectOf([], es), v)
  {
  }

  lemma {:induction false} LaidItemsMean(items: seq<Json>, level: nat, pretty: bool)
    requires forall i | 0 <= i < |items| :: Valid(items[i])
    ensures ElementsStandFor(LaidItems(items, level, pretty), items)
    decreases items, 0
  {
    if items != [] {
      var e := LaidItems(items, level, pretty)[0];
      LayoutMeans(items[0], level + 1, pretty);
      LaidItemsMean(items[1..], level, pretty);
      GapsArePlain(|items|, pretty, level);
      OneMoreStands(e, LaidItems(items[1..], level, pretty), items);
    }
  }

  lemma {:induction false} LaidMembersMean(ms: seq<Member>, level: nat, pretty: bool)
    requires forall i | 0 <= i < |ms| :: NulFree(ms[i].name) && Valid(ms[i].value)
    ensures EntriesStandFor(LaidMembers(ms, level, pretty), ms)
    decreases ms, 0
  {
    if ms != [] {
      var e := LaidMembers(ms, level, pretty)[0];
      PiecesMean(ms[0].name);
      LayoutMeans(ms[0].value, level + 1, pretty);
      LaidMembersMean(ms[1..], level, pretty);
      GapsArePlain(|ms|, pretty, level);
      OneMoreEntryStands(e, LaidMembers(ms[1..], level, pretty), ms);
    }
  }

  // ---- the writer writes it ----

  lemma {:induction false} BlanksText(a: nat, b: nat)
    ensures GapText(Blanks(a + b)) == GapText(Blanks(a)) + GapText(Blanks(b))
  {
    if a == 0 {
      assert [] + GapText(Blanks(b)) == GapText(Blanks(b));
    } else {
      assert Blanks(a + b)[1..] == Blanks(a + b - 1) && Blanks(a)[1..] == Blanks(a - 1);
      BlanksText(a - 1, b);
    }
  }

  lemma {:induction false} IndentIs(level: nat)
    ensures GapText(Blanks(4 * level)) == Indent(level)
  {
    if level > 0 {
      IndentIs(level - 1);
      BlanksText(4 * (level - 1), 4);
      FourBlanks();
    }
  }

  lemma FourBlanks()
    ensures GapText(Blanks(4)) == FOUR_SPACES
  {
    assert GapText(Blanks(1)) == [32] && GapText(Blanks(2)) == [32, 32] && GapText(Blanks(3)) == [32, 32, 32];
  }

  lemma NewLineText(pretty: bool, level: nat)
    ensures GapText(NewLine(pretty, level)) == PrettyOnly(pretty, [NEWLINE]) + PrettyOnly(pretty, Indent(level))
  {
    IndentIs(level);
    if pretty {
      assert NewLine(pretty, level)[1..] == Blanks(4 * level);
    }
  }

  /** Serialized text is the text of the layout. */
  lemma {:induction false} SerializeIsLaidOut(v: Json, level: nat, pretty: bool)
    requires Valid(v)
    ensures WellSpelled(Layout(v, level, pretty)) && Serialize(v, level, pretty) == Text(Layout(v, level, pretty))
    decreases v, 2
  {
    LayoutMeans(v, level, pretty);
    match v
    case Number(n) => NumeralIs(n);
    case Str(s) => PiecesMean(s);
    case Array(_, _) => ArrayIsLaidOut(v, level, pretty);
    case Object(_, _) => ObjectIsLaidOut(v, level, pretty);
    case _ =>
  }

  lemma {:induction false} ArrayIsLaidOut(v: Json, level: nat, pretty: bool)
    requires Valid(v) && v.Array? && WellSpelled(Layout(v, level, pretty))
    ensures Serialize(v, level, pretty) == Text(Layout(v, level, pretty))
    decreases v, 1
  {
    if v.items != [] {
      ItemsLaidOut(v.items, level, pretty);
      BracketsAround(91, PrettyOnly(pretty, [NEWLINE]), SerializeItems(v.items, level + 1, pretty),
                     PrettyOnly(pretty, Indent(level)), 93);
    }
  }

  lemma {:induction false} ObjectIsLaidOut(v: Json, level: nat, pretty: bool)
    requires Valid(v) && v.Object? && WellSpelled(Layout(v, level, pretty))
    ensures Serialize(v, level, pretty) == Text(Layout(v, level, pretty))
    decreases v, 1
  {
    if v.members != [] {
      MembersLaidOut(v.members, level, pretty);
      BracketsAround(123, PrettyOnly(pretty, [NEWLINE]), SerializeMembers(v.members, level + 1, pretty),
                     PrettyOnly(pretty, Indent(level)), 125);
    }
  }

  lemma BracketsAround(open: byte, a: bytes, b: bytes, c: bytes, close: byte)
    ensures [open] + a + b + c + [close] == [open] + (a + b + c) + [close]
  {
  }

  lemma ItemGroups(nl: bytes, indent: bytes, s: bytes, comma: bytes, others: bytes, last: bytes)
    ensures nl + (indent + s + comma + nl + others) + last == nl + indent + s + (comma + (nl + others + last))
  {
    assert nl + (indent + s + comma + nl + others) + last == nl + indent + s + comma + nl + others + last;
  }

  /** The text of the elements, the first one apart. */
  lemma ElementsTextIs(e: Element, others: seq<Element>)
    requires WellSpelled(e.value) && WellSpelledElements(others)
    ensures WellSpelledElements([e] + others)
    ensures ElementsText([e] + others)
         == GapText(e.before) + Text(e.value) + GapText(e.after) + if others == [] then [] else [44] + ElementsText(others)
  {
    assert ([e] + others)[1..] == others;
  }

  lemma {:induction false} ItemsLaidOut(items: seq<Json>, level: nat, pretty: bool)
    requires items != [] && forall i | 0 <= i < |items| :: Valid(items[i])
    ensures WellSpelledElements(LaidItems(items, level, pretty))
    ensures PrettyOnly(pretty, [NEWLINE]) + SerializeItems(items, level + 1, pretty) + PrettyOnly(pretty, Indent(level))
         == ElementsText(LaidItems(items, level, pretty))
    decreases items, 0
  {
    var e := LaidItems(items, level, pretty)[0];
    LaidItemsMean(items[1..], level, pretty);
    SerializeIsLaidOut(items[0], level + 1, pretty);
    ElementsTextIs(e, LaidItems(items[1..], level, pretty));
    NewLineText(pretty, level + 1);
    if |items| > 1 {
      ItemsLaidOut(items[1..], level, pretty);
      MoreItemsText(items, level, pretty, ElementsText(LaidItems(items[1..], level, pretty)));
    } else {
      NewLineText(pretty, level);
      LastItemText(items, level, pretty);
    }
  }

  lemma MoreItemsText(items: seq<Json>, level: nat, pretty: bool, others: bytes)
    requires |items| > 1
    requires others == PrettyOnly(pretty, [NEWLINE]) + SerializeItems(items[1..], level + 1, pretty)
                       + PrettyOnly(pretty, Indent(level))
    ensures PrettyOnly(pretty, [NEWLINE]) + SerializeItems(items, level + 1, pretty) + PrettyOnly(pretty, Indent(level))
         == PrettyOnly(pretty, [NEWLINE]) + PrettyOnly(pretty, Indent(level + 1)) + Serialize(items[0], level + 1, pretty)
            + [] + ([44] + others)
  {
    var s := Serialize(items[0], level + 1, pretty);
    ItemGroups(PrettyOnly(pretty, [NEWLINE]), PrettyOnly(pretty, Indent(level + 1)), s, [44],
               SerializeItems(items[1..], level + 1, pretty), PrettyOnly(pretty, Indent(level)));
    var p := PrettyOnly(pretty, [NEWLINE]) + PrettyOnly(pretty, Indent(level + 1)) + s;
    assert p + [] == p;
  }

  lemma LastItemText(items: seq<Json>, level: nat, pretty: bool)
    requires |items| == 1
    ensures PrettyOnly(pretty, [NEWLINE]) + SerializeItems(items, level + 1, pretty) + PrettyOnly(pretty, Indent(level))
         == PrettyOnly(pretty, [NEWLINE]) + PrettyOnly(pretty, Indent(level + 1)) + Serialize(items[0], level + 1, pretty)
            + (PrettyOnly(pretty, [NEWLINE]) + PrettyOnly(pretty, Indent(level))) + []
  {
    var nl, last := PrettyOnly(pretty, [NEWLINE]), PrettyOnly(pretty, Indent(level));
    assert items[1..] == [] && nl + [] + last == nl + last;
    ItemGroups(nl, PrettyOnly(pretty, Indent(level + 1)), Serialize(items[0], level + 1, pretty), [], [], last);
    assert [] + (nl + last) == nl + last && nl + last + [] == nl + last;
  }

  lemma MemberGroups(nl: bytes, indent: bytes, name: bytes, blank: bytes, s: bytes, comma: bytes, others: bytes, last: bytes)
    ensures nl + (indent + name + [COLON] + blank + s + comma + nl + others) + last
         == nl + indent + name + [] + [58] + blank + s + (comma + (nl + others + last))
  {
    assert nl + (indent + name + [COLON] + blank + s + comma + nl + others) + last
        == nl + indent + name + [COLON] + blank + s + comma + nl + others + last;
    assert name + [] == name;
  }

  /** The text of the entries, the first one apart. */
  lemma EntriesTextIs(e: Entry, others: seq<Entry>)
    requires ValidBody(e.name) && e.opener == 34 && WellSpelled(e.value) && WellSpelledEntries(others)
    ensures WellSpelledEntries([e] + others)
    ensures EntriesText([e] + others)
         == GapText(e.before) + NameText(e) + GapText(e.afterName) + [58] + GapText(e.beforeValue) + Text(e.value)
            + GapText(e.after) + if others == [] then [] else [44] + EntriesText(others)
  {
    assert ([e] + others)[1..] == others;
  }

  lemma {:induction false} MembersLaidOut(ms: seq<Member>, level: nat, pretty: bool)
    requires ms != [] && forall i | 0 <= i < |ms| :: NulFree(ms[i].name) && Valid(ms[i].value)
    ensures WellSpelledEntries(LaidMembers(ms, level, pretty))
    ensures PrettyOnly(pretty, [NEWLINE]) + SerializeMembers(ms, level + 1, pretty) + PrettyOnly(pretty, Indent(level))
         == EntriesText(LaidMembers(ms, level, pretty))
    decreases ms, 0
  {
    var e := LaidMembers(ms, level, pretty)[0];
    LaidMembersMean(ms[1..], level, pretty);
    SerializeIsLaidOut(ms[0].value, level + 1, pretty);
    PiecesMean(ms[0].name);
    EntriesTextIs(e, LaidMembers(ms[1..], level, pretty));
    NewLineText(pretty, level + 1);
    BlankText(pretty);
    if |ms| > 1 {
      MembersLaidOut(ms[1..], level, pretty);
      MoreMembersText(ms, level, pretty, EntriesText(LaidMembers(ms[1..], level, pretty)));
    } else {
      NewLineText(pretty, level);
      LastMemberText(ms, level, pretty);
    }
  }

  lemma BlankText(pretty: bool)
    ensures GapText(if pretty then [White(32)] else []) == PrettyOnly(pretty, [SPACE])
  {
    assert GapText([White(32)]) == [32] + GapText([]);
  }

  /** A member up to behind its value. */
  ghost function UpToValue(m: Member, level: nat, pretty: bool): bytes {
    PrettyOnly(pretty, [NEWLINE]) + PrettyOnly(pretty, Indent(level + 1)) + StringText(m.name) + [] + [58]
    + PrettyOnly(pretty, [SPACE]) + Serialize(m.value, level + 1, pretty)
  }

  lemma MoreMembersText(ms: seq<Member>, level: nat, pretty: bool, others: bytes)
    requires |ms| > 1
    requires others == PrettyOnly(pretty, [NEWLINE]) + SerializeMembers(ms[1..], level + 1, pretty)
                       + PrettyOnly(pretty, Indent(level))
    ensures PrettyOnly(pretty, [NEWLINE]) + SerializeMembers(ms, level + 1, pretty) + PrettyOnly(pretty, Indent(level))
         == UpToValue(ms[0], level, pretty) + [] + ([44] + others)
  {
    MemberGroups(PrettyOnly(pretty, [NEWLINE]), PrettyOnly(pretty, Indent(level + 1)), StringText(ms[0].name),
                 PrettyOnly(pretty, [SPACE]), Serialize(ms[0].value, level + 1, pretty), [44],
                 SerializeMembers(ms[1..], level + 1, pretty), PrettyOnly(pretty, Indent(level)));
    assert UpToValue(ms[0], level, pretty) + [] == UpToValue(ms[0], level, pretty);
  }

  lemma LastMemberText(ms: seq<Member>, level: nat, pretty: bool)
    requires |ms| == 1
    ensures PrettyOnly(pretty, [NEWLINE]) + SerializeMembers(ms, level + 1, pretty) + PrettyOnly(pretty, Indent(level))
         == UpToValue(ms[0], level, pretty) + (PrettyOnly(pretty, [NEWLINE]) + PrettyOnly(pretty, Indent(level))) + []
  {
    var nl, last := PrettyOnly(pretty, [NEWLINE]), PrettyOnly(pretty, Indent(level));
    var others := SerializeMembers(ms[1..], level + 1, pretty);
    MemberGroups(nl, PrettyOnly(pretty, Indent(level + 1)), StringText(ms[0].name), PrettyOnly(pretty, [SPACE]),
                 Serialize(ms[0].value, level + 1, pretty), [], others, last);
    NothingBehind(UpToValue(ms[0], level, pretty), nl, others, last);
  }

  lemma NothingBehind(a: bytes, nl: bytes, others: bytes, last: bytes)
    requires others == []
    ensures a + ([] + (nl + others + last)) == a + (nl + last) + []
  {
  }

  // ---- the theorem ----

  lemma {:induction false} TrimKeepsDepth(v: Json)
    ensures Depth(Trim(v)) == Depth(v)
    decreases v, 1
  {
    match v
    case Array(items, _) => TrimItemsKeepsDepth(items);
    case Object(ms, _) => TrimMembersKeepsDepth(ms);
    case _ =>
  }

  lemma {:induction false} TrimItemsKeepsDepth(items: seq<Json>)
    ensures DepthOfItems(TrimItems(items)) == DepthOfItems(items)
    decreases items, 0
  {
    if items != [] {
      assert TrimItems(items)[1..] == TrimItems(items[1..]);
      TrimKeepsDepth(items[0]);
      TrimItemsKeepsDepth(items[1..]);
    }
  }

  lemma {:induction false} TrimMembersKeepsDepth(ms: seq<Member>)
    ensures DepthOfMembers(TrimMembers(ms)) == DepthOfMembers(ms)
    decreases ms, 0
  {
    if ms != [] {
      assert TrimMembers(ms)[1..] == TrimMembers(ms[1..]);
      TrimKeepsDepth(ms[0].value);
      TrimMembersKeepsDepth(ms[1..]);
    }
  }

  lemma {:induction false} TrimIsValid(v: Json)
    requires Valid(v)
    ensures Valid(Trim(v))
  {
    match v
    case Array(items, _) =>
      forall i | 0 <= i < |items| ensures Valid(TrimItems(items)[i]) {
        TrimIsValid(items[i]);
      }
    case Object(ms, _) =>
      forall i | 0 <= i < |ms| ensures Valid(TrimMembers(ms)[i].value) {
        TrimIsValid(ms[i].value);
      }
    case _ =>
  }

  /**
   For every object or array the API can build, with integer numbers of any size, in both layouts: the parser reads
   the serialized text back, to its very end, exactly when the value nests at most nineteen deep and no string holds a
   raw control byte; what it reads is the same value with every store cut to its count. Otherwise the parser rejects
   the text.
   */
  lemma RoundTrip(v: Json, pretty: bool)
    requires Valid(v) && IsContainer(v)
    ensures ParseString(Serialize(v, 0, pretty))
            == if Depth(v) <= MAX_NESTING && CleanStrings(v) then Some(Parsed(Trim(v), [])) else None
  {
    var sp := Layout(v, 0, pretty);
    LayoutMeans(v, 0, pretty);
    SerializeIsLaidOut(v, 0, pretty);
    AloneIsRead(sp, Serialize(v, 0, pretty));
    TrimKeepsDepth(v);
    TrimIsValid(v);
  }

  /** What comes back is equal to the original by the library's own comparison. */
  lemma RoundTripEquals(v: Json, pretty: bool)
    requires Valid(v) && IsContainer(v) && Depth(v) <= MAX_NESTING && CleanStrings(v)
    ensures ParseString(Serialize(v, 0, pretty)).Some?
    ensures JsonEquals(v, ParseString(Serialize(v, 0, pretty)).value.value)
  {
    RoundTrip(v, pretty);
    TrimKeepsMeaning(v);
    TrimIsValid(v);
    EqualsIffSameMeaning(v, Trim(v));
  }

  /** Both layouts of a value read back to the same value. */
  lemma LayoutsAgree(v: Json)
    requires Valid(v) && IsContainer(v)
    ensures ParseString(Serialize(v, 0, true)) == ParseString(Serialize(v, 0, false))
  {
    RoundTrip(v, true);
    RoundTrip(v, false);
  }

  lemma UncleanIsRefused(v: Json, pretty: bool)
    requires Valid(v) && IsContainer(v) && !CleanStrings(v)
    ensures ParseString(Serialize(v, 0, pretty)) == None
  {
    RoundTrip(v, pretty);
  }

  lemma ControlByteIsUnclean(c: byte, s: bytes)
    requires s == [c] && 0 < c < 0x20 && c !in {8, 9, 10, 12, 13}
    ensures NulFree(s) && !Clean(s) && StringText(s) == [QUOTE, c, QUOTE]
  {
    assert s[0] == c && s[1..] == [];
    assert EscapeAll(s) == [c];
  }

  /** A control byte without a short escape is written raw and then refused. */
  lemma RawControlByteIsRefused(c: byte, pretty: bool)
    requires 0 < c < 0x20 && c !in {8, 9, 10, 12, 13}
    ensures var v := Array([Str([c])], 15);
      Valid(v) && StringText([c]) == [QUOTE, c, QUOTE] && ParseString(Serialize(v, 0, pretty)) == None
  {
    var v := Array([Str([c])], 15);
    ControlByteIsUnclean(c, [c]);
    assert !CleanStrings(v.items[0]);
    UncleanIsRefused(v, pretty);
  }
}
