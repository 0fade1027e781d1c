/**
 The grammar of JSON texts (RFC 8259), apart from the parser and the writer: what is written, and what it stands for.
 It is as wide as what the library accepts; Standard tells which spellings the RFC allows.
 */
module JsonGrammar {
  import opened Bytes
  import opened JsonValue
  import opened Utf8

  // ---- strings: section 7 ----

  type Nibble = n: nat | n < 16

  datatype HexChar = HexChar(digit: Nibble, upper: bool)

  /** The four hexadecimal digits of an escape. */
  datatype Unit = Unit(a: HexChar, b: HexChar, c: HexChar, d: HexChar)

  /** A byte as it is, a backslash and a letter, one escaped code unit, or an escaped surrogate pair. */
  datatype Piece = Plain(b: byte) | Short(letter: byte) | Unicode(u: Unit) | Pair(lead: Unit, trail: Unit)

  function HexByte(h: HexChar): byte {
    if h.digit < 10 then 48 + h.digit else if h.upper then 55 + h.digit else 87 + h.digit
  }

  function UnitText(u: Unit): bytes {
    [HexByte(u.a), HexByte(u.b), HexByte(u.c), HexByte(u.d)]
  }

  function UnitValue(u: Unit): nat {
    4096 * u.a.digit + 256 * u.b.digit + 16 * u.c.digit + u.d.digit
  }

  predicate ValidPiece(p: Piece) {
    match p
    case Plain(b) => b !in {0, 34, 92}
    case Short(letter) => letter in {34, 92, 47, 98, 102, 110, 114, 116}
    case Unicode(u) => !(0xD800 <= UnitValue(u) <= 0xDFFF)
    case Pair(lead, trail) => 0xD800 <= UnitValue(lead) <= 0xDBFF && 0xDC00 <= UnitValue(trail) <= 0xDFFF
  }

  /** A control byte as it is, which no JSON string may hold. */
  predicate Raw(p: Piece) {
    p.Plain? && p.b < 32
  }

  function PieceText(p: Piece): (s: bytes)
    ensures s != []
  {
    match p
    case Plain(b) => [b]
    case Short(letter) => [92, letter]
    case Unicode(u) => [92, 117] + UnitText(u)
    case Pair(lead, trail) => [92, 117] + UnitText(lead) + ([92, 117] + UnitText(trail))
  }

  /** The bytes a piece stands for. */
  function PieceMeaning(p: Piece): bytes
    requires ValidPiece(p)
  {
    match p
    case Plain(b) => [b]
    case Short(letter) =>
      if letter == 98 then [8]
      else if letter == 102 then [12]
      else if letter == 110 then [10]
      else if letter == 114 then [13]
      else if letter == 116 then [9]
      else [letter]
    case Unicode(u) => Encode(UnitValue(u))
    case Pair(lead, trail) => Encode(0x10000 + 1024 * (UnitValue(lead) - 0xD800) + (UnitValue(trail) - 0xDC00))
  }

  predicate ValidBody(ps: seq<Piece>) {
    forall i | 0 <= i < |ps| :: ValidPiece(ps[i])
  }

  predicate NoRaw(ps: seq<Piece>) {
    forall i | 0 <= i < |ps| :: !Raw(ps[i])
  }

  function BodyText(ps: seq<Piece>): bytes {
    if ps == [] then [] else PieceText(ps[0]) + BodyText(ps[1..])
  }

  function BodyMeaning(ps: seq<Piece>): bytes
    requires ValidBody(ps)
  {
    if ps == [] then [] else PieceMeaning(ps[0]) + BodyMeaning(ps[1..])
  }

  /** The C string a body stands for. */
  function Chars(ps: seq<Piece>): bytes
    requires ValidBody(ps)
  {
    UpToNul(BodyMeaning(ps))
  }

  // ---- numbers: section 6, as far as integers go ----

  predicate DecimalDigits(ds: seq<nat>) {
    forall i | 0 <= i < |ds| :: ds[i] < 10
  }

  function DigitsText(ds: seq<nat>): (s: bytes)
    requires DecimalDigits(ds)
    ensures |s| == |ds|
    ensures forall i | 0 <= i < |s| :: s[i] == 48 + ds[i]
  {
    if ds == [] then [] else [48 + ds[0]] + DigitsText(ds[1..])
  }

  function DigitsValue(ds: seq<nat>): nat {
    if ds == [] then 0 else 10 * DigitsValue(ds[..|ds| - 1]) + ds[|ds| - 1]
  }

  function Zeros(n: nat): (s: bytes)
    ensures |s| == n
    ensures forall i | 0 <= i < n :: s[i] == 48
  {
    if n == 0 then [] else [48] + Zeros(n - 1)
  }

  /** A dot and zeros, or nothing. */
  function FractionText(zeros: Option<nat>): bytes {
    match zeros
    case None => []
    case Some(n) => [46] + Zeros(n)
  }

  // ---- between the tokens: section 2, and the comments the library can strip ----

  datatype Filler = White(b: byte) | Block(comment: bytes) | Line(comment: bytes)

  type Gap = seq<Filler>

  function FillerText(f: Filler): bytes {
    match f
    case White(b) => [b]
    case Block(c) => [47, 42] + c + [42, 47]
    case Line(c) => [47, 47] + c + [10]
  }

  function GapText(g: Gap): bytes {
    if g == [] then [] else FillerText(g[0]) + GapText(g[1..])
  }

  /** Only white space: what isspace takes for it. */
  predicate PlainGap(g: Gap) {
    forall i | 0 <= i < |g| :: g[i].White? && g[i].b in {32, 9, 10, 11, 12, 13}
  }

  // ---- values: sections 3 to 5 ----

  datatype Spelling =
    | NullWord
    | TrueWord
    | FalseWord
    | Numeral(negative: bool, digits: seq<nat>, zeros: Option<nat>)
    | Literal(body: seq<Piece>)
    | ArrayOf(inside: Gap, elements: seq<Element>)
    | ObjectOf(inside: Gap, entries: seq<Entry>)

  datatype Element = Element(before: Gap, value: Spelling, after: Gap)

  datatype Entry = Entry(before: Gap, opener: byte, name: seq<Piece>, afterName: Gap, beforeValue: Gap,
                         value: Spelling, after: Gap)

  function Text(sp: Spelling): bytes
    requires WellSpelled(sp)
    decreases sp, 1
  {
    match sp
    case NullWord => [110, 117, 108, 108]
    case TrueWord => [116, 114, 117, 101]
    case FalseWord => [102, 97, 108, 115, 101]
    case Numeral(negative, digits, zeros) =>
      (if negative then [45] else []) + DigitsText(digits) + FractionText(zeros)
    case Literal(body) => [34] + BodyText(body) + [34]
    case ArrayOf(inside, es) => [91] + (if es == [] then GapText(inside) else ElementsText(es)) + [93]
    case ObjectOf(inside, es) => [123] + (if es == [] then GapText(inside) else EntriesText(es)) + [125]
  }

  function ElementsText(es: seq<Element>): bytes
    requires WellSpelledElements(es)
    decreases es, 0
  {
    if es == [] then []
    else
      GapText(es[0].before) + Text(es[0].value) + GapText(es[0].after)
      + if |es| == 1 then [] else [44] + ElementsText(es[1..])
  }

  /** The name of an entry with its quotes. */
  function NameText(e: Entry): bytes {
    [e.opener] + BodyText(e.name) + [34]
  }

  function EntriesText(es: seq<Entry>): bytes
    requires WellSpelledEntries(es)
    decreases es, 0
  {
    if es == [] then []
    else
      GapText(es[0].before) + NameText(es[0]) + GapText(es[0].afterName) + [58]
      + GapText(es[0].beforeValue) + Text(es[0].value) + GapText(es[0].after)
      + if |es| == 1 then [] else [44] + EntriesText(es[1..])
  }

  /** What the library takes for a spelling: the opening quote of a name may be nearly any byte. */
  predicate WellSpelled(sp: Spelling)
    decreases sp, 1
  {
    match sp
    case Numeral(_, digits, _) => digits != [] && DecimalDigits(digits) && (|digits| > 1 ==> digits[0] != 0)
    case Literal(body) => ValidBody(body)
    case ArrayOf(_, es) => WellSpelledElements(es)
    case ObjectOf(_, es) => WellSpelledEntries(es) && (es != [] ==> es[0].opener != 125)
    case _ => true
  }

  predicate WellSpelledElements(es: seq<Element>)
    decreases es, 0
  {
    es == [] || (WellSpelled(es[0].value) && WellSpelledElements(es[1..]))
  }

  predicate WellSpelledEntries(es: seq<Entry>)
    decreases es, 0
  {
    es == [] || (
      && ValidBody(es[0].name) && es[0].opener !in {0, 32, 9, 10, 11, 12, 13}
      && WellSpelled(es[0].value) && WellSpelledEntries(es[1..]))
  }

  /** The value a spelling stands for, its stores cut to their counts. */
  function Value(sp: Spelling): (v: Json)
    requires WellSpelled(sp)
    ensures v.Array? <==> sp.ArrayOf?
    ensures v.Object? <==> sp.ObjectOf?
    decreases sp, 1
  {
    match sp
    case NullWord => Null
    case TrueWord => Bool(true)
    case FalseWord => Bool(false)
    case Numeral(negative, digits, _) => Number(if negative then 0 - DigitsValue(digits) else DigitsValue(digits))
    case Literal(body) => Str(Chars(body))
    case ArrayOf(_, es) => Array(ElementValues(es), |es|)
    case ObjectOf(_, es) => Object(EntryMembers(es), |es|)
  }

  function ElementValues(es: seq<Element>): (vs: seq<Json>)
    requires WellSpelledElements(es)
    ensures |vs| == |es|
    decreases es, 0
  {
    if es == [] then [] else [Value(es[0].value)] + ElementValues(es[1..])
  }

  function EntryMembers(es: seq<Entry>): (ms: seq<Member>)
    requires WellSpelledEntries(es)
    ensures |ms| == |es|
    decreases es, 0
  {
    if es == [] then [] else [Member(Chars(es[0].name), Value(es[0].value))] + EntryMembers(es[1..])
  }

  /** No comment in any gap. */
  predicate PlainGaps(sp: Spelling)
    decreases sp, 1
  {
    match sp
    case ArrayOf(inside, es) => if es == [] then PlainGap(inside) else PlainElements(es)
    case ObjectOf(inside, es) => if es == [] then PlainGap(inside) else PlainEntries(es)
    case _ => true
  }

  predicate PlainElements(es: seq<Element>)
    decreases es, 0
  {
    es == [] || (
      && PlainGap(es[0].before) && PlainGaps(es[0].value) && PlainGap(es[0].after)
      && PlainElements(es[1..]))
  }

  predicate PlainEntries(es: seq<Entry>)
    decreases es, 0
  {
    es == [] || (
      && PlainGap(es[0].before) && PlainGap(es[0].afterName) && PlainGap(es[0].beforeValue)
      && PlainGaps(es[0].value) && PlainGap(es[0].after)
      && PlainEntries(es[1..]))
  }

  /** No raw control byte in any literal or name. */
  predicate Legible(sp: Spelling)
    decreases sp, 1
  {
    match sp
    case Literal(body) => NoRaw(body)
    case ArrayOf(_, es) => LegibleElements(es)
    case ObjectOf(_, es) => LegibleEntries(es)
    case _ => true
  }

  predicate LegibleElements(es: seq<Element>)
    decreases es, 0
  {
    es == [] || (Legible(es[0].value) && LegibleElements(es[1..]))
  }

  predicate LegibleEntries(es: seq<Entry>)
    decreases es, 0
  {
    es == [] || (NoRaw(es[0].name) && Legible(es[0].value) && LegibleEntries(es[1..]))
  }
}
