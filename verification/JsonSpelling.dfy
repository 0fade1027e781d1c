/** The parser reads every spelling of a value to that value, whatever the white space, and nothing else. */
module JsonSpelling {
  import opened Bytes
  import opened JsonValue
  import opened JsonText
  import opened JsonParser
  import opened JsonGrammar
  import opened JsonLiterals
  import opened JsonMaps
  import opened JsonCompare

  // ---- gaps ----

  lemma SkipNone(t: bytes)
    requires !IsSpace(Head(t))
    ensures SkipSpaces(t) == t
  {
  }

  lemma {:induction false} SkipGap(s: bytes, g: Gap, t: bytes)
    requires PlainGap(g) && s == GapText(g) + t
    ensures SkipSpaces(s) == SkipSpaces(t)
    decreases g
  {
    if g == [] {
      assert s == t;
    } else {
      assert s[0] == g[0].b && s[1..] == GapText(g[1..]) + t;
      SkipGap(s[1..], g[1..], t);
    }
  }

  /** A gap in front of a byte that is no space. */
  lemma SkipTo(s: bytes, g: Gap, t: bytes)
    requires PlainGap(g) && s == GapText(g) + t && !IsSpace(Head(t))
    ensures SkipSpaces(s) == t
  {
    SkipGap(s, g, t);
    SkipNone(t);
  }

  // ---- numbers ----

  /** What may follow a number: it is not taken for more of the number. */
  predicate Ends(t: bytes) {
    t != [] && t[0] in {32, 9, 10, 11, 12, 13, 44, 93, 125}
  }

  lemma {:induction false} DigitCountIs(s: bytes, d: bytes, t: bytes)
    requires AllDigits(d) && s == d + t && !IsDigit(Head(t))
    ensures DigitCount(s) == |d|
    decreases d
  {
    if d == [] {
      assert s == t;
    } else {
      assert IsDigit(d[0]) && s[0] == d[0];
      assert s[1..] == d[1..] + t;
      DigitCountIs(s[1..], d[1..], t);
    }
  }

  lemma FrontText(ds: seq<nat>)
    requires DecimalDigits(ds) && ds != []
    ensures DigitsText(ds[..|ds| - 1]) == DigitsText(ds)[..|ds| - 1]
  {
  }

  lemma LastValue(d: bytes)
    requires AllDigits(d) && d != []
    ensures AllDigits(d[..|d| - 1]) && d[|d| - 1] >= 48
    ensures DecimalValue(d) == 10 * DecimalValue(d[..|d| - 1]) + (d[|d| - 1] - 48)
  {
    assert IsDigit(d[|d| - 1]);
  }

  lemma {:induction false} DigitsMean(ds: seq<nat>)
    requires DecimalDigits(ds)
    ensures AllDigits(DigitsText(ds)) && DecimalValue(DigitsText(ds)) == DigitsValue(ds)
  {
    var d := DigitsText(ds);
    assert forall i | 0 <= i < |d| :: IsDigit(d[i]);
    if ds != [] {
      DigitsMean(ds[..|ds| - 1]);
      FrontText(ds);
      LastValue(d);
    }
  }

  lemma FractionRead(s: bytes, n: nat, t: bytes)
    requires Ends(t) && s == FractionText(Some(n)) + t
    ensures ZeroFraction(s) == Some(1 + n)
  {
    var zeros := Zeros(n);
    assert s[0] == 46 && s[1..] == zeros + t;
    assert forall i | 0 <= i < n :: IsDigit(zeros[i]);
    DigitCountIs(s[1..], zeros, t);
    assert s[n + 1..] == t;
    assert forall i | 1 <= i <= n :: s[i] == zeros[i - 1];
  }

  lemma DigitsInFront(s: bytes, d: bytes, rest: bytes)
    requires AllDigits(d) && s == d + rest && !IsDigit(Head(rest))
    ensures DigitCount(s) == |d| && s[..|d|] == d && s[|d|..] == rest
  {
    DigitCountIs(s, d, rest);
  }

  /** A number of this magnitude has been read from so many bytes. */
  predicate Magnitude(r: Option<(nat, nat)>, m: nat, taken: nat) {
    r.Some? && r.value.0 == m && r.value.1 == taken
  }

  lemma StrtodInFront(s: bytes, d: bytes, rest: bytes)
    requires d != [] && AllDigits(d) && s == d + rest && !IsDigit(Head(rest))
    ensures Head(rest) == DOT && ZeroFraction(rest).Some? ==>
      Magnitude(StrtodDigits(s), DecimalValue(d), |d| + ZeroFraction(rest).value)
    ensures !LeavesIntegers(Head(rest)) ==> Magnitude(StrtodDigits(s), DecimalValue(d), |d|)
  {
    DigitsInFront(s, d, rest);
  }

  lemma IntegerRead(s: bytes, ds: seq<nat>, t: bytes)
    requires DecimalDigits(ds) && ds != [] && Ends(t) && s == DigitsText(ds) + t
    ensures Magnitude(StrtodDigits(s), DigitsValue(ds), |ds|)
  {
    DigitsMean(ds);
    StrtodInFront(s, DigitsText(ds), t);
  }

  lemma IntegerWithZerosRead(s: bytes, ds: seq<nat>, n: nat, rest: bytes, t: bytes)
    requires DecimalDigits(ds) && ds != [] && Ends(t) && s == DigitsText(ds) + rest && rest == FractionText(Some(n)) + t
    ensures Magnitude(StrtodDigits(s), DigitsValue(ds), |ds| + (1 + n))
  {
    DigitsMean(ds);
    FractionRead(rest, n, t);
    assert rest[0] == 46;
    StrtodInFront(s, DigitsText(ds), rest);
  }

  predicate Converted(r: Option<(int, nat)>, n: int, taken: nat) {
    r.Some? && r.value.0 == n && r.value.1 == taken
  }

  lemma SignedRead(s: bytes, negative: bool, unsigned: bytes, m: nat, taken: nat)
    requires s == (if negative then [45] else []) + unsigned
    requires taken > 0 && Magnitude(StrtodDigits(unsigned), m, taken) && Head(unsigned) != MINUS
    ensures Converted(StrtodInteger(s), if negative then 0 - m else m, (if negative then 1 else 0) + taken)
  {
    if negative {
      assert s[0] == 45 && s[1..] == unsigned;
    } else {
      assert s == unsigned;
    }
  }

  lemma NumeralIsDecimal(s: bytes, number: bytes, sign: bytes, d: bytes, fraction: bytes, t: bytes)
    requires s == number + t && number == sign + d + fraction
    requires sign in {[], [45]} && d != [] && AllDigits(d) && (|d| > 1 ==> d[0] != 48)
    requires fraction != [] ==> fraction[0] == 46
    requires forall i | 0 <= i < |fraction| :: fraction[i] in {46, 48}
    ensures IsDecimal(s, |number|)
  {
    assert forall i | 0 <= i < |number| :: s[i] == number[i];
    assert forall i | 0 <= i < |d| :: number[|sign| + i] == d[i] && IsDigit(d[i]);
    assert |d| == 1 && fraction != [] ==> number[|sign| + 1] == 46;
  }

  lemma NumeralGroups(s: bytes, sign: bytes, d: bytes, fraction: bytes, t: bytes)
    requires s == sign + d + fraction + t
    ensures s == sign + (d + (fraction + t)) && s[|sign + d + fraction|..] == t
  {
    assert sign + d + fraction + t == sign + (d + (fraction + t));
  }

  lemma UnsignedRead(s: bytes, ds: seq<nat>, zeros: Option<nat>, t: bytes)
    requires DecimalDigits(ds) && ds != [] && Ends(t) && s == DigitsText(ds) + (FractionText(zeros) + t)
    ensures Head(s) != MINUS && Magnitude(StrtodDigits(s), DigitsValue(ds), |ds| + |FractionText(zeros)|)
  {
    assert s[0] == DigitsText(ds)[0];
    match zeros
    case None =>
      assert FractionText(zeros) + t == t;
      IntegerRead(s, ds, t);
    case Some(n) => IntegerWithZerosRead(s, ds, n, FractionText(zeros) + t, t);
  }

  lemma NumberIs(s: bytes, number: bytes, n: int, t: bytes)
    requires s == number + t && Converted(StrtodInteger(s), n, |number|) && IsDecimal(s, |number|)
    ensures ParseNumber(s) == Some(Parsed(Number(n), t))
  {
  }

  lemma NumeralShape(s: bytes, number: bytes, sign: bytes, ds: seq<nat>, zeros: Option<nat>, t: bytes)
    requires DecimalDigits(ds) && ds != [] && (|ds| > 1 ==> ds[0] != 0)
    requires s == number + t && number == sign + DigitsText(ds) + FractionText(zeros) && sign in {[], [45]}
    ensures IsDecimal(s, |number|)
  {
    DigitsMean(ds);
    NumeralIsDecimal(s, number, sign, DigitsText(ds), FractionText(zeros), t);
  }

  lemma AssembledNumber(s: bytes, number: bytes, negative: bool, unsigned: bytes, m: nat, taken: nat, n: int, t: bytes)
    requires s == (if negative then [45] else []) + unsigned && Head(unsigned) != MINUS
    requires taken > 0 && Magnitude(StrtodDigits(unsigned), m, taken) && n == (if negative then 0 - m else m)
    requires s == number + t && |number| == (if negative then 1 else 0) + taken && IsDecimal(s, |number|)
    ensures ParseNumber(s) == Some(Parsed(Number(n), t))
  {
    SignedRead(s, negative, unsigned, m, taken);
    NumberIs(s, number, n, t);
  }

  lemma NumeralRead(sp: Spelling, s: bytes, t: bytes)
    requires sp.Numeral? && WellSpelled(sp) && Ends(t) && s == Text(sp) + t
    ensures ParseNumber(s) == Some(Parsed(Value(sp), t))
  {
    var sign: bytes := if sp.negative then [45] else [];
    var d, fraction := DigitsText(sp.digits), FractionText(sp.zeros);
    NumeralShape(s, Text(sp), sign, sp.digits, sp.zeros, t);
    NumeralGroups(s, sign, d, fraction, t);
    UnsignedRead(d + (fraction + t), sp.digits, sp.zeros, t);
    AssembledNumber(s, Text(sp), sp.negative, d + (fraction + t), DigitsValue(sp.digits), |d| + |fraction|, Value(sp).n, t);
  }

  // ---- what fits ----

  /** The parser's conditions on a spelling at some nesting. */
  predicate Fits(sp: Spelling, nesting: nat)
    requires WellSpelled(sp)
    decreases sp, 1
  {
    && nesting <= MAX_NESTING
    && match sp
       case Literal(body) => NoRaw(body)
       case ArrayOf(_, es) => |es| <= ARRAY_MAX_CAPACITY && ElementsFit(es, nesting + 1)
       case ObjectOf(_, es) =>
         |es| <= OBJECT_MAX_CAPACITY && DistinctNames(EntryMembers(es)) && EntriesFit(es, nesting + 1)
       case _ => true
  }

  predicate ElementsFit(es: seq<Element>, nesting: nat)
    requires WellSpelledElements(es)
    decreases es, 0
  {
    es == [] || (Fits(es[0].value, nesting) && ElementsFit(es[1..], nesting))
  }

  predicate EntriesFit(es: seq<Entry>, nesting: nat)
    requires WellSpelledEntries(es)
    decreases es, 0
  {
    es == [] || (NoRaw(es[0].name) && Fits(es[0].value, nesting) && EntriesFit(es[1..], nesting))
  }

  // ---- scalars ----

  /** A spelling starts with neither a space, a terminator nor a closing bracket. */
  lemma SpellingHead(sp: Spelling, s: bytes, t: bytes)
    requires WellSpelled(sp) && s == Text(sp) + t
    ensures Head(s) != 0 && !IsSpace(Head(s)) && Head(s) != RBRACKET
    ensures match sp
            case ArrayOf(_, _) => Head(s) == LBRACKET
            case ObjectOf(_, _) => Head(s) == LBRACE
            case Literal(_) => Head(s) == QUOTE
            case Numeral(_, _, _) => Head(s) == MINUS || IsDigit(Head(s))
            case NullWord => Head(s) == LOWER_N
            case TrueWord => Head(s) == LOWER_T
            case FalseWord => Head(s) == LOWER_F
  {
    assert s[0] == Text(sp)[0];
    match sp
    case Numeral(negative, digits, _) => assert !negative ==> s[0] == DigitsText(digits)[0];
    case _ =>
  }

  lemma TokenRead(s: bytes, token: bytes, v: Json, t: bytes)
    requires s == token + t
    ensures token <= s && ParseToken(s, token, v) == Some(Parsed(v, t))
  {
  }

  lemma ScalarRead(sp: Spelling, s: bytes, t: bytes, nesting: nat)
    requires WellSpelled(sp) && !sp.ArrayOf? && !sp.ObjectOf? && Ends(t) && s == Text(sp) + t
    ensures ParseValue(s, nesting) == if Fits(sp, nesting) then Some(Parsed(Value(sp), t)) else None
  {
    SpellingHead(sp, s, t);
    SkipNone(s);
    match sp
    case Literal(body) => LiteralRead(s, 34, body, t);
    case Numeral(_, _, _) => NumeralRead(sp, s, t);
    case NullWord => TokenRead(s, NULL_TEXT, Null, t);
    case TrueWord => TokenRead(s, TRUE_TEXT, Bool(true), t);
    case FalseWord =>
      TokenRead(s, FALSE_TEXT, Bool(false), t);
      assert !(TRUE_TEXT <= s);
  }

  // ---- arrays ----

  /** What stands behind the elements read so far: the others, or the closing bracket. */
  function Behind(more: bool, others: bytes, bracket: byte, u: bytes): bytes {
    if more then [44] + others else [bracket] + u
  }

  lemma GapThenBehind(s: bytes, g: Gap, more: bool, others: bytes, bracket: byte, u: bytes)
    requires PlainGap(g) && bracket in {93, 125} && s == GapText(g) + Behind(more, others, bracket, u)
    ensures Ends(s) && SkipSpaces(s) == Behind(more, others, bracket, u)
  {
    SkipTo(s, g, Behind(more, others, bracket, u));
    if g != [] {
      assert s[0] == g[0].b;
    } else {
      assert s == Behind(more, others, bracket, u);
    }
  }

  lemma FirstElementText(es: seq<Element>, u: bytes, next: bytes)
    requires es != [] && WellSpelledElements(es)
    requires next == GapText(es[0].after)
                     + Behind(|es| > 1, if |es| > 1 then ElementsText(es[1..]) + ([93] + u) else [], 93, u)
    ensures ElementsText(es) + ([93] + u) == GapText(es[0].before) + (Text(es[0].value) + next)
  {
    var tail := if |es| == 1 then [] else [44] + ElementsText(es[1..]);
    ElementGroups(GapText(es[0].before), Text(es[0].value), GapText(es[0].after), tail, [93] + u);
    if |es| > 1 {
      Associative([44], ElementsText(es[1..]), [93] + u);
    } else {
      assert [] + ([93] + u) == [93] + u;
    }
  }

  lemma ElementGroups(a: bytes, b: bytes, c: bytes, tail: bytes, u: bytes)
    ensures a + b + c + tail + u == a + (b + (c + (tail + u)))
  {
    assert a + b + c == a + (b + c);
    assert a + (b + c) + tail + u == a + ((b + c) + (tail + u));
  }

  /** What reading elements onto `sofar` gives. */
  function ItemsOutcome(es: seq<Element>, sofar: Json, u: bytes, nesting: nat): Option<Parsed<Json>>
    requires sofar.Array? && WellSpelledElements(es)
  {
    var items := sofar.items + ElementValues(es);
    if ElementsFit(es, nesting) && |items| <= ARRAY_MAX_CAPACITY then Some(Parsed(Array(items, |items|), u)) else None
  }

  predicate GrowingArray(a: Json) {
    a.Array? && |a.items| <= a.capacity && DoubledArray(a.capacity)
  }

  /** An array that has grown from nothing takes another element exactly below the limit. */
  lemma GrowsByOne(a: Json, v: Json)
    requires GrowingArray(a)
    ensures ArrayAdd(a, v).ok <==> |a.items| < ARRAY_MAX_CAPACITY
    ensures ArrayAdd(a, v).ok ==> GrowingArray(ArrayAdd(a, v).value) && ArrayAdd(a, v).value.items == a.items + [v]
  {
  }

  lemma ItemsOutcomeStep(es: seq<Element>, sofar: Json, u: bytes, nesting: nat)
    requires WellSpelledElements(es) && es != [] && GrowingArray(sofar)
    ensures var added := ArrayAdd(sofar, Value(es[0].value));
      ItemsOutcome(es, sofar, u, nesting)
      == if !Fits(es[0].value, nesting) || !added.ok then None
         else if |es| > 1 then ItemsOutcome(es[1..], added.value, u, nesting)
         else Some(Parsed(Trimmed(added.value), u))
  {
    var v := Value(es[0].value);
    GrowsByOne(sofar, v);
    assert ElementValues(es) == [v] + ElementValues(es[1..]);
    Associative(sofar.items, [v], ElementValues(es[1..]));
    if |es| == 1 {
      assert es[1..] == [] && ElementsFit(es[1..], nesting);
      assert sofar.items + [v] + ElementValues(es[1..]) == sofar.items + [v];
    }
  }

  lemma ClosedBy(v: Json, s: bytes, bracket: byte, u: bytes)
    requires IsContainer(v) && bracket in {93, 125} && s == [bracket] + u
    requires if v.Array? then v.items != [] else v.members != []
    ensures Close(v, s, bracket) == Some(Parsed(Trimmed(v), u))
  {
    SkipNone(s);
  }

  /** One pass of the loop over the elements. */
  lemma ElementStep(s: bytes, x: bytes, sofar: Json, nesting: nat, v: Json, next: bytes, more: bool, others: bytes, u: bytes)
    requires SkipSpaces(s) == x && Head(x) != 0 && sofar.Array? && SkipSpaces(next) == Behind(more, others, 93, u)
    requires ParseValue(x, nesting) == Some(Parsed(v, next))
    ensures var added := ArrayAdd(sofar, v);
      ParseItems(SkipSpaces(s), sofar, nesting)
      == if !added.ok then None
         else if more then ParseItems(SkipSpaces(others), added.value, nesting)
         else Some(Parsed(Trimmed(added.value), u))
  {
    var after := Behind(more, others, 93, u);
    if more {
      assert after[1..] == others;
    } else if ArrayAdd(sofar, v).ok {
      ClosedBy(ArrayAdd(sofar, v).value, after, 93, u);
    }
  }

  lemma {:induction false} ElementsRead(es: seq<Element>, s: bytes, sofar: Json, u: bytes, nesting: nat)
    requires es != [] && WellSpelledElements(es) && PlainElements(es) && GrowingArray(sofar)
    requires s == ElementsText(es) + ([93] + u)
    ensures ParseItems(SkipSpaces(s), sofar, nesting) == ItemsOutcome(es, sofar, u, nesting)
    decreases es, 0
  {
    var e, more := es[0], |es| > 1;
    var others := if more then ElementsText(es[1..]) + ([93] + u) else [];
    var next := GapText(e.after) + Behind(more, others, 93, u);
    var x := Text(e.value) + next;
    FirstElementText(es, u, next);
    SpellingHead(e.value, x, next);
    SkipTo(s, e.before, x);
    GapThenBehind(next, e.after, more, others, 93, u);
    SpellingRead(e.value, x, next, nesting);
    ItemsOutcomeStep(es, sofar, u, nesting);
    if Fits(e.value, nesting) {
      GrowsByOne(sofar, Value(e.value));
      ElementStep(s, x, sofar, nesting, Value(e.value), next, more, others, u);
      var added := ArrayAdd(sofar, Value(e.value));
      if added.ok && more {
        ElementsRead(es[1..], others, added.value, u, nesting);
      }
    }
  }

  lemma WholeArray(es: seq<Element>, t: bytes, nesting: nat)
    requires WellSpelledElements(es)
    ensures ItemsOutcome(es, EMPTY_ARRAY, t, nesting)
         == if |es| <= ARRAY_MAX_CAPACITY && ElementsFit(es, nesting) then Some(Parsed(Array(ElementValues(es), |es|), t))
            else None
  {
    assert [] + ElementValues(es) == ElementValues(es);
  }

  lemma EmptyArrayRead(s: bytes, inner: bytes, inside: Gap, t: bytes, nesting: nat)
    requires PlainGap(inside) && s == [91] + inner && inner == GapText(inside) + ([93] + t)
    ensures ParseArray(s, nesting) == Some(Parsed(EMPTY_ARRAY, t))
  {
    assert s[1..] == inner;
    SkipTo(inner, inside, [93] + t);
    assert ([93] + t)[1..] == t;
  }

  lemma FilledArrayRead(es: seq<Element>, s: bytes, inner: bytes, t: bytes, nesting: nat)
    requires es != [] && WellSpelledElements(es) && PlainElements(es)
    requires s == [91] + inner && inner == ElementsText(es) + ([93] + t)
    ensures ParseArray(s, nesting) == ItemsOutcome(es, EMPTY_ARRAY, t, nesting)
    decreases es, 1
  {
    assert s[1..] == inner;
    InsideHead(es, inner, t);
    ElementsRead(es, inner, EMPTY_ARRAY, t, nesting);
  }

  lemma Bracketed(open: byte, inside: bytes, close: byte, t: bytes)
    ensures [open] + inside + [close] + t == [open] + (inside + ([close] + t))
  {
  }

  lemma ArrayRead(sp: Spelling, s: bytes, t: bytes, nesting: nat)
    requires sp.ArrayOf? && WellSpelled(sp) && PlainGaps(sp) && s == Text(sp) + t && nesting <= MAX_NESTING
    ensures ParseArray(s, nesting + 1) == if Fits(sp, nesting) then Some(Parsed(Value(sp), t)) else None
    decreases sp, 0
  {
    var es := sp.elements;
    if es == [] {
      Bracketed(91, GapText(sp.inside), 93, t);
      EmptyArrayRead(s, GapText(sp.inside) + ([93] + t), sp.inside, t, nesting + 1);
    } else {
      Bracketed(91, ElementsText(es), 93, t);
      FilledArrayRead(es, s, ElementsText(es) + ([93] + t), t, nesting + 1);
      WholeArray(es, t, nesting + 1);
    }
  }

  lemma InsideHead(es: seq<Element>, s: bytes, u: bytes)
    requires es != [] && WellSpelledElements(es) && PlainElements(es) && s == ElementsText(es) + ([93] + u)
    ensures Head(SkipSpaces(s)) != RBRACKET
  {
    var others := if |es| > 1 then ElementsText(es[1..]) + ([93] + u) else [];
    var next := GapText(es[0].after) + Behind(|es| > 1, others, 93, u);
    FirstElementText(es, u, next);
    SpellingHead(es[0].value, Text(es[0].value) + next, next);
    SkipTo(s, es[0].before, Text(es[0].value) + next);
  }

  // ---- objects ----

  /** An entry from its value on. */
  function FromValue(e: Entry, next: bytes): bytes
    requires WellSpelled(e.value)
  {
    GapText(e.beforeValue) + (Text(e.value) + next)
  }

  lemma FirstEntryText(es: seq<Entry>, u: bytes, next: bytes)
    requires es != [] && WellSpelledEntries(es)
    requires next == GapText(es[0].after)
                     + Behind(|es| > 1, if |es| > 1 then EntriesText(es[1..]) + ([125] + u) else [], 125, u)
    ensures EntriesText(es) + ([125] + u)
         == GapText(es[0].before) + (NameText(es[0]) + (GapText(es[0].afterName) + ([58] + FromValue(es[0], next))))
  {
    var e := es[0];
    var a, b, c, d, f, g := GapText(e.before), NameText(e), GapText(e.afterName), GapText(e.beforeValue), Text(e.value),
                            GapText(e.after);
    var tail := if |es| == 1 then [] else [44] + EntriesText(es[1..]);
    EntryGroups(a, b, c, d, f, g, tail, [125] + u);
    if |es| > 1 {
      Associative([44], EntriesText(es[1..]), [125] + u);
    } else {
      assert [] + ([125] + u) == [125] + u;
    }
  }

  lemma EntryGroups(a: bytes, b: bytes, c: bytes, d: bytes, f: bytes, g: bytes, tail: bytes, u: bytes)
    ensures a + b + c + [58] + d + f + g + tail + u == a + (b + (c + ([58] + (d + (f + (g + (tail + u)))))))
  {
    assert a + b + c + [58] == a + (b + (c + [58]));
    var p := a + (b + (c + [58]));
    assert p + d + f + g + tail + u == p + (d + (f + (g + (tail + u))));
    var q := d + (f + (g + (tail + u)));
    assert a + (b + (c + [58])) + q == a + (b + (c + ([58] + q)));
  }

  /** What reading entries onto `sofar` gives. */
  function MembersOutcome(es: seq<Entry>, sofar: Json, u: bytes, nesting: nat): Option<Parsed<Json>>
    requires sofar.Object? && WellSpelledEntries(es)
  {
    var ms := sofar.members + EntryMembers(es);
    if EntriesFit(es, nesting) && |ms| <= OBJECT_MAX_CAPACITY && DistinctNames(ms) then Some(Parsed(Object(ms, |ms|), u))
    else None
  }

  predicate GrowingObject(o: Json) {
    o.Object? && |o.members| <= o.capacity && Doubled(o.capacity) && DistinctNames(o.members)
  }

  /** An object that has grown from nothing takes another member exactly if its name is new, below the limit. */
  lemma TakesOne(o: Json, name: bytes, v: Json)
    requires GrowingObject(o)
    ensures var r, ms := ObjectAdd(o, name, v), o.members + [Member(name, v)];
      && (r.ok <==> |ms| <= OBJECT_MAX_CAPACITY && DistinctNames(ms))
      && (r.ok ==> GrowingObject(r.value) && r.value.members == ms)
  {
    var ms := o.members + [Member(name, v)];
    LookupAbsent(o.members, name);
    if Lookup(o.members, name).Some? {
      var i :| 0 <= i < |o.members| && o.members[i].name == name;
      assert ms[i].name == ms[|o.members|].name;
    }
  }

  lemma PrefixIsDistinct(xs: seq<Member>, ys: seq<Member>)
    requires DistinctNames(xs + ys)
    ensures DistinctNames(xs)
  {
    assert forall i | 0 <= i < |xs| :: (xs + ys)[i] == xs[i];
  }

  lemma MembersOutcomeStep(es: seq<Entry>, sofar: Json, u: bytes, nesting: nat)
    requires WellSpelledEntries(es) && es != [] && GrowingObject(sofar)
    ensures var added := ObjectAdd(sofar, Chars(es[0].name), Value(es[0].value));
      MembersOutcome(es, sofar, u, nesting)
      == if !NoRaw(es[0].name) || !Fits(es[0].value, nesting) || !added.ok then None
         else if |es| > 1 then MembersOutcome(es[1..], added.value, u, nesting)
         else Some(Parsed(Trimmed(added.value), u))
  {
    var m := Member(Chars(es[0].name), Value(es[0].value));
    var ms := sofar.members + [m];
    TakesOne(sofar, m.name, m.value);
    Associative(sofar.members, [m], EntryMembers(es[1..]));
    assert EntryMembers(es) == [m] + EntryMembers(es[1..]);
    if DistinctNames(ms + EntryMembers(es[1..])) {
      PrefixIsDistinct(ms, EntryMembers(es[1..]));
    }
    if |es| == 1 {
      assert es[1..] == [] && EntriesFit(es[1..], nesting);
      assert ms + EntryMembers(es[1..]) == ms;
    }
  }

  /** Up to the value of an entry: its name is read, and the colon behind it. */
  lemma NameRead(s: bytes, e: Entry, next: bytes, nesting: nat)
    requires ValidBody(e.name) && e.opener != 0 && WellSpelled(e.value) && PlainGap(e.afterName)
    requires s == NameText(e) + (GapText(e.afterName) + ([58] + FromValue(e, next)))
    ensures Head(s) == e.opener
    ensures if NoRaw(e.name) then
              && QuotedString(s) == Some(Parsed(Chars(e.name), GapText(e.afterName) + ([58] + FromValue(e, next))))
              && SkipSpaces(GapText(e.afterName) + ([58] + FromValue(e, next))) == [58] + FromValue(e, next)
            else QuotedString(s) == None
  {
    var t := GapText(e.afterName) + ([58] + FromValue(e, next));
    assert s == [e.opener] + BodyText(e.name) + [34] + t;
    SkipTo(t, e.afterName, [58] + FromValue(e, next));
    assert e.afterName != [] ==> t[0] == e.afterName[0].b;
    LiteralRead(s, e.opener, e.name, t);
  }

  lemma ValueBehindGap(e: Entry, next: bytes, nesting: nat)
    requires WellSpelled(e.value) && PlainGap(e.beforeValue)
    ensures ParseValue(FromValue(e, next), nesting) == ParseValue(Text(e.value) + next, nesting)
  {
    SkipGap(FromValue(e, next), e.beforeValue, Text(e.value) + next);
  }

  /** One pass of the loop over the members. */
  lemma EntryStep(x: bytes, sofar: Json, nesting: nat, m: Member, t: bytes, first: bytes, next: bytes, more: bool,
                  others: bytes, u: bytes)
    requires Head(x) != 0 && sofar.Object? && QuotedString(x) == Some(Parsed(m.name, t))
    requires SkipSpaces(t) == [58] + first && ParseValue(first, nesting) == Some(Parsed(m.value, next))
    requires SkipSpaces(next) == Behind(more, others, 125, u)
    ensures var added := ObjectAdd(sofar, m.name, m.value);
      ParseMembers(x, sofar, nesting)
      == if !added.ok then None
         else if more then ParseMembers(SkipSpaces(others), added.value, nesting)
         else Some(Parsed(Trimmed(added.value), u))
  {
    var after := Behind(more, others, 125, u);
    assert ([58] + first)[1..] == first;
    if more {
      assert after[1..] == others;
    } else if ObjectAdd(sofar, m.name, m.value).ok {
      ClosedBy(ObjectAdd(sofar, m.name, m.value).value, after, 125, u);
    }
  }

  lemma EntryRefused(x: bytes, sofar: Json, nesting: nat, first: bytes)
    requires Head(x) != 0 && sofar.Object?
    requires QuotedString(x).Some? ==>
      SkipSpaces(QuotedString(x).value.rest) == [58] + first && ParseValue(first, nesting) == None
    ensures ParseMembers(x, sofar, nesting) == None
  {
    assert ([58] + first)[1..] == first;
  }

  /** The text of an entry from its name on, read as far as its value. */
  lemma EntryOutcome(e: Entry, x: bytes, sofar: Json, nesting: nat, next: bytes, more: bool, others: bytes, u: bytes)
    requires ValidBody(e.name) && e.opener != 0 && WellSpelled(e.value) && sofar.Object?
    requires PlainGap(e.afterName) && PlainGap(e.beforeValue)
    requires x == NameText(e) + (GapText(e.afterName) + ([58] + FromValue(e, next)))
    requires SkipSpaces(next) == Behind(more, others, 125, u)
    requires ParseValue(Text(e.value) + next, nesting)
             == if Fits(e.value, nesting) then Some(Parsed(Value(e.value), next)) else None
    ensures var added := ObjectAdd(sofar, Chars(e.name), Value(e.value));
      ParseMembers(x, sofar, nesting)
      == if !NoRaw(e.name) || !Fits(e.value, nesting) || !added.ok then None
         else if more then ParseMembers(SkipSpaces(others), added.value, nesting)
         else Some(Parsed(Trimmed(added.value), u))
  {
    NameRead(x, e, next, nesting);
    ValueBehindGap(e, next, nesting);
    if NoRaw(e.name) && Fits(e.value, nesting) {
      EntryStep(x, sofar, nesting, Member(Chars(e.name), Value(e.value)),
                GapText(e.afterName) + ([58] + FromValue(e, next)), FromValue(e, next), next, more, others, u);
    } else {
      EntryRefused(x, sofar, nesting, FromValue(e, next));
    }
  }

  lemma {:induction false} EntriesRead(es: seq<Entry>, s: bytes, sofar: Json, u: bytes, nesting: nat)
    requires es != [] && WellSpelledEntries(es) && PlainEntries(es) && GrowingObject(sofar)
    requires s == EntriesText(es) + ([125] + u)
    ensures ParseMembers(SkipSpaces(s), sofar, nesting) == MembersOutcome(es, sofar, u, nesting)
    decreases es, 0
  {
    var e, more := es[0], |es| > 1;
    var others := if more then EntriesText(es[1..]) + ([125] + u) else [];
    var next := GapText(e.after) + Behind(more, others, 125, u);
    var x := NameText(e) + (GapText(e.afterName) + ([58] + FromValue(e, next)));
    FirstEntryText(es, u, next);
    SkipTo(s, e.before, x);
    GapThenBehind(next, e.after, more, others, 125, u);
    SpellingRead(e.value, Text(e.value) + next, next, nesting);
    EntryOutcome(e, x, sofar, nesting, next, more, others, u);
    MembersOutcomeStep(es, sofar, u, nesting);
    TakesOne(sofar, Chars(e.name), Value(e.value));
    var added := ObjectAdd(sofar, Chars(e.name), Value(e.value));
    if added.ok && more {
      EntriesRead(es[1..], others, added.value, u, nesting);
    }
  }

  lemma EmptyObjectRead(s: bytes, inner: bytes, inside: Gap, t: bytes, nesting: nat)
    requires PlainGap(inside) && s == [123] + inner && inner == GapText(inside) + ([125] + t)
    ensures ParseObject(s, nesting) == Some(Parsed(EMPTY_OBJECT, t))
  {
    assert s[1..] == inner;
    SkipTo(inner, inside, [125] + t);
    assert ([125] + t)[1..] == t;
  }

  lemma WholeObject(es: seq<Entry>, t: bytes, nesting: nat)
    requires WellSpelledEntries(es)
    ensures MembersOutcome(es, EMPTY_OBJECT, t, nesting)
         == if |es| <= OBJECT_MAX_CAPACITY && DistinctNames(EntryMembers(es)) && EntriesFit(es, nesting)
            then Some(Parsed(Object(EntryMembers(es), |es|), t)) else None
  {
    assert [] + EntryMembers(es) == EntryMembers(es);
  }

  lemma ObjectRead(sp: Spelling, s: bytes, t: bytes, nesting: nat)
    requires sp.ObjectOf? && WellSpelled(sp) && PlainGaps(sp) && s == Text(sp) + t && nesting <= MAX_NESTING
    ensures ParseObject(s, nesting + 1) == if Fits(sp, nesting) then Some(Parsed(Value(sp), t)) else None
    decreases sp, 0
  {
    var es := sp.entries;
    if es == [] {
      Bracketed(123, GapText(sp.inside), 125, t);
      EmptyObjectRead(s, GapText(sp.inside) + ([125] + t), sp.inside, t, nesting + 1);
    } else {
      Bracketed(123, EntriesText(es), 125, t);
      FilledObjectRead(es, s, EntriesText(es) + ([125] + t), t, nesting + 1);
      WholeObject(es, t, nesting + 1);
    }
  }

  lemma FilledObjectRead(es: seq<Entry>, s: bytes, inner: bytes, t: bytes, nesting: nat)
    requires es != [] && WellSpelledEntries(es) && PlainEntries(es) && es[0].opener != 125
    requires s == [123] + inner && inner == EntriesText(es) + ([125] + t)
    ensures ParseObject(s, nesting) == MembersOutcome(es, EMPTY_OBJECT, t, nesting)
    decreases es, 1
  {
    assert s[1..] == inner;
    OpenerAhead(es, inner, t);
    EntriesRead(es, inner, EMPTY_OBJECT, t, nesting);
  }

  lemma OpenerAhead(es: seq<Entry>, s: bytes, u: bytes)
    requires es != [] && WellSpelledEntries(es) && PlainEntries(es) && s == EntriesText(es) + ([125] + u)
    ensures Head(SkipSpaces(s)) == es[0].opener
  {
    var others := if |es| > 1 then EntriesText(es[1..]) + ([125] + u) else [];
    var next := GapText(es[0].after) + Behind(|es| > 1, others, 125, u);
    FirstEntryText(es, u, next);
    SkipTo(s, es[0].before, NameText(es[0]) + (GapText(es[0].afterName) + ([58] + FromValue(es[0], next))));
  }

  /** A spelling is read to its value, and the text behind it is left; one that does not fit is refused. */
  lemma {:induction false} SpellingRead(sp: Spelling, s: bytes, t: bytes, nesting: nat)
    requires WellSpelled(sp) && PlainGaps(sp) && s == Text(sp) + t
    requires sp.ArrayOf? || sp.ObjectOf? || Ends(t)
    ensures ParseValue(s, nesting) == if Fits(sp, nesting) then Some(Parsed(Value(sp), t)) else None
    decreases sp, 1
  {
    SpellingHead(sp, s, t);
    SkipNone(s);
    if nesting > MAX_NESTING {
    } else if sp.ArrayOf? {
      ArrayRead(sp, s, t, nesting);
    } else if sp.ObjectOf? {
      ObjectRead(sp, s, t, nesting);
    } else {
      ScalarRead(sp, s, t, nesting);
    }
  }

  // ---- the theorem ----

  /** The parser's conditions, told by the value: it is valid, deep enough it is not, and nothing in it is raw. */
  lemma {:induction false} FitsIs(sp: Spelling, nesting: nat)
    requires WellSpelled(sp)
    ensures Fits(sp, nesting) <==> Legible(sp) && Valid(Value(sp)) && nesting + Depth(Value(sp)) <= MAX_NESTING
    decreases sp, 1
  {
    match sp
    case ArrayOf(_, es) => ElementsFitIs(es, nesting + 1);
    case ObjectOf(_, es) => EntriesFitIs(es, nesting + 1);
    case _ =>
  }

  lemma {:induction false} ElementsFitIs(es: seq<Element>, nesting: nat)
    requires WellSpelledElements(es)
    ensures ElementsFit(es, nesting) <==>
            && LegibleElements(es) && (forall i | 0 <= i < |es| :: Valid(ElementValues(es)[i]))
            && (es != [] ==> nesting + DepthOfItems(ElementValues(es)) <= MAX_NESTING)
    decreases es, 0
  {
    if es != [] {
      FitsIs(es[0].value, nesting);
      ElementsFitIs(es[1..], nesting);
      var vs := ElementValues(es);
      assert vs[1..] == ElementValues(es[1..]);
      assert forall i | 1 <= i < |vs| :: vs[i] == vs[1..][i - 1];
    }
  }

  lemma {:induction false} EntriesFitIs(es: seq<Entry>, nesting: nat)
    requires WellSpelledEntries(es)
    ensures var ms := EntryMembers(es);
      EntriesFit(es, nesting) <==>
        && LegibleEntries(es) && (forall i | 0 <= i < |ms| :: Valid(ms[i].value))
        && (es != [] ==> nesting + DepthOfMembers(ms) <= MAX_NESTING)
    ensures forall i | 0 <= i < |es| :: NulFree(EntryMembers(es)[i].name)
    decreases es, 0
  {
    if es != [] {
      FitsIs(es[0].value, nesting);
      EntriesFitIs(es[1..], nesting);
      var ms := EntryMembers(es);
      assert ms[1..] == EntryMembers(es[1..]);
      assert forall i | 1 <= i < |ms| :: ms[i] == ms[1..][i - 1];
    }
  }

  /**
   * For every spelling of an object or array, with any white space anywhere between its tokens, and any text behind it:
   * the parser gives the value spelled, its stores cut to their counts, and stops right behind it, exactly when the
   * value is one the library can hold, nests at most nineteen deep, and no literal holds a raw control byte; otherwise
   * it refuses the text.
   */
  lemma SpelledIsRead(gap: Gap, sp: Spelling, t: bytes)
    requires PlainGap(gap) && WellSpelled(sp) && PlainGaps(sp) && (sp.ArrayOf? || sp.ObjectOf?)
    ensures ParseString(GapText(gap) + Text(sp) + t)
         == if Legible(sp) && Valid(Value(sp)) && Depth(Value(sp)) <= MAX_NESTING then Some(Parsed(Value(sp), t)) else None
  {
    var s := Text(sp) + t;
    Associative(GapText(gap), Text(sp), t);
    SpellingHead(sp, s, t);
    SkipTo(GapText(gap) + s, gap, s);
    SpellingRead(sp, s, t, 0);
    FitsIs(sp, 0);
  }

  /** A spelling with nothing around it. */
  lemma AloneIsRead(sp: Spelling, text: bytes)
    requires WellSpelled(sp) && PlainGaps(sp) && (sp.ArrayOf? || sp.ObjectOf?) && text == Text(sp)
    ensures ParseString(text)
         == if Legible(sp) && Valid(Value(sp)) && Depth(Value(sp)) <= MAX_NESTING then Some(Parsed(Value(sp), [])) else None
  {
    assert [] + text + [] == text;
    SpelledIsRead([], sp, []);
  }
}
