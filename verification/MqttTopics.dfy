/** The client's topic matcher against the standard's relation between filters and topic names. */
module MqttTopics {
  import opened Bytes

  const PLUS: byte := 43
  const HASH: byte := 35

  // ---- levels (section 4.7 of MQTT 3.1.1) ----

  /** The levels of a topic, separated by slashes; there is always at least one, possibly empty. */
  function Levels(s: bytes): (r: seq<bytes>)
    ensures r != []
    decreases |s|
  {
    if s == [] then [[]]
    else if s[0] == SLASH then [[]] + Levels(s[1..])
    else
      var r := Levels(s[1..]);
      [[s[0]] + r[0]] + r[1..]
  }

  predicate IsWildcard(level: bytes) {
    level == [PLUS] || level == [HASH]
  }

  predicate Literal(level: bytes) {
    PLUS !in level && HASH !in level
  }

  /** Wildcards fill a level of their own, and the multi-level one is last (section 4.7.1). */
  predicate WellPlaced(filter: seq<bytes>) {
    && (forall i | 0 <= i < |filter| :: IsWildcard(filter[i]) || Literal(filter[i]))
    && (forall i | 0 <= i < |filter| - 1 :: filter[i] != [HASH])
  }

  /** The standard's relation: '+' takes one level, '#' all that are left, none included. */
  predicate Matches(filter: seq<bytes>, name: seq<bytes>) {
    if filter == [] then name == []
    else if filter[0] == [HASH] then true
    else name != [] && (filter[0] == [PLUS] || filter[0] == name[0]) && Matches(filter[1..], name[1..])
  }

  /** Every wildcard level of the filter stands over a level of the name that is not empty. */
  predicate WildcardsMeetText(filter: seq<bytes>, name: seq<bytes>) {
    forall i | 0 <= i < |filter| && IsWildcard(filter[i]) :: i < |name| && name[i] != []
  }

  // ---- the matcher ----

  /** The length of the first level. */
  function LevelEnd(s: bytes): (k: nat)
    ensures k <= |s|
  {
    if s == [] || s[0] == SLASH then 0 else 1 + LevelEnd(s[1..])
  }

  /** What the character loop decides from any pair of positions. */
  predicate Matched(filter: bytes, name: bytes)
    decreases |filter|
  {
    if filter == [] || name == [] then filter == [] && name == []
    else if name[0] == SLASH && filter[0] != SLASH then false
    else if filter[0] != PLUS && filter[0] != HASH && filter[0] != name[0] then false
    else if filter[0] == PLUS then Matched(filter[1..], name[LevelEnd(name)..])
    else if filter[0] == HASH then Matched(filter[1..], [])
    else Matched(filter[1..], name[1..])
  }

  /** The first level of a topic and what is left after it. */
  lemma {:induction false} FirstLevel(s: bytes)
    ensures Levels(s)[0] == s[..LevelEnd(s)]
    ensures var left := s[LevelEnd(s)..];
      && (left == [] || left[0] == SLASH)
      && Levels(left) == [[]] + Levels(s)[1..]
    decreases |s|
  {
    if s != [] && s[0] != SLASH {
      FirstLevel(s[1..]);
      assert s[1..][LevelEnd(s[1..])..] == s[LevelEnd(s)..];
      assert s[..LevelEnd(s)] == [s[0]] + s[1..][..LevelEnd(s[1..])];
    }
  }

  /** A filter without its first character is still well placed. */
  lemma SuffixIsWellPlaced(filter: bytes)
    requires filter != [] && WellPlaced(Levels(filter))
    ensures WellPlaced(Levels(filter[1..]))
    ensures filter[0] == PLUS ==> Levels(filter)[0] == [PLUS] && Levels(filter[1..]) == [[]] + Levels(filter)[1..]
    ensures filter[0] == HASH ==> Levels(filter) == [[HASH]] && filter[1..] == []
    ensures filter[0] != PLUS && filter[0] != HASH && filter[0] != SLASH ==> Literal(Levels(filter)[0])
  {
    var all, rest := Levels(filter), Levels(filter[1..]);
    if filter[0] == SLASH {
      assert forall i | 0 <= i < |rest| :: rest[i] == all[i + 1];
    } else {
      assert all[0] == [filter[0]] + rest[0] && filter[0] in all[0];
      assert forall i | 1 <= i < |rest| :: rest[i] == all[i];
      assert IsWildcard(all[0]) ==> rest[0] == [];
      FirstLevel(filter[1..]);
    }
  }

  /** The relation the matcher decides: a match in which no wildcard stands for an empty or a missing level. */
  predicate Accepts(filter: seq<bytes>, name: seq<bytes>) {
    Matches(filter, name) && WildcardsMeetText(filter, name)
  }

  lemma AcceptsAll(name: seq<bytes>)
    ensures Accepts([[HASH]], name) <==> name != [] && name[0] != []
  {
    assert IsWildcard([[HASH]][0]);
  }

  /** The first level of a topic that is empty, starts with a separator, or starts with text. */
  lemma FirstLevelIs(s: bytes)
    ensures s == [] <==> Levels(s) == [[]]
    ensures s != [] && s[0] == SLASH ==> Levels(s)[0] == [] && Levels(s)[1..] == Levels(s[1..])
    ensures s != [] && s[0] != SLASH ==> Levels(s)[0] != [] && Levels(s)[0][0] == s[0]
  {
  }

  /** A text character at the front of both. */
  lemma SameText(c: byte, f: bytes, n: bytes)
    requires c != SLASH && c != PLUS && c != HASH && WellPlaced(Levels([c] + f)) && WellPlaced(Levels(f))
    ensures Accepts(Levels([c] + f), Levels([c] + n)) <==> Accepts(Levels(f), Levels(n))
  {
    assert ([c] + f)[1..] == f && ([c] + n)[1..] == n;
    SuffixIsWellPlaced([c] + f);
    var fl, nl := Levels(f), Levels(n);
    assert Levels([c] + f) == [[c] + fl[0]] + fl[1..] && Levels([c] + n) == [[c] + nl[0]] + nl[1..];
    assert Literal([c] + fl[0]) && PLUS !in fl[0] && HASH !in fl[0];
    assert [c] + fl[0] == [c] + nl[0] <==> fl[0] == nl[0] by {
      assert ([c] + fl[0])[1..] == fl[0] && ([c] + nl[0])[1..] == nl[0];
    }
  }

  /** A single-level wildcard over a level that is not empty. */
  lemma PlusOverText(filter: bytes, name: bytes)
    requires filter != [] && filter[0] == PLUS && WellPlaced(Levels(filter))
    requires name != [] && name[0] != SLASH
    ensures Accepts(Levels(filter), Levels(name))
      <==> Accepts(Levels(filter[1..]), Levels(name[LevelEnd(name)..]))
  {
    SuffixIsWellPlaced(filter);
    FirstLevel(name);
    var f, n := Levels(filter[1..]), Levels(name[LevelEnd(name)..]);
    assert f[1..] == Levels(filter)[1..] && n[1..] == Levels(name)[1..];
  }

  /**
   * For filters with well-placed wildcards, and any topic name at all: the matcher accepts exactly those pairs the
   * standard's relation accepts in which every wildcard stands over a level of the name that is there and not empty.
   */
  lemma {:induction false} MatcherIsLevelwise(filter: bytes, name: bytes)
    requires WellPlaced(Levels(filter))
    ensures Matched(filter, name)
      <==> Matches(Levels(filter), Levels(name)) && WildcardsMeetText(Levels(filter), Levels(name))
    decreases |filter|
  {
    FirstLevelIs(filter);
    FirstLevelIs(name);
    var f, n := Levels(filter), Levels(name);
    if filter == [] || name == [] {
      MatchWithNothing(filter, name);
    } else {
      SuffixIsWellPlaced(filter);
      if filter[0] == PLUS {
        if name[0] != SLASH {
          PlusOverText(filter, name);
          MatcherIsLevelwise(filter[1..], name[LevelEnd(name)..]);
        }
      } else if filter[0] == HASH {
        AcceptsAll(n);
      } else {
        if filter[0] == name[0] {
          MatcherIsLevelwise(filter[1..], name[1..]);
          if filter[0] != SLASH {
            assert filter == [filter[0]] + filter[1..] && name == [filter[0]] + name[1..];
            SameText(filter[0], filter[1..], name[1..]);
          }
        } else {
          FirstCharactersDiffer(filter, name);
        }
      }
    }
  }

  /** Nothing but the empty filter matches the empty name, since a wildcard asks for text. */
  lemma MatchesEmpty(filter: seq<bytes>)
    requires WellPlaced(filter) && filter != []
    ensures Accepts(filter, [[]]) <==> filter == [[]]
  {
    if filter[0] == [HASH] {
      AcceptsAll([[]]);
      assert filter == [[HASH]];
    } else {
      var n: seq<bytes> := [[]];
      assert n[1..] == [] && filter == [filter[0]] + filter[1..];
      assert |filter| > 1 ==> (Matches(filter[1..], []) <==> filter[1] == [HASH]);
      assert forall i | 0 <= i < |filter| && filter[i] in {[PLUS], [HASH]} :: IsWildcard(filter[i]);
    }
  }

  lemma EmptyMatches(name: seq<bytes>)
    requires name != []
    ensures Accepts([[]], name) <==> name == [[]]
  {
    var f: seq<bytes> := [[]];
    assert f[1..] == [] && !IsWildcard(f[0]);
    assert Matches(f, name) <==> name[0] == [] && Matches([], name[1..]);
    assert name == [name[0]] + name[1..];
  }

  lemma MatchWithNothing(filter: bytes, name: bytes)
    requires WellPlaced(Levels(filter)) && (filter == [] || name == [])
    ensures Accepts(Levels(filter), Levels(name)) <==> filter == [] && name == []
  {
    FirstLevelIs(filter);
    FirstLevelIs(name);
    if filter == [] {
      EmptyMatches(Levels(name));
    } else {
      MatchesEmpty(Levels(filter));
    }
  }

  lemma FirstCharactersDiffer(filter: bytes, name: bytes)
    requires filter != [] && name != [] && filter[0] != name[0] && filter[0] != PLUS && filter[0] != HASH
    ensures Levels(filter)[0] != Levels(name)[0]
  {
    FirstLevelIs(filter);
    FirstLevelIs(name);
  }

  lemma OneLevel(c: byte)
    requires c != SLASH
    ensures Levels([c]) == [[c]]
  {
    assert [c][1..] == [] && [c] + [] == [c];
  }

  /**
   * So a match is always one by the standard, but not the other way round. The three ways a wildcard can stand over
   * nothing: '#' over a level that is not there, '#' over an empty level, and '+' over an empty level.
   */
  lemma StandardMatchesMissed(c: byte)
    requires c !in {47, 43, 35}
    ensures Matches(Levels([c, 47, 35]), Levels([c])) && !Matched([c, 47, 35], [c])
    ensures Matches(Levels([35]), Levels([47, c])) && !Matched([35], [47, c])
    ensures Matches(Levels([43, 47, c]), Levels([47, c])) && !Matched([43, 47, c], [47, c])
  {
    assert [c, SLASH, HASH][1..] == [SLASH, HASH] && [SLASH, HASH][1..] == [HASH] && [HASH][1..] == [];
    assert [PLUS, SLASH, c][1..] == [SLASH, c] && [SLASH, c][1..] == [c] && [c][1..] == [];
    OneLevel(c);
    OneLevel(HASH);
    assert Levels([SLASH, HASH]) == [[], [HASH]] && Levels([SLASH, c]) == [[], [c]];
    assert [c] + [] == [c] && [PLUS] + [] == [PLUS];
    assert Levels([c, SLASH, HASH]) == [[c], [HASH]] && Levels([PLUS, SLASH, c]) == [[PLUS], [c]];
  }

  /** Those three are all there are: a match of the standard is missed exactly if some wildcard stands over nothing. */
  lemma MissedMatches(filter: bytes, name: bytes)
    requires WellPlaced(Levels(filter)) && Matches(Levels(filter), Levels(name))
    ensures var f, n := Levels(filter), Levels(name);
      !Matched(filter, name) <==> exists i | 0 <= i < |f| && IsWildcard(f[i]) ::
        (f[i] == [HASH] && i == |n|) || (i < |n| && n[i] == [])
  {
    MatcherIsLevelwise(filter, name);
    MatchReaches(Levels(filter), Levels(name));
  }

  /** In a match of the standard only the multi-level wildcard can stand behind the last level of the name. */
  lemma {:induction false} MatchReaches(filter: seq<bytes>, name: seq<bytes>)
    requires WellPlaced(filter) && Matches(filter, name)
    ensures |filter| <= |name| + 1
    ensures |filter| == |name| + 1 ==> filter[|name|] == [HASH]
  {
    if filter != [] {
      if filter[0] != [HASH] {
        assert forall i | 0 <= i < |filter| - 1 :: filter[1..][i] == filter[i + 1];
        MatchReaches(filter[1..], name[1..]);
      } else {
        assert |filter| == 1;
      }
    }
  }

  /** Moves to the last character of the level. */
  method SkipLevel(name: bytes, start: nat) returns (curn: nat)
    requires start < |name| && name[start] != SLASH
    ensures curn < |name| && curn + 1 == start + LevelEnd(name[start..])
  {
    curn := start;
    var nextpos := curn + 1;
    while nextpos < |name| && name[nextpos] != SLASH
      invariant nextpos == curn + 1 <= |name|
      invariant start + LevelEnd(name[start..]) == nextpos + LevelEnd(name[nextpos..])
      decreases |name| - nextpos
    {
      assert name[nextpos..][1..] == name[nextpos + 1..];
      curn := curn + 1;
      nextpos := curn + 1;
    }
  }

  /** The matcher: a filter that is a C string, against a counted topic name. */
  method IsTopicMatched(filter: bytes, name: bytes) returns (matched: bool)
    requires NulFree(filter)
    ensures matched == Matched(filter, name)
  {
    var curf, curn := 0, 0;
    while curf < |filter| && curn < |name|
      invariant 0 <= curf <= |filter| && 0 <= curn <= |name|
      invariant Matched(filter, name) == Matched(filter[curf..], name[curn..])
      decreases |filter| - curf
    {
      ghost var f, n := filter[curf..], name[curn..];
      if name[curn] == SLASH && filter[curf] != SLASH {
        break;
      }
      if filter[curf] != PLUS && filter[curf] != HASH && filter[curf] != name[curn] {
        break;
      }
      if filter[curf] == PLUS {
        curn := SkipLevel(name, curn);
      } else if filter[curf] == HASH {
        curn := |name| - 1;
      }
      curf := curf + 1;
      curn := curn + 1;
      assert filter[curf..] == f[1..];
    }
    matched := curn == |name| && curf == |filter|;
  }
}
