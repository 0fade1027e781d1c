/** Structural equality, which looks only one side's names up, and deep copy. */
module JsonCompare {
  import opened Bytes
  import opened JsonValue
  import opened JsonMaps

  function JsonEquals(a: Json, b: Json): bool {
    match (a, b)
    case (Array(xs, _), Array(ys, _)) =>
      && |xs| == |ys|
      && forall i | 0 <= i < |xs| :: JsonEquals(xs[i], ys[i])
    case (Object(xs, _), Object(ys, _)) =>
      && |xs| == |ys|
      && forall i | 0 <= i < |xs| ::
           var key := xs[i].name;
           var k, found := IndexOf(xs, key), Lookup(ys, key);
           k < |xs| && found.Some? && JsonEquals(xs[k].value, found.value)
    case (Str(s), Str(t)) => s == t
    case (Bool(x), Bool(y)) => x == y
    case (Number(x), Number(y)) => x == y
    case (Null, Null) => true
    case _ => false
  }

  /** The order-free meaning of a value: objects are finite maps, arrays are sequences. */
  datatype Meaning = Leaf(v: Json) | Items(items: seq<Meaning>) | Named(names: map<bytes, Meaning>)

  ghost function Means(v: Json): Meaning {
    match v
    case Array(items, _) => Items(MeansItems(items))
    case Object(ms, _) => Named(MeansMembers(ms))
    case _ => Leaf(v)
  }

  ghost function MeansItems(items: seq<Json>): (r: seq<Meaning>)
    ensures |r| == |items|
    ensures forall i | 0 <= i < |r| :: r[i] == Means(items[i])
  {
    if items == [] then [] else [Means(items[0])] + MeansItems(items[1..])
  }

  ghost function MeansMembers(ms: seq<Member>): map<bytes, Meaning> {
    if ms == [] then map[] else MeansMembers(ms[1..])[ms[0].name := Means(ms[0].value)]
  }

  lemma {:induction false} MeansMembersIsLookup(ms: seq<Member>, name: bytes)
    ensures name in MeansMembers(ms) <==> Lookup(ms, name).Some?
    ensures name in MeansMembers(ms) ==> MeansMembers(ms)[name] == Means(Lookup(ms, name).value)
  {
    if ms != [] && ms[0].name != name {
      MeansMembersIsLookup(ms[1..], name);
    }
  }

  lemma {:induction false} MeansMembersSize(ms: seq<Member>)
    requires DistinctNames(ms)
    ensures |MeansMembers(ms)| == |ms|
  {
    if ms != [] {
      MeansMembersSize(ms[1..]);
      MeansMembersIsLookup(ms[1..], ms[0].name);
      assert MeansMembers(ms).Keys == MeansMembers(ms[1..]).Keys + {ms[0].name};
    }
  }

  /** The counting step: as many names on both sides and one side inside the other leaves no extra name. */
  lemma SubsetOfSameSize<T>(a: set<T>, b: set<T>, n: nat)
    requires a <= b && |b| <= n == |a|
    ensures a == b
  {
    assert |b - a| == |b| - |a|;
  }

  lemma {:induction false} MembersEqualIffSameMeaning(xs: seq<Member>, ys: seq<Member>)
    requires DistinctNames(xs) && DistinctNames(ys)
    ensures MeansMembers(xs) == MeansMembers(ys) <==>
            |xs| == |ys| && forall i | 0 <= i < |xs| ::
              Lookup(ys, xs[i].name).Some? && Means(Lookup(ys, xs[i].name).value) == Means(xs[i].value)
  {
    var mx, my := MeansMembers(xs), MeansMembers(ys);
    MeansMembersSize(xs);
    MeansMembersSize(ys);
    forall i | 0 <= i < |xs|
      ensures xs[i].name in mx && mx[xs[i].name] == Means(xs[i].value)
      ensures Lookup(ys, xs[i].name).Some? <==> xs[i].name in my
      ensures xs[i].name in my ==> my[xs[i].name] == Means(Lookup(ys, xs[i].name).value)
    {
      LookupMember(xs, i);
      MeansMembersIsLookup(xs, xs[i].name);
      MeansMembersIsLookup(ys, xs[i].name);
    }
    if |xs| == |ys| && forall i | 0 <= i < |xs| ::
         Lookup(ys, xs[i].name).Some? && Means(Lookup(ys, xs[i].name).value) == Means(xs[i].value)
    {
      forall name | name in mx ensures name in my && my[name] == mx[name] {
        MeansMembersIsLookup(xs, name);
        var i := IndexOf(xs, name);
        assert xs[i].name == name;
      }
      SubsetOfSameSize(mx.Keys, my.Keys, |xs|);
      assert mx == my;
    }
  }

  /** Equality is equality of meanings, although the loop over an object runs over one side only. */
  lemma {:induction false} EqualsIffSameMeaning(a: Json, b: Json)
    requires Valid(a) && Valid(b)
    ensures JsonEquals(a, b) <==> Means(a) == Means(b)
    decreases a
  {
    match (a, b)
    case (Array(xs, _), Array(ys, _)) =>
      forall i | 0 <= i < |xs| && i < |ys| ensures JsonEquals(xs[i], ys[i]) <==> Means(xs[i]) == Means(ys[i]) {
        EqualsIffSameMeaning(xs[i], ys[i]);
      }
      if Means(a) == Means(b) {
        assert forall i | 0 <= i < |xs| :: MeansItems(xs)[i] == MeansItems(ys)[i];
      }
    case (Object(xs, _), Object(ys, _)) =>
      forall i | 0 <= i < |xs|
        ensures IndexOf(xs, xs[i].name) == i
        ensures Lookup(ys, xs[i].name).Some? ==>
                (JsonEquals(xs[i].value, Lookup(ys, xs[i].name).value)
                 <==> Means(xs[i].value) == Means(Lookup(ys, xs[i].name).value))
      {
        LookupMember(xs, i);
        if Lookup(ys, xs[i].name).Some? {
          EqualsIffSameMeaning(xs[i].value, Lookup(ys, xs[i].name).value);
        }
      }
      MembersEqualIffSameMeaning(xs, ys);
    case _ =>
  }

  lemma EqualsIsAnEquivalence(a: Json, b: Json, c: Json)
    requires Valid(a) && Valid(b) && Valid(c)
    ensures JsonEquals(a, a)
    ensures JsonEquals(a, b) ==> JsonEquals(b, a)
    ensures JsonEquals(a, b) && JsonEquals(b, c) ==> JsonEquals(a, c)
  {
    EqualsIffSameMeaning(a, a);
    EqualsIffSameMeaning(a, b);
    EqualsIffSameMeaning(b, a);
    EqualsIffSameMeaning(b, c);
    EqualsIffSameMeaning(a, c);
  }

  // ---- what symmetry rests on ----

  /** No object, at any level, holds a name twice; every value built through the library is like that. */
  predicate DistinctEverywhere(v: Json) {
    match v
    case Array(items, _) => forall i | 0 <= i < |items| :: DistinctEverywhere(items[i])
    case Object(ms, _) => DistinctNames(ms) && forall i | 0 <= i < |ms| :: DistinctEverywhere(ms[i].value)
    case _ => true
  }

  lemma {:induction false} ValidIsDistinct(v: Json)
    requires Valid(v)
    ensures DistinctEverywhere(v)
  {
    match v
    case Array(items, _) =>
      forall i | 0 <= i < |items| ensures DistinctEverywhere(items[i]) {
        ValidIsDistinct(items[i]);
      }
    case Object(ms, _) =>
      forall i | 0 <= i < |ms| ensures DistinctEverywhere(ms[i].value) {
        ValidIsDistinct(ms[i].value);
      }
    case _ =>
  }

  function NameSet(ms: seq<Member>): set<bytes> {
    if ms == [] then {} else {ms[0].name} + NameSet(ms[1..])
  }

  lemma {:induction false} NameSetSize(ms: seq<Member>)
    ensures |NameSet(ms)| <= |ms|
    ensures DistinctNames(ms) ==> |NameSet(ms)| == |ms|
    ensures forall name :: name in NameSet(ms) <==> Lookup(ms, name).Some?
  {
    if ms != [] {
      NameSetSize(ms[1..]);
      forall name ensures name in NameSet(ms) <==> Lookup(ms, name).Some? {
        assert name in NameSet(ms[1..]) <==> Lookup(ms[1..], name).Some?;
      }
      if DistinctNames(ms) {
        LookupAbsent(ms[1..], ms[0].name);
      }
    }
  }

  /** If one side's names are distinct and all found on the other of the same size, so are the other's on the one. */
  lemma NamesFoundBack(xs: seq<Member>, ys: seq<Member>, name: bytes)
    requires DistinctNames(xs) && |xs| == |ys| && Lookup(ys, name).Some?
    requires forall i | 0 <= i < |xs| :: Lookup(ys, xs[i].name).Some?
    ensures Lookup(xs, name).Some?
  {
    NameSetSize(xs);
    NameSetSize(ys);
    forall other | other in NameSet(xs) ensures other in NameSet(ys) {
      var i := IndexOf(xs, other);
      assert xs[i].name == other;
    }
    SubsetOfSameSize(NameSet(xs), NameSet(ys), |xs|);
  }

  lemma {:induction false} EqualsFromDistinct(a: Json, b: Json)
    requires DistinctEverywhere(a) && JsonEquals(a, b)
    ensures JsonEquals(b, a)
    decreases a
  {
    match (a, b)
    case (Array(xs, _), Array(ys, _)) =>
      forall i | 0 <= i < |xs| ensures JsonEquals(ys[i], xs[i]) {
        EqualsFromDistinct(xs[i], ys[i]);
      }
    case (Object(xs, _), Object(ys, _)) =>
      forall i | 0 <= i < |xs| ensures IndexOf(xs, xs[i].name) == i && Lookup(ys, xs[i].name).Some? {
        LookupMember(xs, i);
      }
      forall j | 0 <= j < |ys|
        ensures var key := ys[j].name;
          var k, found := IndexOf(ys, key), Lookup(xs, key);
          k < |ys| && found.Some? && JsonEquals(ys[k].value, found.value)
      {
        var key := ys[j].name;
        assert IndexOf(ys, key) <= j;
        NamesFoundBack(xs, ys, key);
        var i := IndexOf(xs, key);
        assert xs[i].name == key;
        EqualsFromDistinct(xs[i].value, Lookup(ys, key).value);
      }
    case _ =>
  }

  lemma {:induction false} EqualsItself(v: Json)
    ensures JsonEquals(v, v)
  {
    match v
    case Array(items, _) =>
      forall i | 0 <= i < |items| ensures JsonEquals(items[i], items[i]) {
        EqualsItself(items[i]);
      }
    case Object(ms, _) =>
      forall i | 0 <= i < |ms|
        ensures IndexOf(ms, ms[i].name) < |ms| && JsonEquals(ms[IndexOf(ms, ms[i].name)].value, Lookup(ms, ms[i].name).value)
      {
        var k := IndexOf(ms, ms[i].name);
        assert k <= i;
        EqualsItself(ms[k].value);
      }
    case _ =>
  }

  /** A name longer than all of an object's names. */
  function FreshName(ms: seq<Member>): (name: bytes)
    ensures name != []
  {
    if ms == [] then [120] else ms[0].name + FreshName(ms[1..])
  }

  lemma {:induction false} FreshNameIsFresh(ms: seq<Member>)
    ensures forall i | 0 <= i < |ms| :: |ms[i].name| < |FreshName(ms)|
  {
    if ms != [] {
      FreshNameIsFresh(ms[1..]);
      assert forall i | 1 <= i < |ms| :: ms[i] == ms[1..][i - 1];
    }
  }

  /** Changing a member behind the first of a name leaves the search for all other names' first members alone. */
  lemma {:induction false} IndexUnchanged(ms: seq<Member>, name: bytes, j: nat, m: Member)
    requires j < |ms| && IndexOf(ms, name) != j && m.name != name
    ensures IndexOf(ms[j := m], name) == IndexOf(ms, name)
    decreases ms
  {
    if j > 0 && ms[0].name != name {
      assert ms[j := m][1..] == ms[1..][j - 1 := m];
      IndexUnchanged(ms[1..], name, j - 1, m);
    } else if j == 0 {
      assert ms[j := m][1..] == ms[1..];
    }
  }

  /** With a name twice in an object: one of the two renamed, the comparison holds in one direction only. */
  lemma RepeatedNameIsOneSided(ms: seq<Member>, capacity: nat, i: nat, j: nat) returns (w: Json)
    requires i < j < |ms| && ms[i].name == ms[j].name
    ensures JsonEquals(Object(ms, capacity), w) && !JsonEquals(w, Object(ms, capacity))
  {
    var name := FreshName(ms);
    var ys := ms[j := Member(name, Null)];
    w := Object(ys, capacity);
    FreshNameIsFresh(ms);
    forall k | 0 <= k < |ms|
      ensures var n := IndexOf(ms, ms[k].name);
        n < |ms| && Lookup(ys, ms[k].name) == Some(ms[n].value) && JsonEquals(ms[n].value, ms[n].value)
    {
      var n := IndexOf(ms, ms[k].name);
      assert n <= k && n != j;
      IndexUnchanged(ms, ms[k].name, j, Member(name, Null));
      EqualsItself(ms[n].value);
    }
    LookupAbsent(ms, name);
    assert ys[j].name == name;
  }

  /** A value that is not told from `w` in both directions carries the difference up to whatever holds it. */
  lemma ItemIsOneSided(items: seq<Json>, capacity: nat, i: nat, w: Json)
    requires i < |items| && JsonEquals(items[i], w) && !JsonEquals(w, items[i])
    ensures var a, b := Array(items, capacity), Array(items[i := w], capacity); JsonEquals(a, b) && !JsonEquals(b, a)
  {
    forall k | 0 <= k < |items| ensures JsonEquals(items[k], items[i := w][k]) {
      EqualsItself(items[k]);
    }
    assert items[i := w][i] == w;
  }

  lemma MemberIsOneSided(ms: seq<Member>, capacity: nat, i: nat, w: Json)
    requires DistinctNames(ms) && i < |ms| && JsonEquals(ms[i].value, w) && !JsonEquals(w, ms[i].value)
    ensures var a, b := Object(ms, capacity), Object(ms[i := Member(ms[i].name, w)], capacity);
      JsonEquals(a, b) && !JsonEquals(b, a)
  {
    var ys := ms[i := Member(ms[i].name, w)];
    forall k | 0 <= k < |ms|
      ensures IndexOf(ms, ms[k].name) == k && Lookup(ys, ms[k].name) == Some(ys[k].value)
      ensures IndexOf(ys, ys[k].name) == k && JsonEquals(ms[k].value, ys[k].value)
    {
      assert ys[k].name == ms[k].name;
      LookupMember(ms, k);
      LookupMember(ys, k);
      EqualsItself(ms[k].value);
    }
    assert ys[i].value == w && Lookup(ms, ys[i].name) == Some(ms[i].value);
  }

  lemma {:induction false} OneSided(v: Json) returns (w: Json)
    requires !DistinctEverywhere(v)
    ensures JsonEquals(v, w) && !JsonEquals(w, v)
    decreases v
  {
    if v.Array? {
      var i :| 0 <= i < |v.items| && !DistinctEverywhere(v.items[i]);
      var u := OneSided(v.items[i]);
      ItemIsOneSided(v.items, v.capacity, i, u);
      w := Array(v.items[i := u], v.capacity);
    } else if DistinctNames(v.members) {
      var i :| 0 <= i < |v.members| && !DistinctEverywhere(v.members[i].value);
      var u := OneSided(v.members[i].value);
      MemberIsOneSided(v.members, v.capacity, i, u);
      w := Object(v.members[i := Member(v.members[i].name, u)], v.capacity);
    } else {
      var i, j :| 0 <= i < j < |v.members| && v.members[i].name == v.members[j].name;
      w := RepeatedNameIsOneSided(v.members, v.capacity, i, j);
    }
  }

  /** A value compares the same in both directions with every other if and only if its names are distinct everywhere. */
  lemma SymmetryIsDistinctness(v: Json)
    ensures DistinctEverywhere(v) <==> forall w :: JsonEquals(v, w) ==> JsonEquals(w, v)
  {
    if DistinctEverywhere(v) {
      forall w | JsonEquals(v, w) ensures JsonEquals(w, v) {
        EqualsFromDistinct(v, w);
      }
    } else {
      var w := OneSided(v);
    }
  }

  lemma {:induction false} TrimKeepsMeaning(v: Json)
    ensures Means(Trim(v)) == Means(v)
    decreases v, 1
  {
    match v
    case Array(items, _) =>
      forall i | 0 <= i < |items| ensures MeansItems(TrimItems(items))[i] == MeansItems(items)[i] {
        TrimKeepsMeaning(items[i]);
      }
      assert MeansItems(TrimItems(items)) == MeansItems(items);
    case Object(ms, _) => TrimMembersKeepsMeaning(ms);
    case _ =>
  }

  lemma {:induction false} TrimMembersKeepsMeaning(ms: seq<Member>)
    ensures MeansMembers(TrimMembers(ms)) == MeansMembers(ms)
    decreases ms, 0
  {
    if ms != [] {
      TrimKeepsMeaning(ms[0].value);
      TrimMembersKeepsMeaning(ms[1..]);
      assert TrimMembers(ms)[1..] == TrimMembers(ms[1..]);
    }
  }

  // ---- deep copy ----

  /** Copies into fresh containers, element by element, failing if an insertion is refused. */
  function DeepCopy(v: Json): (c: Option<Json>)
    decreases v, 1, 0
  {
    match v
    case Array(items, _) => CopyItems(items, 0, EMPTY_ARRAY)
    case Object(ms, _) => CopyMembers(ms, 0, EMPTY_OBJECT)
    case _ => Some(v)
  }

  function CopyItems(items: seq<Json>, i: nat, copied: Json): (c: Option<Json>)
    requires i <= |items| && copied.Array?
    ensures c.Some? ==> c.value.Array?
    decreases items, 0, |items| - i
  {
    if i == |items| then Some(copied)
    else
      var item := DeepCopy(items[i]);
      if item.None? then None
      else
        var added := ArrayAdd(copied, item.value);
        if added.ok then CopyItems(items, i + 1, added.value) else None
  }

  function CopyMembers(ms: seq<Member>, i: nat, copied: Json): (c: Option<Json>)
    requires i <= |ms| && copied.Object?
    ensures c.Some? ==> c.value.Object?
    decreases ms, 0, |ms| - i
  {
    if i == |ms| then Some(copied)
    else
      var k := IndexOf(ms, ms[i].name);
      assert k < |ms|;
      var value := DeepCopy(ms[k].value);
      if value.None? then None
      else
        var added := ObjectAdd(copied, ms[i].name, value.value);
        if added.ok then CopyMembers(ms, i + 1, added.value) else None
  }

  /** Capacities a growing array goes through. */
  /** A container under construction: the first `i` elements are in, up to capacities. */
  ghost predicate CopiedSoFar(v: Json, i: nat, copied: Json) {
    match (v, copied)
    case (Array(items, _), Array(done, capacity)) =>
      i <= |items| && |done| == i <= capacity && DoubledArray(capacity)
      && forall j | 0 <= j < i :: Trim(done[j]) == Trim(items[j]) && Valid(done[j]) && Grown(done[j])
    case (Object(ms, _), Object(done, capacity)) =>
      i <= |ms| && |done| == i <= capacity && Doubled(capacity)
      && forall j | 0 <= j < i ::
           && done[j].name == ms[j].name && Trim(done[j].value) == Trim(ms[j].value)
           && Valid(done[j].value) && Grown(done[j].value)
    case _ => false
  }

  /** Every value the API can build is copied: same shape, and itself built by growing from nothing. */
  lemma {:induction false} DeepCopyIsFaithful(v: Json)
    requires Valid(v)
    ensures DeepCopy(v).Some? && Valid(DeepCopy(v).value) && Grown(DeepCopy(v).value)
    ensures Trim(DeepCopy(v).value) == Trim(v)
    decreases v, 1, 0
  {
    match v
    case Array(items, _) => CopyItemsIsFaithful(v, 0, EMPTY_ARRAY);
    case Object(ms, _) => CopyMembersIsFaithful(v, 0, EMPTY_OBJECT);
    case _ =>
  }

  lemma DeepCopyEqualsOriginal(v: Json)
    requires Valid(v)
    ensures DeepCopy(v).Some? && JsonEquals(v, DeepCopy(v).value)
  {
    DeepCopyIsFaithful(v);
    var c := DeepCopy(v).value;
    TrimKeepsMeaning(v);
    TrimKeepsMeaning(c);
    EqualsIffSameMeaning(v, c);
  }

  lemma NextItemCopied(v: Json, i: nat, copied: Json, c: Json)
    requires v.Array? && Valid(v) && CopiedSoFar(v, i, copied) && i < |v.items|
    requires Valid(c) && Grown(c) && Trim(c) == Trim(v.items[i])
    ensures var next := ArrayAdd(copied, c);
      next.ok && CopiedSoFar(v, i + 1, next.value)
  {
  }

  lemma AllItemsCopied(v: Json, copied: Json)
    requires v.Array? && Valid(v) && CopiedSoFar(v, |v.items|, copied)
    ensures Valid(copied) && Grown(copied) && Trim(copied) == Trim(v)
  {
    assert TrimItems(copied.items) == TrimItems(v.items);
  }

  lemma CopyItemsGoesOn(items: seq<Json>, i: nat, copied: Json, c: Json)
    requires i < |items| && copied.Array? && DeepCopy(items[i]) == Some(c) && ArrayAdd(copied, c).ok
    ensures CopyItems(items, i, copied) == CopyItems(items, i + 1, ArrayAdd(copied, c).value)
  {
  }

  lemma {:induction false} CopyItemsIsFaithful(v: Json, i: nat, copied: Json)
    requires v.Array? && Valid(v) && CopiedSoFar(v, i, copied)
    ensures var c := CopyItems(v.items, i, copied);
      c.Some? && Valid(c.value) && Grown(c.value) && Trim(c.value) == Trim(v)
    decreases v, 0, |v.items| - i
  {
    if i == |v.items| {
      AllItemsCopied(v, copied);
    } else {
      DeepCopyIsFaithful(v.items[i]);
      var c := DeepCopy(v.items[i]).value;
      NextItemCopied(v, i, copied, c);
      CopyItemsGoesOn(v.items, i, copied, c);
      CopyItemsIsFaithful(v, i + 1, ArrayAdd(copied, c).value);
    }
  }

  lemma NextMemberCopied(v: Json, i: nat, copied: Json, c: Json)
    requires v.Object? && Valid(v) && CopiedSoFar(v, i, copied) && i < |v.members|
    requires Valid(c) && Grown(c) && Trim(c) == Trim(v.members[i].value)
    ensures var next := ObjectAdd(copied, v.members[i].name, c);
      next.ok && CopiedSoFar(v, i + 1, next.value)
  {
  }

  lemma AllMembersCopied(v: Json, copied: Json)
    requires v.Object? && Valid(v) && CopiedSoFar(v, |v.members|, copied)
    ensures Valid(copied) && Grown(copied) && Trim(copied) == Trim(v)
  {
    assert TrimMembers(copied.members) == TrimMembers(v.members);
  }

  lemma CopyMembersGoesOn(ms: seq<Member>, i: nat, copied: Json, m: Member, c: Json)
    requires DistinctNames(ms) && i < |ms| && m == ms[i] && copied.Object?
    requires DeepCopy(m.value) == Some(c) && ObjectAdd(copied, m.name, c).ok
    ensures CopyMembers(ms, i, copied) == CopyMembers(ms, i + 1, ObjectAdd(copied, m.name, c).value)
  {
    LookupMember(ms, i);
  }

  lemma {:induction false} CopyMembersIsFaithful(v: Json, i: nat, copied: Json)
    requires v.Object? && Valid(v) && CopiedSoFar(v, i, copied)
    ensures var c := CopyMembers(v.members, i, copied);
      c.Some? && Valid(c.value) && Grown(c.value) && Trim(c.value) == Trim(v)
    decreases v, 0, |v.members| - i
  {
    if i == |v.members| {
      AllMembersCopied(v, copied);
    } else {
      var m := v.members[i];
      DeepCopyIsFaithful(m.value);
      var c := DeepCopy(m.value).value;
      NextMemberCopied(v, i, copied, c);
      CopyMembersGoesOn(v.members, i, copied, m, c);
      CopyMembersIsFaithful(v, i + 1, ObjectAdd(copied, m.name, c).value);
    }
  }
}
