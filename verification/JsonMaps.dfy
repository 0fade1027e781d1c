/** An object is a finite map: every operation, and every run of operations, refines one on maps. */
module JsonMaps {
  import opened Bytes
  import opened JsonValue

  ghost function AsMap(ms: seq<Member>): map<bytes, Json> {
    if ms == [] then map[] else AsMap(ms[1..])[ms[0].name := ms[0].value]
  }

  lemma {:induction false} AsMapIsLookup(ms: seq<Member>, name: bytes)
    ensures name in AsMap(ms) <==> Lookup(ms, name).Some?
    ensures name in AsMap(ms) ==> Lookup(ms, name) == Some(AsMap(ms)[name])
  {
    if ms != [] && ms[0].name != name {
      AsMapIsLookup(ms[1..], name);
    }
  }

  lemma {:induction false} AsMapSize(ms: seq<Member>)
    requires DistinctNames(ms)
    ensures |AsMap(ms)| == |ms|
  {
    if ms != [] {
      AsMapSize(ms[1..]);
      AsMapIsLookup(ms[1..], ms[0].name);
      assert AsMap(ms).Keys == AsMap(ms[1..]).Keys + {ms[0].name};
    }
  }

  /** Two member lists with the same lookups are the same map. */
  lemma SameMap(ms: seq<Member>, m: map<bytes, Json>)
    requires forall name :: Lookup(ms, name) == if name in m then Some(m[name]) else None
    ensures AsMap(ms) == m
  {
    forall name ensures (name in AsMap(ms) <==> name in m) && (name in m ==> AsMap(ms)[name] == m[name]) {
      AsMapIsLookup(ms, name);
      assert Lookup(ms, name) == if name in m then Some(m[name]) else None;
    }
  }

  // ---- one operation at a time ----

  /** Adding succeeds exactly for a fresh name with room left, and then binds that name only. */
  lemma AddBinds(o: Json, name: bytes, v: Json, other: bytes)
    requires o.Object? && DistinctNames(o.members)
    ensures ObjectAdd(o, name, v).ok <==>
            RoomFor(|o.members|, o.capacity, OBJECT_MAX_CAPACITY).Some? && Lookup(o.members, name).None?
    ensures ObjectAdd(o, name, v).value.Object?
    ensures DistinctNames(ObjectAdd(o, name, v).value.members)
    ensures Lookup(ObjectAdd(o, name, v).value.members, other)
            == if ObjectAdd(o, name, v).ok && other == name then Some(v) else Lookup(o.members, other)
  {
    var r := ObjectAdd(o, name, v);
    LookupAbsent(o.members, name);
    if r.ok {
      var ms := r.value.members;
      assert DistinctNames(ms);
      var i := IndexOf(o.members, other);
      if other == name {
        LookupIs(ms, name, |ms| - 1);
      } else if i < |o.members| {
        LookupIs(ms, other, i);
      } else {
        LookupAbsent(o.members, other);
        LookupAbsent(ms, other);
      }
    }
  }

  lemma SetBinds(o: Json, name: bytes, v: Json, other: bytes)
    requires o.Object? && DistinctNames(o.members)
    ensures ObjectSet(o, name, v).ok <==>
            Lookup(o.members, name).Some? || RoomFor(|o.members|, o.capacity, OBJECT_MAX_CAPACITY).Some?
    ensures ObjectSet(o, name, v).value.Object?
    ensures DistinctNames(ObjectSet(o, name, v).value.members)
    ensures Lookup(ObjectSet(o, name, v).value.members, other)
            == if ObjectSet(o, name, v).ok && other == name then Some(v) else Lookup(o.members, other)
  {
    var i := IndexOf(o.members, name);
    if i == |o.members| {
      AddBinds(o, name, v, other);
    } else {
      var ms := ObjectSet(o, name, v).value.members;
      assert forall j | 0 <= j < |ms| :: ms[j].name == o.members[j].name;
      var k := IndexOf(o.members, other);
      if other == name {
        LookupIs(ms, name, i);
      } else if k < |o.members| {
        LookupIs(ms, other, k);
      } else {
        LookupAbsent(o.members, other);
        LookupAbsent(ms, other);
      }
    }
  }

  /** Swap-with-last removal succeeds exactly for a present name and drops that binding only. */
  lemma RemoveUnbinds(o: Json, name: bytes, other: bytes)
    requires o.Object? && DistinctNames(o.members)
    ensures ObjectRemove(o, name).ok <==> Lookup(o.members, name).Some?
    ensures ObjectRemove(o, name).value.Object?
    ensures DistinctNames(ObjectRemove(o, name).value.members)
    ensures Lookup(ObjectRemove(o, name).value.members, other)
            == if other == name then None else Lookup(o.members, other)
  {
    var i, n := IndexOf(o.members, name), |o.members|;
    if i < n {
      var ms := ObjectRemove(o, name).value.members;
      assert forall j | 0 <= j < |ms| :: ms[j] == if j == i then o.members[n - 1] else o.members[j];
      assert DistinctNames(ms);
      var k := IndexOf(o.members, other);
      if other == name {
        LookupAbsent(ms, other);
      } else if k == n {
        LookupAbsent(o.members, other);
        LookupAbsent(ms, other);
      } else {
        LookupIs(ms, other, if k == n - 1 then i else k);
      }
    }
  }

  // ---- runs ----

  datatype Op =
    | Add(name: bytes, v: Json)
    | Set(name: bytes, v: Json)
    | Remove(name: bytes)
    | Clear

  predicate ValidOp(op: Op) {
    match op
    case Add(name, v) => NulFree(name) && Valid(v)
    case Set(name, v) => NulFree(name) && Valid(v)
    case _ => true
  }

  function Apply(o: Json, op: Op): Result
    requires o.Object?
  {
    match op
    case Add(name, v) => ObjectAdd(o, name, v)
    case Set(name, v) => ObjectSet(o, name, v)
    case Remove(name) => ObjectRemove(o, name)
    case Clear => ObjectClear(o)
  }

  /** The same operation on a finite map; a failed operation is a no-op. */
  ghost function ApplyToMap(m: map<bytes, Json>, op: Op, ok: bool): map<bytes, Json> {
    if !ok then m
    else match op
      case Add(name, v) => m[name := v]
      case Set(name, v) => m[name := v]
      case Remove(name) => m - {name}
      case Clear => map[]
  }

  /** Whether the operation succeeds, read off the map and the room left. */
  ghost predicate Accepts(m: map<bytes, Json>, room: bool, op: Op) {
    match op
    case Add(name, _) => room && name !in m
    case Set(name, _) => room || name in m
    case Remove(name) => name in m
    case Clear => true
  }

  predicate HasRoom(o: Json)
    requires o.Object?
  {
    RoomFor(|o.members|, o.capacity, OBJECT_MAX_CAPACITY).Some?
  }

  lemma ApplyKeepsValid(o: Json, op: Op)
    requires o.Object? && Valid(o) && ValidOp(op)
    ensures Apply(o, op).value.Object? && Valid(Apply(o, op).value)
  {
    match op
    case Add(name, v) => AddBinds(o, name, v, name);
    case Set(name, v) => SetBinds(o, name, v, name);
    case Remove(name) => RemoveUnbinds(o, name, name);
    case Clear =>
  }

  lemma ApplyRefinesMap(o: Json, op: Op)
    requires o.Object? && DistinctNames(o.members)
    ensures Apply(o, op).ok <==> Accepts(AsMap(o.members), HasRoom(o), op)
    ensures Apply(o, op).value.Object?
    ensures AsMap(Apply(o, op).value.members) == ApplyToMap(AsMap(o.members), op, Apply(o, op).ok)
  {
    var r, m := Apply(o, op), AsMap(o.members);
    forall name ensures name in m <==> Lookup(o.members, name).Some?
                ensures name in m ==> Lookup(o.members, name) == Some(m[name])
    {
      AsMapIsLookup(o.members, name);
    }
    var m' := ApplyToMap(m, op, r.ok);
    match op
    case Add(name, v) =>
      AddBinds(o, name, v, name);
      forall other ensures Lookup(r.value.members, other) == if other in m' then Some(m'[other]) else None {
        AddBinds(o, name, v, other);
      }
      SameMap(r.value.members, m');
    case Set(name, v) =>
      SetBinds(o, name, v, name);
      forall other ensures Lookup(r.value.members, other) == if other in m' then Some(m'[other]) else None {
        SetBinds(o, name, v, other);
      }
      SameMap(r.value.members, m');
    case Remove(name) =>
      RemoveUnbinds(o, name, name);
      forall other ensures Lookup(r.value.members, other) == if other in m' then Some(m'[other]) else None {
        RemoveUnbinds(o, name, other);
      }
      SameMap(r.value.members, m');
    case Clear =>
  }

  /** The states and statuses of a whole run. */
  datatype Trace = Trace(final: Json, statuses: seq<bool>)

  function Run(o: Json, ops: seq<Op>): (t: Trace)
    requires o.Object?
    ensures |t.statuses| == |ops|
    ensures t.final.Object?
    decreases |ops|
  {
    if ops == [] then Trace(o, [])
    else
      var r := Apply(o, ops[0]);
      var t := Run(r.value, ops[1..]);
      Trace(t.final, [r.ok] + t.statuses)
  }

  ghost function RunOnMap(m: map<bytes, Json>, ops: seq<Op>, statuses: seq<bool>): map<bytes, Json>
    requires |statuses| == |ops|
    decreases |ops|
  {
    if ops == [] then m else RunOnMap(ApplyToMap(m, ops[0], statuses[0]), ops[1..], statuses[1..])
  }

  /** Over every run: names stay distinct, count <= capacity <= 960, and the object stays the map the run describes. */
  lemma {:induction false} RunRefinesMap(o: Json, ops: seq<Op>)
    requires o.Object? && Valid(o)
    requires forall i | 0 <= i < |ops| :: ValidOp(ops[i])
    ensures Valid(Run(o, ops).final)
    ensures AsMap(Run(o, ops).final.members) == RunOnMap(AsMap(o.members), ops, Run(o, ops).statuses)
    ensures |AsMap(Run(o, ops).final.members)| == |Run(o, ops).final.members|
    decreases |ops|
  {
    if ops == [] {
      AsMapSize(o.members);
    } else {
      ApplyKeepsValid(o, ops[0]);
      ApplyRefinesMap(o, ops[0]);
      var t := Run(Apply(o, ops[0]).value, ops[1..]);
      assert Run(o, ops).statuses[1..] == t.statuses;
      RunRefinesMap(Apply(o, ops[0]).value, ops[1..]);
    }
  }

  // ---- where the room ends ----

  /** Capacities that doubling from fifteen can reach. */
  predicate Doubled(capacity: nat) {
    capacity in {0, 15, 30, 60, 120, 240, 480, 960}
  }

  /** From an empty object on, every capacity is fifteen doubled, so only an object of 960 members refuses a fresh name. */
  lemma {:induction false} FreshObjectFillsTo960(o: Json, ops: seq<Op>)
    requires o.Object? && |o.members| <= o.capacity && Doubled(o.capacity)
    ensures var f := Run(o, ops).final;
      |f.members| <= f.capacity && Doubled(f.capacity) && (HasRoom(f) <==> |f.members| < 960)
    decreases |ops|
  {
    if ops != [] {
      StoreStaysDoubled(o, ops[0]);
      FreshObjectFillsTo960(Apply(o, ops[0]).value, ops[1..]);
    }
  }

  lemma StoreStaysDoubled(o: Json, op: Op)
    requires o.Object? && |o.members| <= o.capacity && Doubled(o.capacity)
    ensures var next := Apply(o, op).value;
      next.Object? && |next.members| <= next.capacity && Doubled(next.capacity)
  {
  }

  predicate DoubledArray(capacity: nat) {
    capacity in {0, 15, 30, 60, 120, 240, 480, 960, 1920, 3840, 7680, 15360, 30720, 61440, 122880}
  }

  /** Every store, at every level, is one that has grown from nothing. */
  predicate Grown(v: Json) {
    match v
    case Object(ms, capacity) =>
      |ms| <= capacity && Doubled(capacity) && forall i | 0 <= i < |ms| :: Grown(ms[i].value)
    case Array(items, capacity) =>
      |items| <= capacity && DoubledArray(capacity) && forall i | 0 <= i < |items| :: Grown(items[i])
    case _ => true
  }

  lemma AddKeepsGrown(o: Json, name: bytes, v: Json)
    requires o.Object? && Grown(o) && Grown(v)
    ensures Grown(ObjectAdd(o, name, v).value)
  {
  }

  lemma SetKeepsGrown(o: Json, name: bytes, v: Json)
    requires o.Object? && Grown(o) && Grown(v)
    ensures Grown(ObjectSet(o, name, v).value)
  {
    AddKeepsGrown(o, name, v);
  }

  /** An object whose store was cut to its count, as the parser leaves it, refuses a fresh name from 481 members on. */
  lemma TrimmedObjectRefusesFrom481(ms: seq<Member>, name: bytes, v: Json)
    requires DistinctNames(ms) && Lookup(ms, name).None?
    ensures ObjectAdd(Object(ms, |ms|), name, v).ok <==> |ms| <= 480
  {
    AddBinds(Object(ms, |ms|), name, v, name);
  }

  // ---- positions ----

  /** One more at the end, and nothing else. */
  predicate Appended<T(==)>(before: seq<T>, x: T, after: seq<T>) {
    && |after| == |before| + 1 && after[|before|] == x
    && forall j | 0 <= j < |before| :: after[j] == before[j]
  }

  /** Another at one place, and nothing else. */
  predicate Replaced<T(==)>(before: seq<T>, i: nat, x: T, after: seq<T>) {
    && i < |before| == |after| && after[i] == x
    && forall j | 0 <= j < |before| && j != i :: after[j] == before[j]
  }

  /** One less: the last one has moved to the place of the one that went, and nothing else. */
  predicate Removed<T(==)>(before: seq<T>, i: nat, after: seq<T>) {
    && i < |before| == |after| + 1
    && forall j | 0 <= j < |after| :: after[j] == if j == i then before[|after|] else before[j]
  }

  /** Where an operation on an object puts its members: at the end, in place, or the last one into the hole. */
  predicate Rearranges(before: seq<Member>, op: Op, ok: bool, after: seq<Member>) {
    if !ok then after == before
    else match op
      case Add(name, v) => Appended(before, Member(name, v), after)
      case Set(name, v) =>
        if exists i | 0 <= i < |before| :: before[i].name == name
        then exists i | 0 <= i < |before| && before[i].name == name :: Replaced(before, i, Member(name, v), after)
        else Appended(before, Member(name, v), after)
      case Remove(name) => exists i | 0 <= i < |before| && before[i].name == name :: Removed(before, i, after)
      case Clear => after == []
  }

  lemma ApplyRearranges(o: Json, op: Op)
    requires o.Object?
    ensures Apply(o, op).value.Object?
    ensures Rearranges(o.members, op, Apply(o, op).ok, Apply(o, op).value.members)
  {
    match op
    case Set(name, v) =>
      var i := IndexOf(o.members, name);
      if i < |o.members| {
        assert Replaced(o.members, i, Member(name, v), Apply(o, op).value.members);
      }
    case Remove(name) =>
      var i := IndexOf(o.members, name);
      if i < |o.members| {
        assert Removed(o.members, i, Apply(o, op).value.members);
      }
    case _ =>
  }

  // ---- arrays ----

  datatype ArrayOp = Append(v: Json) | RemoveAt(i: nat) | ReplaceAt(i: nat, v: Json) | ClearAll

  function ApplyToArray(a: Json, op: ArrayOp): (r: Result)
    requires a.Array?
    ensures r.value.Array?
  {
    match op
    case Append(v) => ArrayAdd(a, v)
    case RemoveAt(i) => ArrayRemove(a, i)
    case ReplaceAt(i, v) => ArrayReplace(a, i, v)
    case ClearAll => ArrayClear(a)
  }

  /** What an operation does to the elements, place by place; a refused one does nothing. */
  predicate Changes(before: seq<Json>, op: ArrayOp, ok: bool, after: seq<Json>) {
    if !ok then after == before
    else match op
      case Append(v) => Appended(before, v, after)
      case RemoveAt(i) => Removed(before, i, after)
      case ReplaceAt(i, v) => Replaced(before, i, v, after)
      case ClearAll => after == []
  }

  /** Every operation changes the elements as it should, and only a full array refuses an append. */
  lemma ArrayOpsByPlace(a: Json, op: ArrayOp)
    requires a.Array?
    ensures var r := ApplyToArray(a, op);
      && Changes(a.items, op, r.ok, r.value.items)
      && (op.Append? ==> (r.ok <==> RoomFor(|a.items|, a.capacity, ARRAY_MAX_CAPACITY).Some?))
      && (op.RemoveAt? ==> (r.ok <==> op.i < |a.items|))
      && (op.ReplaceAt? ==> (r.ok <==> op.i < |a.items|))
      && (op.ClearAll? ==> r.ok)
      && (!op.Append? ==> r.value.capacity == a.capacity)
  {
  }

  /** The store of an object grows for a new member when it is full, to twice what it was and to fifteen at least. */
  lemma StoreDoubles(o: Json, op: Op)
    requires o.Object?
    ensures var grown := if o.capacity < 8 then 15 else 2 * o.capacity;
      var wanted := op.Add? || (op.Set? && Lookup(o.members, op.name).None?);
      Apply(o, op).value.capacity
      == if wanted && |o.members| >= o.capacity && grown <= 960 then grown else o.capacity
  {
  }

  lemma ArrayStoreDoubles(a: Json, op: ArrayOp)
    requires a.Array?
    ensures var grown := if a.capacity < 8 then 15 else 2 * a.capacity;
      ApplyToArray(a, op).value.capacity
      == if op.Append? && |a.items| >= a.capacity && grown <= 122880 then grown else a.capacity
  {
  }

  /** An array cut to its count, as the parser leaves it, takes one more element up to 61440, half of the limit. */
  lemma TrimmedArrayRefusesFrom61441(items: seq<Json>, v: Json)
    ensures ArrayAdd(Array(items, |items|), v).ok <==> |items| <= 61440
  {
  }

  /** What an operation does to the bag of elements: one in, one out, or all out; a refused one does nothing. */
  predicate BagChanges(before: seq<Json>, op: ArrayOp, ok: bool, after: seq<Json>) {
    if !ok then after == before
    else match op
      case Append(v) => multiset(after) == multiset(before) + multiset{v}
      case RemoveAt(i) => i < |before| && multiset(before) == multiset(after) + multiset{before[i]}
      case ReplaceAt(i, v) =>
        i < |before| && multiset(before) + multiset{v} == multiset(after) + multiset{before[i]}
      case ClearAll => after == []
  }

  /** Removal moves the last element into the hole and leaves every other where it was. */
  lemma ArrayRemoveDropsOne(a: Json, i: nat)
    requires a.Array? && i < |a.items|
    ensures var n, left := |a.items|, ArrayRemove(a, i).value.items;
      && |left| == n - 1 && multiset(a.items) == multiset(left) + multiset{a.items[i]}
      && (forall j | 0 <= j < n - 1 && j != i :: left[j] == a.items[j])
      && (i < n - 1 ==> left[i] == a.items[n - 1])
  {
    var s, n := a.items, |a.items|;
    var left := ArrayRemove(a, i).value.items;
    assert s == s[..n - 1] + [s[n - 1]];
    if i < n - 1 {
      assert s[..n - 1] == s[..i] + [s[i]] + s[i + 1..n - 1];
      assert left == s[..i] + [s[n - 1]] + s[i + 1..n - 1];
    }
  }

  /** So the bag of elements changes by exactly what the operation is for. */
  lemma ArrayOpsChangeBags(a: Json, op: ArrayOp)
    requires a.Array?
    ensures BagChanges(a.items, op, ApplyToArray(a, op).ok, ApplyToArray(a, op).value.items)
  {
    match op
    case RemoveAt(i) =>
      if i < |a.items| {
        ArrayRemoveDropsOne(a, i);
      }
    case ReplaceAt(i, v) =>
      if i < |a.items| {
        var s := a.items;
        assert s == s[..i] + [s[i]] + s[i + 1..];
        assert s[i := v] == s[..i] + [v] + s[i + 1..];
      }
    case _ =>
  }

  function RunOnArray(a: Json, ops: seq<ArrayOp>): (t: Trace)
    requires a.Array?
    ensures |t.statuses| == |ops|
    ensures t.final.Array?
    decreases |ops|
  {
    if ops == [] then Trace(a, [])
    else
      var r := ApplyToArray(a, ops[0]);
      var t := RunOnArray(r.value, ops[1..]);
      Trace(t.final, [r.ok] + t.statuses)
  }

  /** The elements after each operation of a run, from those before the first to those after the last. */
  ghost predicate Follows(states: seq<seq<Json>>, ops: seq<ArrayOp>, statuses: seq<bool>) {
    && |states| == |ops| + 1 && |statuses| == |ops|
    && forall k | 0 <= k < |ops| :: Changes(states[k], ops[k], statuses[k], states[k + 1])
  }

  predicate ValidArrayOp(op: ArrayOp) {
    (op.Append? ==> Valid(op.v)) && (op.ReplaceAt? ==> Valid(op.v))
  }

  /** Over every run the elements are those of the sequence that every operation changes place by place. */
  lemma {:induction false} ArrayRunByPlace(a: Json, ops: seq<ArrayOp>) returns (states: seq<seq<Json>>)
    requires a.Array?
    ensures Follows(states, ops, RunOnArray(a, ops).statuses)
    ensures states[0] == a.items && states[|ops|] == RunOnArray(a, ops).final.items
    decreases |ops|
  {
    if ops == [] {
      states := [a.items];
    } else {
      ArrayOpsByPlace(a, ops[0]);
      var others := ArrayRunByPlace(ApplyToArray(a, ops[0]).value, ops[1..]);
      states := [a.items] + others;
      var t := RunOnArray(a, ops);
      forall k | 0 <= k < |ops| ensures Changes(states[k], ops[k], t.statuses[k], states[k + 1]) {
        if k > 0 {
          assert states[k] == others[k - 1] && ops[k] == ops[1..][k - 1];
        }
      }
    }
  }

  /** Over every run an array built from valid values stays one, with count and capacity inside the limit. */
  lemma {:induction false} ArrayRunKeepsValid(a: Json, ops: seq<ArrayOp>)
    requires a.Array? && Valid(a)
    requires forall k | 0 <= k < |ops| :: ValidArrayOp(ops[k])
    ensures Valid(RunOnArray(a, ops).final)
    decreases |ops|
  {
    if ops != [] {
      ArrayOpKeepsValid(a, ops[0]);
      ArrayRunKeepsValid(ApplyToArray(a, ops[0]).value, ops[1..]);
    }
  }

  lemma ArrayOpKeepsValid(a: Json, op: ArrayOp)
    requires a.Array? && Valid(a) && ValidArrayOp(op)
    ensures Valid(ApplyToArray(a, op).value)
  {
  }
}
