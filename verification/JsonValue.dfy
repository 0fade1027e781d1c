/** JSON values as the library stores them, and the four object operations on them. */
module JsonValue {
  import opened Bytes

  /** Containers carry the capacity of their backing store: it decides when an insertion is refused. */
  datatype Json =
    | Null
    | Bool(b: bool)
    | Number(n: int)
    | Str(s: bytes)
    | Array(items: seq<Json>, capacity: nat)
    | Object(members: seq<Member>, capacity: nat)

  datatype Member = Member(name: bytes, value: Json)

  /** Status and new state of an operation that mutates a container. */
  datatype Result = Result(ok: bool, value: Json)

  const STARTING_CAPACITY: nat := 15
  const ARRAY_MAX_CAPACITY: nat := 122880
  const OBJECT_MAX_CAPACITY: nat := 960

  const EMPTY_OBJECT := Object([], 0)
  const EMPTY_ARRAY := Array([], 0)

  /** Parallel names and values as members. */
  function Zip(names: seq<bytes>, values: seq<Json>): (ms: seq<Member>)
    requires |names| == |values|
    ensures |ms| == |names|
    ensures forall i | 0 <= i < |ms| :: ms[i] == Member(names[i], values[i])
  {
    seq(|names|, i requires 0 <= i < |names| => Member(names[i], values[i]))
  }

  /** Index of the first member called `name`, or the member count. */
  function IndexOf(ms: seq<Member>, name: bytes): (i: nat)
    ensures i <= |ms|
    ensures i < |ms| ==> ms[i].name == name
    ensures forall j | 0 <= j < i :: ms[j].name != name
  {
    if ms == [] || ms[0].name == name then 0 else 1 + IndexOf(ms[1..], name)
  }

  function Lookup(ms: seq<Member>, name: bytes): Option<Json> {
    var i := IndexOf(ms, name);
    if i < |ms| then Some(ms[i].value) else None
  }

  predicate DistinctNames(ms: seq<Member>) {
    forall i, j | 0 <= i < j < |ms| :: ms[i].name != ms[j].name
  }

  predicate IsContainer(v: Json) {
    v.Array? || v.Object?
  }

  /** How many containers deep a value goes below itself. */
  function Depth(v: Json): nat
    decreases v, 1
  {
    match v
    case Array(items, _) => if items == [] then 0 else 1 + DepthOfItems(items)
    case Object(ms, _) => if ms == [] then 0 else 1 + DepthOfMembers(ms)
    case _ => 0
  }

  function DepthOfItems(items: seq<Json>): nat
    decreases items, 0
  {
    if items == [] then 0 else Max(Depth(items[0]), DepthOfItems(items[1..]))
  }

  function DepthOfMembers(ms: seq<Member>): nat
    decreases ms, 0
  {
    if ms == [] then 0 else Max(Depth(ms[0].value), DepthOfMembers(ms[1..]))
  }

  /** What every value built through the API satisfies, at every level. */
  predicate Valid(v: Json) {
    match v
    case Str(s) => NulFree(s)
    case Array(items, capacity) =>
      && |items| <= capacity <= ARRAY_MAX_CAPACITY
      && forall i | 0 <= i < |items| :: Valid(items[i])
    case Object(ms, capacity) =>
      && |ms| <= capacity <= OBJECT_MAX_CAPACITY
      && DistinctNames(ms)
      && forall i | 0 <= i < |ms| :: NulFree(ms[i].name) && Valid(ms[i].value)
    case _ => true
  }

  /** The capacity a container has after making room for one more element, if it may grow. */
  function RoomFor(count: nat, capacity: nat, max: nat): Option<nat> {
    if count < capacity then Some(capacity)
    else
      var doubled := Max(capacity * 2, STARTING_CAPACITY);
      if doubled > max then None else Some(doubled)
  }

  /** Adding makes room first and looks for a duplicate second, so even a refused add may grow. */
  function ObjectAdd(o: Json, name: bytes, v: Json): Result
    requires o.Object?
  {
    match RoomFor(|o.members|, o.capacity, OBJECT_MAX_CAPACITY)
    case None => Result(false, o)
    case Some(capacity) =>
      if Lookup(o.members, name).Some? then Result(false, Object(o.members, capacity))
      else Result(true, Object(o.members + [Member(name, v)], capacity))
  }

  function ObjectSet(o: Json, name: bytes, v: Json): Result
    requires o.Object?
  {
    var i := IndexOf(o.members, name);
    if i < |o.members| then Result(true, Object(o.members[i := Member(name, v)], o.capacity))
    else ObjectAdd(o, name, v)
  }

  /** Removal moves the last member into the hole. */
  function ObjectRemove(o: Json, name: bytes): Result
    requires o.Object?
  {
    var i, n := IndexOf(o.members, name), |o.members|;
    if i == n then Result(false, o)
    else if i == n - 1 then Result(true, Object(o.members[..n - 1], o.capacity))
    else Result(true, Object(o.members[i := o.members[n - 1]][..n - 1], o.capacity))
  }

  function ObjectClear(o: Json): Result
    requires o.Object?
  {
    Result(true, Object([], o.capacity))
  }

  function ArrayAdd(a: Json, v: Json): Result
    requires a.Array?
  {
    match RoomFor(|a.items|, a.capacity, ARRAY_MAX_CAPACITY)
    case None => Result(false, a)
    case Some(capacity) => Result(true, Array(a.items + [v], capacity))
  }

  function ArrayRemove(a: Json, i: nat): Result
    requires a.Array?
  {
    var n := |a.items|;
    if i >= n then Result(false, a)
    else if i == n - 1 then Result(true, Array(a.items[..n - 1], a.capacity))
    else Result(true, Array(a.items[i := a.items[n - 1]][..n - 1], a.capacity))
  }

  function ArrayReplace(a: Json, i: nat, v: Json): Result
    requires a.Array?
  {
    if i >= |a.items| then Result(false, a) else Result(true, Array(a.items[i := v], a.capacity))
  }

  function ArrayClear(a: Json): Result
    requires a.Array?
  {
    Result(true, Array([], a.capacity))
  }

  /** The value with every capacity cut down to its count: what a reader of the value can see. */
  function Trim(v: Json): (t: Json)
    ensures t.Array? <==> v.Array?
    ensures t.Object? <==> v.Object?
  {
    match v
    case Array(items, _) => Array(TrimItems(items), |items|)
    case Object(ms, _) => Object(TrimMembers(ms), |ms|)
    case _ => v
  }

  function TrimItems(items: seq<Json>): (t: seq<Json>)
    ensures |t| == |items|
    ensures forall i | 0 <= i < |t| :: t[i] == Trim(items[i])
  {
    if items == [] then [] else [Trim(items[0])] + TrimItems(items[1..])
  }

  function TrimMembers(ms: seq<Member>): (t: seq<Member>)
    ensures |t| == |ms|
    ensures forall i | 0 <= i < |t| :: t[i] == Member(ms[i].name, Trim(ms[i].value))
  {
    if ms == [] then [] else [Member(ms[0].name, Trim(ms[0].value))] + TrimMembers(ms[1..])
  }

  lemma LookupMember(ms: seq<Member>, i: nat)
    requires i < |ms| && DistinctNames(ms)
    ensures IndexOf(ms, ms[i].name) == i
    ensures Lookup(ms, ms[i].name) == Some(ms[i].value)
  {
    assert IndexOf(ms, ms[i].name) <= i;
  }

  lemma LookupAbsent(ms: seq<Member>, name: bytes)
    ensures Lookup(ms, name) == None <==> forall i | 0 <= i < |ms| :: ms[i].name != name
  {
    var i := IndexOf(ms, name);
    assert i < |ms| ==> ms[i].name == name;
  }

  /** A lookup result is determined by any one member carrying the name. */
  lemma LookupIs(ms: seq<Member>, name: bytes, i: nat)
    requires DistinctNames(ms) && i < |ms| && ms[i].name == name
    ensures Lookup(ms, name) == Some(ms[i].value)
  {
    LookupMember(ms, i);
  }
}
