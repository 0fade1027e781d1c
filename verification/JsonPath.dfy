/** Dotted paths: get, set and remove walk nested objects one name at a time. */
module JsonPath {
  import opened Bytes
  import opened JsonValue
  import opened JsonMaps

  /** Offset of the first dot, or the length when there is none. */
  function FirstDot(path: bytes): (d: nat)
    ensures d <= |path|
    ensures DOT !in path[..d]
    ensures d < |path| ==> path[d] == DOT
  {
    if path == [] || path[0] == DOT then 0
    else
      var d := 1 + FirstDot(path[1..]);
      assert path[..d] == [path[0]] + path[1..][..d - 1];
      d
  }

  function FirstName(path: bytes): bytes {
    path[..FirstDot(path)]
  }

  predicate IsSingle(path: bytes) {
    FirstDot(path) == |path|
  }

  function RestOfPath(path: bytes): (rest: bytes)
    requires !IsSingle(path)
    ensures |rest| < |path|
  {
    path[FirstDot(path) + 1..]
  }

  /** The names a path spells out. */
  function Components(path: bytes): (cs: seq<bytes>)
    ensures |cs| >= 1 && cs[0] == FirstName(path)
    ensures IsSingle(path) <==> |cs| == 1
    ensures !IsSingle(path) ==> cs[1..] == Components(RestOfPath(path))
    decreases |path|
  {
    if IsSingle(path) then [path] else [FirstName(path)] + Components(RestOfPath(path))
  }

  /** Names with dots in between; an empty name between two dots is a name as well. */
  lemma PathIsDotted(name: bytes, path: bytes)
    requires 46 !in name
    ensures Components(name) == [name] && Components(name + [46] + path) == [name] + Components(path)
  {
    FirstDotIs(name, name, []);
    FirstDotIs(name + [46] + path, name, [46] + path);
    assert (name + [46] + path)[|name| + 1..] == path && (name + [46] + path)[..|name|] == name;
  }

  lemma FirstDotIs(path: bytes, name: bytes, rest: bytes)
    requires path == name + rest && 46 !in name && (rest == [] || rest[0] == 46)
    ensures FirstDot(path) == |name|
  {
    var d := FirstDot(path);
    assert forall i | 0 <= i < |name| :: path[i] == name[i] && name[i] in name;
    assert forall i | 0 <= i < d :: path[i] == path[..d][i] && path[..d][i] in path[..d];
    assert rest != [] ==> path[|name|] == rest[0];
  }

  predicate PrefixComparable(p: bytes, q: bytes) {
    Components(p) <= Components(q) || Components(q) <= Components(p)
  }

  /** An object value, or nothing when the value is missing or of another type. */
  function AsObject(v: Option<Json>): (o: Option<Json>)
    ensures o.Some? ==> o == v && o.value.Object?
  {
    if v.Some? && v.value.Object? then v else None
  }

  /** Reading goes on past a missing object, down to the last name. */
  function DotGet(o: Option<Json>, path: bytes): Option<Json>
    requires o.Some? ==> o.value.Object?
    decreases |path|
  {
    var found := if o.None? then None else Lookup(o.value.members, FirstName(path));
    if IsSingle(path) then found else DotGet(AsObject(found), RestOfPath(path))
  }

  /** Replaces the value of a present name, where the C code updates the nested object through its pointer. */
  function Replaced(o: Json, name: bytes, v: Json): Json
    requires o.Object? && Lookup(o.members, name).Some?
  {
    Object(o.members[IndexOf(o.members, name) := Member(name, v)], o.capacity)
  }

  function DotSet(o: Json, path: bytes, v: Json): (r: Result)
    requires o.Object?
    ensures r.value.Object?
    decreases |path|
  {
    var name := FirstName(path);
    if IsSingle(path) then ObjectSet(o, path, v)
    else
      var nested := AsObject(Lookup(o.members, name));
      if nested.Some? then
        var r := DotSet(nested.value, RestOfPath(path), v);
        Result(r.ok, Replaced(o, name, r.value))
      else
        var added := ObjectAdd(o, name, EMPTY_OBJECT);
        if !added.ok then added
        else
          var r := DotSet(EMPTY_OBJECT, RestOfPath(path), v);
          assert Lookup(added.value.members, name).Some? by {
            LookupAbsent(added.value.members, name);
            assert added.value.members[|o.members|].name == name;
          }
          Result(r.ok, Replaced(added.value, name, r.value))
  }

  function DotRemove(o: Json, path: bytes): (r: Result)
    requires o.Object?
    ensures r.value.Object?
    decreases |path|
  {
    if IsSingle(path) then ObjectRemove(o, path)
    else
      var nested := AsObject(Lookup(o.members, FirstName(path)));
      if nested.None? then Result(false, o)
      else
        var r := DotRemove(nested.value, RestOfPath(path));
        Result(r.ok, Replaced(o, FirstName(path), r.value))
  }

  // ---- what one step does to the members ----

  lemma ReplacedBinds(o: Json, name: bytes, v: Json, other: bytes)
    requires o.Object? && DistinctNames(o.members) && Lookup(o.members, name).Some?
    ensures DistinctNames(Replaced(o, name, v).members)
    ensures Lookup(Replaced(o, name, v).members, other) == if other == name then Some(v) else Lookup(o.members, other)
  {
    SetBinds(o, name, v, other);
    assert Replaced(o, name, v) == ObjectSet(o, name, v).value;
  }

  /** What a set of several names does to the object, old or new, under the first name. */
  function Below(o: Json, path: bytes, v: Json): Result
    requires o.Object? && !IsSingle(path)
  {
    var nested := AsObject(Lookup(o.members, FirstName(path)));
    DotSet(if nested.Some? then nested.value else EMPTY_OBJECT, RestOfPath(path), v)
  }

  predicate Entered(o: Json, path: bytes)
    requires o.Object?
  {
    AsObject(Lookup(o.members, FirstName(path))).Some? || ObjectAdd(o, FirstName(path), EMPTY_OBJECT).ok
  }

  /** A nested set is either a set of the last name, or one replacement of the value of the first name. */
  lemma DotSetStep(o: Json, path: bytes, v: Json, other: bytes)
    requires o.Object? && DistinctNames(o.members) && !IsSingle(path)
    ensures DistinctNames(DotSet(o, path, v).value.members)
    ensures DotSet(o, path, v).ok ==> Entered(o, path) && Below(o, path, v).ok
    ensures Lookup(DotSet(o, path, v).value.members, other)
            == (if other == FirstName(path) && Entered(o, path) then Some(Below(o, path, v).value)
                else Lookup(o.members, other))
  {
    var name := FirstName(path);
    var nested := AsObject(Lookup(o.members, name));
    if nested.Some? {
      ReplacedBinds(o, name, DotSet(nested.value, RestOfPath(path), v).value, other);
    } else {
      var added := ObjectAdd(o, name, EMPTY_OBJECT);
      AddBinds(o, name, EMPTY_OBJECT, other);
      AddBinds(o, name, EMPTY_OBJECT, name);
      if added.ok {
        ReplacedBinds(added.value, name, DotSet(EMPTY_OBJECT, RestOfPath(path), v).value, other);
      }
    }
  }

  // ---- the laws ----

  lemma {:induction false} DotSetKeepsValid(o: Json, path: bytes, v: Json)
    requires o.Object? && Valid(o) && Valid(v) && NulFree(path)
    ensures Valid(DotSet(o, path, v).value)
    decreases |path|
  {
    var name := FirstName(path);
    if IsSingle(path) {
      ApplyKeepsValid(o, Set(path, v));
    } else {
      var nested := AsObject(Lookup(o.members, name));
      if nested.Some? {
        DotSetKeepsValid(nested.value, RestOfPath(path), v);
      } else {
        var added := ObjectAdd(o, name, EMPTY_OBJECT);
        ApplyKeepsValid(o, Add(name, EMPTY_OBJECT));
        AddBinds(o, name, EMPTY_OBJECT, name);
        if added.ok {
          DotSetKeepsValid(EMPTY_OBJECT, RestOfPath(path), v);
        }
      }
    }
  }

  lemma {:induction false} DotRemoveKeepsValid(o: Json, path: bytes)
    requires o.Object? && Valid(o)
    ensures Valid(DotRemove(o, path).value)
    decreases |path|
  {
    var name := FirstName(path);
    if IsSingle(path) {
      ApplyKeepsValid(o, Remove(path));
    } else {
      var nested := AsObject(Lookup(o.members, name));
      if nested.Some? {
        DotRemoveKeepsValid(nested.value, RestOfPath(path));
      }
    }
  }

  /**
   * What a dotset changes or makes on its way is made by growing objects from nothing, so at every level only an object
   * of 960 members refuses a fresh name.
   */
  lemma {:induction false} DotSetKeepsGrown(o: Json, path: bytes, v: Json)
    requires o.Object? && Grown(o) && Grown(v)
    ensures Grown(DotSet(o, path, v).value)
    decreases |path|
  {
    var name := FirstName(path);
    if IsSingle(path) {
      SetKeepsGrown(o, path, v);
    } else {
      var nested := AsObject(Lookup(o.members, name));
      if nested.Some? {
        DotSetKeepsGrown(nested.value, RestOfPath(path), v);
        ReplacedIsGrown(o, name, DotSet(nested.value, RestOfPath(path), v).value);
      } else {
        var added := ObjectAdd(o, name, EMPTY_OBJECT);
        AddKeepsGrown(o, name, EMPTY_OBJECT);
        if added.ok {
          LookupAbsent(added.value.members, name);
          assert added.value.members[|o.members|].name == name;
          DotSetKeepsGrown(EMPTY_OBJECT, RestOfPath(path), v);
          ReplacedIsGrown(added.value, name, DotSet(EMPTY_OBJECT, RestOfPath(path), v).value);
        }
      }
    }
  }

  lemma ReplacedIsGrown(o: Json, name: bytes, v: Json)
    requires o.Object? && Grown(o) && Grown(v) && Lookup(o.members, name).Some?
    ensures Grown(Replaced(o, name, v))
  {
  }

  /** After a successful set, the path reads back the value. */
  lemma {:induction false} DotSetThenGet(o: Json, path: bytes, v: Json)
    requires o.Object? && Valid(o) && DotSet(o, path, v).ok
    ensures DotGet(Some(DotSet(o, path, v).value), path) == Some(v)
    decreases |path|
  {
    var name := FirstName(path);
    if IsSingle(path) {
      SetBinds(o, path, v, path);
      assert name == path;
    } else {
      var nested := AsObject(Lookup(o.members, name));
      DotSetStep(o, path, v, name);
      if nested.Some? {
        DotSetThenGet(nested.value, RestOfPath(path), v);
      } else {
        DotSetThenGet(EMPTY_OBJECT, RestOfPath(path), v);
      }
    }
  }

  lemma {:induction false} NothingBelowNothing(o: Option<Json>, path: bytes)
    requires o == None || o == Some(EMPTY_OBJECT)
    ensures DotGet(o, path) == None
    decreases |path|
  {
    if !IsSingle(path) {
      NothingBelowNothing(None, RestOfPath(path));
    }
  }

  lemma IncomparableStep(p: bytes, q: bytes)
    requires !PrefixComparable(p, q)
    ensures FirstName(p) == FirstName(q) ==>
            !IsSingle(p) && !IsSingle(q) && !PrefixComparable(RestOfPath(p), RestOfPath(q))
  {
    var cp, cq := Components(p), Components(q);
    if FirstName(p) == FirstName(q) && !IsSingle(p) && !IsSingle(q) {
      assert cp == [cp[0]] + cp[1..] && cq == [cq[0]] + cq[1..];
    }
  }

  /** Setting a path, successful or not, leaves every incomparable path as it was. */
  lemma {:induction false} DotSetLeavesOthers(o: Json, path: bytes, v: Json, q: bytes)
    requires o.Object? && Valid(o) && !PrefixComparable(path, q)
    ensures DotGet(Some(DotSet(o, path, v).value), q) == DotGet(Some(o), q)
    decreases |path|
  {
    var name := FirstName(path);
    IncomparableStep(path, q);
    if IsSingle(path) {
      assert name == path;
      SetBinds(o, path, v, FirstName(q));
    } else {
      DotSetStep(o, path, v, FirstName(q));
      if FirstName(q) == name {
        var nested := AsObject(Lookup(o.members, name));
        if nested.Some? {
          DotSetLeavesOthers(nested.value, RestOfPath(path), v, RestOfPath(q));
        } else {
          DotSetLeavesOthers(EMPTY_OBJECT, RestOfPath(path), v, RestOfPath(q));
          NothingBelowNothing(Some(EMPTY_OBJECT), RestOfPath(q));
          NothingBelowNothing(None, RestOfPath(q));
        }
      }
    }
  }

  /** Removal succeeds exactly when the path leads somewhere, and afterwards it leads nowhere. */
  lemma {:induction false} DotRemoveThenGet(o: Json, path: bytes)
    requires o.Object? && Valid(o)
    ensures DotRemove(o, path).ok <==> DotGet(Some(o), path).Some?
    ensures DotGet(Some(DotRemove(o, path).value), path) == None
    decreases |path|
  {
    var name := FirstName(path);
    if IsSingle(path) {
      assert name == path;
      RemoveUnbinds(o, path, path);
    } else {
      var nested := AsObject(Lookup(o.members, name));
      if nested.Some? {
        DotRemoveThenGet(nested.value, RestOfPath(path));
        ReplacedBinds(o, name, DotRemove(nested.value, RestOfPath(path)).value, name);
      } else {
        NothingBelowNothing(None, RestOfPath(path));
      }
    }
  }

  lemma {:induction false} DotRemoveLeavesOthers(o: Json, path: bytes, q: bytes)
    requires o.Object? && Valid(o) && !PrefixComparable(path, q)
    ensures DotGet(Some(DotRemove(o, path).value), q) == DotGet(Some(o), q)
    decreases |path|
  {
    var name := FirstName(path);
    IncomparableStep(path, q);
    if IsSingle(path) {
      assert name == path;
      RemoveUnbinds(o, path, FirstName(q));
    } else {
      var nested := AsObject(Lookup(o.members, name));
      if nested.Some? {
        ReplacedBinds(o, name, DotRemove(nested.value, RestOfPath(path)).value, FirstName(q));
        if FirstName(q) == name {
          DotRemoveLeavesOthers(nested.value, RestOfPath(path), RestOfPath(q));
        }
      }
    }
  }

  /** What the caller can check beforehand: every name on the way is an object or can be added, and so can the last. */
  predicate DotSettable(o: Json, path: bytes)
    requires o.Object?
    decreases |path|
  {
    var found := Lookup(o.members, FirstName(path));
    if IsSingle(path) then found.Some? || HasRoom(o)
    else if found.None? then HasRoom(o)
    else found.value.Object? && DotSettable(found.value, RestOfPath(path))
  }

  lemma {:induction false} DotSetSucceedsWhen(o: Json, path: bytes, v: Json)
    requires o.Object? && Valid(o)
    ensures DotSet(o, path, v).ok <==> DotSettable(o, path)
    decreases |path|
  {
    var name := FirstName(path);
    if IsSingle(path) {
      assert name == path;
      SetBinds(o, path, v, path);
    } else {
      var nested := AsObject(Lookup(o.members, name));
      if nested.Some? {
        DotSetSucceedsWhen(nested.value, RestOfPath(path), v);
      } else {
        AddBinds(o, name, EMPTY_OBJECT, name);
        if ObjectAdd(o, name, EMPTY_OBJECT).ok {
          DotSetSucceedsWhen(EMPTY_OBJECT, RestOfPath(path), v);
        }
      }
    }
  }
}
