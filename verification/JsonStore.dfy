/** The growable stores behind objects and arrays, updated in place. */
module JsonStore {
  import opened Bytes
  import opened JsonValue

  class JsonObject {
    var names: array?<bytes>
    var values: array?<Json>
    var count: nat
    var capacity: nat

    ghost predicate Consistent()
      reads this
    {
      && count <= capacity
      && (names == null <==> values == null)
      && (names == null ==> capacity == 0)
      && (names != null ==> names.Length == capacity && values.Length == capacity)
    }

    /** The object value this store holds. */
    ghost function View(): (v: Json)
      reads this, names, values
      requires Consistent()
      ensures v.Object? && |v.members| == count && v.capacity == capacity
    {
      if names == null then Object([], capacity)
      else Object(Zip(names[..count], values[..count]), capacity)
    }

    /** The members as a value; reading them out is the model's way to hand the store over. */
    method Members() returns (ms: seq<Member>)
      requires Consistent()
      ensures ms == View().members
    {
      ms := if names == null then [] else Zip(names[..count], values[..count]);
    }

    constructor Init()
      ensures Consistent() && View() == EMPTY_OBJECT && names == null && values == null
    {
      names, values, capacity, count := null, null, 0, 0;
    }

    /** Reallocates both columns; growing and trimming leave the members alone. */
    method Resize(newCapacity: nat) returns (ok: bool)
      requires Consistent() && count <= newCapacity
      modifies this
      ensures Consistent() && count == old(count)
      ensures ok <==> newCapacity != 0
      ensures ok ==> capacity == newCapacity && View().members == old(View()).members
      ensures ok ==> fresh(names) && fresh(values) && names != null
      ensures !ok ==> View() == old(View()) && names == old(names) && values == old(values)
    {
      if newCapacity == 0 {
        return false;
      }
      var newNames := new bytes[newCapacity](_ => []);
      var newValues := new Json[newCapacity](_ => Null);
      if names != null && values != null && count > 0 {
        forall i | 0 <= i < count {
          newNames[i] := names[i];
        }
        forall i | 0 <= i < count {
          newValues[i] := values[i];
        }
      }
      ghost var before := View().members;
      names, values, capacity := newNames, newValues, newCapacity;
      assert View().members == before;
      return true;
    }

    /** Finds the value whose name is the first `n` bytes of `name`. */
    method NGetValue(name: bytes, n: nat) returns (r: Option<Json>)
      requires Consistent() && n <= |name|
      ensures r == Lookup(View().members, name[..n])
    {
      var i := 0;
      ghost var ms := View().members;
      while i < count
        invariant i <= count && i <= IndexOf(ms, name[..n])
      {
        assert ms[i].name == names[i] && ms[i].value == values[i];
        if |names[i]| == n && names[i] == name[..n] {
          assert IndexOf(ms, name[..n]) <= i;
          return Some(values[i]);
        }
        assert IndexOf(ms, name[..n]) != i;
        i := i + 1;
      }
      return None;
    }

    method GetValue(name: bytes) returns (r: Option<Json>)
      requires Consistent()
      ensures r == Lookup(View().members, name)
    {
      r := NGetValue(name, |name|);
      assert name[..|name|] == name;
    }

    method Add(name: bytes, value: Json) returns (ok: bool)
      requires Consistent()
      modifies this, names, values
      ensures Consistent() && Result(ok, View()) == ObjectAdd(old(View()), name, value)
      ensures names == old(names) || fresh(names)
      ensures values == old(values) || fresh(values)
    {
      if count >= capacity {
        var newCapacity := Max(capacity * 2, STARTING_CAPACITY);
        if newCapacity > OBJECT_MAX_CAPACITY {
          return false;
        }
        ok := Resize(newCapacity);
      }
      var present := GetValue(name);
      if present.Some? {
        return false;
      }
      names[count] := name;
      values[count] := value;
      count := count + 1;
      assert View().members == old(View()).members + [Member(name, value)];
      return true;
    }

    method SetValue(name: bytes, value: Json) returns (ok: bool)
      requires Consistent()
      modifies this, names, values
      ensures Consistent() && Result(ok, View()) == ObjectSet(old(View()), name, value)
      ensures names == old(names) || fresh(names)
      ensures values == old(values) || fresh(values)
    {
      var present := GetValue(name);
      if present.Some? {
        var i := 0;
        ghost var ms := View().members;
        while i < count
          invariant i <= IndexOf(ms, name)
          invariant View().members == ms
        {
          assert ms[i].name == names[i];
          if names[i] == name {
            assert IndexOf(ms, name) <= i;
            values[i] := value;
            assert View().members == ms[i := Member(name, value)];
            return true;
          }
          i := i + 1;
        }
      }
      ok := Add(name, value);
    }

    method Remove(name: bytes) returns (ok: bool)
      requires Consistent()
      modifies this, names, values
      ensures Consistent() && Result(ok, View()) == ObjectRemove(old(View()), name)
      ensures names == old(names) && values == old(values)
    {
      var present := GetValue(name);
      if present.None? {
        return false;
      }
      var last := count - 1;
      var i := 0;
      ghost var ms := View().members;
      while i < count
        invariant i <= IndexOf(ms, name)
        invariant View().members == ms && last == count - 1
      {
        assert ms[i].name == names[i];
        if names[i] == name {
          assert IndexOf(ms, name) <= i;
          if i != last {
            names[i] := names[last];
            values[i] := values[last];
          }
          count := count - 1;
          assert View().members == ms[i := ms[last]][..last];
          assert i == last ==> View().members == ms[..last];
          return true;
        }
        i := i + 1;
      }
      return false;
    }

    method Clear() returns (ok: bool)
      requires Consistent()
      modifies this
      ensures Consistent() && Result(ok, View()) == ObjectClear(old(View()))
    {
      count := 0;
      return true;
    }
  }

  class JsonArray {
    var items: array?<Json>
    var count: nat
    var capacity: nat

    ghost predicate Consistent()
      reads this
    {
      && count <= capacity
      && (items == null ==> capacity == 0)
      && (items != null ==> items.Length == capacity)
    }

    ghost function View(): (v: Json)
      reads this, items
      requires Consistent()
      ensures v.Array? && |v.items| == count && v.capacity == capacity
    {
      if items == null then Array([], capacity) else Array(items[..count], capacity)
    }

    method Items() returns (vs: seq<Json>)
      requires Consistent()
      ensures vs == View().items
    {
      vs := if items == null then [] else items[..count];
    }

    constructor Init()
      ensures Consistent() && View() == EMPTY_ARRAY && items == null
    {
      items, capacity, count := null, 0, 0;
    }

    method Resize(newCapacity: nat) returns (ok: bool)
      requires Consistent() && count <= newCapacity
      modifies this
      ensures Consistent() && count == old(count)
      ensures ok <==> newCapacity != 0
      ensures ok ==> capacity == newCapacity && View().items == old(View()).items
      ensures ok ==> fresh(items) && items != null
      ensures !ok ==> View() == old(View()) && items == old(items)
    {
      if newCapacity == 0 {
        return false;
      }
      var newItems := new Json[newCapacity](_ => Null);
      if items != null && count > 0 {
        forall i | 0 <= i < count {
          newItems[i] := items[i];
        }
      }
      ghost var before := View().items;
      items, capacity := newItems, newCapacity;
      assert View().items == before;
      return true;
    }

    method Add(value: Json) returns (ok: bool)
      requires Consistent()
      modifies this, items
      ensures Consistent() && Result(ok, View()) == ArrayAdd(old(View()), value)
      ensures items == old(items) || fresh(items)
    {
      if count >= capacity {
        var newCapacity := Max(capacity * 2, STARTING_CAPACITY);
        if newCapacity > ARRAY_MAX_CAPACITY {
          return false;
        }
        ok := Resize(newCapacity);
      }
      items[count] := value;
      count := count + 1;
      assert View().items == old(View()).items + [value];
      return true;
    }

    method Remove(ix: nat) returns (ok: bool)
      requires Consistent()
      modifies this, items
      ensures Consistent() && Result(ok, View()) == ArrayRemove(old(View()), ix)
      ensures items == old(items)
    {
      if ix >= count {
        return false;
      }
      var last := count - 1;
      ghost var before := View().items;
      count := count - 1;
      if ix != last {
        items[ix] := items[last];
      }
      assert View().items == before[ix := before[last]][..last];
      assert ix == last ==> View().items == before[..last];
      return true;
    }

    method ReplaceValue(ix: nat, value: Json) returns (ok: bool)
      requires Consistent()
      modifies items
      ensures Consistent() && Result(ok, View()) == ArrayReplace(old(View()), ix, value)
    {
      if ix >= count {
        return false;
      }
      items[ix] := value;
      return true;
    }

    method Clear() returns (ok: bool)
      requires Consistent()
      modifies this
      ensures Consistent() && Result(ok, View()) == ArrayClear(old(View()))
    {
      count := 0;
      return true;
    }
  }
}
