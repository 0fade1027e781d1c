/** Values as trees of nodes in memory: a deep copy is an equal value that shares no node with the original. */
module JsonTree {
  import opened Bytes
  import opened JsonValue
  import C = JsonCompare

  datatype Kind = Leaf | ArrayNode | ObjectNode

  /** One value: a leaf, or a container holding references to its children. */
  class Node {
    const kind: Kind
    const leaf: Json
    var names: seq<bytes>
    var children: seq<Node>
    var capacity: nat
    ghost var repr: set<Node>

    /** A proper tree: the children's nodes are apart from each other and from this one. */
    ghost predicate Valid()
      reads this, repr
      decreases repr, 0
    {
      && this in repr
      && (if kind.Leaf? then !leaf.Array? && !leaf.Object? && children == []
          else AllValid(children, repr - {this}) && (kind.ObjectNode? ==> |names| == |children|))
    }

    /** The value the tree stands for. */
    ghost function View(): (v: Json)
      requires Valid()
      reads this, repr
      ensures v.Array? <==> kind.ArrayNode?
      ensures v.Object? <==> kind.ObjectNode?
      decreases repr, 0
    {
      match kind
      case Leaf => leaf
      case ArrayNode => Array(Views(children, repr - {this}), capacity)
      case ObjectNode => Object(Zip(names, Views(children, repr - {this})), capacity)
    }

    constructor Scalar(v: Json)
      requires !v.Array? && !v.Object?
      ensures Valid() && fresh(repr) && View() == v
    {
      kind, leaf, names, children, capacity := Leaf, v, [], [], 0;
      repr := {this};
    }

    constructor Empty(kind: Kind)
      requires !kind.Leaf?
      ensures Valid() && fresh(repr) && this.kind == kind
      ensures View() == if kind.ArrayNode? then EMPTY_ARRAY else EMPTY_OBJECT
    {
      this.kind, leaf, names, children, capacity := kind, Null, [], [], 0;
      repr := {this};
    }

    /** Takes a tree apart from this one in as the last child. */
    method Adopt(c: Node)
      requires this in repr && AllValid(children, repr - {this}) && c.Valid() && c.repr !! repr
      modifies `children, `repr
      ensures repr == old(repr) + c.repr && children == old(children) + [c]
      ensures AllValid(children, repr - {this})
      ensures Views(children, repr - {this}) == old(Views(children, repr - {this})) + [c.View()]
    {
      ghost var bound := repr - {this};
      OneMore(children, bound, c);
      children := children + [c];
      repr := repr + c.repr;
      assert repr - {this} == bound + c.repr;
    }

    /** Adds a tree to an array, whose store may have to grow. */
    method AddItem(c: Node) returns (ok: bool)
      requires Valid() && kind.ArrayNode? && c.Valid() && c.repr !! repr
      modifies this
      ensures Valid()
      ensures var r := ArrayAdd(old(View()), old(c.View())); ok == r.ok && View() == r.value
      ensures repr == if ok then old(repr) + c.repr else old(repr)
    {
      match RoomFor(|children|, capacity, ARRAY_MAX_CAPACITY)
      case None =>
        ok := false;
      case Some(room) =>
        capacity := room;
        Adopt(c);
        ok := true;
    }

    /** Adds a tree under a name, unless the name is taken. */
    method AddMember(name: bytes, c: Node) returns (ok: bool)
      requires Valid() && kind.ObjectNode? && c.Valid() && c.repr !! repr
      modifies this
      ensures Valid()
      ensures var r := ObjectAdd(old(View()), name, old(c.View())); ok == r.ok && View() == r.value
      ensures repr == if ok then old(repr) + c.repr else old(repr)
    {
      match RoomFor(|children|, capacity, OBJECT_MAX_CAPACITY)
      case None =>
        ok := false;
      case Some(room) =>
        AddedMember(names, Views(children, repr - {this}), capacity, name, c.View());
        capacity := room;
        if name in names {
          ok := false;
          return;
        }
        names := names + [name];
        Adopt(c);
        ok := true;
    }

    /** The child a name leads to. */
    method GetValue(name: bytes) returns (i: nat)
      requires Valid() && kind.ObjectNode?
      ensures i == IndexOf(View().members, name)
    {
      ghost var ms := View().members;
      assert ms[0..] == ms;
      i := 0;
      while i < |names| && names[i] != name
        invariant i <= |names|
        invariant IndexOf(ms, name) == i + IndexOf(ms[i..], name)
      {
        assert ms[i].name == names[i] && ms[i..][1..] == ms[i + 1..];
        i := i + 1;
      }
      assert i < |names| ==> ms[i].name == names[i];
    }
  }

  /** What adding a member does to the columns of names and values. */
  lemma AddedMember(names: seq<bytes>, values: seq<Json>, capacity: nat, name: bytes, v: Json)
    requires |names| == |values| && RoomFor(|names|, capacity, OBJECT_MAX_CAPACITY).Some?
    ensures var room := RoomFor(|names|, capacity, OBJECT_MAX_CAPACITY).value;
      ObjectAdd(Object(Zip(names, values), capacity), name, v)
      == if name in names then Result(false, Object(Zip(names, values), room))
         else Result(true, Object(Zip(names + [name], values + [v]), room))
  {
    assert Zip(names + [name], values + [v]) == Zip(names, values) + [Member(name, v)];
  }

  /** The nodes are roots of proper trees that lie apart from each other inside `bound`. */
  ghost predicate AllValid(ns: seq<Node>, bound: set<Node>)
    reads bound
    decreases bound, |ns| + 1
  {
    ns != [] ==>
      && ns[0] in bound && ns[0].repr <= bound && ns[0].Valid()
      && AllValid(ns[1..], bound - ns[0].repr)
  }

  ghost function Views(ns: seq<Node>, bound: set<Node>): (vs: seq<Json>)
    requires AllValid(ns, bound)
    reads bound
    ensures |vs| == |ns|
    decreases bound, |ns| + 1
  {
    if ns == [] then [] else [ns[0].View()] + Views(ns[1..], bound - ns[0].repr)
  }

  lemma {:induction false} ChildAt(ns: seq<Node>, bound: set<Node>, i: nat)
    requires AllValid(ns, bound) && i < |ns|
    ensures ns[i] in bound && ns[i].repr <= bound && ns[i].Valid()
    ensures Views(ns, bound)[i] == ns[i].View()
    decreases |ns|
  {
    if i > 0 {
      ChildAt(ns[1..], bound - ns[0].repr, i - 1);
    }
  }

  /** One more tree apart from all the others. */
  lemma {:induction false} OneMore(ns: seq<Node>, bound: set<Node>, c: Node)
    requires AllValid(ns, bound) && c.Valid() && c.repr !! bound
    ensures AllValid(ns + [c], bound + c.repr)
    ensures Views(ns + [c], bound + c.repr) == Views(ns, bound) + [c.View()]
    decreases |ns|
  {
    if ns == [] {
      assert (ns + [c])[1..] == [];
    } else {
      var rest := bound - ns[0].repr;
      OneMore(ns[1..], rest, c);
      assert (ns + [c])[1..] == ns[1..] + [c];
      assert bound + c.repr - ns[0].repr == rest + c.repr;
    }
  }

  /**
   * The copy of a value the API can build: the same shape and contents, made of nodes that did not exist before. No
   * node of the original is touched.
   */
  method DeepCopy(n: Node) returns (c: Node)
    requires n.Valid() && JsonValue.Valid(n.View())
    ensures c.Valid() && fresh(c.repr)
    ensures C.DeepCopy(n.View()) == Some(c.View()) && C.JsonEquals(n.View(), c.View())
    decreases n.repr, 2
  {
    C.DeepCopyIsFaithful(n.View());
    C.DeepCopyEqualsOriginal(n.View());
    if n.kind.Leaf? {
      c := new Node.Scalar(n.leaf);
    } else if n.kind.ArrayNode? {
      c := CopyItems(n);
    } else {
      c := CopyMembers(n);
    }
  }

  /** Copies the `i`-th element behind those already copied. */
  method CopyItem(n: Node, i: nat, c: Node)
    requires n.Valid() && n.kind.ArrayNode? && JsonValue.Valid(n.View()) && i < |n.children|
    requires c.Valid() && c.kind.ArrayNode? && c.repr !! n.repr && C.CopyItems(n.View().items, i, c.View()).Some?
    modifies c
    ensures c.Valid() && fresh(c.repr - old(c.repr))
    ensures C.CopyItems(n.View().items, i + 1, c.View()) == old(C.CopyItems(n.View().items, i, c.View()))
    decreases n.repr, 0
  {
    ghost var items := n.View().items;
    ChildAt(n.children, n.repr - {n}, i);
    var child := DeepCopy(n.children[i]);
    var ok := c.AddItem(child);
  }

  method CopyItems(n: Node) returns (c: Node)
    requires n.Valid() && n.kind.ArrayNode? && JsonValue.Valid(n.View())
    requires C.DeepCopy(n.View()).Some?
    ensures c.Valid() && fresh(c.repr)
    ensures C.DeepCopy(n.View()) == Some(c.View())
    decreases n.repr, 1
  {
    c := new Node.Empty(ArrayNode);
    for i := 0 to |n.children|
      invariant c.Valid() && fresh(c.repr) && c.kind.ArrayNode?
      invariant C.CopyItems(n.View().items, i, c.View()) == C.DeepCopy(n.View())
    {
      CopyItem(n, i, c);
    }
  }

  /** The child a member's name leads to is its own, since names are distinct. */
  method Child(n: Node, i: nat, ghost ms: seq<Member>) returns (child: Node)
    requires n.Valid() && n.kind.ObjectNode? && JsonValue.Valid(n.View()) && i < |n.children| && ms == n.View().members
    ensures child.Valid() && child.repr < n.repr
    ensures |ms| == |n.names| && ms[i].name == n.names[i]
    ensures JsonValue.Valid(child.View()) && IndexOf(ms, ms[i].name) < |ms| && child.View() == ms[IndexOf(ms, ms[i].name)].value
  {
    var k := n.GetValue(n.names[i]);
    assert ms[i].name == n.names[i];
    LookupMember(ms, i);
    ChildAt(n.children, n.repr - {n}, k);
    child := n.children[k];
  }

  /** Copies the `i`-th member behind those already copied; its value is looked up by its name. */
  method CopyMember(n: Node, i: nat, c: Node, ghost ms: seq<Member>, ghost whole: Option<Json>)
    requires n.Valid() && n.kind.ObjectNode? && JsonValue.Valid(n.View()) && i < |n.children| && ms == n.View().members
    requires c.Valid() && c.kind.ObjectNode? && c.repr !! n.repr && whole.Some? && C.CopyMembers(ms, i, c.View()) == whole
    modifies c
    ensures c.Valid() && fresh(c.repr - old(c.repr)) && C.CopyMembers(ms, i + 1, c.View()) == whole
    decreases n.repr, 0
  {
    var value := Child(n, i, ms);
    var name := n.names[i];
    var child := DeepCopy(value);
    var ok := c.AddMember(name, child);
  }

  method CopyMembers(n: Node) returns (c: Node)
    requires n.Valid() && n.kind.ObjectNode? && JsonValue.Valid(n.View())
    requires C.DeepCopy(n.View()).Some?
    ensures c.Valid() && fresh(c.repr)
    ensures C.DeepCopy(n.View()) == Some(c.View())
    decreases n.repr, 1
  {
    ghost var ms, whole := n.View().members, C.DeepCopy(n.View());
    c := new Node.Empty(ObjectNode);
    for i := 0 to |n.children|
      invariant c.Valid() && fresh(c.repr) && c.kind.ObjectNode? && C.CopyMembers(ms, i, c.View()) == whole
    {
      CopyMember(n, i, c, ms, whole);
    }
  }
}
