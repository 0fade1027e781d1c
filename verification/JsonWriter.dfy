/** The recursive writer: one body measures without a buffer and writes with one. */
module JsonWriter {
  import opened Bytes
  import opened JsonValue
  import opened JsonText

  // ---- the text of a container, front to back ----

  ghost function ItemText(items: seq<Json>, i: nat, level: nat, pretty: bool): bytes
    requires i < |items|
  {
    PrettyOnly(pretty, Indent(level)) + Serialize(items[i], level, pretty)
    + CommaUnlessLast(|items| - i) + PrettyOnly(pretty, [NEWLINE])
  }

  ghost function ItemsUpTo(items: seq<Json>, i: nat, level: nat, pretty: bool): (t: bytes)
    requires i <= |items|
    ensures i == 0 ==> t == []
  {
    if i == 0 then [] else ItemsUpTo(items, i - 1, level, pretty) + ItemText(items, i - 1, level, pretty)
  }

  lemma {:induction false} ItemsUpToRest(items: seq<Json>, i: nat, level: nat, pretty: bool)
    requires i <= |items|
    ensures SerializeItems(items, level, pretty)
            == ItemsUpTo(items, i, level, pretty) + SerializeItems(items[i..], level, pretty)
  {
    if i > 0 {
      ItemsUpToRest(items, i - 1, level, pretty);
      Associative(ItemsUpTo(items, i - 1, level, pretty), ItemText(items, i - 1, level, pretty),
                  SerializeItems(items[i..], level, pretty));
    }
  }

  lemma ItemsUpToAll(items: seq<Json>, level: nat, pretty: bool)
    ensures ItemsUpTo(items, |items|, level, pretty) == SerializeItems(items, level, pretty)
  {
    ItemsUpToRest(items, |items|, level, pretty);
  }

  lemma ItemsUpToFits(items: seq<Json>, i: nat, level: nat, pretty: bool)
    requires i < |items|
    ensures |ItemsUpTo(items, i, level, pretty)| + |ItemText(items, i, level, pretty)| <= |SerializeItems(items, level, pretty)|
  {
    ItemsUpToRest(items, i + 1, level, pretty);
  }

  ghost function NameText(name: bytes, level: nat, pretty: bool): bytes {
    PrettyOnly(pretty, Indent(level)) + StringText(name) + [COLON] + PrettyOnly(pretty, [SPACE])
  }

  ghost function MemberText(ms: seq<Member>, i: nat, level: nat, pretty: bool): bytes
    requires i < |ms|
  {
    NameText(ms[i].name, level, pretty)
    + Serialize(ms[i].value, level, pretty)
    + CommaUnlessLast(|ms| - i) + PrettyOnly(pretty, [NEWLINE])
  }

  ghost function MembersUpTo(ms: seq<Member>, i: nat, level: nat, pretty: bool): (t: bytes)
    requires i <= |ms|
    ensures i == 0 ==> t == []
  {
    if i == 0 then [] else MembersUpTo(ms, i - 1, level, pretty) + MemberText(ms, i - 1, level, pretty)
  }

  lemma {:induction false} MembersUpToRest(ms: seq<Member>, i: nat, level: nat, pretty: bool)
    requires i <= |ms|
    ensures SerializeMembers(ms, level, pretty)
            == MembersUpTo(ms, i, level, pretty) + SerializeMembers(ms[i..], level, pretty)
  {
    if i > 0 {
      MembersUpToRest(ms, i - 1, level, pretty);
      Associative(MembersUpTo(ms, i - 1, level, pretty), MemberText(ms, i - 1, level, pretty),
                  SerializeMembers(ms[i..], level, pretty));
    }
  }

  lemma MembersUpToAll(ms: seq<Member>, level: nat, pretty: bool)
    ensures MembersUpTo(ms, |ms|, level, pretty) == SerializeMembers(ms, level, pretty)
  {
    MembersUpToRest(ms, |ms|, level, pretty);
  }

  lemma MembersUpToFits(ms: seq<Member>, i: nat, level: nat, pretty: bool)
    requires i < |ms|
    ensures |MembersUpTo(ms, i, level, pretty)| + |MemberText(ms, i, level, pretty)| <= |SerializeMembers(ms, level, pretty)|
  {
    MembersUpToRest(ms, i + 1, level, pretty);
  }

  lemma Grouped(t: bytes, a: bytes, b: bytes, c: bytes, d: bytes)
    ensures t + a + b + c + d == t + (a + b + c + d)
  {
  }

  // ---- a writer that remembers where it is ----

  /** The `buf` pointer and `written_total` of one activation, with what it has written so far. */
  class Cursor {
    const buf: array?<byte>
    const start: nat
    var written: nat
    ghost const before: bytes
    ghost var text: bytes

    ghost predicate Consistent()
      reads this, buf
    {
      && written == |text|
      && (buf != null ==> Laid(before, start, text, Contents(buf)))
      && (buf != null && text != [] ==> Printed(before, start, text, Contents(buf)))
    }

    constructor (buf: array?<byte>, start: nat)
      requires buf != null ==> start < buf.Length
      ensures this.buf == buf && this.start == start && before == Contents(buf) && text == []
      ensures Consistent()
    {
      this.buf, this.start, written := buf, start, 0;
      before, text := Contents(buf), [];
      new;
      assert buf != null ==> buf[..] == Overlay(before, start, []);
    }

    ghost predicate HasRoom(more: bytes)
      reads this
    {
      buf != null ==> start + |text| + |more| < buf.Length
    }

    method Append(s: bytes)
      requires Consistent() && HasRoom(s)
      modifies this, buf
      ensures Consistent() && text == old(text) + s
    {
      ghost var middle := Contents(buf);
      var w := AppendString(buf, start + written, s);
      if buf != null {
        PrintedMore(before, start, text, middle, start + written, s, Contents(buf));
      }
      written, text := written + w, text + s;
    }

    method AppendIf(condition: bool, s: bytes)
      requires Consistent() && HasRoom(PrettyOnly(condition, s))
      modifies this, buf
      ensures Consistent() && text == old(text) + PrettyOnly(condition, s)
    {
      if condition {
        Append(s);
      }
    }

    lemma EndsInNul()
      requires Consistent() && buf != null && text != []
      ensures start + written < buf.Length && buf[start + written] == 0
    {
      assert buf[..][start + written] == Overlay(before, start, text + [0])[start + written];
    }

    method AppendIndentIf(condition: bool, level: nat)
      requires Consistent() && text != [] && HasRoom(PrettyOnly(condition, Indent(level)))
      modifies this, buf
      ensures Consistent() && text == old(text) + PrettyOnly(condition, Indent(level))
    {
      if condition {
        ghost var middle := Contents(buf);
        if buf != null {
          EndsInNul();
        }
        var w := AppendIndent(buf, start + written, level);
        if buf != null {
          PrintedMore(before, start, text, middle, start + written, Indent(level), Contents(buf));
        }
        written, text := written + w, text + Indent(level);
      }
    }

    method AppendQuoted(s: bytes)
      requires Consistent() && HasRoom(StringText(s))
      modifies this, buf
      ensures Consistent() && text == old(text) + StringText(s)
    {
      ghost var middle := Contents(buf);
      var w := SerializeString(s, buf, start + written);
      if buf != null {
        PrintedMore(before, start, text, middle, start + written, StringText(s), Contents(buf));
      }
      written, text := written + w, text + StringText(s);
    }

    /** The recursive call on a nested value. */
    method AppendValue(v: Json, level: nat, pretty: bool)
      requires Valid(v) && Consistent() && HasRoom(Serialize(v, level, pretty))
      modifies this, buf
      ensures Consistent() && text == old(text) + Serialize(v, level, pretty)
      decreases v, 3
    {
      ghost var middle := Contents(buf);
      var w := SerializeToBuffer(v, buf, start + written, level, pretty);
      if buf != null {
        PrintedMore(before, start, text, middle, start + written, Serialize(v, level, pretty), Contents(buf));
      }
      written, text := written + w, text + Serialize(v, level, pretty);
    }
  }

  method SerializeToBuffer(v: Json, buf: array?<byte>, off: nat, level: nat, pretty: bool) returns (written: nat)
    requires Valid(v) && Fits(buf, off, Serialize(v, level, pretty))
    modifies buf
    ensures written == |Serialize(v, level, pretty)|
    ensures buf != null ==> Printed(old(Contents(buf)), off, Serialize(v, level, pretty), Contents(buf))
    decreases v, 2
  {
    var out := new Cursor(buf, off);
    match v {
      case Array(items, _) => WriteArray(v, out, level, pretty);
      case Object(ms, _) => WriteObject(v, out, level, pretty);
      case Str(s) => out.AppendQuoted(s);
      case Bool(b) => out.Append(if b then TRUE_TEXT else FALSE_TEXT);
      case Number(n) => out.Append(NumberText(n));
      case Null => out.Append(NULL_TEXT);
    }
    assert out.text == [] + Serialize(v, level, pretty) == Serialize(v, level, pretty);
    return out.written;
  }

  /** One pass of the loop over an array. */
  method WriteItem(items: seq<Json>, i: nat, out: Cursor, level: nat, pretty: bool)
    requires i < |items| && Valid(items[i])
    requires out.Consistent() && out.text != [] && out.HasRoom(ItemText(items, i, level, pretty))
    modifies out, out.buf
    ensures out.Consistent() && out.text == old(out.text) + ItemText(items, i, level, pretty)
    decreases items, 0
  {
    Grouped(out.text, PrettyOnly(pretty, Indent(level)), Serialize(items[i], level, pretty),
            CommaUnlessLast(|items| - i), PrettyOnly(pretty, [NEWLINE]));
    out.AppendIndentIf(pretty, level);
    out.AppendValue(items[i], level, pretty);
    out.AppendIf(i < |items| - 1, [COMMA]);
    out.AppendIf(pretty, [NEWLINE]);
  }

  method WriteItems(items: seq<Json>, out: Cursor, level: nat, pretty: bool)
    requires forall i | 0 <= i < |items| :: Valid(items[i])
    requires out.Consistent() && out.text != [] && out.HasRoom(SerializeItems(items, level, pretty))
    modifies out, out.buf
    ensures out.Consistent() && out.text == old(out.text) + SerializeItems(items, level, pretty)
    decreases items, 1
  {
    ghost var lead := out.text;
    for i := 0 to |items|
      invariant out.Consistent() && out.text != []
      invariant out.text == lead + ItemsUpTo(items, i, level, pretty)
    {
      ItemsUpToFits(items, i, level, pretty);
      WriteItem(items, i, out, level, pretty);
      Associative(lead, ItemsUpTo(items, i, level, pretty), ItemText(items, i, level, pretty));
    }
    ItemsUpToAll(items, level, pretty);
  }

  method WriteArray(v: Json, out: Cursor, level: nat, pretty: bool)
    requires v.Array? && Valid(v)
    requires out.Consistent() && out.text == [] && out.HasRoom(Serialize(v, level, pretty))
    modifies out, out.buf
    ensures out.Consistent() && out.text == Serialize(v, level, pretty)
    decreases v, 1
  {
    var items := v.items;
    out.Append([LBRACKET]);
    out.AppendIf(|items| > 0 && pretty, [NEWLINE]);
    assert out.text == [LBRACKET] + Opening(|items|, pretty);
    WriteItems(items, out, level + 1, pretty);
    out.AppendIndentIf(|items| > 0 && pretty, level);
    out.Append([RBRACKET]);
  }

  method WriteName(name: bytes, out: Cursor, level: nat, pretty: bool)
    requires out.Consistent() && out.text != [] && out.HasRoom(NameText(name, level, pretty))
    modifies out, out.buf
    ensures out.Consistent() && out.text == old(out.text) + NameText(name, level, pretty)
  {
    Grouped(out.text, PrettyOnly(pretty, Indent(level)), StringText(name), [COLON], PrettyOnly(pretty, [SPACE]));
    out.AppendIndentIf(pretty, level);
    out.AppendQuoted(name);
    out.Append([COLON]);
    out.AppendIf(pretty, [SPACE]);
  }

  /** One pass of the loop over an object: the value is looked up by name again. */
  method WriteMember(ms: seq<Member>, i: nat, out: Cursor, level: nat, pretty: bool)
    requires i < |ms| && DistinctNames(ms) && Valid(ms[i].value)
    requires out.Consistent() && out.text != [] && out.HasRoom(MemberText(ms, i, level, pretty))
    modifies out, out.buf
    ensures out.Consistent() && out.text == old(out.text) + MemberText(ms, i, level, pretty)
    decreases ms, 0
  {
    var key := ms[i].name;
    LookupMember(ms, i);
    Grouped(out.text, NameText(key, level, pretty), Serialize(ms[i].value, level, pretty),
            CommaUnlessLast(|ms| - i), PrettyOnly(pretty, [NEWLINE]));
    WriteName(key, out, level, pretty);
    out.AppendValue(ms[IndexOf(ms, key)].value, level, pretty);
    out.AppendIf(i < |ms| - 1, [COMMA]);
    out.AppendIf(pretty, [NEWLINE]);
  }

  method WriteMembers(ms: seq<Member>, out: Cursor, level: nat, pretty: bool)
    requires DistinctNames(ms) && forall i | 0 <= i < |ms| :: Valid(ms[i].value)
    requires out.Consistent() && out.text != [] && out.HasRoom(SerializeMembers(ms, level, pretty))
    modifies out, out.buf
    ensures out.Consistent() && out.text == old(out.text) + SerializeMembers(ms, level, pretty)
    decreases ms, 1
  {
    ghost var lead := out.text;
    for i := 0 to |ms|
      invariant out.Consistent() && out.text != []
      invariant out.text == lead + MembersUpTo(ms, i, level, pretty)
    {
      MembersUpToFits(ms, i, level, pretty);
      WriteMember(ms, i, out, level, pretty);
      Associative(lead, MembersUpTo(ms, i, level, pretty), MemberText(ms, i, level, pretty));
    }
    MembersUpToAll(ms, level, pretty);
  }

  method WriteObject(v: Json, out: Cursor, level: nat, pretty: bool)
    requires v.Object? && Valid(v)
    requires out.Consistent() && out.text == [] && out.HasRoom(Serialize(v, level, pretty))
    modifies out, out.buf
    ensures out.Consistent() && out.text == Serialize(v, level, pretty)
    decreases v, 1
  {
    var ms := v.members;
    out.Append([LBRACE]);
    out.AppendIf(|ms| > 0 && pretty, [NEWLINE]);
    assert out.text == [LBRACE] + Opening(|ms|, pretty);
    WriteMembers(ms, out, level + 1, pretty);
    out.AppendIndentIf(|ms| > 0 && pretty, level);
    out.Append([RBRACE]);
  }

  // ---- the public entry points ----

  method SerializationSize(v: Json, pretty: bool) returns (size: nat)
    requires Valid(v)
    ensures size == |Serialize(v, 0, pretty)| + 1
  {
    var written := SerializeToBuffer(v, null, 0, 0, pretty);
    size := written + 1;
  }

  /** Refuses a short buffer untouched; otherwise lays down the text and its NUL and nothing past the measured size. */
  method SerializeInto(v: Json, buf: array<byte>, bufSize: nat, pretty: bool) returns (ok: bool)
    requires Valid(v) && bufSize <= buf.Length
    modifies buf
    ensures ok <==> |Serialize(v, 0, pretty)| < bufSize
    ensures ok ==> buf[..] == Serialize(v, 0, pretty) + [0] + old(buf[|Serialize(v, 0, pretty)| + 1..])
    ensures !ok ==> buf[..] == old(buf[..])
  {
    var needed := SerializationSize(v, pretty);
    if needed == 0 || bufSize < needed {
      return false;
    }
    var written := SerializeToBuffer(v, buf, 0, 0, pretty);
    return true;
  }

  /** The string handed to the caller has exactly the measured size: the text and its NUL. */
  method SerializeToString(v: Json, pretty: bool) returns (buf: array<byte>)
    requires Valid(v)
    ensures fresh(buf) && buf[..] == Serialize(v, 0, pretty) + [0]
  {
    var size := SerializationSize(v, pretty);
    buf := new byte[size];
    var ok := SerializeInto(v, buf, size, pretty);
  }
}
