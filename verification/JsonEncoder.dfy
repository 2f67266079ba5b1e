/** The tree builder and the structural encoder, as they are carried out. */
module JsonEncoder {
  import opened Text
  import opened JsonCodec
  import Tree

  // ---------------------------------------------------------------- building the tree

  method BuildTree(name: string, t: Type, d: Datum, depth: nat) returns (n: Option<Tree.Node>)
    requires Typed(t, d)
    ensures n == BuildNode(name, t, d, depth)
    decreases d, t
  {
    if depth > MAX_DEPTH {
      return Some(Tree.Scalar(name, "", "", Tree.Str("<max depth exceeded>")));
    }
    var typ, datum := t, d;
    while datum.Ptr?
      invariant Typed(typ, datum) && BuildNode(name, typ, datum, depth) == BuildNode(name, t, d, depth)
      invariant datum == d || datum < d
      decreases datum
    {
      typ, datum := typ.target, datum.target;
    }
    match datum {
      case Nil => return None;
      case DBool(b) => return Some(Tree.Scalar(name, "", "", Tree.Boolean(b)));
      case DInt(i) =>
        if typ.Enum? {
          var constant := NameOf(typ.constants, i);
          if constant != "" {
            return Some(Tree.Scalar(name, "", "", Tree.Str(constant)));
          }
        }
        return Some(Tree.Scalar(name, "", "", Tree.Num(i)));
      case DText(s) => return Some(Tree.Scalar(name, "", "", Tree.Str(s)));
      case DBytes(bs) => return Some(Tree.Scalar(name, "", "", Tree.Str(Hex(bs))));
      case DStruct(values) =>
        var children := BuildStruct(typ.fields, values, depth + 1);
        return Some(Tree.Struct(name, "", "", children));
      case DList(items) =>
        var children := BuildList(if typ.List? then typ.element else typ.item, items, depth + 1);
        return Some(Tree.List(name, "", "", children));
    }
  }

  method BuildStruct(fields: seq<Field>, values: seq<Datum>, depth: nat) returns (children: seq<Tree.Node>)
    requires |values| == |fields| && forall i :: 0 <= i < |fields| ==> Typed(fields[i].typ, values[i])
    ensures children == BuildFields(fields, values, depth)
    decreases values
  {
    hide BuildNode, Typed;
    children := [];
    assert fields[0..] == fields && values[0..] == values;
    assert [] + BuildFields(fields, values, depth) == BuildFields(fields, values, depth);
    for i := 0 to |fields|
      invariant BuildFields(fields, values, depth) == children + BuildFields(fields[i..], values[i..], depth)
    {
      var child := BuildTree(fields[i].name, fields[i].typ, values[i], depth);
      ghost var rest := BuildFields(fields[i + 1..], values[i + 1..], depth);
      assert fields[i..][1..] == fields[i + 1..] && values[i..][1..] == values[i + 1..];
      if child.Some? {
        Associate(children, [child.value], rest);
        children := children + [child.value];
      }
    }
    assert children + [] == children;
  }

  method BuildList(element: Type, items: seq<Datum>, depth: nat) returns (children: seq<Tree.Node>)
    requires forall i :: 0 <= i < |items| ==> Typed(element, items[i])
    ensures children == BuildItems(element, items, depth)
    decreases items
  {
    hide BuildNode, Typed;
    children := [];
    assert items[0..] == items;
    assert [] + BuildItems(element, items, depth) == BuildItems(element, items, depth);
    for i := 0 to |items|
      invariant BuildItems(element, items, depth) == children + BuildItems(element, items[i..], depth)
    {
      var child := BuildTree("", element, items[i], depth);
      var node := if child.None? then Tree.Scalar("", "", "", Tree.Nil) else child.value;
      assert items[i..][1..] == items[i + 1..];
      Associate(children, [node], BuildItems(element, items[i + 1..], depth));
      children := children + [node];
    }
    assert children + [] == children;
  }

  // ---------------------------------------------------------------- encoding

  method DecodeBytes(j: Json) returns (r: Option<seq<Byte>>)
    ensures r == DecodeJsonBytes(j)
  {
    match j {
      case JString(s) => return Unhex(WithoutPrefix(WithoutPrefix(Trim(s), "0x"), "0X"));
      case JArray(items) =>
        var out: seq<Byte> := [];
        PrependedNothing(DecodeItems(items));
        assert items[0..] == items;
        for i := 0 to |items|
          invariant DecodeItems(items) == Prepended(out, DecodeItems(items[i..]))
        {
          assert items[i..][1..] == items[i + 1..];
          var n := InputUint64(items[i]);
          if n.None? || n.value < 0 || n.value > 255 {
            return None;
          }
          ghost var rest := DecodeItems(items[i + 1..]);
          if rest.Some? {
            Associate(out, [n.value], rest.value);
          }
          out := out + [n.value];
        }
        assert out + [] == out;
        return Some(out);
      case _ => return None;
    }
  }

  method EncodeJsonInto(t: Type, dest: Datum, j: Json) returns (r: Option<Datum>)
    ensures r == Encode(t, dest, j)
    decreases j, t
  {
    hide EncodeEnum, DecodeJsonBytes, EncodeMembers, EncodeItems, Zero;
    if j.JNull? {
      return Some(dest);
    }
    match t {
      case Optional(target) =>
        var d := EncodeJsonInto(target, Zero(target), j);
        return if d.None? then None else Some(Ptr(d.value));
      case Enum(_, _) => return EncodeEnum(t, j);
      case Struct(fields, derived) =>
        if !j.JObject? || !dest.DStruct? {
          return None;
        }
        var values := new Datum[|dest.values|](i requires 0 <= i < |dest.values| => dest.values[i]);
        assert values[..] == dest.values;
        var ok := EncodeStruct(fields, derived, values, j.members);
        return if ok then Some(DStruct(values[..])) else None;
      case Bytes =>
        var bs := DecodeBytes(j);
        return if bs.None? then None else Some(DBytes(bs.value));
      case ByteArray(n) =>
        var bs := DecodeBytes(j);
        return if bs.None? || |bs.value| != n then None else Some(DBytes(bs.value));
      case List(element) =>
        if !j.JArray? {
          return None;
        }
        r := EncodeSequence(element, Copies(|j.items|, Zero(element)), j.items);
      case Array(n, item) =>
        if !j.JArray? || |j.items| != n || !dest.DList? || |dest.items| != n {
          return None;
        }
        r := EncodeSequence(item, dest.items, j.items);
      case Bool => return if j.JBool? then Some(DBool(j.b)) else None;
      case Text => return if j.JString? then Some(DText(j.s)) else None;
      case Int(w) =>
        var n := InputInt64(j);
        return if n.None? || !FitsInt(n.value, w) then None else Some(DInt(n.value));
      case Uint(w) =>
        var n := InputUint64(j);
        return if n.None? || !FitsUint(n.value, w) then None else Some(DInt(n.value));
    }
  }

  /** Writes each key of an object into its field, in the order the object is visited. */
  method EncodeStruct(fields: seq<Field>, derived: set<string>, dest: array<Datum>, ms: seq<Member>) returns (ok: bool)
    modifies dest
    ensures ok <==> EncodeMembers(fields, derived, old(dest[..]), ms).Some?
    ensures ok ==> Some(dest[..]) == EncodeMembers(fields, derived, old(dest[..]), ms)
    decreases ms
  {
    hide Encode, FieldIndex;
    assert ms[0..] == ms;
    for k := 0 to |ms|
      invariant EncodeMembers(fields, derived, dest[..], ms[k..]) == EncodeMembers(fields, derived, old(dest[..]), ms)
    {
      var m := ms[k];
      assert ms[k..][0] == m && ms[k..][1..] == ms[k + 1..];
      var i := FieldIndex(fields, m.key);
      if i == |fields| || i >= dest.Length {
        if i == |fields| && m.key in derived {
          continue;
        }
        return false;
      }
      ghost var before := dest[..];
      var d := EncodeJsonInto(fields[i].typ, dest[i], m.value);
      if d.None? {
        return false;
      }
      dest[i] := d.value;
      assert dest[..] == before[i := d.value];
    }
    return true;
  }

  /** The elements of a list or array, each written over the one in its place. */
  method EncodeSequence(element: Type, start: seq<Datum>, items: seq<Json>) returns (r: Option<Datum>)
    requires |start| == |items|
    ensures r == match EncodeItems(element, start, items) { case None => None case Some(ds) => Some(DList(ds)) }
    decreases items
  {
    hide Encode;
    var dest: seq<Datum> := start;
    PrependedNothing(EncodeItems(element, start, items));
    assert items[0..] == items && start[0..] == start && dest[..0] == [];
    for i := 0 to |items|
      invariant |dest| == |items| && dest[i..] == start[i..]
      invariant EncodeItems(element, start, items) == Prepended(dest[..i], EncodeItems(element, start[i..], items[i..]))
    {
      assert dest[i] == dest[i..][0] == start[i..][0] == start[i];
      assert items[i..][1..] == items[i + 1..] && start[i..][1..] == start[i + 1..];
      var d := EncodeJsonInto(element, dest[i], items[i]);
      if d.None? {
        return None;
      }
      ghost var rest := EncodeItems(element, start[i + 1..], items[i + 1..]);
      if rest.Some? {
        Associate(dest[..i], [d.value], rest.value);
      }
      assert dest[i := d.value][..i + 1] == dest[..i] + [d.value];
      dest := dest[i := d.value];
    }
    assert dest[..|items|] + [] == dest;
    return Some(DList(dest));
  }
}
