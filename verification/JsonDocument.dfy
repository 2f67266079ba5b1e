/** The document a value is written as, spelled out without the tree in between. */
module JsonDocument {
  import opened Text
  import opened JsonCodec
  import opened JsonNumbers
  import opened JsonRoundTrip
  import Tree

  /** The indices, from `start` on, of the values that are not hollow, in order. */
  ghost predicate AreShown(values: seq<Datum>, start: nat, shown: seq<nat>) {
    (forall k :: 0 <= k < |shown| ==> start <= shown[k] < |values| && !Hollow(values[shown[k]]))
    && (forall k, l :: 0 <= k < l < |shown| ==> shown[k] < shown[l])
    && forall i :: start <= i < |values| && !Hollow(values[i]) ==> i in shown
  }

  predicate HasConstant(constants: seq<Constant>, n: int) {
    exists i :: 0 <= i < |constants| && constants[i].value == n
  }

  /** The text is the name of the constant with this value. */
  ghost predicate IsNameOf(constants: seq<Constant>, n: int, name: string) {
    exists i :: 0 <= i < |constants| && constants[i].value == n && constants[i].name == name
  }

  /** Two lower-case hexadecimal digits for each byte. */
  ghost predicate LowerHex(text: string, bs: seq<Byte>) {
    |text| == 2 * |bs|
    && forall i :: 0 <= i < |bs| ==> text[2 * i] == LOWER[bs[i] / 16] && text[2 * i + 1] == LOWER[bs[i] % 16]
  }

  /**
   The document spells the value: pointers show what they lead to, bytes their lower-case digits, enumerations
   their constant or else their number; an object has the fields that are there, in order; a list has one item
   per element, null for a hollow one.
   */
  ghost predicate Renders(t: Type, d: Datum, j: Json)
    requires Typed(t, d)
    decreases d, t
  {
    if Hollow(d) then j == JNull
    else
      match d
      case Nil => false
      case Ptr(target) => Renders(t.target, target, j)
      case DBool(b) => j == JBool(b)
      case DInt(n) => if t.Enum? && HasConstant(t.constants, n) then j.JString? && IsNameOf(t.constants, n, j.s) else j == JNumber(n)
      case DText(s) => j == JString(s)
      case DBytes(bs) => j.JString? && LowerHex(j.s, bs)
      case DStruct(values) =>
        j.JObject? &&
        (exists shown: seq<nat> ::
           AreShown(values, 0, shown) && |j.members| == |shown|
           && forall k :: 0 <= k < |shown| ==>
                j.members[k].key == t.fields[shown[k]].name
                && Renders(t.fields[shown[k]].typ, values[shown[k]], j.members[k].value))
      case DList(items) =>
        j.JArray? && |j.items| == |items|
        && forall i :: 0 <= i < |items| ==> Renders(if t.List? then t.element else t.item, items[i], j.items[i])
  }

  // ---------------------------------------------------------------- the codec writes that document

  lemma {:induction false} ConstantIsNamed(constants: seq<Constant>, n: int)
    requires forall i :: 0 <= i < |constants| ==> constants[i].name != ""
    ensures NameOf(constants, n) != "" <==> HasConstant(constants, n)
    ensures HasConstant(constants, n) ==> IsNameOf(constants, n, NameOf(constants, n))
  {
    if constants != [] {
      if constants[0].value != n {
        ConstantIsNamed(constants[1..], n);
        assert HasConstant(constants, n) <==> HasConstant(constants[1..], n) by {
          SameConstants(constants, n);
        }
        if HasConstant(constants, n) {
          var i :| 0 <= i < |constants[1..]| && constants[1..][i].value == n && constants[1..][i].name == NameOf(constants, n);
          assert constants[i + 1] == constants[1..][i];
        }
      }
    }
  }

  lemma SameConstants(constants: seq<Constant>, n: int)
    requires constants != [] && constants[0].value != n
    ensures HasConstant(constants, n) <==> HasConstant(constants[1..], n)
  {
    if HasConstant(constants, n) {
      var i :| 0 <= i < |constants| && constants[i].value == n;
      assert constants[1..][i - 1] == constants[i];
    }
  }

  /** The member of one field. */
  function MemberOf(f: Field, d: Datum, depth: nat): Member
    requires Typed(f.typ, d)
  {
    Member(f.name, DocumentOf(BuildNode(f.name, f.typ, d, depth)))
  }

  ghost predicate FieldsTyped(fields: seq<Field>, values: seq<Datum>) {
    |values| == |fields| && forall i :: 0 <= i < |fields| ==> Typed(fields[i].typ, values[i])
  }

  /** The members of an object are those of the fields shown. */
  ghost predicate ShowsFields(fields: seq<Field>, values: seq<Datum>, start: nat, depth: nat, ms: seq<Member>, shown: seq<nat>)
    requires FieldsTyped(fields, values)
  {
    AreShown(values, start, shown) && |ms| == |shown|
    && forall k :: 0 <= k < |shown| ==> ms[k] == MemberOf(fields[shown[k]], values[shown[k]], depth)
  }

  lemma {:induction false} FieldsAreShown(fields: seq<Field>, values: seq<Datum>, start: nat, depth: nat) returns (shown: seq<nat>)
    requires FieldsTyped(fields, values) && depth <= MAX_DEPTH && start <= |fields|
    ensures ShowsFields(fields, values, start, depth, Members(BuildFields(fields[start..], values[start..], depth)), shown)
    decreases |fields| - start
  {
    hide Typed, BuildNode, Convert, Hollow, BuildFields, Members, ShowsFields;
    if start == |fields| {
      shown := [];
      NoneShown(fields, values, depth);
    } else {
      var f, d := fields[start], values[start];
      var more := FieldsAreShown(fields, values, start + 1, depth);
      var rest := BuildFields(fields[start + 1..], values[start + 1..], depth);
      shown := if Hollow(d) then more else [start] + more;
      OneMoreShown(fields, values, start, depth, Members(rest), more);
      BuildOneMore(fields, values, start, depth);
      HollowHasNoNode(f.name, f.typ, d, depth);
      if !Hollow(d) {
        MembersCons(BuildNode(f.name, f.typ, d, depth).value, rest);
        NodeIsNamed(f, d, depth);
      }
    }
  }

  lemma NodeIsNamed(f: Field, d: Datum, depth: nat)
    requires Typed(f.typ, d) && BuildNode(f.name, f.typ, d, depth).Some?
    ensures var n := BuildNode(f.name, f.typ, d, depth).value; MemberOf(f, d, depth) == Member(n.name, Convert(n))
  {
    hide Convert, Typed;
  }

  lemma NoneShown(fields: seq<Field>, values: seq<Datum>, depth: nat)
    requires FieldsTyped(fields, values)
    ensures ShowsFields(fields, values, |fields|, depth, Members(BuildFields(fields[|fields|..], values[|fields|..], depth)), [])
  {
  }

  lemma BuildOneMore(fields: seq<Field>, values: seq<Datum>, start: nat, depth: nat)
    requires FieldsTyped(fields, values) && start < |fields|
    ensures var node, rest := BuildNode(fields[start].name, fields[start].typ, values[start], depth),
                              BuildFields(fields[start + 1..], values[start + 1..], depth);
            BuildFields(fields[start..], values[start..], depth) == if node.None? then rest else [node.value] + rest
  {
    hide BuildNode, Typed;
    assert fields[start..][1..] == fields[start + 1..] && values[start..][1..] == values[start + 1..];
  }

  lemma OneMoreShown(fields: seq<Field>, values: seq<Datum>, start: nat, depth: nat, ms: seq<Member>, more: seq<nat>)
    requires FieldsTyped(fields, values) && start < |fields| && ShowsFields(fields, values, start + 1, depth, ms, more)
    ensures Hollow(values[start]) ==> ShowsFields(fields, values, start, depth, ms, more)
    ensures !Hollow(values[start]) ==>
              ShowsFields(fields, values, start, depth, [MemberOf(fields[start], values[start], depth)] + ms, [start] + more)
  {
    hide Hollow, Typed, MemberOf;
    if !Hollow(values[start]) {
      forall i | start <= i < |values| && !Hollow(values[i])
        ensures i in [start] + more
      {
        assert i > start ==> i in more;
      }
    }
  }

  lemma MembersCons(node: Tree.Node, rest: seq<Tree.Node>)
    ensures Members([node] + rest) == [Member(node.name, Convert(node))] + Members(rest)
  {
    assert ([node] + rest)[1..] == rest;
  }

  /** The item at each place is the document of the element there. */
  lemma {:induction false} ItemsAreShown(element: Type, items: seq<Datum>, depth: nat)
    requires depth <= MAX_DEPTH && forall i :: 0 <= i < |items| ==> Typed(element, items[i])
    ensures |ConvertItems(BuildItems(element, items, depth))| == |items|
    ensures forall i :: 0 <= i < |items| ==> ConvertItems(BuildItems(element, items, depth))[i] == DocumentOf(BuildNode("", element, items[i], depth))
  {
    hide Typed, BuildNode, Convert;
    if items != [] {
      ItemsAreShown(element, items[1..], depth);
      var nodes := BuildItems(element, items, depth);
      assert nodes[1..] == BuildItems(element, items[1..], depth);
      assert ConvertItems(nodes)[1..] == ConvertItems(nodes[1..]);
      NullIsShown();
    }
  }

  lemma NullIsShown()
    ensures Convert(Tree.Scalar("", "", "", Tree.Nil)) == JNull
  {
  }

  lemma ScalarRenders(name: string, t: Type, d: Datum, depth: nat)
    requires WellFormed(t) && Typed(t, d) && depth <= MAX_DEPTH && (d.DBool? || d.DInt? || d.DText? || d.DBytes?)
    ensures Renders(t, d, DocumentOf(BuildNode(name, t, d, depth)))
  {
    hide NameOf, Hex, HasConstant, IsNameOf;
    if d.DInt? && t.Enum? {
      ConstantIsNamed(t.constants, d.n);
    } else if d.DBytes? {
      HexIsLower(d.bs);
    }
  }

  /** A value is written as the document that spells it, at whatever depth it is met. */
  lemma {:induction false} DocumentRenders(name: string, t: Type, d: Datum, depth: nat)
    requires WellFormed(t) && Typed(t, d) && depth + Nesting(d) <= MAX_DEPTH
    ensures Renders(t, d, DocumentOf(BuildNode(name, t, d, depth)))
    decreases d, t
  {
    hide Convert, ConvertItems, ConvertFields, BuildFields, BuildItems, WellFormed, NestingAll, Renders;
    HollowHasNoNode(name, t, d, depth);
    if Hollow(d) {
      HollowRenders(t, d);
    } else if d.Ptr? {
      TargetFits(t);
      DocumentRenders(name, t.target, d.target, depth);
      PointerRenders(t, d, DocumentOf(BuildNode(name, t, d, depth)));
    } else if d.DStruct? {
      StructRenders(name, t, d, depth);
    } else if d.DList? {
      ListRenders(name, t, d, depth);
    } else {
      ScalarRenders(name, t, d, depth);
    }
  }

  lemma HollowRenders(t: Type, d: Datum)
    requires Typed(t, d) && Hollow(d)
    ensures Renders(t, d, JNull)
  {
  }

  lemma TargetFits(t: Type)
    requires WellFormed(t) && t.Optional?
    ensures WellFormed(t.target)
  {
  }

  lemma PointerRenders(t: Type, d: Datum, j: Json)
    requires d.Ptr? && Typed(t, d) && !Hollow(d) && Renders(t.target, d.target, j)
    ensures Renders(t, d, j)
  {
  }

  lemma {:induction false} ListRenders(name: string, t: Type, d: Datum, depth: nat)
    requires d.DList? && WellFormed(t) && Typed(t, d) && depth + Nesting(d) <= MAX_DEPTH
    ensures Renders(t, d, DocumentOf(BuildNode(name, t, d, depth)))
    decreases d, t, 0
  {
    hide ConvertItems, BuildItems, Nesting, NestingAll;
    var element := if t.List? then t.element else t.item;
    ListNesting(d);
    ItemsAreShown(element, d.items, depth + 1);
    forall i | 0 <= i < |d.items|
      ensures Renders(element, d.items[i], DocumentOf(BuildNode("", element, d.items[i], depth + 1)))
    {
      NestingOfPart(d.items, i);
      DocumentRenders("", element, d.items[i], depth + 1);
    }
  }

  lemma ListNesting(d: Datum)
    ensures d.DList? ==> Nesting(d) == 1 + NestingAll(d.items)
    ensures d.DStruct? ==> Nesting(d) == 1 + NestingAll(d.values)
  {
  }

  lemma {:induction false} StructRenders(name: string, t: Type, d: Datum, depth: nat)
    requires d.DStruct? && WellFormed(t) && Typed(t, d) && depth + Nesting(d) <= MAX_DEPTH
    ensures Renders(t, d, DocumentOf(BuildNode(name, t, d, depth)))
    decreases d, t, 0
  {
    hide BuildFields, BuildNode, Nesting, NestingAll, Members, AreShown, Renders, DocumentOf, WellFormed;
    ListNesting(d);
    StructDocument(name, t, d, depth);
    var ms := Members(BuildFields(t.fields, d.values, depth + 1));
    var shown := FieldsAreShown(t.fields, d.values, 0, depth + 1);
    assert t.fields[0..] == t.fields && d.values[0..] == d.values;
    forall k | 0 <= k < |shown|
      ensures shown[k] < |d.values|
      ensures Renders(t.fields[shown[k]].typ, d.values[shown[k]], ms[k].value)
    {
      ShownWithin(d.values, shown, k);
      NestingOfPart(d.values, shown[k]);
      FieldFits(t, shown[k]);
      DocumentRenders(t.fields[shown[k]].name, t.fields[shown[k]].typ, d.values[shown[k]], depth + 1);
    }
    ObjectRenders(t, d, ms, shown, depth + 1);
  }

  lemma FieldFits(t: Type, i: nat)
    requires t.Struct? && WellFormed(t) && i < |t.fields|
    ensures WellFormed(t.fields[i].typ)
  {
  }

  lemma StructDocument(name: string, t: Type, d: Datum, depth: nat)
    requires d.DStruct? && WellFormed(t) && Typed(t, d) && depth <= MAX_DEPTH
    ensures DocumentOf(BuildNode(name, t, d, depth)) == JObject(Members(BuildFields(t.fields, d.values, depth + 1)))
  {
    hide ConvertFields, BuildFields, Members;
    var nodes := BuildFields(t.fields, d.values, depth + 1);
    BuiltFieldsUnlike(t.fields, d.values, depth + 1);
    ConvertKeepsOrder(nodes, []);
    assert [] + Members(nodes) == Members(nodes);
  }

  lemma ShownWithin(values: seq<Datum>, shown: seq<nat>, k: nat)
    requires AreShown(values, 0, shown) && k < |shown|
    ensures shown[k] < |values|
  {
  }

  lemma ObjectRenders(t: Type, d: Datum, ms: seq<Member>, shown: seq<nat>, depth: nat)
    requires d.DStruct? && Typed(t, d) && ShowsFields(t.fields, d.values, 0, depth, ms, shown)
    requires forall k :: 0 <= k < |shown| ==> shown[k] < |d.values| && Renders(t.fields[shown[k]].typ, d.values[shown[k]], ms[k].value)
    ensures Renders(t, d, JObject(ms))
  {
    hide AreShown, BuildNode;
  }
}
