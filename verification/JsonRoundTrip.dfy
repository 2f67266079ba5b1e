/** Decoding and encoding structural JSON undo each other, up to hollow pointers. */
module JsonRoundTrip {
  import opened Text
  import opened JsonCodec
  import Tree

  // ---------------------------------------------------------------- scalars

  predicate IsHex(c: char) { '0' <= c <= '9' || 'a' <= c <= 'f' }

  lemma HexDigitReads(n: nat)
    requires n < 16
    ensures IsHex(HexDigit(n)) && HexValue(HexDigit(n)) == Some(n)
  {
  }

  lemma {:induction false} HexReads(bs: seq<Byte>)
    ensures Unhex(Hex(bs)) == Some(bs)
    ensures forall i :: 0 <= i < |Hex(bs)| ==> IsHex(Hex(bs)[i])
  {
    hide HexDigit, HexValue;
    if bs != [] {
      HexDigitReads(bs[0] / 16);
      HexDigitReads(bs[0] % 16);
      HexReads(bs[1..]);
      assert Hex(bs)[2..] == Hex(bs[1..]);
      assert bs == [bs[0]] + bs[1..];
    }
  }

  lemma TrimKeeps(s: string)
    requires forall i :: 0 <= i < |s| ==> !IsBlank(s[i])
    ensures Trim(s) == s
  {
  }

  lemma BytesRead(bs: seq<Byte>)
    ensures DecodeJsonBytes(JString(Hex(bs))) == Some(bs)
  {
    hide Hex, Unhex, Trim;
    HexReads(bs);
    var s := Hex(bs);
    TrimKeeps(s);
    assert |s| >= 2 ==> IsHex(s[1]);
  }

  lemma {:induction false} NameIsFound(constants: seq<Constant>, n: int)
    requires NameOf(constants, n) != ""
    requires forall i :: 0 <= i < |constants| ==> Probed(constants[i].value)
    requires forall i, j :: 0 <= i < j < |constants| ==> constants[i].name != constants[j].name
    ensures ValueFor(constants, NameOf(constants, n)) == Some(n)
    ensures exists i :: 0 <= i < |constants| && constants[i].name == NameOf(constants, n)
  {
    if constants[0].value == n {
      NameIsAbsent(constants[1..], constants[0].name);
    } else {
      NameIsFound(constants[1..], n);
    }
  }

  lemma {:induction false} NameIsAbsent(constants: seq<Constant>, name: string)
    requires forall i :: 0 <= i < |constants| ==> constants[i].name != name
    ensures ValueFor(constants, name).None?
  {
    if constants != [] {
      NameIsAbsent(constants[1..], name);
    }
  }

  lemma EnumReads(t: Type, n: int)
    requires t.Enum? && WellFormed(t) && FitsInt(n, W32)
    ensures var name := NameOf(t.constants, n);
            EncodeEnum(t, if name != "" then JString(name) else JNumber(n)) == Some(DInt(n))
  {
    hide Trim, ParseInt, ValueFor;
    if NameOf(t.constants, n) != "" {
      NameIsFound(t.constants, n);
    }
  }

  // ---------------------------------------------------------------- objects

  /** The members of a struct's object when its fields have different names. */
  function Members(ns: seq<Tree.Node>): seq<Member> {
    if ns == [] then [] else [Member(ns[0].name, Convert(ns[0]))] + Members(ns[1..])
  }

  predicate Unlike(ns: seq<Tree.Node>) {
    forall i :: 0 <= i < |ns| ==> ns[i].name != "" && forall j :: 0 <= j < i ==> ns[j].name != ns[i].name
  }

  lemma {:induction false} PutAppends(ms: seq<Member>, key: string, value: Json)
    requires forall i :: 0 <= i < |ms| ==> ms[i].key != key
    ensures Put(ms, key, value) == ms + [Member(key, value)]
  {
    if ms != [] {
      PutAppends(ms[1..], key, value);
      assert ms + [Member(key, value)] == [ms[0]] + (ms[1..] + [Member(key, value)]);
    }
  }

  lemma {:induction false} ConvertKeepsOrder(ns: seq<Tree.Node>, out: seq<Member>)
    requires Unlike(ns) && forall i, j :: 0 <= i < |out| && 0 <= j < |ns| ==> out[i].key != ns[j].name
    ensures ConvertFields(ns, out) == out + Members(ns)
  {
    hide Convert;
    if ns != [] {
      var m := Member(ns[0].name, Convert(ns[0]));
      PutAppends(out, m.key, m.value);
      assert Unlike(ns[1..]);
      ConvertKeepsOrder(ns[1..], out + [m]);
      Associate(out, [m], Members(ns[1..]));
    } else {
      assert out + [] == out;
    }
  }

  /** The fields that are present keep their names and order. */
  lemma {:induction false} BuiltFieldsUnlike(fields: seq<Field>, values: seq<Datum>, depth: nat)
    requires |values| == |fields| && forall i :: 0 <= i < |fields| ==> Typed(fields[i].typ, values[i]) && fields[i].name != ""
    requires DistinctFields(fields)
    ensures Unlike(BuildFields(fields, values, depth))
    ensures forall k :: 0 <= k < |BuildFields(fields, values, depth)| ==> exists i :: 0 <= i < |fields| && BuildFields(fields, values, depth)[k].name == fields[i].name
  {
    hide Typed, BuildNode;
    if fields != [] {
      BuiltFieldsUnlike(fields[1..], values[1..], depth);
      var rest, all := BuildFields(fields[1..], values[1..], depth), BuildFields(fields, values, depth);
      forall k | 0 <= k < |rest|
        ensures rest[k].name != fields[0].name
        ensures exists i :: 0 <= i < |fields| && rest[k].name == fields[i].name
      {
        var i :| 0 <= i < |fields[1..]| && rest[k].name == fields[1..][i].name;
        assert fields[1..][i] == fields[i + 1];
      }
    }
  }

  // ---------------------------------------------------------------- the trip

  lemma HollowHasNoNode(name: string, t: Type, d: Datum, depth: nat)
    requires Typed(t, d) && depth <= MAX_DEPTH
    ensures BuildNode(name, t, d, depth).None? <==> Hollow(d)
    ensures Hollow(d) ==> Zero(t) == Nil
    ensures !Hollow(d) ==> !DocumentOf(BuildNode(name, t, d, depth)).JNull?
    decreases d, t
  {
    if d.Ptr? {
      HollowHasNoNode(name, t.target, d.target, depth);
    }
  }

  /** Encoding the document of a value gives the value with its hollow pointers made absent. */
  lemma {:induction false} TripCollapses(name: string, t: Type, d: Datum, depth: nat)
    requires WellFormed(t) && Typed(t, d) && depth + Nesting(d) <= MAX_DEPTH
    ensures Encode(t, Zero(t), DocumentOf(BuildNode(name, t, d, depth))) == Some(Collapsed(d))
    decreases d, t
  {
    hide Hex, NameOf, EncodeEnum, DecodeJsonBytes, EncodeMembers, BuildFields, ZeroFields, ConvertFields, FieldIndex, CollapsedAll, EncodeItems, ConvertItems, BuildItems, Copies;
    HollowHasNoNode(name, t, d, depth);
    if !Hollow(d) {
      match d
      case Ptr(target) => TripCollapses(name, t.target, target, depth);
      case DStruct(values) =>
        StructTrip(name, t, values, depth);
      case DList(items) =>
        var element := if t.List? then t.element else t.item;
        ItemsTrip(element, items, depth + 1);
        BuiltItemsCount(element, items, depth + 1);
      case DBytes(bs) => BytesRead(bs);
      case DInt(n) =>
        if t.Enum? {
          EnumReads(t, n);
        }
      case _ =>
    }
  }

  lemma NothingCollapsed()
    ensures CollapsedAll([]) == []
  {
  }

  lemma NoMembers(fields: seq<Field>, derived: set<string>, dest: seq<Datum>)
    ensures EncodeMembers(fields, derived, dest, Members([])) == Some(dest)
  {
  }

  lemma {:induction false} StructTrip(name: string, t: Type, values: seq<Datum>, depth: nat)
    requires t.Struct? && WellFormed(t) && Typed(t, DStruct(values)) && depth + 1 + NestingAll(values) <= MAX_DEPTH
    ensures Encode(t, Zero(t), DocumentOf(BuildNode(name, t, DStruct(values), depth))) == Some(DStruct(CollapsedAll(values)))
    decreases values, |values| + 1
  {
    hide BuildFields, EncodeMembers, Members, ZeroFields, ConvertFields, CollapsedAll, NestingAll;
    NothingCollapsed();
    var nodes := BuildFields(t.fields, values, depth + 1);
    BuiltFieldsUnlike(t.fields, values, depth + 1);
    ConvertKeepsOrder(nodes, []);
    assert [] + Members(nodes) == Members(nodes);
    assert values[..0] == [] && values[0..] == values && t.fields[0..] == t.fields;
    assert [] + ZeroFields(t.fields) == ZeroFields(t.fields);
    FieldsTrip(t.fields, t.derived, values, 0, depth + 1);
  }

  /** Visiting the member of one field, if it has one, leaves its value in place. */
  lemma MemberStep(fields: seq<Field>, derived: set<string>, dest: seq<Datum>, k: nat, node: Option<Tree.Node>, rest: seq<Tree.Node>, d: Datum)
    requires k < |fields| && k < |dest| && FieldIndex(fields, fields[k].name) == k
    requires node.None? ==> dest[k] == d
    requires node.Some? ==> node.value.name == fields[k].name && Encode(fields[k].typ, dest[k], Convert(node.value)) == Some(d)
    ensures EncodeMembers(fields, derived, dest, Members(if node.None? then rest else [node.value] + rest))
            == EncodeMembers(fields, derived, dest[k := d], Members(rest))
  {
    hide Encode, FieldIndex, Convert;
    if node.None? {
      assert dest[k := d] == dest;
    } else {
      var m, nodes := Member(fields[k].name, Convert(node.value)), [node.value] + rest;
      assert nodes[1..] == rest;
      assert Members(nodes) == [m] + Members(rest) && ([m] + Members(rest))[1..] == Members(rest);
    }
  }

  /** From the k-th field on: the fields before hold their values, the others are still zero. */
  lemma {:induction false} FieldsTrip(fields: seq<Field>, derived: set<string>, values: seq<Datum>, k: nat, depth: nat)
    requires k <= |values| == |fields| && WellFormed(Struct(fields, derived)) && Typed(Struct(fields, derived), DStruct(values))
    requires depth + NestingAll(values) <= MAX_DEPTH
    ensures EncodeMembers(fields, derived, CollapsedAll(values[..k]) + ZeroFields(fields[k..]), Members(BuildFields(fields[k..], values[k..], depth)))
            == Some(CollapsedAll(values))
    decreases values, |values| - k
  {
    hide Encode, Collapsed, Nesting, Zero, BuildNode, FieldIndex, Convert, Hollow, EncodeMembers, Members, CollapsedAll, NestingAll;
    var done := CollapsedAll(values[..k]);
    if k == |fields| {
      assert values[..k] == values && fields[k..] == [] && values[k..] == [];
      assert done + [] == done;
      NoMembers(fields, derived, done);
    } else {
      var f, d := fields[k], values[k];
      var node, rest := BuildNode(f.name, f.typ, d, depth), BuildFields(fields[k + 1..], values[k + 1..], depth);
      OneFieldTrip(f, values, k, depth);
      FieldAt(fields, k);
      var dest := done + ZeroFields(fields[k..]);
      assert fields[k..][1..] == fields[k + 1..] && values[k..][1..] == values[k + 1..];
      assert dest[k] == Zero(f.typ);
      MemberStep(fields, derived, dest, k, node, rest, Collapsed(d));
      CollapsedOneMore(values, k);
      assert dest[k := Collapsed(d)] == CollapsedAll(values[..k + 1]) + ZeroFields(fields[k + 1..]);
      FieldsTrip(fields, derived, values, k + 1, depth);
    }
  }

  lemma OneFieldTrip(f: Field, values: seq<Datum>, k: nat, depth: nat)
    requires k < |values| && WellFormed(f.typ) && Typed(f.typ, values[k]) && depth + NestingAll(values) <= MAX_DEPTH
    ensures var node := BuildNode(f.name, f.typ, values[k], depth);
            if node.None? then Collapsed(values[k]) == Zero(f.typ)
            else Encode(f.typ, Zero(f.typ), Convert(node.value)) == Some(Collapsed(values[k]))
    decreases values, 0
  {
    hide Encode, Nesting, Zero, BuildNode, Convert, WellFormed, Typed;
    NestingOfPart(values, k);
    TripCollapses(f.name, f.typ, values[k], depth);
    HollowHasNoNode(f.name, f.typ, values[k], depth);
  }

  lemma {:induction false} NestingOfPart(ds: seq<Datum>, k: nat)
    requires k < |ds|
    ensures Nesting(ds[k]) <= NestingAll(ds)
  {
    hide Nesting;
    if k > 0 {
      NestingOfPart(ds[1..], k - 1);
    }
  }

  lemma {:induction false} FieldAt(fields: seq<Field>, k: nat)
    requires k < |fields| && DistinctFields(fields)
    ensures FieldIndex(fields, fields[k].name) == k
  {
    if k > 0 {
      assert fields[1..][k - 1] == fields[k];
      FieldAt(fields[1..], k - 1);
    }
  }

  lemma {:induction false} CollapsedOneMore(ds: seq<Datum>, k: nat)
    requires k < |ds|
    ensures CollapsedAll(ds[..k + 1]) == CollapsedAll(ds[..k]) + [Collapsed(ds[k])]
  {
    hide Collapsed;
    if k == 0 {
      assert ds[..1] == [ds[0]] && ds[..1][1..] == [];
      assert ds[..0] == [];
    } else {
      assert ds[..k + 1][1..] == ds[1..][..k] && ds[..k][1..] == ds[1..][..k - 1];
      CollapsedOneMore(ds[1..], k - 1);
    }
  }

  lemma {:induction false} BuiltItemsCount(element: Type, items: seq<Datum>, depth: nat)
    requires forall i :: 0 <= i < |items| ==> Typed(element, items[i])
    ensures |ConvertItems(BuildItems(element, items, depth))| == |items|
  {
    hide Typed, BuildNode, Convert;
    if items != [] {
      BuiltItemsCount(element, items[1..], depth);
      assert BuildItems(element, items, depth)[1..] == BuildItems(element, items[1..], depth);
    }
  }

  lemma {:induction false} ItemsTrip(element: Type, items: seq<Datum>, depth: nat)
    requires WellFormed(element) && depth + NestingAll(items) <= MAX_DEPTH
    requires forall i :: 0 <= i < |items| ==> Typed(element, items[i])
    ensures |ConvertItems(BuildItems(element, items, depth))| == |items|
    ensures EncodeItems(element, Copies(|items|, Zero(element)), ConvertItems(BuildItems(element, items, depth))) == Some(CollapsedAll(items))
    decreases items, 0
  {
    hide Encode, Collapsed, Nesting, Zero, BuildNode, Typed, WellFormed;
    BuiltItemsCount(element, items, depth);
    if items != [] {
      NestingOfPart(items, 0);
      TripCollapses("", element, items[0], depth);
      ItemsTrip(element, items[1..], depth);
      var nodes := BuildItems(element, items, depth);
      assert nodes[1..] == BuildItems(element, items[1..], depth);
      assert Convert(nodes[0]) == DocumentOf(BuildNode("", element, items[0], depth));
      assert ConvertItems(nodes)[1..] == ConvertItems(nodes[1..]);
      assert Copies(|items|, Zero(element))[1..] == Copies(|items| - 1, Zero(element));
    }
  }

  // ---------------------------------------------------------------- which values survive

  lemma {:induction false} CollapsedIsSameIff(d: Datum)
    ensures Collapsed(d) == d <==> Solid(d)
    decreases d, 0
  {
    match d
    case Ptr(target) => CollapsedIsSameIff(target);
    case DStruct(values) => CollapsedAllIsSameIff(values);
    case DList(items) => CollapsedAllIsSameIff(items);
    case _ =>
  }

  lemma {:induction false} CollapsedAllIsSameIff(ds: seq<Datum>)
    ensures CollapsedAll(ds) == ds <==> forall i :: 0 <= i < |ds| ==> Solid(ds[i])
    decreases ds, 0
  {
    hide Collapsed, Solid;
    if ds != [] {
      CollapsedIsSameIff(ds[0]);
      CollapsedAllIsSameIff(ds[1..]);
      assert ds == [ds[0]] + ds[1..];
      assert (forall i :: 0 <= i < |ds| ==> Solid(ds[i])) <==> Solid(ds[0]) && forall i :: 0 <= i < |ds[1..]| ==> Solid(ds[1..][i]);
    }
  }

  /** A value of any type comes back from its JSON exactly when no pointer in it leads to an absent value. */
  lemma RoundTripIff(t: Type, d: Datum)
    requires WellFormed(t) && Typed(t, d) && Nesting(d) <= MAX_DEPTH
    ensures Encode(t, Zero(t), DocumentOf(BuildNode("", t, d, 0))) == Some(d) <==> Solid(d)
  {
    hide WellFormed, Typed, Nesting, Encode, BuildNode, Collapsed, Solid;
    TripCollapses("", t, d, 0);
    CollapsedIsSameIff(d);
  }

  /** A pointer to an absent list is lost. */
  lemma HollowPointerIsLost()
    ensures var t, d := Optional(List(Bool)), Ptr(Nil);
            WellFormed(t) && Typed(t, d) && Encode(t, Zero(t), DocumentOf(BuildNode("", t, d, 0))) == Some(Nil)
  {
    hide Hex, EncodeEnum, EncodeMembers, EncodeItems, DecodeJsonBytes, BuildFields, BuildItems, Convert, Copies, ZeroFields, NameOf;
  }

  lemma {:induction false} CollapsedStaysTyped(t: Type, d: Datum)
    requires Typed(t, d)
    ensures Typed(t, Collapsed(d))
    decreases d, t
  {
    if !Hollow(d) {
      match d
      case Ptr(target) => CollapsedStaysTyped(t.target, target);
      case DStruct(values) =>
        forall i | 0 <= i < |values|
          ensures CollapsedAll(values)[i] == Collapsed(values[i]) && Typed(t.fields[i].typ, Collapsed(values[i]))
        {
          CollapsedAt(values, i);
          CollapsedStaysTyped(t.fields[i].typ, values[i]);
        }
      case DList(items) =>
        var element := if t.List? then t.element else t.item;
        forall i | 0 <= i < |items|
          ensures CollapsedAll(items)[i] == Collapsed(items[i]) && Typed(element, Collapsed(items[i]))
        {
          CollapsedAt(items, i);
          CollapsedStaysTyped(element, items[i]);
        }
      case _ =>
    } else {
      HollowIsNilable(t, d);
    }
  }

  lemma HollowIsNilable(t: Type, d: Datum)
    requires Typed(t, d) && Hollow(d)
    ensures Typed(t, Nil)
  {
  }

  lemma {:induction false} CollapsedAt(ds: seq<Datum>, i: nat)
    requires i < |ds|
    ensures CollapsedAll(ds)[i] == Collapsed(ds[i])
  {
    hide Collapsed;
    if i > 0 {
      CollapsedAt(ds[1..], i - 1);
    }
  }

  /** The tree survives every trip, even when the value does not. */
  lemma TreeSurvives(t: Type, d: Datum)
    requires WellFormed(t) && Typed(t, d) && Nesting(d) <= MAX_DEPTH
    ensures var trip := Encode(t, Zero(t), DocumentOf(BuildNode("", t, d, 0)));
            trip.Some? && Typed(t, trip.value) && BuildNode("", t, trip.value, 0) == BuildNode("", t, d, 0)
  {
    hide WellFormed, Typed, Nesting, Encode, BuildNode, Collapsed, Zero, Convert;
    TripCollapses("", t, d, 0);
    CollapsedStaysTyped(t, d);
    SameTree("", t, d, 0);
  }

  lemma {:induction false} SameTree(name: string, t: Type, d: Datum, depth: nat)
    requires Typed(t, d) && Typed(t, Collapsed(d))
    ensures BuildNode(name, t, Collapsed(d), depth) == BuildNode(name, t, d, depth)
    decreases d, t
  {
    if depth <= MAX_DEPTH {
      HollowHasNoNode(name, t, d, depth);
      if Hollow(d) {
        HollowHasNoNode(name, t, Nil, depth);
      } else {
        match d
        case Ptr(target) => SameTree(name, t.target, target, depth);
        case DStruct(values) => FieldsSurvive(t.fields, values, depth + 1);
        case DList(items) => ItemsSurvive(if t.List? then t.element else t.item, items, depth + 1);
        case _ =>
      }
    }
  }

  lemma {:induction false} FieldsSurvive(fields: seq<Field>, values: seq<Datum>, depth: nat)
    requires |values| == |fields|
    requires forall i :: 0 <= i < |fields| ==> Typed(fields[i].typ, values[i]) && Typed(fields[i].typ, CollapsedAll(values)[i])
    ensures BuildFields(fields, CollapsedAll(values), depth) == BuildFields(fields, values, depth)
    decreases values, 0
  {
    hide Typed, BuildNode, Collapsed;
    if fields != [] {
      assert CollapsedAll(values)[0] == Collapsed(values[0]) && CollapsedAll(values)[1..] == CollapsedAll(values[1..]);
      SameTree(fields[0].name, fields[0].typ, values[0], depth);
      FieldsSurvive(fields[1..], values[1..], depth);
    }
  }

  lemma {:induction false} ItemsSurvive(element: Type, items: seq<Datum>, depth: nat)
    requires forall i :: 0 <= i < |items| ==> Typed(element, items[i]) && Typed(element, CollapsedAll(items)[i])
    ensures BuildItems(element, CollapsedAll(items), depth) == BuildItems(element, items, depth)
    decreases items, 0
  {
    hide Typed, BuildNode, Collapsed;
    if items != [] {
      assert CollapsedAll(items)[0] == Collapsed(items[0]) && CollapsedAll(items)[1..] == CollapsedAll(items[1..]);
      SameTree("", element, items[0], depth);
      ItemsSurvive(element, items[1..], depth);
    }
  }
}
