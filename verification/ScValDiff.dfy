/** Comparison of Soroban values: vectors are ordered, map entries are matched by key. */
module ScValDiff {
  import opened Text
  import opened Tree
  import opened Changes
  import opened PathFilters
  import opened StructuralDiff
  import DiffCoherence
  import DiffEngine

  /**
   A Soroban value. A plain value carries the fields of its generic rendering; a wide integer carries those,
   its arm and its exact decimal rendering. A vector or map whose arm is missing is malformed.
   */
  datatype ScVal =
    | Plain(fields: seq<Node>)
    | Wide(fields: seq<Node>, kind: string, arm: string, decimal: string)
    | Vec(items: seq<ScVal>)
    | Map(entries: seq<Entry>)
    | ArmMissing

  /** A map entry under its canonical encoded key. */
  datatype Entry = Entry(key: string, value: ScVal)

  function TypeField(kind: string): Node {
    Scalar("Type", "ScValType", "", Str(kind))
  }

  function ScValStruct(name: string, fields: seq<Node>): Node {
    Struct(name, "ScVal", "", fields)
  }

  /** The generic rendering of the fields of a vector or map, before its arm is replaced. */
  function GenericFields(kind: string, arm: string): seq<Node> {
    [TypeField(kind), List(arm, "", "", [])]
  }

  function Replaced(children: seq<Node>, name: string, replacement: Node): seq<Node> {
    if children == [] then [replacement]
    else if children[0].name == name then [replacement] + children[1..]
    else [children[0]] + Replaced(children[1..], name, replacement)
  }

  function KeyName(key: string): string {
    "key:" + key
  }

  /** The node a value is compared by, or nothing when an arm is missing somewhere inside. */
  function ScValNode(name: string, v: ScVal, semantic: bool): Option<Node>
    decreases v, 1
  {
    match v
    case Plain(fields) => Some(ScValStruct(name, fields))
    case Wide(fields, kind, arm, decimal) =>
      Some(ScValStruct(name, if semantic then [Scalar("Type", "", "", Str(kind)), Scalar(arm, "integer", "", Str(decimal))] else fields))
    case Vec(items) =>
      var nodes := ItemNodes(items, semantic);
      if nodes.None? then None
      else Some(ScValStruct(name, Replaced(GenericFields("ScValTypeScvVec", "Vec"), "Vec", List("Vec", "ScVec", "", nodes.value))))
    case Map(entries) =>
      var nodes := EntryNodes(entries, semantic);
      if nodes.None? then None
      else Some(ScValStruct(name, Replaced(GenericFields("ScValTypeScvMap", "Map"), "Map", Struct("Map", "ScMap", "", nodes.value))))
    case ArmMissing => None
  }

  function ItemNodes(items: seq<ScVal>, semantic: bool): Option<seq<Node>>
    decreases items, 0
  {
    if items == [] then Some([])
    else
      var head, tail := ScValNode("", items[0], semantic), ItemNodes(items[1..], semantic);
      if head.None? || tail.None? then None else Some([head.value] + tail.value)
  }

  function EntryNodes(entries: seq<Entry>, semantic: bool): Option<seq<Node>>
    decreases entries, 0
  {
    if entries == [] then Some([])
    else
      var head, tail := ScValNode(KeyName(entries[0].key), entries[0].value, semantic), EntryNodes(entries[1..], semantic);
      if head.None? || tail.None? then None else Some([head.value] + tail.value)
  }

  /** The default options: no mask, lists by position, signers in order. */
  function DefaultOptions(j: Judge): Options {
    Options(false, false, PathFilter([], [], (p, s) => false), j)
  }

  /** The changes between two values, or nothing when either is malformed. */
  function Compare(v: ScVal, w: ScVal, semantic: bool, j: Judge): Option<seq<Change>> {
    var a, b := ScValNode("", v, semantic), ScValNode("", w, semantic);
    if a.None? || b.None? then None else Some(DiffNodes(a, b, "", DefaultOptions(j)))
  }

  // ---------------------------------------------------------------- as it is carried out

  lemma {:induction false} ReplacedAt(children: seq<Node>, name: string, replacement: Node, i: nat)
    requires i <= |children| && forall k :: 0 <= k < i ==> children[k].name != name
    requires i < |children| ==> children[i].name == name
    ensures Replaced(children, name, replacement) == if i < |children| then children[i := replacement] else children + [replacement]
  {
    if i > 0 {
      ReplacedAt(children[1..], name, replacement, i - 1);
    }
  }

  method ReplaceChild(children: seq<Node>, name: string, replacement: Node) returns (r: seq<Node>)
    ensures r == Replaced(children, name, replacement)
  {
    for i := 0 to |children|
      invariant forall k :: 0 <= k < i ==> children[k].name != name
    {
      if children[i].name == name {
        ReplacedAt(children, name, replacement, i);
        return children[i := replacement];
      }
    }
    ReplacedAt(children, name, replacement, |children|);
    return children + [replacement];
  }

  method BuildNode(name: string, v: ScVal, semantic: bool) returns (r: Option<Node>)
    ensures r == ScValNode(name, v, semantic)
    decreases v, 1
  {
    match v {
      case Plain(fields) => return Some(ScValStruct(name, fields));
      case Wide(fields, kind, arm, decimal) =>
        if semantic {
          return Some(ScValStruct(name, [Scalar("Type", "", "", Str(kind)), Scalar(arm, "integer", "", Str(decimal))]));
        }
        return Some(ScValStruct(name, fields));
      case Vec(items) =>
        var nodes := BuildItems(items, semantic);
        if nodes.None? {
          return None;
        }
        var fields := ReplaceChild(GenericFields("ScValTypeScvVec", "Vec"), "Vec", List("Vec", "ScVec", "", nodes.value));
        return Some(ScValStruct(name, fields));
      case Map(entries) =>
        var nodes := BuildEntries(entries, semantic);
        if nodes.None? {
          return None;
        }
        var fields := ReplaceChild(GenericFields("ScValTypeScvMap", "Map"), "Map", Struct("Map", "ScMap", "", nodes.value));
        return Some(ScValStruct(name, fields));
      case ArmMissing => return None;
    }
  }

  method BuildItems(items: seq<ScVal>, semantic: bool) returns (r: Option<seq<Node>>)
    ensures r == ItemNodes(items, semantic)
    decreases items, 0
  {
    var children: seq<Node> := [];
    PrependedNothing(ItemNodes(items, semantic));
    assert items[0..] == items;
    for i := 0 to |items|
      invariant Prepended(children, ItemNodes(items[i..], semantic)) == ItemNodes(items, semantic)
    {
      assert items[i..][1..] == items[i + 1..];
      ghost var tail := ItemNodes(items[i + 1..], semantic);
      var child := BuildNode("", items[i], semantic);
      if child.None? {
        return None;
      }
      if tail.Some? {
        Associate(children, [child.value], tail.value);
      }
      children := children + [child.value];
    }
    assert children + [] == children;
    return Some(children);
  }

  method BuildEntries(entries: seq<Entry>, semantic: bool) returns (r: Option<seq<Node>>)
    ensures r == EntryNodes(entries, semantic)
    decreases entries, 0
  {
    var children: seq<Node> := [];
    PrependedNothing(EntryNodes(entries, semantic));
    assert entries[0..] == entries;
    for i := 0 to |entries|
      invariant Prepended(children, EntryNodes(entries[i..], semantic)) == EntryNodes(entries, semantic)
    {
      assert entries[i..][1..] == entries[i + 1..];
      ghost var tail := EntryNodes(entries[i + 1..], semantic);
      var child := BuildNode(KeyName(entries[i].key), entries[i].value, semantic);
      if child.None? {
        return None;
      }
      if tail.Some? {
        Associate(children, [child.value], tail.value);
      }
      children := children + [child.value];
    }
    assert children + [] == children;
    return Some(children);
  }

  method DiffScVal(left: ScVal, right: ScVal, semantic: bool, j: Judge) returns (r: Option<seq<Change>>)
    ensures r == Compare(left, right, semantic, j)
  {
    hide DiffNodes;
    var leftNode := BuildNode("", left, semantic);
    var rightNode := BuildNode("", right, semantic);
    if leftNode.None? || rightNode.None? {
      return None;
    }
    var o := DefaultOptions(j);
    var changes := DiffEngine.DiffWithOptions(leftNode.value, rightNode.value, o, o.mask);
    return Some(changes);
  }

  // ---------------------------------------------------------------- map order never matters

  /** The fields a plain value can have: distinct names, none of them those that mark an event. */
  ghost predicate ScValFields(fields: seq<Node>) {
    UniqueNames(ScValStruct("", fields))
    && FirstNamed(fields, "ContractId").None? && FirstNamed(fields, "Event").None?
  }

  ghost predicate DistinctKeys(entries: seq<Entry>) {
    forall i, j :: 0 <= i < j < |entries| ==> entries[i].key != entries[j].key
  }

  ghost predicate HasKey(fs: seq<Entry>, key: string) {
    exists k :: 0 <= k < |fs| && fs[k].key == key
  }

  /** Every key of `es` is also a key of `fs`. */
  ghost predicate KeysWithin(es: seq<Entry>, fs: seq<Entry>) {
    forall i :: 0 <= i < |es| ==> HasKey(fs, es[i].key)
  }

  /** Equal up to the order of map entries, at any depth of vector items and map values. */
  ghost predicate SameUpToMapOrder(v: ScVal, w: ScVal)
    decreases v
  {
    match v
    case Plain(fields) => w == v && ScValFields(fields)
    case Wide(fields, kind, arm, decimal) =>
      w == v && ScValFields(fields) && arm != "Type" && arm != "ContractId" && arm != "Event"
    case Vec(items) =>
      w.Vec? && |items| == |w.items| && forall i :: 0 <= i < |items| ==> SameUpToMapOrder(items[i], w.items[i])
    case Map(entries) =>
      w.Map? && SameEntries(entries, w.entries) &&
      forall i, k :: 0 <= i < |entries| && 0 <= k < |w.entries| && entries[i].key == w.entries[k].key ==>
        SameUpToMapOrder(entries[i].value, w.entries[k].value)
    case ArmMissing => w == v
  }

  ghost predicate SameEntries(es: seq<Entry>, fs: seq<Entry>) {
    DistinctKeys(es) && DistinctKeys(fs) && KeysWithin(es, fs) && KeysWithin(fs, es)
  }

  lemma {:induction false} ItemNodesAt(items: seq<ScVal>, semantic: bool)
    ensures ItemNodes(items, semantic).Some? <==> forall i :: 0 <= i < |items| ==> ScValNode("", items[i], semantic).Some?
    ensures ItemNodes(items, semantic).Some? ==>
              |ItemNodes(items, semantic).value| == |items|
              && forall i :: 0 <= i < |items| ==> Some(ItemNodes(items, semantic).value[i]) == ScValNode("", items[i], semantic)
  {
    hide ScValNode;
    if items != [] {
      ItemNodesAt(items[1..], semantic);
      assert forall i :: 1 <= i < |items| ==> items[i] == items[1..][i - 1];
    }
  }

  lemma {:induction false} EntryNodesAt(entries: seq<Entry>, semantic: bool)
    ensures EntryNodes(entries, semantic).Some? <==>
            forall i :: 0 <= i < |entries| ==> ScValNode(KeyName(entries[i].key), entries[i].value, semantic).Some?
    ensures EntryNodes(entries, semantic).Some? ==>
              |EntryNodes(entries, semantic).value| == |entries|
              && forall i :: 0 <= i < |entries| ==>
                   Some(EntryNodes(entries, semantic).value[i]) == ScValNode(KeyName(entries[i].key), entries[i].value, semantic)
  {
    hide ScValNode, KeyName;
    if entries != [] {
      EntryNodesAt(entries[1..], semantic);
      assert forall i :: 1 <= i < |entries| ==> entries[i] == entries[1..][i - 1];
    }
  }

  /** The node of a value has the name it was asked for, and does not look like an event. */
  lemma NodeShape(name: string, v: ScVal, semantic: bool)
    requires ScValNode(name, v, semantic).Some?
    ensures var n := ScValNode(name, v, semantic).value; n.Struct? && n.name == name && n.typeName == "ScVal"
  {
    hide ItemNodes, EntryNodes;
  }

  /** Whether a value is malformed does not depend on the name or on the order of map entries. */
  lemma {:induction false} MalformedAlike(v: ScVal, w: ScVal, name: string, other: string, semantic: bool)
    requires SameUpToMapOrder(v, w)
    ensures ScValNode(name, v, semantic).Some? <==> ScValNode(other, w, semantic).Some?
    decreases v
  {
    hide ItemNodes, EntryNodes;
    if v.Vec? {
      var xs, ys := v.items, w.items;
      forall i | 0 <= i < |xs|
        ensures ScValNode("", xs[i], semantic).Some? <==> ScValNode("", ys[i], semantic).Some?
      {
        MalformedAlike(xs[i], ys[i], "", "", semantic);
      }
      ItemNodesAt(xs, semantic);
      ItemNodesAt(ys, semantic);
    } else if v.Map? {
      var es, fs := v.entries, w.entries;
      forall i, k | 0 <= i < |es| && 0 <= k < |fs| && es[i].key == fs[k].key
        ensures ScValNode(KeyName(es[i].key), es[i].value, semantic).Some? <==> ScValNode(KeyName(fs[k].key), fs[k].value, semantic).Some?
      {
        MalformedAlike(es[i].value, fs[k].value, KeyName(es[i].key), KeyName(fs[k].key), semantic);
      }
      MalformedEntries(es, fs, semantic);
    }
  }

  lemma MalformedEntries(es: seq<Entry>, fs: seq<Entry>, semantic: bool)
    requires KeysWithin(es, fs) && KeysWithin(fs, es)
    requires forall i, k :: 0 <= i < |es| && 0 <= k < |fs| && es[i].key == fs[k].key ==>
               (ScValNode(KeyName(es[i].key), es[i].value, semantic).Some? <==> ScValNode(KeyName(fs[k].key), fs[k].value, semantic).Some?)
    ensures EntryNodes(es, semantic).Some? <==> EntryNodes(fs, semantic).Some?
  {
    hide ScValNode, KeyName;
    EntryNodesAt(es, semantic);
    EntryNodesAt(fs, semantic);
  }

  /** Permuting the entries of any map reached through vector items and map values reports no change. */
  lemma {:induction false} MapOrderNeverMatters(v: ScVal, w: ScVal, name: string, semantic: bool, path: string, j: Judge)
    requires SameUpToMapOrder(v, w) && DiffCoherence.Reflexive(j)
    requires ScValNode(name, v, semantic).Some?
    ensures ScValNode(name, w, semantic).Some?
    ensures DiffNodes(ScValNode(name, v, semantic), ScValNode(name, w, semantic), path, DefaultOptions(j)) == []
    decreases v
  {
    hide ItemNodes, EntryNodes, DiffNodes, UniqueNames, DiffCoherence.Reflexive;
    MalformedAlike(v, w, name, name, semantic);
    match v
    case Plain(fields) => PlainSilent(name, fields, path, j);
    case Wide(fields, kind, arm, decimal) =>
      if semantic {
        WideSilent(name, kind, arm, decimal, path, j);
      } else {
        PlainSilent(name, fields, path, j);
      }
    case Vec(items) =>
      var xs, ys := items, w.items;
      forall i, p | 0 <= i < |xs|
        ensures ScValNode("", xs[i], semantic).Some? && ScValNode("", ys[i], semantic).Some?
                && DiffNodes(ScValNode("", xs[i], semantic), ScValNode("", ys[i], semantic), p, DefaultOptions(j)) == []
      {
        ItemNodesAt(xs, semantic);
        MapOrderNeverMatters(xs[i], ys[i], "", semantic, p, j);
      }
      VecSilent(name, xs, ys, semantic, path, j);
    case Map(entries) =>
      var es, fs := entries, w.entries;
      forall i, k, p | 0 <= i < |es| && 0 <= k < |fs| && es[i].key == fs[k].key
        ensures EntryDiff(es[i], fs[k], semantic, p, j) == []
      {
        EntryNodesAt(es, semantic);
        MapOrderNeverMatters(es[i].value, fs[k].value, KeyName(es[i].key), semantic, p, j);
      }
      MapSilent(name, es, fs, semantic, path, j);
  }

  lemma PlainSilent(name: string, fields: seq<Node>, path: string, j: Judge)
    requires ScValFields(fields) && DiffCoherence.Reflexive(j)
    ensures DiffNodes(Some(ScValStruct(name, fields)), Some(ScValStruct(name, fields)), path, DefaultOptions(j)) == []
  {
    assert UniqueNames(ScValStruct(name, fields));
    DiffCoherence.SelfSilent(ScValStruct(name, fields), path, DefaultOptions(j));
  }

  lemma WideSilent(name: string, kind: string, arm: string, decimal: string, path: string, j: Judge)
    requires arm != "Type" && DiffCoherence.Reflexive(j)
    ensures var n := ScValStruct(name, [Scalar("Type", "", "", Str(kind)), Scalar(arm, "integer", "", Str(decimal))]);
            DiffNodes(Some(n), Some(n), path, DefaultOptions(j)) == []
  {
    var n := ScValStruct(name, [Scalar("Type", "", "", Str(kind)), Scalar(arm, "integer", "", Str(decimal))]);
    assert UniqueNames(n);
    DiffCoherence.SelfSilent(n, path, DefaultOptions(j));
  }

  /** The comparison of two entries' values under their keys. */
  ghost function EntryDiff(e: Entry, f: Entry, semantic: bool, path: string, j: Judge): seq<Change> {
    DiffNodes(ScValNode(KeyName(e.key), e.value, semantic), ScValNode(KeyName(f.key), f.value, semantic), path, DefaultOptions(j))
  }

  /** Two structs with a type field and one arm are compared by comparing the arms. */
  lemma ArmSilent(name: string, kind: string, x: Node, y: Node, path: string, j: Judge)
    requires x.name == y.name && x.name != "Type" && DiffCoherence.Reflexive(j)
    requires DiffNodes(Some(x), Some(y), Join(path, x.name), DefaultOptions(j)) == []
    ensures DiffNodes(Some(ScValStruct(name, [TypeField(kind), x])), Some(ScValStruct(name, [TypeField(kind), y])), path, DefaultOptions(j)) == []
  {
    hide DiffNodes, Join;
    var o, t := DefaultOptions(j), TypeField(kind);
    var a, b := ScValStruct(name, [t, x]), ScValStruct(name, [t, y]);
    DiffCoherence.SelfSilent(t, Join(path, "Type"), o);
    assert [t, x][1..] == [x] && [t, y][1..] == [y] && [x][1..] == [] && [y][1..] == [];
    assert FirstNamed([x], x.name) == Some(x) && FirstNamed([y], y.name) == Some(y);
    assert Child(a, "Type") == Some(t) && Child(b, "Type") == Some(t) && Child(a, x.name) == Some(x) && Child(b, x.name) == Some(y);
    assert LeftField(t, b, path, o) == [] && LeftField(x, b, path, o) == [];
    assert RightField(t, a, path, o) == [] && RightField(y, a, path, o) == [];
    assert LeftFields([x], b, path, o) == LeftField(x, b, path, o) + LeftFields([], b, path, o);
    assert LeftFields([t, x], b, path, o) == LeftField(t, b, path, o) + LeftFields([x], b, path, o);
    assert RightFields([y], a, path, o) == RightField(y, a, path, o) + RightFields([], a, path, o);
    assert RightFields([t, y], a, path, o) == RightField(t, a, path, o) + RightFields([y], a, path, o);
    PlainStructs(a, b, path, o);
  }

  lemma PlainStructs(a: Node, b: Node, path: string, o: Options)
    requires a.Struct? && b.Struct? && a.typeName == b.typeName && (a.typeName == "ScVal" || a.typeName == "ScMap")
    requires LeftFields(a.children, b, path, o) == [] && RightFields(b.children, a, path, o) == []
    ensures DiffNodes(Some(a), Some(b), path, o) == []
  {
    hide LeftFields, RightFields, Masked;
    assert DiffFields(a, b, path, o) == [];
    assert DiffStructs(a, b, path, o) == [];
  }

  lemma VecSilent(name: string, xs: seq<ScVal>, ys: seq<ScVal>, semantic: bool, path: string, j: Judge)
    requires DiffCoherence.Reflexive(j) && |xs| == |ys| && forall i :: 0 <= i < |xs| ==> SameUpToMapOrder(xs[i], ys[i])
    requires ItemNodes(xs, semantic).Some? && ItemNodes(ys, semantic).Some?
    requires forall i, p :: 0 <= i < |xs| ==>
               DiffNodes(ScValNode("", xs[i], semantic), ScValNode("", ys[i], semantic), p, DefaultOptions(j)) == []
    ensures DiffNodes(ScValNode(name, Vec(xs), semantic), ScValNode(name, Vec(ys), semantic), path, DefaultOptions(j)) == []
  {
    hide ItemNodes, DiffNodes, SameUpToMapOrder, Join, ListVisits, VisitAll;
    var o, as_, bs := DefaultOptions(j), ItemNodes(xs, semantic).value, ItemNodes(ys, semantic).value;
    var x, y := List("Vec", "ScVec", "", as_), List("Vec", "ScVec", "", bs);
    ItemNodesAt(xs, semantic);
    ItemNodesAt(ys, semantic);
    assert DiffCoherence.PairsSilent(as_, bs, o);
    VecListSilent(x, y, xs, ys, semantic, Join(path, "Vec"), o);
    ArmSilent(name, "ScValTypeScvVec", x, y, path, j);
    ReplacedArm("ScValTypeScvVec", "Vec", x);
    ReplacedArm("ScValTypeScvVec", "Vec", y);
  }

  lemma ReplacedArm(kind: string, arm: string, replacement: Node)
    requires arm != "Type"
    ensures Replaced(GenericFields(kind, arm), arm, replacement) == [TypeField(kind), replacement]
  {
    assert GenericFields(kind, arm)[1..] == [List(arm, "", "", [])];
  }

  /** A list of values is not mistaken for an event list, and is compared by position. */
  lemma VecListSilent(x: Node, y: Node, xs: seq<ScVal>, ys: seq<ScVal>, semantic: bool, path: string, o: Options)
    requires x.List? && y.List? && x.name == "Vec" && y.name == "Vec" && !o.unorderedSigners && !o.alignLists && Empty(o.mask)
    requires ItemNodes(xs, semantic) == Some(x.children) && ItemNodes(ys, semantic) == Some(y.children)
    requires |xs| == |ys| && (forall i :: 0 <= i < |xs| ==> SameUpToMapOrder(xs[i], ys[i]))
    requires DiffCoherence.PairsSilent(x.children, y.children, o)
    ensures DiffNodes(Some(x), Some(y), path, o) == []
  {
    hide ItemNodes, VisitAll, IsEventNode, SameUpToMapOrder, ScValNode, Masked, DiffNodes;
    ItemNodesAt(xs, semantic);
    ItemNodesAt(ys, semantic);
    if xs != [] {
      NotAnEvent(xs[0], ys[0], semantic);
    }
    var visits := PositionalVisits(|x.children|, |y.children|, 0);
    DiffCoherence.PositionalDiagonal(|x.children|, 0);
    DiffCoherence.DiagonalVisitsSilent(visits, x.children, y.children, path, o);
    PlainList(x, y, path, o);
  }

  lemma PlainList(x: Node, y: Node, path: string, o: Options)
    requires x.List? && y.List? && x.name == "Vec" && y.name == "Vec" && !o.unorderedSigners && !o.alignLists && Empty(o.mask)
    requires x.children != [] ==> !IsEventNode(x.children[0])
    requires y.children != [] ==> !IsEventNode(y.children[0])
    requires VisitAll(PositionalVisits(|x.children|, |y.children|, 0), x.children, y.children, path, o) == []
    ensures DiffNodes(Some(x), Some(y), path, o) == []
  {
    hide VisitAll, IsEventNode, PositionalVisits, MatchesPath;
    assert DiffLists(x, y, path, o) == [];
  }

  lemma NotAnEvent(v: ScVal, w: ScVal, semantic: bool)
    requires SameUpToMapOrder(v, w) && ScValNode("", v, semantic).Some? && ScValNode("", w, semantic).Some?
    ensures !IsEventNode(ScValNode("", v, semantic).value) && !IsEventNode(ScValNode("", w, semantic).value)
  {
    NodeIsNoEvent(v, semantic);
    NodeIsNoEvent(w, semantic);
  }

  lemma NodeIsNoEvent(v: ScVal, semantic: bool)
    requires ScValNode("", v, semantic).Some?
    requires v.Plain? || v.Wide? ==> ScValFields(v.fields)
    requires v.Wide? ==> v.arm != "ContractId" && v.arm != "Event"
    ensures !IsEventNode(ScValNode("", v, semantic).value)
  {
    hide ItemNodes, EntryNodes, UniqueNames;
    var n := ScValNode("", v, semantic).value;
    if v.Plain? || (v.Wide? && !semantic) {
      assert n.children == v.fields;
    } else if v.Wide? {
      NoEventField(n, Scalar("Type", "", "", Str(v.kind)), Scalar(v.arm, "integer", "", Str(v.decimal)));
    } else if v.Vec? {
      var x := List("Vec", "ScVec", "", ItemNodes(v.items, semantic).value);
      ReplacedArm("ScValTypeScvVec", "Vec", x);
      NoEventField(n, TypeField("ScValTypeScvVec"), x);
    } else {
      var x := Struct("Map", "ScMap", "", EntryNodes(v.entries, semantic).value);
      ReplacedArm("ScValTypeScvMap", "Map", x);
      NoEventField(n, TypeField("ScValTypeScvMap"), x);
    }
  }

  lemma NoEventField(n: Node, x: Node, y: Node)
    requires n.Struct? && n.typeName == "ScVal" && n.children == [x, y] && x.name == "Type"
    requires y.name != "ContractId" && y.name != "Event"
    ensures !IsEventNode(n)
  {
    assert [x, y][1..] == [y] && [y][1..] == [];
    assert FirstNamed([y], "ContractId").None? && FirstNamed([y], "Event").None?;
  }

  /** The node of entry `k` is the child of the map node under that entry's key. */
  lemma {:induction false} EntryChild(fs: seq<Entry>, semantic: bool, k: nat)
    requires EntryNodes(fs, semantic).Some? && DistinctKeys(fs) && k < |fs|
    ensures FirstNamed(EntryNodes(fs, semantic).value, KeyName(fs[k].key)) == ScValNode(KeyName(fs[k].key), fs[k].value, semantic)
  {
    hide ScValNode;
    NodeShape(KeyName(fs[0].key), fs[0].value, semantic);
    if k > 0 {
      KeyNamesDiffer(fs[0].key, fs[k].key);
      EntryChild(fs[1..], semantic, k - 1);
    }
  }

  lemma KeyNamesDiffer(x: string, y: string)
    requires x != y
    ensures KeyName(x) != KeyName(y)
  {
    assert KeyName(x)[4..] == x && KeyName(y)[4..] == y;
  }

  lemma {:induction false} EntryLeftFields(es: seq<Entry>, all: seq<Entry>, b: Node, semantic: bool, path: string, j: Judge)
    requires b.Struct? && EntryNodes(all, semantic) == Some(b.children) && DistinctKeys(all) && KeysWithin(es, all)
    requires EntryNodes(es, semantic).Some?
    requires forall i, k, p :: 0 <= i < |es| && 0 <= k < |all| && es[i].key == all[k].key ==> EntryDiff(es[i], all[k], semantic, p, j) == []
    ensures LeftFields(EntryNodes(es, semantic).value, b, path, DefaultOptions(j)) == []
    decreases |es|
  {
    hide ScValNode, KeyName, DiffNodes, Join;
    if es != [] {
      var e, o := es[0], DefaultOptions(j);
      assert HasKey(all, e.key);
      var k :| 0 <= k < |all| && all[k].key == e.key;
      NodeShape(KeyName(e.key), e.value, semantic);
      EntryChild(all, semantic, k);
      var node := ScValNode(KeyName(e.key), e.value, semantic).value;
      assert EntryDiff(e, all[k], semantic, Join(path, node.name), j) == [];
      assert LeftField(node, b, path, o) == [];
      var nodes, rest := EntryNodes(es, semantic).value, EntryNodes(es[1..], semantic).value;
      assert nodes == [node] + rest;
      assert nodes[1..] == rest;
      EntryLeftFields(es[1..], all, b, semantic, path, j);
    }
  }

  lemma {:induction false} EntryRightFields(fs: seq<Entry>, all: seq<Entry>, a: Node, semantic: bool, path: string, j: Judge)
    requires a.Struct? && EntryNodes(all, semantic) == Some(a.children) && DistinctKeys(all) && KeysWithin(fs, all)
    requires EntryNodes(fs, semantic).Some?
    ensures RightFields(EntryNodes(fs, semantic).value, a, path, DefaultOptions(j)) == []
    decreases |fs|
  {
    hide ScValNode, KeyName, DiffNodes, Join;
    if fs != [] {
      var f := fs[0];
      assert HasKey(all, f.key);
      var k :| 0 <= k < |all| && all[k].key == f.key;
      NodeShape(KeyName(f.key), f.value, semantic);
      EntryChild(all, semantic, k);
      EntryNodesAt(all, semantic);
      var node := ScValNode(KeyName(f.key), f.value, semantic).value;
      assert RightField(node, a, path, DefaultOptions(j)) == [];
      var nodes, rest := EntryNodes(fs, semantic).value, EntryNodes(fs[1..], semantic).value;
      assert nodes == [node] + rest;
      assert nodes[1..] == rest;
      EntryRightFields(fs[1..], all, a, semantic, path, j);
    }
  }

  lemma MapSilent(name: string, es: seq<Entry>, fs: seq<Entry>, semantic: bool, path: string, j: Judge)
    requires DiffCoherence.Reflexive(j) && SameEntries(es, fs)
    requires EntryNodes(es, semantic).Some? && EntryNodes(fs, semantic).Some?
    requires forall i, k, p :: 0 <= i < |es| && 0 <= k < |fs| && es[i].key == fs[k].key ==> EntryDiff(es[i], fs[k], semantic, p, j) == []
    ensures DiffNodes(ScValNode(name, Map(es), semantic), ScValNode(name, Map(fs), semantic), path, DefaultOptions(j)) == []
  {
    hide EntryNodes, DiffNodes, Join, EntryDiff, LeftFields, RightFields;
    var o := DefaultOptions(j);
    var x, y := Struct("Map", "ScMap", "", EntryNodes(es, semantic).value), Struct("Map", "ScMap", "", EntryNodes(fs, semantic).value);
    EntryLeftFields(es, fs, y, semantic, Join(path, "Map"), j);
    EntryRightFields(fs, es, x, semantic, Join(path, "Map"), j);
    PlainStructs(x, y, Join(path, "Map"), o);
    ArmSilent(name, "ScValTypeScvMap", x, y, path, j);
    ReplacedArm("ScValTypeScvMap", "Map", x);
    ReplacedArm("ScValTypeScvMap", "Map", y);
  }

  /** Values equal up to map order are malformed alike, and otherwise compare equal, in plain and in semantic mode. */
  lemma PermutedMapsCompareEqual(v: ScVal, w: ScVal, semantic: bool, j: Judge)
    requires SameUpToMapOrder(v, w) && DiffCoherence.Reflexive(j)
    ensures Compare(v, w, semantic, j) == if ScValNode("", v, semantic).Some? then Some([]) else None
  {
    hide ScValNode, DiffNodes, SameUpToMapOrder, DiffCoherence.Reflexive;
    MalformedAlike(v, w, "", "", semantic);
    if ScValNode("", v, semantic).Some? {
      MapOrderNeverMatters(v, w, "", semantic, "", j);
    }
  }
}
