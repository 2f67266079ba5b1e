/** What it means that two Soroban values compare silently, and where their parts are found in the tree. */
module ScValSoundness {
  import opened Text
  import opened Tree
  import opened Changes
  import opened PathFilters
  import opened StructuralDiff
  import opened ScValDiff
  import DiffSoundness

  const VEC_KIND := "ScValTypeScvVec"
  const MAP_KIND := "ScValTypeScvMap"
  const WIDE_KINDS := ["ScValTypeScvU128", "ScValTypeScvI128", "ScValTypeScvU256", "ScValTypeScvI256"]

  /** Texts that compare as the same scalar are the same text. */
  ghost predicate TellsTextsApart(j: Judge) {
    forall x: Node, y: Node :: x.Scalar? && y.Scalar? && x.value.Str? && y.value.Str? && j.sameScalar(x, y) ==> x.value == y.value
  }

  /** The generic rendering of a value of this kind: its type first, then its own distinct fields. */
  ghost predicate FieldsOfKind(fields: seq<Node>, kind: string) {
    ScValFields(fields) && fields != [] && fields[0] == TypeField(kind)
  }

  ghost predicate PlainKind(kind: string) {
    kind != VEC_KIND && kind != MAP_KIND && kind !in WIDE_KINDS
  }

  /** A value as the decoder builds it; a missing arm may occur anywhere inside. */
  ghost predicate WellFormed(v: ScVal)
    decreases v
  {
    match v
    case Plain(fields) => exists kind :: PlainKind(kind) && FieldsOfKind(fields, kind)
    case Wide(fields, kind, arm, decimal) =>
      FieldsOfKind(fields, kind) && kind in WIDE_KINDS && arm != "Type" && arm != "ContractId" && arm != "Event"
    case Vec(items) => forall i :: 0 <= i < |items| ==> WellFormed(items[i])
    case Map(entries) => DistinctKeys(entries) && forall i :: 0 <= i < |entries| ==> WellFormed(entries[i].value)
    case ArmMissing => true
  }

  /** The same field names on both sides, and related fields under every name. */
  ghost predicate FieldsAlike(fs: seq<Node>, gs: seq<Node>, path: string, o: Options) {
    (forall k :: 0 <= k < |gs| ==> FirstNamed(fs, gs[k].name).Some?)
    && forall i :: 0 <= i < |fs| ==>
         FirstNamed(gs, fs[i].name).Some?
         && DiffSoundness.Related(fs[i], FirstNamed(gs, fs[i].name).value, Join(path, fs[i].name), o)
  }

  /**
   Alike values: plain values have related fields; a wide integer in semantic mode has the same kind, arm and
   decimal; vectors are alike item by item; maps have the same keys, and alike values under each.
   */
  ghost predicate Alike(v: ScVal, w: ScVal, semantic: bool, path: string, o: Options)
    decreases v
  {
    match v
    case Plain(fields) => w.Plain? && FieldsAlike(fields, w.fields, path, o)
    case Wide(fields, kind, arm, decimal) =>
      w.Wide? && kind == w.kind && if semantic then arm == w.arm && decimal == w.decimal else FieldsAlike(fields, w.fields, path, o)
    case Vec(items) =>
      w.Vec? && |items| == |w.items|
      && forall i :: 0 <= i < |items| ==> Alike(items[i], w.items[i], semantic, At(Join(path, "Vec"), i), o)
    case Map(entries) =>
      w.Map? && KeysWithin(entries, w.entries) && KeysWithin(w.entries, entries)
      && forall i, k :: 0 <= i < |entries| && 0 <= k < |w.entries| && entries[i].key == w.entries[k].key ==>
           Alike(entries[i].value, w.entries[k].value, semantic, Join(Join(path, "Map"), KeyName(entries[i].key)), o)
    case ArmMissing => false
  }

  // ---------------------------------------------------------------- the node of a value

  /** The kind a value is labelled with. */
  ghost predicate HasKind(v: ScVal, kind: string) {
    match v
    case Plain(fields) => PlainKind(kind) && FieldsOfKind(fields, kind)
    case Wide(fields, k, _, _) => k == kind && kind in WIDE_KINDS && FieldsOfKind(fields, kind)
    case Vec(_) => kind == VEC_KIND
    case Map(_) => kind == MAP_KIND
    case ArmMissing => false
  }

  /** Every value is labelled with its kind, under the name its node was asked for. */
  lemma KindIsLabelled(name: string, v: ScVal, semantic: bool, kind: string)
    requires HasKind(v, kind) && ScValNode(name, v, semantic).Some?
    ensures var n := ScValNode(name, v, semantic).value;
            n.Struct? && n.name == name && n.typeName == "ScVal" && n.children != []
            && n.children[0].Scalar? && n.children[0].name == "Type" && n.children[0].value == Str(kind)
            && Child(n, "Type") == Some(n.children[0])
  {
    hide ItemNodes, EntryNodes, UniqueNames;
    if v.Vec? {
      ReplacedArm(VEC_KIND, "Vec", List("Vec", "ScVec", "", ItemNodes(v.items, semantic).value));
    } else if v.Map? {
      ReplacedArm(MAP_KIND, "Map", Struct("Map", "ScMap", "", EntryNodes(v.entries, semantic).value));
    }
  }

  /** A plain value, and a wide integer outside semantic mode, carries exactly its own fields. */
  lemma FieldsAreKept(name: string, v: ScVal, semantic: bool)
    requires v.Plain? || (v.Wide? && !semantic)
    ensures ScValNode(name, v, semantic).Some? && ScValNode(name, v, semantic).value.children == v.fields
  {
  }

  lemma WideIsNode(name: string, v: ScVal)
    requires v.Wide? && v.arm != "Type"
    ensures ScValNode(name, v, true).Some?
    ensures var n := ScValNode(name, v, true).value;
            n.children == [Scalar("Type", "", "", Str(v.kind)), Scalar(v.arm, "integer", "", Str(v.decimal))]
            && Child(n, v.arm) == Some(n.children[1])
  {
    FirstNamedUnique(ScValNode(name, v, true).value.children, 1);
  }

  lemma VecIsNode(name: string, v: ScVal, semantic: bool)
    requires v.Vec? && ScValNode(name, v, semantic).Some?
    ensures ItemNodes(v.items, semantic).Some?
    ensures var n := ScValNode(name, v, semantic).value;
            var x := List("Vec", "ScVec", "", ItemNodes(v.items, semantic).value);
            n == ScValStruct(name, [TypeField(VEC_KIND), x]) && Child(n, "Vec") == Some(x)
  {
    hide ItemNodes;
    ReplacedArm(VEC_KIND, "Vec", List("Vec", "ScVec", "", ItemNodes(v.items, semantic).value));
    FirstNamedUnique(ScValNode(name, v, semantic).value.children, 1);
  }

  lemma MapIsNode(name: string, v: ScVal, semantic: bool)
    requires v.Map? && ScValNode(name, v, semantic).Some?
    ensures EntryNodes(v.entries, semantic).Some?
    ensures var n := ScValNode(name, v, semantic).value;
            var x := Struct("Map", "ScMap", "", EntryNodes(v.entries, semantic).value);
            n == ScValStruct(name, [TypeField(MAP_KIND), x]) && Child(n, "Map") == Some(x)
  {
    hide EntryNodes;
    ReplacedArm(MAP_KIND, "Map", Struct("Map", "ScMap", "", EntryNodes(v.entries, semantic).value));
    FirstNamedUnique(ScValNode(name, v, semantic).value.children, 1);
  }

  lemma PairUnique(n: Node, x: Node, y: Node)
    requires n.Struct? && n.children == [x, y] && x.name != y.name && UniqueNames(x) && UniqueNames(y)
    ensures UniqueNames(n)
  {
    forall i | 0 <= i < |n.children|
      ensures UniqueNames(n.children[i])
    {
      assert n.children[i] == x || n.children[i] == y;
    }
  }

  /** No two fields of the node of a well-formed value have one name, at any depth. */
  lemma {:induction false} NodeIsUnique(name: string, v: ScVal, semantic: bool)
    requires WellFormed(v) && ScValNode(name, v, semantic).Some?
    ensures UniqueNames(ScValNode(name, v, semantic).value)
    decreases v
  {
    hide ScValNode, ItemNodes, EntryNodes, UniqueNames;
    var n := ScValNode(name, v, semantic).value;
    match v
    case Plain(fields) => OwnFieldsUnique(name, v, semantic);
    case Wide(fields, kind, arm, decimal) =>
      if semantic {
        WideIsUnique(name, v);
      } else {
        OwnFieldsUnique(name, v, semantic);
      }
    case Vec(items) =>
      VecIsNode(name, v, semantic);
      ItemNodesAt(items, semantic);
      forall i | 0 <= i < |items|
        ensures UniqueNames(ItemNodes(items, semantic).value[i])
      {
        NodeIsUnique("", items[i], semantic);
      }
      ListUnique(n.children[1]);
      TypeUnique(VEC_KIND);
      PairUnique(n, n.children[0], n.children[1]);
    case Map(entries) =>
      MapIsNode(name, v, semantic);
      EntryNodesAt(entries, semantic);
      forall i | 0 <= i < |entries|
        ensures UniqueNames(EntryNodes(entries, semantic).value[i])
      {
        NodeIsUnique(KeyName(entries[i].key), entries[i].value, semantic);
      }
      MapUnique(entries, semantic);
      TypeUnique(MAP_KIND);
      PairUnique(n, n.children[0], n.children[1]);
    case ArmMissing => NoNode(name, semantic);
  }

  lemma NoNode(name: string, semantic: bool)
    ensures ScValNode(name, ArmMissing, semantic).None?
  {
  }

  lemma TypeUnique(kind: string)
    ensures UniqueNames(TypeField(kind))
  {
  }

  lemma ListUnique(n: Node)
    requires n.List? && forall i :: 0 <= i < |n.children| ==> UniqueNames(n.children[i])
    ensures UniqueNames(n)
  {
  }

  lemma MapUnique(entries: seq<Entry>, semantic: bool)
    requires EntryNodes(entries, semantic).Some? && DistinctKeys(entries)
    requires |EntryNodes(entries, semantic).value| == |entries|
    requires forall i :: 0 <= i < |entries| ==> UniqueNames(EntryNodes(entries, semantic).value[i])
    ensures UniqueNames(Struct("Map", "ScMap", "", EntryNodes(entries, semantic).value))
  {
    hide EntryNodes, ScValNode, KeyName;
    var nodes := EntryNodes(entries, semantic).value;
    EntryNodesAt(entries, semantic);
    forall i, k | 0 <= i < k < |nodes|
      ensures nodes[i].name != nodes[k].name
    {
      NodeShape(KeyName(entries[i].key), entries[i].value, semantic);
      NodeShape(KeyName(entries[k].key), entries[k].value, semantic);
      KeyNamesDiffer(entries[i].key, entries[k].key);
    }
  }

  lemma OwnFieldsUnique(name: string, v: ScVal, semantic: bool)
    requires (v.Plain? || (v.Wide? && !semantic)) && ScValFields(v.fields)
    ensures ScValNode(name, v, semantic).Some? && UniqueNames(ScValNode(name, v, semantic).value)
  {
    assert UniqueNames(ScValStruct(name, v.fields)) by {
      var n := ScValStruct("", v.fields);
      assert UniqueNames(n) && n.Struct?;
    }
  }

  lemma WideIsUnique(name: string, v: ScVal)
    requires v.Wide? && v.arm != "Type"
    ensures ScValNode(name, v, true).Some? && UniqueNames(ScValNode(name, v, true).value)
  {
    var n := ScValNode(name, v, true).value;
    WideIsNode(name, v);
    PairUnique(n, n.children[0], n.children[1]);
  }

  // ---------------------------------------------------------------- related nodes are alike values

  lemma KindOf(v: ScVal) returns (kind: string)
    requires WellFormed(v) && !v.ArmMissing?
    ensures HasKind(v, kind)
  {
    hide FieldsOfKind;
    match v
    case Plain(fields) => kind :| PlainKind(kind) && FieldsOfKind(fields, kind);
    case Wide(_, k, _, _) => kind := k;
    case Vec(_) => kind := VEC_KIND;
    case Map(_) => kind := MAP_KIND;
  }

  lemma RelatedFields(a: Node, b: Node, path: string, o: Options)
    requires a.Struct? && b.Struct? && DiffSoundness.Related(a, b, path, o)
    ensures FieldsAlike(a.children, b.children, path, o)
  {
    hide Join;
  }

  lemma RelatedTexts(fs: seq<Node>, gs: seq<Node>, i: nat, path: string, o: Options)
    requires FieldsAlike(fs, gs, path, o) && TellsTextsApart(o.judge) && i < |fs|
    requires fs[i].Scalar? && fs[i].value.Str?
    requires FirstNamed(gs, fs[i].name).Some? ==> FirstNamed(gs, fs[i].name).value.Scalar? && FirstNamed(gs, fs[i].name).value.value.Str?
    ensures FirstNamed(gs, fs[i].name).Some? && FirstNamed(gs, fs[i].name).value.value == fs[i].value
  {
    hide Join;
  }

  /** Related nodes belong to values of one kind. */
  lemma SameKindOfValue(v: ScVal, w: ScVal, name: string, semantic: bool, path: string, j: Judge)
    requires WellFormed(v) && WellFormed(w) && TellsTextsApart(j)
    requires ScValNode(name, v, semantic).Some? && ScValNode(name, w, semantic).Some?
    requires DiffSoundness.Related(ScValNode(name, v, semantic).value, ScValNode(name, w, semantic).value, path, DefaultOptions(j))
    ensures (v.Plain? && w.Plain?) || (v.Wide? && w.Wide? && v.kind == w.kind) || (v.Vec? && w.Vec?) || (v.Map? && w.Map?)
  {
    hide ScValNode, FieldsOfKind, DiffSoundness.Related, FieldsAlike, WellFormed, TellsTextsApart;
    NoNode(name, semantic);
    var k := KindOf(v);
    var l := KindOf(w);
    KindIsLabelled(name, v, semantic, k);
    KindIsLabelled(name, w, semantic, l);
    var a, b := ScValNode(name, v, semantic).value, ScValNode(name, w, semantic).value;
    RelatedFields(a, b, path, DefaultOptions(j));
    RelatedTexts(a.children, b.children, 0, path, DefaultOptions(j));
    assert k == l;
  }

  /** Two wide integers that are related in semantic mode have one arm and one decimal. */
  lemma WideAlike(v: ScVal, w: ScVal, name: string, path: string, j: Judge)
    requires v.Wide? && w.Wide? && v.arm != "Type" && w.arm != "Type" && TellsTextsApart(j)
    requires ScValNode(name, v, true).Some? && ScValNode(name, w, true).Some?
    requires DiffSoundness.Related(ScValNode(name, v, true).value, ScValNode(name, w, true).value, path, DefaultOptions(j))
    ensures v.arm == w.arm && v.decimal == w.decimal
  {
    hide ScValNode, DiffSoundness.Related, FieldsAlike, TellsTextsApart;
    WideIsNode(name, v);
    WideIsNode(name, w);
    NodeShape(name, v, true);
    NodeShape(name, w, true);
    var a, b := ScValNode(name, v, true).value, ScValNode(name, w, true).value;
    RelatedFields(a, b, path, DefaultOptions(j));
    ArmOfOther(a, b, path, DefaultOptions(j));
    RelatedTexts(a.children, b.children, 1, path, DefaultOptions(j));
  }

  lemma ArmOfOther(a: Node, b: Node, path: string, o: Options)
    requires a.Struct? && b.Struct? && |a.children| == 2 && |b.children| == 2 && FieldsAlike(a.children, b.children, path, o)
    requires a.children[1].name != "Type" && b.children[0].name == "Type"
    ensures b.children[1].name == a.children[1].name
  {
    hide DiffSoundness.Related, Join;
    var name := a.children[1].name;
    assert FirstNamed(b.children, name).Some?;
    var k := FirstNamedAt(b.children, name);
  }

  /** Related vectors have related items, one for one. */
  lemma VecAlike(v: ScVal, w: ScVal, name: string, semantic: bool, path: string, j: Judge)
    requires v.Vec? && w.Vec? && WellFormed(v) && WellFormed(w)
    requires ScValNode(name, v, semantic).Some? && ScValNode(name, w, semantic).Some?
    requires DiffSoundness.Related(ScValNode(name, v, semantic).value, ScValNode(name, w, semantic).value, path, DefaultOptions(j))
    ensures |v.items| == |w.items|
    ensures forall i :: 0 <= i < |v.items| ==>
              ScValNode("", v.items[i], semantic).Some? && ScValNode("", w.items[i], semantic).Some?
              && DiffSoundness.Related(ScValNode("", v.items[i], semantic).value, ScValNode("", w.items[i], semantic).value,
                                       At(Join(path, "Vec"), i), DefaultOptions(j))
  {
    hide ScValNode, ItemNodes, DiffSoundness.Related, WellFormed, Join, At;
    var a, b := ScValNode(name, v, semantic).value, ScValNode(name, w, semantic).value;
    VecIsNode(name, v, semantic);
    VecIsNode(name, w, semantic);
    RelatedFields(a, b, path, DefaultOptions(j));
    ItemNodesAt(v.items, semantic);
    ItemNodesAt(w.items, semantic);
    var x, y := a.children[1], b.children[1];
    FieldRelated(a, b, 1, y, path, DefaultOptions(j));
    NoEventFirst(v, x, semantic);
    NoEventFirst(w, y, semantic);
    PlainListRelated(x, y, Join(path, "Vec"), DefaultOptions(j));
  }

  lemma FieldRelated(a: Node, b: Node, i: nat, y: Node, path: string, o: Options)
    requires a.Struct? && b.Struct? && FieldsAlike(a.children, b.children, path, o) && i < |a.children|
    requires Child(b, a.children[i].name) == Some(y)
    ensures DiffSoundness.Related(a.children[i], y, Join(path, a.children[i].name), o)
  {
    hide DiffSoundness.Related, Join;
  }

  lemma NoEventFirst(v: ScVal, x: Node, semantic: bool)
    requires v.Vec? && WellFormed(v) && x.List? && ItemNodes(v.items, semantic) == Some(x.children)
    ensures x.children != [] ==> !IsEventNode(x.children[0])
  {
    hide ItemNodes, ScValNode, IsEventNode, FieldsOfKind;
    ItemNodesAt(v.items, semantic);
    if x.children != [] {
      WellFormedIsNoEvent(v.items[0], semantic);
    }
  }

  lemma WellFormedIsNoEvent(v: ScVal, semantic: bool)
    requires WellFormed(v) && ScValNode("", v, semantic).Some?
    ensures !IsEventNode(ScValNode("", v, semantic).value)
  {
    hide ScValNode, IsEventNode;
    NodeIsNoEvent(v, semantic);
  }

  lemma PlainListRelated(x: Node, y: Node, path: string, o: Options)
    requires x.List? && y.List? && x.name == "Vec" && y.name == "Vec" && DiffSoundness.Related(x, y, path, o)
    requires x.children != [] ==> !IsEventNode(x.children[0])
    requires y.children != [] ==> !IsEventNode(y.children[0])
    ensures |x.children| == |y.children|
    ensures forall i :: 0 <= i < |x.children| ==> DiffSoundness.Related(x.children[i], y.children[i], At(path, i), o)
  {
    hide IsEventNode, At;
  }

  /** Related maps have the same keys, and related values under each. */
  lemma MapAlike(v: ScVal, w: ScVal, name: string, semantic: bool, path: string, j: Judge)
    requires v.Map? && w.Map? && DistinctKeys(v.entries) && DistinctKeys(w.entries)
    requires ScValNode(name, v, semantic).Some? && ScValNode(name, w, semantic).Some?
    requires DiffSoundness.Related(ScValNode(name, v, semantic).value, ScValNode(name, w, semantic).value, path, DefaultOptions(j))
    ensures KeysWithin(v.entries, w.entries) && KeysWithin(w.entries, v.entries)
    ensures forall i, k :: 0 <= i < |v.entries| && 0 <= k < |w.entries| && v.entries[i].key == w.entries[k].key ==>
              EntriesRelated(v.entries[i], w.entries[k], semantic, Join(Join(path, "Map"), KeyName(v.entries[i].key)), j)
  {
    hide ScValNode, EntryNodes, DiffSoundness.Related, Join, At, KeyName, FieldsAlike, EntriesRelated, DistinctKeys, KeysWithin;
    var o := DefaultOptions(j);
    var a, b := ScValNode(name, v, semantic).value, ScValNode(name, w, semantic).value;
    MapIsNode(name, v, semantic);
    MapIsNode(name, w, semantic);
    RelatedFields(a, b, path, o);
    var x, y := a.children[1], b.children[1];
    FieldRelated(a, b, 1, y, path, o);
    RelatedFields(x, y, Join(path, "Map"), o);
    AlikeKeys(v.entries, w.entries, x.children, y.children, semantic, Join(path, "Map"), o);
    forall i, k | 0 <= i < |v.entries| && 0 <= k < |w.entries| && v.entries[i].key == w.entries[k].key
      ensures EntriesRelated(v.entries[i], w.entries[k], semantic, Join(Join(path, "Map"), KeyName(v.entries[i].key)), j)
    {
      AlikeEntry(v.entries, w.entries, x, y, i, k, semantic, Join(path, "Map"), j);
    }
  }

  ghost predicate EntriesRelated(e: Entry, f: Entry, semantic: bool, path: string, j: Judge) {
    var a, b := ScValNode(KeyName(e.key), e.value, semantic), ScValNode(KeyName(f.key), f.value, semantic);
    a.Some? && b.Some? && DiffSoundness.Related(a.value, b.value, path, DefaultOptions(j))
  }

  lemma AlikeEntry(es: seq<Entry>, fs: seq<Entry>, x: Node, y: Node, i: nat, k: nat, semantic: bool, path: string, j: Judge)
    requires x.Struct? && y.Struct? && EntryNodes(es, semantic) == Some(x.children) && EntryNodes(fs, semantic) == Some(y.children)
    requires DistinctKeys(fs) && FieldsAlike(x.children, y.children, path, DefaultOptions(j))
    requires i < |es| && k < |fs| && es[i].key == fs[k].key
    ensures EntriesRelated(es[i], fs[k], semantic, Join(path, KeyName(es[i].key)), j)
  {
    hide ScValNode, EntryNodes, DiffSoundness.Related, Join, KeyName, FieldsAlike;
    EntryNodesAt(es, semantic);
    EntryNodesAt(fs, semantic);
    NodeShape(KeyName(es[i].key), es[i].value, semantic);
    EntryChild(fs, semantic, k);
    FieldRelated(x, y, i, y.children[k], path, DefaultOptions(j));
  }

  lemma AlikeKeys(es: seq<Entry>, fs: seq<Entry>, xs: seq<Node>, ys: seq<Node>, semantic: bool, path: string, o: Options)
    requires EntryNodes(es, semantic) == Some(xs) && EntryNodes(fs, semantic) == Some(ys) && FieldsAlike(xs, ys, path, o)
    ensures KeysWithin(es, fs) && KeysWithin(fs, es)
  {
    hide EntryNodes, DiffSoundness.Related, Join, KeyName;
    forall i | 0 <= i < |es|
      ensures HasKey(fs, es[i].key)
    {
      NameOfEntry(es, xs, semantic, i);
      NamedHasKey(fs, ys, semantic, es[i].key);
    }
    forall k | 0 <= k < |fs|
      ensures HasKey(es, fs[k].key)
    {
      NameOfEntry(fs, ys, semantic, k);
      NamedHasKey(es, xs, semantic, fs[k].key);
    }
  }

  lemma NameOfEntry(es: seq<Entry>, xs: seq<Node>, semantic: bool, i: nat)
    requires EntryNodes(es, semantic) == Some(xs) && i < |es|
    ensures |xs| == |es| && xs[i].name == KeyName(es[i].key)
  {
    hide EntryNodes, ScValNode, KeyName;
    EntryNodesAt(es, semantic);
    NodeShape(KeyName(es[i].key), es[i].value, semantic);
  }

  lemma NamedHasKey(es: seq<Entry>, xs: seq<Node>, semantic: bool, key: string)
    requires EntryNodes(es, semantic) == Some(xs) && FirstNamed(xs, KeyName(key)).Some?
    ensures HasKey(es, key)
  {
    hide EntryNodes, KeyName, ScValNode;
    EntryNodesAt(es, semantic);
    var k := FirstNamedAt(xs, KeyName(key));
    NameOfEntry(es, xs, semantic, k);
    if es[k].key != key {
      KeyNamesDiffer(es[k].key, key);
    }
  }

  /** Values whose nodes are related are alike. */
  lemma {:induction false} RelatedIsAlike(v: ScVal, w: ScVal, name: string, semantic: bool, path: string, j: Judge)
    requires WellFormed(v) && WellFormed(w) && TellsTextsApart(j)
    requires ScValNode(name, v, semantic).Some? && ScValNode(name, w, semantic).Some?
    requires DiffSoundness.Related(ScValNode(name, v, semantic).value, ScValNode(name, w, semantic).value, path, DefaultOptions(j))
    ensures Alike(v, w, semantic, path, DefaultOptions(j))
    decreases v
  {
    hide ScValNode, DiffSoundness.Related, TellsTextsApart, Join, At, KeyName, FieldsAlike, FieldsOfKind, KeysWithin;
    SameKindOfValue(v, w, name, semantic, path, j);
    if v.Vec? {
      VecAlike(v, w, name, semantic, path, j);
      forall i | 0 <= i < |v.items|
        ensures Alike(v.items[i], w.items[i], semantic, At(Join(path, "Vec"), i), DefaultOptions(j))
      {
        RelatedIsAlike(v.items[i], w.items[i], "", semantic, At(Join(path, "Vec"), i), j);
      }
    } else if v.Map? {
      MapAlike(v, w, name, semantic, path, j);
      forall i, k | 0 <= i < |v.entries| && 0 <= k < |w.entries| && v.entries[i].key == w.entries[k].key
        ensures Alike(v.entries[i].value, w.entries[k].value, semantic, Join(Join(path, "Map"), KeyName(v.entries[i].key)), DefaultOptions(j))
      {
        var p := Join(Join(path, "Map"), KeyName(v.entries[i].key));
        assert EntriesRelated(v.entries[i], w.entries[k], semantic, p, j);
        RelatedIsAlike(v.entries[i].value, w.entries[k].value, KeyName(v.entries[i].key), semantic, p, j);
      }
    } else if v.Wide? && semantic {
      WideAlike(v, w, name, path, j);
    } else {
      FieldsAreKept(name, v, semantic);
      FieldsAreKept(name, w, semantic);
      NodeShape(name, v, semantic);
      NodeShape(name, w, semantic);
      RelatedFields(ScValNode(name, v, semantic).value, ScValNode(name, w, semantic).value, path, DefaultOptions(j));
    }
  }

  /** Well-formed values that compare without a change are alike, in plain and in semantic mode. */
  lemma SilenceMeansAlike(v: ScVal, w: ScVal, semantic: bool, j: Judge)
    requires WellFormed(v) && WellFormed(w) && TellsTextsApart(j)
    requires Compare(v, w, semantic, j) == Some([])
    ensures Alike(v, w, semantic, "", DefaultOptions(j))
  {
    hide ScValNode, DiffNodes, WellFormed, TellsTextsApart, Alike, UniqueNames, DiffSoundness.Related;
    NodeIsUnique("", v, semantic);
    NodeIsUnique("", w, semantic);
    DiffSoundness.EqualIsSound(ScValNode("", v, semantic).value, ScValNode("", w, semantic).value, "", DefaultOptions(j));
    RelatedIsAlike(v, w, "", semantic, "", j);
  }

  /** The comparison is refused exactly when an arm is missing somewhere in one of the values. */
  ghost predicate Complete(v: ScVal)
    decreases v
  {
    match v
    case Plain(_) => true
    case Wide(_, _, _, _) => true
    case Vec(items) => forall i :: 0 <= i < |items| ==> Complete(items[i])
    case Map(entries) => forall i :: 0 <= i < |entries| ==> Complete(entries[i].value)
    case ArmMissing => false
  }

  lemma {:induction false} CompleteHasNode(name: string, v: ScVal, semantic: bool)
    ensures ScValNode(name, v, semantic).Some? <==> Complete(v)
    decreases v
  {
    hide ItemNodes, EntryNodes;
    if v.Vec? {
      forall i | 0 <= i < |v.items|
        ensures ScValNode("", v.items[i], semantic).Some? <==> Complete(v.items[i])
      {
        CompleteHasNode("", v.items[i], semantic);
      }
      ItemNodesAt(v.items, semantic);
    } else if v.Map? {
      forall i | 0 <= i < |v.entries|
        ensures ScValNode(KeyName(v.entries[i].key), v.entries[i].value, semantic).Some? <==> Complete(v.entries[i].value)
      {
        CompleteHasNode(KeyName(v.entries[i].key), v.entries[i].value, semantic);
      }
      EntryNodesAt(v.entries, semantic);
    }
  }

  lemma RefusedIffIncomplete(v: ScVal, w: ScVal, semantic: bool, j: Judge)
    ensures Compare(v, w, semantic, j).None? <==> !Complete(v) || !Complete(w)
  {
    hide ScValNode, DiffNodes, Complete;
    CompleteHasNode("", v, semantic);
    CompleteHasNode("", w, semantic);
  }

  // ---------------------------------------------------------------- where the parts of a value are found

  /** A value sits at `path` of the tree. */
  ghost predicate Sits(root: Node, path: string, name: string, v: ScVal, semantic: bool) {
    Extensible(path) && ScValNode(name, v, semantic).Some? && Resolve(root, path) == Some(ScValNode(name, v, semantic).value)
  }

  /** An item sits below the vector, at its index. */
  lemma ItemSitsAt(root: Node, path: string, name: string, v: ScVal, semantic: bool, i: nat)
    requires v.Vec? && Sits(root, path, name, v, semantic) && i < |v.items|
    ensures Sits(root, At(Join(path, "Vec"), i), "", v.items[i], semantic)
  {
    hide ScValNode, ItemNodes, Join, At, Resolve, Extensible;
    VecIsNode(name, v, semantic);
    ItemNodesAt(v.items, semantic);
    ResolveJoin(root, path, "Vec");
    ResolveAt(root, Join(path, "Vec"), i);
  }

  /** The value under a key sits below the map, at the name of its key. */
  lemma EntrySitsAt(root: Node, path: string, name: string, v: ScVal, semantic: bool, i: nat)
    requires v.Map? && Sits(root, path, name, v, semantic) && DistinctKeys(v.entries) && i < |v.entries|
    requires CleanName(v.entries[i].key)
    ensures Sits(root, Join(Join(path, "Map"), "key:" + v.entries[i].key), "key:" + v.entries[i].key, v.entries[i].value, semantic)
  {
    hide ScValNode, EntryNodes, Join, Resolve, Extensible;
    MapIsNode(name, v, semantic);
    EntryNodesAt(v.entries, semantic);
    EntryChild(v.entries, semantic, i);
    ResolveJoin(root, path, "Map");
    ResolveJoin(root, Join(path, "Map"), "key:" + v.entries[i].key);
  }

  /** In semantic mode a wide integer shows its kind and, under its arm, its decimal. */
  lemma WideSitsAt(root: Node, path: string, name: string, v: ScVal)
    requires v.Wide? && v.arm != "Type" && CleanName(v.arm) && Sits(root, path, name, v, true)
    ensures Resolve(root, Join(path, "Type")).Some? && ValueOf(Resolve(root, Join(path, "Type")).value) == Str(v.kind)
    ensures Resolve(root, Join(path, v.arm)).Some? && ValueOf(Resolve(root, Join(path, v.arm)).value) == Str(v.decimal)
  {
    hide ScValNode, Join, Resolve, Extensible;
    WideIsNode(name, v);
    ResolveJoin(root, path, "Type");
    ResolveJoin(root, path, v.arm);
  }
}
