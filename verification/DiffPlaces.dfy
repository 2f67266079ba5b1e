/** Every difference is reported: wherever two trees differ at a common place, the comparison says so, there. */
module DiffPlaces {
  import opened Text
  import opened Tree
  import opened Changes
  import opened PathFilters
  import opened StructuralDiff
  import opened DiffPaths

  /** A place of a tree: its root, a field of a struct, an element of a list. */
  datatype Place = Root | Field(owner: Place, name: string) | Element(owner: Place, index: nat)

  function PathOf(p: Place): string {
    match p
    case Root => ""
    case Field(owner, name) => Join(PathOf(owner), name)
    case Element(owner, i) => At(PathOf(owner), i)
  }

  /** The node of a tree at a place. */
  function NodeAt(root: Node, p: Place): Option<Node>
    decreases p
  {
    match p
    case Root => Some(root)
    case Field(owner, name) =>
      var n := NodeAt(root, owner);
      if n.Some? && n.value.Struct? then Child(n.value, name) else None
    case Element(owner, i) =>
      var n := NodeAt(root, owner);
      if n.Some? && n.value.List? then Nth(n.value.children, i) else None
  }

  /** Both trees have a node of one kind at the place, and not two memos, which are compared as wholes. */
  predicate Shared(left: Node, right: Node, p: Place) {
    var a, b := NodeAt(left, p), NodeAt(right, p);
    a.Some? && b.Some? && SameKind(a.value, b.value) && !IsMemoStruct(a.value, b.value)
  }

  /** Every place that leads there is shared. */
  predicate Reached(left: Node, right: Node, p: Place)
    decreases p
  {
    match p
    case Root => true
    case Field(owner, _) => Reached(left, right, owner) && Shared(left, right, owner)
    case Element(owner, _) => Reached(left, right, owner) && Shared(left, right, owner)
  }

  /** Lists are compared position by position and nothing is masked. */
  predicate ByPosition(o: Options) {
    !o.alignLists && !o.unorderedSigners && Empty(o.mask)
  }

  ghost predicate Within(xs: seq<Change>, ys: seq<Change>) {
    forall c :: c in xs ==> c in ys
  }

  // ---------------------------------------------------------------- one step down

  lemma {:induction false} LeftFieldWithin(fields: seq<Node>, b: Node, i: nat, path: string, o: Options)
    requires b.Struct? && i < |fields|
    ensures Within(LeftField(fields[i], b, path, o), LeftFields(fields, b, path, o))
    decreases |fields|
  {
    hide LeftField;
    if i > 0 {
      LeftFieldWithin(fields[1..], b, i - 1, path, o);
    }
  }

  lemma {:induction false} RightFieldWithin(fields: seq<Node>, a: Node, i: nat, path: string, o: Options)
    requires i < |fields|
    ensures Within(RightField(fields[i], a, path, o), RightFields(fields, a, path, o))
    decreases |fields|
  {
    hide RightField;
    if i > 0 {
      RightFieldWithin(fields[1..], a, i - 1, path, o);
    }
  }

  lemma {:induction false} VisitWithin(visits: seq<Visit>, k: nat, xs: seq<Node>, ys: seq<Node>, path: string, o: Options)
    requires k < |visits|
    ensures Within(VisitOne(visits[k], xs, ys, path, o), VisitAll(visits, xs, ys, path, o))
    decreases |visits|
  {
    hide VisitOne;
    if k > 0 {
      VisitWithin(visits[1..], k - 1, xs, ys, path, o);
    }
  }

  lemma {:induction false} PositionVisited(m: nat, n: nat, i: nat, k: nat)
    requires i <= k < Longer(m, n)
    ensures k - i < |PositionalVisits(m, n, i)|
    ensures PositionalVisits(m, n, i)[k - i] == Visit(if k < m then Some(k) else None, if k < n then Some(k) else None, k)
    decreases k - i
  {
    if i < k {
      PositionVisited(m, n, i + 1, k);
    }
  }

  lemma StructWithin(a: Node, b: Node, name: string, path: string, o: Options)
    requires ByPosition(o) && a.Struct? && b.Struct? && !IsMemoStruct(a, b) && (Child(a, name).Some? || Child(b, name).Some?)
    ensures Within(DiffNodes(Child(a, name), Child(b, name), Join(path, name), o), DiffNodes(Some(a), Some(b), path, o))
  {
    hide LeftFields, RightFields, Join, Child;
    FieldsWithin(a, b, name, path, o);
    assert Within(DiffFields(a, b, path, o), DiffStructs(a, b, path, o));
    assert DiffNodes(Some(a), Some(b), path, o) == DiffPair(a, b, path, o) == DiffStructs(a, b, path, o);
  }

  lemma FieldsWithin(a: Node, b: Node, name: string, path: string, o: Options)
    requires a.Struct? && b.Struct? && (Child(a, name).Some? || Child(b, name).Some?)
    ensures Within(DiffNodes(Child(a, name), Child(b, name), Join(path, name), o), DiffFields(a, b, path, o))
  {
    hide DiffNodes, LeftFields, RightFields, Join;
    if Child(a, name).Some? {
      var i := FirstNamedAt(a.children, name);
      LeftFieldWithin(a.children, b, i, path, o);
    } else {
      var i := FirstNamedAt(b.children, name);
      RightFieldWithin(b.children, a, i, path, o);
    }
  }

  lemma ListWithin(left: Node, right: Node, a: Node, b: Node, i: nat, path: string, o: Options)
    requires ByPosition(o) && a.List? && b.List? && AtPlace(left, right, Some(a), Some(b), path)
    requires i < Longer(|a.children|, |b.children|)
    ensures Within(DiffNodes(Nth(a.children, i), Nth(b.children, i), At(path, i), o), DiffNodes(Some(a), Some(b), path, o))
  {
    hide VisitAll, PositionalVisits, CollectionName, IsEventCollection, IsOperationCollection, SegsOf, Resolve, OrdinaryPath, Ordinary, At;
    var m, n := |a.children|, |b.children|;
    var visits := PositionalVisits(m, n, 0);
    NoSpecialList(a, b, path);
    PositionVisited(m, n, 0, i);
    VisitWithin(visits, i, a.children, b.children, path, o);
    assert DiffNodes(Some(a), Some(b), path, o) == DiffPair(a, b, path, o) == DiffLists(a, b, path, o);
    assert DiffLists(a, b, path, o) == VisitAll(visits, a.children, b.children, path, o);
    assert VisitOne(visits[i], a.children, b.children, path, o) == DiffNodes(Nth(a.children, i), Nth(b.children, i), At(path, i), o);
  }

  // ---------------------------------------------------------------- every place

  lemma NamedIsOrdinary(a: Node, name: string)
    requires Ordinary(a) && a.Struct? && Child(a, name).Some?
    ensures CleanName(name) && OrdinaryName(name)
  {
    hide CleanName, OrdinaryName;
    var i := FirstNamedAt(a.children, name);
  }

  /** What is found at a place is part of what is found in all. */
  lemma {:induction false} PlaceIsVisited(left: Node, right: Node, p: Place, o: Options)
    requires ByPosition(o) && Ordinary(left) && Ordinary(right) && Reached(left, right, p)
    requires NodeAt(left, p).Some? || NodeAt(right, p).Some?
    ensures AtPlace(left, right, NodeAt(left, p), NodeAt(right, p), PathOf(p))
    ensures Within(DiffNodes(NodeAt(left, p), NodeAt(right, p), PathOf(p), o), DiffNodes(Some(left), Some(right), "", o))
    decreases p
  {
    hide DiffNodes, AtPlace, Ordinary, Join, At, IsMemoStruct, Child, Within;
    if p.Root? {
      RootIsAtPlace(left, right);
      AllWithin(DiffNodes(Some(left), Some(right), "", o));
    } else {
      var x, y := NodeAt(left, p.owner).value, NodeAt(right, p.owner).value;
      PlaceIsVisited(left, right, p.owner, o);
      if p.Field? {
        FieldIsAtPlace(left, right, x, y, p.name, PathOf(p.owner));
        StructWithin(x, y, p.name, PathOf(p.owner), o);
      } else {
        ElementAtPlace(left, right, x, y, p.index, PathOf(p.owner));
        ListWithin(left, right, x, y, p.index, PathOf(p.owner), o);
      }
      WithinAll(DiffNodes(NodeAt(left, p), NodeAt(right, p), PathOf(p), o), DiffNodes(Some(x), Some(y), PathOf(p.owner), o), DiffNodes(Some(left), Some(right), "", o));
    }
  }

  lemma AllWithin(xs: seq<Change>)
    ensures Within(xs, xs)
  {
  }

  lemma WithinAll(xs: seq<Change>, ys: seq<Change>, zs: seq<Change>)
    requires Within(xs, ys) && Within(ys, zs)
    ensures Within(xs, zs)
  {
  }

  lemma RootIsAtPlace(left: Node, right: Node)
    requires Ordinary(left) && Ordinary(right)
    ensures AtPlace(left, right, Some(left), Some(right), "")
  {
    hide Ordinary;
    RootIsExtensible(left);
    RootIsExtensible(right);
    assert SegsOf("") == [];
  }

  lemma FieldIsAtPlace(left: Node, right: Node, x: Node, y: Node, name: string, path: string)
    requires AtPlace(left, right, Some(x), Some(y), path) && x.Struct? && y.Struct? && (Child(x, name).Some? || Child(y, name).Some?)
    ensures AtPlace(left, right, Child(x, name), Child(y, name), Join(path, name))
  {
    hide Ordinary, Child, Resolve, OrdinaryPath;
    if Child(x, name).Some? {
      NamedIsOrdinary(x, name);
    } else {
      NamedIsOrdinary(y, name);
    }
    FieldAtPlace(left, right, x, y, name, path);
  }

  /** What has to be reported where the two sides have `a` and `b`. */
  ghost predicate IsReported(a: Option<Node>, b: Option<Node>, path: string, j: Judge, changes: seq<Change>) {
    (a.Some? && b.None? ==> Change(path, Removed, LeafValue(a.value), Nil, a.value.note, "") in changes)
    && (a.None? && b.Some? ==> Change(path, Added, Nil, LeafValue(b.value), "", b.value.note) in changes)
    && (a.Some? && b.Some? && !SameKind(a.value, b.value) && !j.binaryEqual(a.value, b.value) ==>
          Change(path, TypeChanged, LeafValue(a.value), LeafValue(b.value), a.value.note, b.value.note) in changes)
    && (a.Some? && b.Some? && a.value.Scalar? && b.value.Scalar? && !j.sameScalar(a.value, b.value) ==>
          Change(path, Modified, a.value.value, b.value.value, a.value.note, b.value.note) in changes)
  }

  /**
   Wherever the trees differ, the comparison reports it at that place: a node one side lacks, two nodes of
   different kinds, or two different scalars, with the value and note of either side.
   */
  lemma EveryDifferenceIsReported(left: Node, right: Node, p: Place, o: Options)
    requires ByPosition(o) && Ordinary(left) && Ordinary(right) && Reached(left, right, p)
    ensures IsReported(NodeAt(left, p), NodeAt(right, p), PathOf(p), o.judge, DiffNodes(Some(left), Some(right), "", o))
  {
    hide AtPlace, PathOf, NodeAt, Ordinary, LeafValue, DiffNodes;
    if NodeAt(left, p).Some? || NodeAt(right, p).Some? {
      PlaceIsVisited(left, right, p, o);
      Differs(NodeAt(left, p), NodeAt(right, p), PathOf(p), o);
    }
  }

  lemma Differs(a: Option<Node>, b: Option<Node>, path: string, o: Options)
    requires ByPosition(o)
    ensures IsReported(a, b, path, o.judge, DiffNodes(a, b, path, o))
  {
    hide DiffLists, DiffStructs, LeafValue;
  }
}
