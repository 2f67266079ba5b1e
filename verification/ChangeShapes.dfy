/** Where a comparison can report changes at all, decided by the trees alone. */
module ChangeShapes {
  import opened Text
  import opened Tree
  import opened Changes
  import opened PathFilters
  import opened StructuralDiff
  import opened DiffMask
  import GreedyMatching
  import SignerDiff

  // ---------------------------------------------------------------- the trees

  /**
   * Field names that a path can carry and no ledger entries; operation lists only when asked for,
   * and then not directly inside a list nor with lists directly inside them.
   */
  ghost predicate Regular(n: Node, operations: bool) {
    n.Scalar? ||
    ((n.Struct? ==> n.typeName != "LedgerEntry" && forall i :: 0 <= i < |n.children| ==> CleanName(n.children[i].name))
     && (n.List? ==> RegularList(n, operations))
     && forall i :: 0 <= i < |n.children| ==> Regular(n.children[i], operations))
  }

  predicate RegularList(n: Node, operations: bool)
    requires n.List?
  {
    (IsOperationCollection(n.name) ==> operations)
    && forall i :: 0 <= i < |n.children| && n.children[i].List? ==> !IsOperationCollection(n.name) && !IsOperationCollection(n.children[i].name)
  }

  ghost predicate RegularOpt(n: Option<Node>, operations: bool) {
    n.Some? ==> Regular(n.value, operations)
  }

  ghost predicate AllRegular(ns: seq<Node>, operations: bool) {
    forall i :: 0 <= i < |ns| ==> Regular(ns[i], operations)
  }

  lemma {:induction false} RegularIsMaskable(n: Node, operations: bool)
    requires Regular(n, operations)
    ensures Maskable(n)
  {
    if !n.Scalar? {
      forall i | 0 <= i < |n.children|
        ensures Maskable(n.children[i])
      {
        RegularIsMaskable(n.children[i], operations);
      }
    }
  }

  lemma ChildRegular(b: Node, name: string, operations: bool)
    requires Regular(b, operations)
    ensures RegularOpt(Child(b, name), operations)
  {
    if Child(b, name).Some? {
      var k := FirstNamedAt(Children(b), name);
    }
  }

  // ---------------------------------------------------------------- the paths

  predicate CleanPath(path: seq<string>) {
    forall i :: 0 <= i < |path| ==> CleanName(path[i])
  }

  lemma IndexIsClean(i: nat)
    ensures CleanName(Itoa(i))
  {
    hide Itoa;
    assert forall k :: 0 <= k < |Itoa(i)| ==> IsDigit(Itoa(i)[k]);
  }

  /** An operation list can lie here: at the root, or at a field of its name. */
  predicate AtOperations(path: seq<string>) {
    path == [] || IsOperationCollection(Last(path))
  }

  /** An index into an operation list. */
  ghost predicate IndexesOperation(path: seq<string>) {
    path != [] && AtOperations(Front(path)) && exists i :: Last(path) == Itoa(i)
  }

  /** A change lies at a clean path, and only operations are reordered. */
  ghost predicate Shaped(c: Change, operations: bool) {
    CleanPath(SegmentsOf(c.path)) && (c.op == Reordered ==> operations && IndexesOperation(SegmentsOf(c.path)))
  }

  ghost predicate AllShaped(cs: seq<Change>, operations: bool) {
    forall c :: c in cs ==> Shaped(c, operations)
  }

  /** A list at a path is an operation list by its own name or not at all. */
  ghost predicate Fits(path: string, n: Node, operations: bool) {
    n.List? ==>
      if IsOperationCollection(n.name) then operations && AtOperations(SegmentsOf(path)) else !IsOperationCollection(LastName(SegsOf(path)))
  }

  ghost predicate FitBoth(path: string, a: Option<Node>, b: Option<Node>, operations: bool) {
    a.Some? && b.Some? && a.value.List? && b.value.List? ==> Fits(path, a.value, operations) && Fits(path, b.value, operations)
  }

  /** What holds wherever the walk arrives. */
  ghost predicate Arrives(path: string, a: Option<Node>, b: Option<Node>, operations: bool) {
    Extensible(path) && CleanPath(SegmentsOf(path)) && RegularOpt(a, operations) && RegularOpt(b, operations) && FitBoth(path, a, b, operations)
  }

  lemma ArrivesAtField(path: string, a: Option<Node>, b: Option<Node>, name: string, operations: bool)
    requires Extensible(path) && CleanPath(SegmentsOf(path)) && CleanName(name)
    requires RegularOpt(a, operations) && RegularOpt(b, operations)
    requires (a.Some? ==> a.value.name == name) && (b.Some? ==> b.value.name == name)
    ensures Arrives(Join(path, name), a, b, operations)
  {
    hide SegmentsOf, SegsOf, Extensible, CleanName, Join;
    SegmentsJoin(path, name);
    LastNameJoin(path, name);
    ResolveJoin(Scalar("", "", "", Nil), path, name);
  }

  /** Elements of lists that fit are never an operation list in disguise. */
  lemma ElementsFit(path: string, a: Node, b: Node, x: Option<Node>, y: Option<Node>, i: nat, operations: bool)
    requires Arrives(path, Some(a), Some(b), operations) && a.List? && b.List?
    requires (x.Some? ==> x.value in a.children) && (y.Some? ==> y.value in b.children)
    ensures Arrives(At(path, i), x, y, operations)
  {
    hide SegmentsOf, SegsOf, Extensible, CleanName, At;
    SegmentsAt(path, i);
    IndexIsClean(i);
    LastNameAt(path, i);
    ResolveAt(Scalar("", "", "", Nil), path, i);
  }

  lemma OperationsOnlyByName(path: string, a: Node, b: Node, operations: bool)
    requires Arrives(path, Some(a), Some(b), operations) && a.List? && b.List? && IsOperationCollection(CollectionName(path, a, b))
    ensures operations && AtOperations(SegmentsOf(path))
  {
    hide SegmentsOf, SegsOf;
  }

  // ---------------------------------------------------------------- the walk

  lemma {:induction false} NodesShaped(a: Option<Node>, b: Option<Node>, path: string, o: Options, operations: bool)
    requires Arrives(path, a, b, operations) && Empty(o.mask)
    ensures AllShaped(DiffNodes(a, b, path, o), operations)
    decreases SizeOpt(a) + SizeOpt(b), 1, 0
  {
    hide SegmentsOf, Extensible, DiffStructs, DiffLists, IndexesOperation, CleanPath;
    if a.Some? && b.Some? && a.value.Struct? && b.value.Struct? {
      StructsShaped(a.value, b.value, path, o, operations);
    } else if a.Some? && b.Some? && a.value.List? && b.value.List? {
      ListsShaped(a.value, b.value, path, o, operations);
    }
  }

  lemma {:induction false} StructsShaped(a: Node, b: Node, path: string, o: Options, operations: bool)
    requires Arrives(path, Some(a), Some(b), operations) && Empty(o.mask) && a.Struct? && b.Struct?
    ensures AllShaped(DiffStructs(a, b, path, o), operations)
    decreases SizeAll(a.children) + SizeAll(b.children) + 1, 4, 0
  {
    hide SegmentsOf, Extensible, LeftFields, RightFields, IndexesOperation, CleanPath, CleanName;
    LeftFieldsShaped(a.children, b, path, o, operations);
    RightFieldsShaped(b.children, a, path, o, operations);
  }

  ghost predicate AllClean(fields: seq<Node>) {
    forall i :: 0 <= i < |fields| ==> CleanName(fields[i].name)
  }

  lemma {:induction false} LeftFieldsShaped(fields: seq<Node>, b: Node, path: string, o: Options, operations: bool)
    requires Extensible(path) && CleanPath(SegmentsOf(path)) && Empty(o.mask)
    requires AllRegular(fields, operations) && AllClean(fields) && Regular(b, operations) && b.Struct?
    ensures AllShaped(LeftFields(fields, b, path, o), operations)
    decreases SizeAll(fields) + SizeAll(b.children) + 1, 2, |fields|
  {
    hide SegmentsOf, Extensible, DiffNodes, Join, Shaped, Regular, CleanName, CleanPath;
    if fields != [] {
      var x := fields[0];
      ChildRegular(b, x.name, operations);
      ArrivesAtField(path, Some(x), Child(b, x.name), x.name, operations);
      NodesShaped(Some(x), Child(b, x.name), Join(path, x.name), o, operations);
      LeftFieldsShaped(fields[1..], b, path, o, operations);
    }
  }

  lemma {:induction false} RightFieldsShaped(fields: seq<Node>, a: Node, path: string, o: Options, operations: bool)
    requires Extensible(path) && CleanPath(SegmentsOf(path)) && Empty(o.mask)
    requires AllRegular(fields, operations) && AllClean(fields)
    ensures AllShaped(RightFields(fields, a, path, o), operations)
    decreases SizeAll(fields), 2, |fields|
  {
    hide SegmentsOf, Extensible, DiffNodes, Join, Shaped, Regular, CleanName, CleanPath;
    if fields != [] {
      var x := fields[0];
      ArrivesAtField(path, None, Some(x), x.name, operations);
      NodesShaped(None, Some(x), Join(path, x.name), o, operations);
      RightFieldsShaped(fields[1..], a, path, o, operations);
    }
  }

  lemma {:induction false} ListsShaped(a: Node, b: Node, path: string, o: Options, operations: bool)
    requires Arrives(path, Some(a), Some(b), operations) && Empty(o.mask) && a.List? && b.List?
    ensures AllShaped(DiffLists(a, b, path, o), operations)
    decreases SizeAll(a.children) + SizeAll(b.children) + 1, 3, 0
  {
    hide SegmentsOf, Arrives, VisitAll, DiffOperations, DiffMultisets, PairEvents, ListVisits, EventVisits, IsEventCollection, CollectionName;
    var xs, ys, name := a.children, b.children, CollectionName(path, a, b);
    if o.unorderedSigners && IsSignerCollection(name) {
      MultisetsShaped(a, b, path, o, operations);
    } else if IsOperationCollection(name) {
      OperationsShaped(a, b, path, o, operations);
    } else if IsEventCollection(name, a, b) {
      VisitsShaped(EventVisits(PairEvents(MetasOf(xs, o.judge), MetasOf(ys, o.judge))), a, b, path, o, operations);
    } else {
      VisitsShaped(ListVisits(xs, ys, o), a, b, path, o, operations);
    }
  }

  lemma MultisetsShaped(a: Node, b: Node, path: string, o: Options, operations: bool)
    requires Arrives(path, Some(a), Some(b), operations) && a.List? && b.List?
    ensures AllShaped(DiffMultisets(a.children, b.children, path, o), operations)
  {
    hide SegmentsOf, Regular;
    var d := SignerDiff.Diff(ItemsOf(a.children, o.judge), ItemsOf(b.children, o.judge));
    RemovalsHere(d.removed, path);
    AdditionsHere(d.added, path);
  }

  lemma {:induction false} VisitShaped(v: Visit, a: Node, b: Node, path: string, o: Options, operations: bool)
    requires Arrives(path, Some(a), Some(b), operations) && Empty(o.mask) && a.List? && b.List?
    ensures AllShaped(VisitOne(v, a.children, b.children, path, o), operations)
    decreases SizeAll(a.children) + SizeAll(b.children), 1, 1
  {
    hide Arrives, DiffNodes, Shaped, At;
    ElementsFit(path, a, b, Picked(a.children, v.left), Picked(b.children, v.right), v.at, operations);
    NodesShaped(Picked(a.children, v.left), Picked(b.children, v.right), At(path, v.at), o, operations);
  }

  lemma {:induction false} VisitsShaped(visits: seq<Visit>, a: Node, b: Node, path: string, o: Options, operations: bool)
    requires Arrives(path, Some(a), Some(b), operations) && Empty(o.mask) && a.List? && b.List?
    ensures AllShaped(VisitAll(visits, a.children, b.children, path, o), operations)
    decreases SizeAll(a.children) + SizeAll(b.children), 2, |visits|
  {
    hide Arrives, VisitOne, Shaped;
    if visits != [] {
      VisitShaped(visits[0], a, b, path, o, operations);
      VisitsShaped(visits[1..], a, b, path, o, operations);
    }
  }

  // ---------------------------------------------------------------- operation lists

  ghost predicate PositionsShaped(indexed: seq<Positioned>, operations: bool) {
    forall k :: 0 <= k < |indexed| ==> Shaped(indexed[k].change, operations)
  }

  lemma {:induction false} PositionAllShaped(pos: nat, cs: seq<Change>, operations: bool)
    requires AllShaped(cs, operations)
    ensures PositionsShaped(PositionAll(pos, cs), operations)
  {
    hide Shaped;
    if cs != [] {
      PositionAllShaped(pos, cs[1..], operations);
    }
  }

  lemma {:induction false} ChangesAtShaped(indexed: seq<Positioned>, pos: nat, operations: bool)
    requires PositionsShaped(indexed, operations)
    ensures AllShaped(ChangesAt(indexed, pos), operations)
  {
    hide Shaped;
    if indexed != [] {
      ChangesAtShaped(indexed[1..], pos, operations);
    }
  }

  lemma {:induction false} SortedShaped(indexed: seq<Positioned>, bound: nat, operations: bool)
    requires PositionsShaped(indexed, operations)
    ensures AllShaped(StableByPosition(indexed, bound), operations)
  {
    hide Shaped, ChangesAt;
    if bound > 0 {
      SortedShaped(indexed, bound - 1, operations);
      ChangesAtShaped(indexed, bound - 1, operations);
    }
  }

  lemma {:induction false} ReordersShaped(moved: seq<(nat, nat)>, path: string, operations: bool)
    requires Extensible(path) && CleanPath(SegmentsOf(path)) && operations && AtOperations(SegmentsOf(path))
    ensures PositionsShaped(Reorders(moved, path), operations)
  {
    hide SegmentsOf, Extensible, CleanName, At, AtOperations, Itoa;
    if moved != [] {
      ReordersShaped(moved[1..], path, operations);
      var s, i := SegmentsOf(path), moved[0].1;
      SegmentsAt(path, i);
      IndexIsClean(i);
      assert Front(s + [Itoa(i)]) == s && Last(s + [Itoa(i)]) == Itoa(i);
    }
  }

  lemma {:induction false} TaggedShaped(visits: seq<Visit>, a: Node, b: Node, path: string, o: Options, operations: bool)
    requires Arrives(path, Some(a), Some(b), operations) && Empty(o.mask) && a.List? && b.List?
    ensures PositionsShaped(VisitTagged(visits, a.children, b.children, path, o), operations)
    decreases SizeAll(a.children) + SizeAll(b.children), 2, |visits|
  {
    hide Arrives, VisitOne, Shaped, PositionAll;
    if visits != [] {
      VisitShaped(visits[0], a, b, path, o, operations);
      PositionAllShaped(visits[0].at, VisitOne(visits[0], a.children, b.children, path, o), operations);
      TaggedShaped(visits[1..], a, b, path, o, operations);
    }
  }

  lemma {:induction false} OperationsShaped(a: Node, b: Node, path: string, o: Options, operations: bool)
    requires Arrives(path, Some(a), Some(b), operations) && Empty(o.mask) && a.List? && b.List? && IsOperationCollection(CollectionName(path, a, b))
    ensures AllShaped(DiffOperations(a.children, b.children, path, o), operations)
    decreases SizeAll(a.children) + SizeAll(b.children), 3, 0
  {
    hide SegmentsOf, Extensible, CleanPath, AtOperations, Regular, FitBoth, CollectionName, Shaped, VisitTagged, Reorders, OperationVisits, StableByPosition;
    OperationsOnlyByName(path, a, b, operations);
    var xs, ys := a.children, b.children;
    var p := GreedyMatching.Matched(xs, ys, Same(o.judge));
    ReordersShaped(p.pairs, path, operations);
    TaggedShaped(OperationVisits(p), a, b, path, o, operations);
    SortedShaped(Reorders(p.pairs, path) + VisitTagged(OperationVisits(p), xs, ys, path, o), Longer(|xs|, |ys|), operations);
  }

  /** Every change between regular trees lies at a clean path, and only operations are reordered, if there are any. */
  lemma ChangesAreShaped(a: Node, b: Node, o: Options, operations: bool)
    requires Regular(a, operations) && Regular(b, operations) && Empty(o.mask)
    ensures AllShaped(DiffNodes(Some(a), Some(b), "", o), operations)
  {
    hide Regular, DiffNodes, Shaped;
    RootIsExtensible(a);
    RootFits(a, operations);
    RootFits(b, operations);
    NodesShaped(Some(a), Some(b), "", o, operations);
  }

  lemma RootFits(n: Node, operations: bool)
    requires Regular(n, operations)
    ensures Fits("", n, operations) && SegmentsOf("") == []
  {
    assert SegmentsOf("") == [] && SegsOf("") == [];
  }
}
