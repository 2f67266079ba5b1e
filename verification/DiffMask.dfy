/**
 What a mask does to a comparison. The walk never enters a masked path, so the masked comparison reports the
 unmasked changes except those at or below a masked path. Reorderings are the one exception: they are reported
 at an element's path without asking the mask about that path.
 */
module DiffMask {
  import opened Text
  import opened Tree
  import opened Changes
  import opened PathFilters
  import opened StructuralDiff
  import GreedyMatching
  import SignerDiff

  function Unmask(o: Options): Options {
    o.(mask := PathFilter([], [], o.mask.glob))
  }

  predicate Hides(m: PathFilter, segments: seq<string>) {
    !Empty(m) && MatchesSegments(m, segments)
  }

  /** No path the walk enters on its way from depth `d` down to the change is masked. */
  predicate Visible(m: PathFilter, d: nat, c: Change) {
    forall k :: d <= k <= |SegmentsOf(c.path)| && (k < |SegmentsOf(c.path)| || c.op != Reordered) ==>
      !Hides(m, SegmentsOf(c.path)[..k])
  }

  function VisibleFrom(m: PathFilter, d: nat): Change -> bool {
    (c: Change) => Visible(m, d, c)
  }

  /** The change lies at or below `path`, a reordering strictly below it. */
  predicate Under(path: string, c: Change) {
    SegmentsOf(path) <= SegmentsOf(c.path) && (c.op == Reordered ==> |SegmentsOf(path)| < |SegmentsOf(c.path)|)
  }

  ghost predicate AllUnder(path: string, cs: seq<Change>) {
    forall c :: c in cs ==> Under(path, c)
  }

  /** `xs` are the visible ones of `ys`, all below `path`. */
  ghost predicate Pruned(xs: seq<Change>, ys: seq<Change>, path: string, m: PathFilter) {
    AllUnder(path, ys) && xs == Kept(ys, VisibleFrom(m, |SegmentsOf(path)|))
  }

  /** The same, unless `path` itself is masked. */
  ghost predicate PrunedInside(xs: seq<Change>, ys: seq<Change>, path: string, m: PathFilter) {
    AllUnder(path, ys) && (!Hides(m, SegmentsOf(path)) ==> xs == Kept(ys, VisibleFrom(m, |SegmentsOf(path)|)))
  }

  lemma PrunedAppend(x1: seq<Change>, y1: seq<Change>, x2: seq<Change>, y2: seq<Change>, path: string, m: PathFilter)
    requires PrunedInside(x1, y1, path, m) && PrunedInside(x2, y2, path, m)
    ensures PrunedInside(x1 + x2, y1 + y2, path, m)
  {
    hide Under, VisibleFrom, Hides, SegmentsOf;
    KeptAppend(y1, y2, VisibleFrom(m, |SegmentsOf(path)|));
  }

  lemma {:induction false} NoneKept(cs: seq<Change>, keep: Change -> bool)
    requires forall c :: c in cs ==> !keep(c)
    ensures Kept(cs, keep) == []
  {
    if cs != [] {
      NoneKept(cs[1..], keep);
    }
  }

  lemma {:induction false} AllKept(cs: seq<Change>, keep: Change -> bool)
    requires forall c :: c in cs ==> keep(c)
    ensures Kept(cs, keep) == cs
  {
    if cs != [] {
      AllKept(cs[1..], keep);
    }
  }

  lemma HiddenIsInvisible(path: string, c: Change, m: PathFilter)
    requires Hides(m, SegmentsOf(path)) && Under(path, c)
    ensures !Visible(m, |SegmentsOf(path)|, c)
  {
    hide Hides, SegmentsOf;
    var k := |SegmentsOf(path)|;
    assert SegmentsOf(c.path)[..k] == SegmentsOf(path);
  }

  /** At a masked path nothing is visible; elsewhere the changes inside decide. */
  lemma PrunedNode(xs: seq<Change>, ys: seq<Change>, path: string, m: PathFilter)
    requires PrunedInside(xs, ys, path, m)
    ensures Pruned(if Hides(m, SegmentsOf(path)) then [] else xs, ys, path, m)
  {
    hide Hides, SegmentsOf, Visible, Under;
    if Hides(m, SegmentsOf(path)) {
      forall c | c in ys
        ensures !VisibleFrom(m, |SegmentsOf(path)|)(c)
      {
        HiddenIsInvisible(path, c, m);
      }
      NoneKept(ys, VisibleFrom(m, |SegmentsOf(path)|));
    }
  }

  /** One segment further down, visibility is the same once the segment above is not masked. */
  lemma VisibleBelow(path: string, sub: string, c: Change, m: PathFilter)
    requires |SegmentsOf(sub)| == |SegmentsOf(path)| + 1 && SegmentsOf(path) <= SegmentsOf(sub) && Under(sub, c)
    ensures Under(path, c)
    ensures !Hides(m, SegmentsOf(path)) ==> (Visible(m, |SegmentsOf(path)|, c) <==> Visible(m, |SegmentsOf(sub)|, c))
  {
    hide Hides, SegmentsOf;
    var d := |SegmentsOf(path)|;
    assert SegmentsOf(c.path)[..d] == SegmentsOf(path);
  }

  lemma PrunedBelow(xs: seq<Change>, ys: seq<Change>, path: string, sub: string, m: PathFilter)
    requires |SegmentsOf(sub)| == |SegmentsOf(path)| + 1 && SegmentsOf(path) <= SegmentsOf(sub)
    requires Pruned(xs, ys, sub, m)
    ensures PrunedInside(xs, ys, path, m)
  {
    hide Hides, SegmentsOf, Visible, Under;
    forall c | c in ys
      ensures Under(path, c)
      ensures !Hides(m, SegmentsOf(path)) ==> (Visible(m, |SegmentsOf(path)|, c) <==> Visible(m, |SegmentsOf(sub)|, c))
    {
      VisibleBelow(path, sub, c, m);
    }
    if !Hides(m, SegmentsOf(path)) {
      KeptAgree(ys, VisibleFrom(m, |SegmentsOf(path)|), VisibleFrom(m, |SegmentsOf(sub)|));
    }
  }

  /** Changes at the very path of a node are visible unless that path is masked. */
  lemma PrunedHere(cs: seq<Change>, path: string, m: PathFilter)
    requires forall c :: c in cs ==> c.path == path && c.op != Reordered
    ensures PrunedInside(cs, cs, path, m)
  {
    hide Hides, SegmentsOf;
    if !Hides(m, SegmentsOf(path)) {
      forall c | c in cs
        ensures VisibleFrom(m, |SegmentsOf(path)|)(c)
      {
        assert SegmentsOf(c.path)[..|SegmentsOf(path)|] == SegmentsOf(path);
      }
      AllKept(cs, VisibleFrom(m, |SegmentsOf(path)|));
    }
  }

  // ---------------------------------------------------------------- operation lists

  function KeptPositions(indexed: seq<Positioned>, keep: Change -> bool): seq<Positioned> {
    if indexed == [] then []
    else (if keep(indexed[0].change) then [indexed[0]] else []) + KeptPositions(indexed[1..], keep)
  }

  lemma {:induction false} KeptPositionsAppend(xs: seq<Positioned>, ys: seq<Positioned>, keep: Change -> bool)
    ensures KeptPositions(xs + ys, keep) == KeptPositions(xs, keep) + KeptPositions(ys, keep)
  {
    if xs == [] {
      assert xs + ys == ys;
    } else {
      DropConcat(xs, ys, 1);
      KeptPositionsAppend(xs[1..], ys, keep);
      Associate(if keep(xs[0].change) then [xs[0]] else [], KeptPositions(xs[1..], keep), KeptPositions(ys, keep));
    }
  }

  lemma {:induction false} KeptChangesAt(indexed: seq<Positioned>, pos: nat, keep: Change -> bool)
    ensures ChangesAt(KeptPositions(indexed, keep), pos) == Kept(ChangesAt(indexed, pos), keep)
  {
    if indexed != [] {
      var x, rest := indexed[0], indexed[1..];
      KeptChangesAt(rest, pos, keep);
      ChangesAtCons(x, KeptPositions(rest, keep), pos);
      KeptCons(x.change, ChangesAt(rest, pos), keep);
      assert [] + ChangesAt(rest, pos) == ChangesAt(rest, pos);
      assert [] + KeptPositions(rest, keep) == KeptPositions(rest, keep);
      assert [] + ChangesAt(KeptPositions(rest, keep), pos) == ChangesAt(KeptPositions(rest, keep), pos);
    }
  }

  lemma KeptCons(c: Change, rest: seq<Change>, keep: Change -> bool)
    ensures Kept([c] + rest, keep) == (if keep(c) then [c] else []) + Kept(rest, keep)
  {
    assert ([c] + rest)[1..] == rest;
  }

  lemma ChangesAtCons(x: Positioned, rest: seq<Positioned>, pos: nat)
    ensures ChangesAt([x] + rest, pos) == (if x.pos == pos then [x.change] else []) + ChangesAt(rest, pos)
  {
    assert ([x] + rest)[1..] == rest;
  }

  /** Filtering commutes with the stable sort. */
  lemma {:induction false} KeptSorted(indexed: seq<Positioned>, bound: nat, keep: Change -> bool)
    ensures StableByPosition(KeptPositions(indexed, keep), bound) == Kept(StableByPosition(indexed, bound), keep)
  {
    hide ChangesAt;
    if bound > 0 {
      KeptSorted(indexed, bound - 1, keep);
      KeptChangesAt(indexed, bound - 1, keep);
      KeptAppend(StableByPosition(indexed, bound - 1), ChangesAt(indexed, bound - 1), keep);
    }
  }

  lemma {:induction false} KeptPositioned(pos: nat, cs: seq<Change>, keep: Change -> bool)
    ensures KeptPositions(PositionAll(pos, cs), keep) == PositionAll(pos, Kept(cs, keep))
  {
    if cs != [] {
      KeptPositioned(pos, cs[1..], keep);
      PositionAllAppend(pos, if keep(cs[0]) then [cs[0]] else [], Kept(cs[1..], keep));
    }
  }

  lemma {:induction false} PositionAllAppend(pos: nat, xs: seq<Change>, ys: seq<Change>)
    ensures PositionAll(pos, xs + ys) == PositionAll(pos, xs) + PositionAll(pos, ys)
  {
    if xs == [] {
      assert xs + ys == ys;
    } else {
      DropConcat(xs, ys, 1);
      PositionAllAppend(pos, xs[1..], ys);
    }
  }

  ghost predicate PositionsUnder(path: string, indexed: seq<Positioned>) {
    forall k :: 0 <= k < |indexed| ==> Under(path, indexed[k].change)
  }

  lemma {:induction false} PositionAllUnder(path: string, pos: nat, cs: seq<Change>)
    requires AllUnder(path, cs)
    ensures PositionsUnder(path, PositionAll(pos, cs))
  {
    hide Under;
    if cs != [] {
      PositionAllUnder(path, pos, cs[1..]);
    }
  }

  lemma {:induction false} ChangesAtUnder(path: string, indexed: seq<Positioned>, pos: nat)
    requires PositionsUnder(path, indexed)
    ensures AllUnder(path, ChangesAt(indexed, pos))
  {
    hide Under;
    if indexed != [] {
      ChangesAtUnder(path, indexed[1..], pos);
    }
  }

  lemma {:induction false} SortedUnder(path: string, indexed: seq<Positioned>, bound: nat)
    requires PositionsUnder(path, indexed)
    ensures AllUnder(path, StableByPosition(indexed, bound))
  {
    hide Under, ChangesAt;
    if bound > 0 {
      SortedUnder(path, indexed, bound - 1);
      ChangesAtUnder(path, indexed, bound - 1);
    }
  }

  /** `xs` are the visible ones of `ys`, position by position. */
  ghost predicate PositionsPruned(xs: seq<Positioned>, ys: seq<Positioned>, path: string, m: PathFilter) {
    PositionsUnder(path, ys) && (!Hides(m, SegmentsOf(path)) ==> xs == KeptPositions(ys, VisibleFrom(m, |SegmentsOf(path)|)))
  }

  lemma SortedPruned(xs: seq<Positioned>, ys: seq<Positioned>, bound: nat, path: string, m: PathFilter)
    requires PositionsPruned(xs, ys, path, m)
    ensures PrunedInside(StableByPosition(xs, bound), StableByPosition(ys, bound), path, m)
  {
    hide Under, VisibleFrom, Hides, SegmentsOf;
    SortedUnder(path, ys, bound);
    KeptSorted(ys, bound, VisibleFrom(m, |SegmentsOf(path)|));
  }

  lemma PositionsPrunedAppend(x1: seq<Positioned>, y1: seq<Positioned>, x2: seq<Positioned>, y2: seq<Positioned>, path: string, m: PathFilter)
    requires PositionsPruned(x1, y1, path, m) && PositionsPruned(x2, y2, path, m)
    ensures PositionsPruned(x1 + x2, y1 + y2, path, m)
  {
    hide Under, VisibleFrom, Hides, SegmentsOf;
    KeptPositionsAppend(y1, y2, VisibleFrom(m, |SegmentsOf(path)|));
  }

  lemma GroupPruned(pos: nat, xs: seq<Change>, ys: seq<Change>, path: string, m: PathFilter)
    requires PrunedInside(xs, ys, path, m)
    ensures PositionsPruned(PositionAll(pos, xs), PositionAll(pos, ys), path, m)
  {
    hide Under, VisibleFrom, Hides, SegmentsOf;
    PositionAllUnder(path, pos, ys);
    KeptPositioned(pos, ys, VisibleFrom(m, |SegmentsOf(path)|));
  }

  /** A reordering is visible whenever its list is. */
  lemma ReorderVisible(move: (nat, nat), path: string, m: PathFilter)
    requires Extensible(path)
    ensures Under(path, ReorderChange(move, path))
    ensures !Hides(m, SegmentsOf(path)) ==> Visible(m, |SegmentsOf(path)|, ReorderChange(move, path))
  {
    hide Hides, SegmentsOf;
    SegmentsAt(path, move.1);
    assert SegmentsOf(At(path, move.1))[..|SegmentsOf(path)|] == SegmentsOf(path);
  }

  lemma {:induction false} ReordersPruned(moved: seq<(nat, nat)>, path: string, m: PathFilter)
    requires Extensible(path)
    ensures PositionsPruned(Reorders(moved, path), Reorders(moved, path), path, m)
  {
    hide Hides, SegmentsOf, Under, Visible, ReorderChange;
    if moved != [] {
      ReordersPruned(moved[1..], path, m);
      ReorderVisible(moved[0], path, m);
    }
  }

  // ---------------------------------------------------------------- the walk

  /** Field names that a path can carry, and no ledger entries. */
  ghost predicate Maskable(n: Node) {
    n.Scalar? ||
    ((n.Struct? ==> n.typeName != "LedgerEntry" && forall i :: 0 <= i < |n.children| ==> CleanName(n.children[i].name))
     && forall i :: 0 <= i < |n.children| ==> Maskable(n.children[i]))
  }

  ghost predicate MaskableOpt(n: Option<Node>) {
    n.Some? ==> Maskable(n.value)
  }

  ghost predicate AllMaskable(ns: seq<Node>) {
    forall i :: 0 <= i < |ns| ==> Maskable(ns[i])
  }

  lemma ChildMaskable(b: Node, name: string)
    requires Maskable(b)
    ensures MaskableOpt(Child(b, name))
  {
    if Child(b, name).Some? {
      var k := FirstNamedAt(Children(b), name);
    }
  }

  lemma {:induction false} MaskNodes(a: Option<Node>, b: Option<Node>, path: string, o: Options)
    requires MaskableOpt(a) && MaskableOpt(b) && Extensible(path)
    ensures Pruned(DiffNodes(a, b, path, o), DiffNodes(a, b, path, Unmask(o)), path, o.mask)
    decreases SizeOpt(a) + SizeOpt(b), 1, 0
  {
    hide SegmentsOf, Under, VisibleFrom, Extensible, MatchesSegments, Pruned, PrunedInside, DiffPair;
    var u := Unmask(o);
    if a.Some? && b.Some? {
      MaskPair(a.value, b.value, path, o);
      PrunedNode(DiffPair(a.value, b.value, path, o), DiffPair(a.value, b.value, path, u), path, o.mask);
    } else {
      var cs := DiffNodes(a, b, path, u);
      PrunedHere(cs, path, o.mask);
      PrunedNode(cs, cs, path, o.mask);
    }
  }

  lemma {:induction false} MaskPair(a: Node, b: Node, path: string, o: Options)
    requires Maskable(a) && Maskable(b) && Extensible(path)
    ensures PrunedInside(DiffPair(a, b, path, o), DiffPair(a, b, path, Unmask(o)), path, o.mask)
    decreases Size(a) + Size(b), 0, 0
  {
    hide SegmentsOf, Under, VisibleFrom, Extensible, PrunedInside, DiffLists, DiffStructs;
    if SameKind(a, b) && a.List? {
      MaskLists(a, b, path, o);
    } else if SameKind(a, b) && a.Struct? {
      MaskStructs(a, b, path, o);
    } else {
      PrunedHere(DiffPair(a, b, path, o), path, o.mask);
    }
  }

  lemma {:induction false} MaskStructs(a: Node, b: Node, path: string, o: Options)
    requires Maskable(a) && Maskable(b) && Extensible(path) && a.Struct? && b.Struct?
    ensures PrunedInside(DiffStructs(a, b, path, o), DiffStructs(a, b, path, Unmask(o)), path, o.mask)
    decreases SizeAll(a.children) + SizeAll(b.children) + 1, 4, 0
  {
    hide SegmentsOf, Under, VisibleFrom, Extensible, PrunedInside, LeftFields, RightFields;
    var left, right := MemoArm(a.children), MemoArm(b.children);
    if IsMemoStruct(a, b) && left.0 != right.0 && MemoEquivalent(left, right, o.judge) {
      PrunedHere([MemoChange(left, right, path)], path, o.mask);
    } else {
      var u := Unmask(o);
      MaskLeftFields(a.children, b, path, o);
      MaskRightFields(b.children, a, path, o);
      PrunedAppend(LeftFields(a.children, b, path, o), LeftFields(a.children, b, path, u),
                   RightFields(b.children, a, path, o), RightFields(b.children, a, path, u), path, o.mask);
    }
  }

  lemma {:induction false} MaskLeftFields(fields: seq<Node>, b: Node, path: string, o: Options)
    requires AllMaskable(fields) && (forall i :: 0 <= i < |fields| ==> CleanName(fields[i].name))
    requires Maskable(b) && b.Struct? && Extensible(path)
    ensures PrunedInside(LeftFields(fields, b, path, o), LeftFields(fields, b, path, Unmask(o)), path, o.mask)
    decreases SizeAll(fields) + SizeAll(b.children) + 1, 2, |fields|
  {
    hide SegmentsOf, Under, VisibleFrom, Extensible, PrunedInside, Pruned, DiffNodes, Join, MatchesSegments;
    if fields == [] {
      PrunedHere([], path, o.mask);
    } else {
      var x, u := fields[0], Unmask(o);
      var y, sub := Child(b, x.name), Join(path, x.name);
      ChildMaskable(b, x.name);
      ResolveJoin(b, path, x.name);
      SegmentsJoin(path, x.name);
      MaskNodes(Some(x), y, sub, o);
      PrunedBelow(DiffNodes(Some(x), y, sub, o), DiffNodes(Some(x), y, sub, u), path, sub, o.mask);
      MaskLeftFields(fields[1..], b, path, o);
      PrunedAppend(DiffNodes(Some(x), y, sub, o), DiffNodes(Some(x), y, sub, u),
                   LeftFields(fields[1..], b, path, o), LeftFields(fields[1..], b, path, u), path, o.mask);
    }
  }

  lemma {:induction false} MaskRightFields(fields: seq<Node>, a: Node, path: string, o: Options)
    requires AllMaskable(fields) && (forall i :: 0 <= i < |fields| ==> CleanName(fields[i].name)) && Extensible(path)
    ensures PrunedInside(RightFields(fields, a, path, o), RightFields(fields, a, path, Unmask(o)), path, o.mask)
    decreases SizeAll(fields), 2, |fields|
  {
    hide SegmentsOf, Under, VisibleFrom, Extensible, PrunedInside, Pruned, DiffNodes, Join, MatchesSegments;
    if fields == [] {
      PrunedHere([], path, o.mask);
    } else {
      var x, u := fields[0], Unmask(o);
      var sub := Join(path, x.name);
      ResolveJoin(a, path, x.name);
      SegmentsJoin(path, x.name);
      if Child(a, x.name).Some? {
        PrunedHere([], path, o.mask);
      } else {
        MaskNodes(None, Some(x), sub, o);
        PrunedBelow(DiffNodes(None, Some(x), sub, o), DiffNodes(None, Some(x), sub, u), path, sub, o.mask);
      }
      MaskRightFields(fields[1..], a, path, o);
      PrunedAppend(RightField(x, a, path, o), RightField(x, a, path, u),
                   RightFields(fields[1..], a, path, o), RightFields(fields[1..], a, path, u), path, o.mask);
    }
  }

  lemma {:induction false} MaskLists(a: Node, b: Node, path: string, o: Options)
    requires Maskable(a) && Maskable(b) && Extensible(path) && a.List? && b.List?
    ensures PrunedInside(DiffLists(a, b, path, o), DiffLists(a, b, path, Unmask(o)), path, o.mask)
    decreases SizeAll(a.children) + SizeAll(b.children) + 1, 3, 0
  {
    hide SegmentsOf, Under, VisibleFrom, Extensible, PrunedInside, VisitAll, DiffOperations, DiffMultisets, PairEvents, ListVisits, EventVisits,
         IsEventCollection, CollectionName;
    var xs, ys, name := a.children, b.children, CollectionName(path, a, b);
    if o.unorderedSigners && IsSignerCollection(name) {
      MultisetsHere(xs, ys, path, o);
    } else if IsOperationCollection(name) {
      MaskOperations(xs, ys, path, o);
    } else if IsEventCollection(name, a, b) {
      MaskVisits(EventVisits(PairEvents(MetasOf(xs, o.judge), MetasOf(ys, o.judge))), xs, ys, path, o);
    } else {
      SameListVisits(xs, ys, o);
      MaskVisits(ListVisits(xs, ys, o), xs, ys, path, o);
    }
  }

  lemma SameListVisits(xs: seq<Node>, ys: seq<Node>, o: Options)
    ensures ListVisits(xs, ys, o) == ListVisits(xs, ys, Unmask(o))
  {
  }

  lemma MultisetsHere(xs: seq<Node>, ys: seq<Node>, path: string, o: Options)
    ensures PrunedInside(DiffMultisets(xs, ys, path, o), DiffMultisets(xs, ys, path, Unmask(o)), path, o.mask)
  {
    hide SegmentsOf, Under, VisibleFrom, PrunedInside;
    var d := SignerDiff.Diff(ItemsOf(xs, o.judge), ItemsOf(ys, o.judge));
    RemovalsHere(d.removed, path);
    AdditionsHere(d.added, path);
    PrunedHere(Removals(d.removed, path) + Additions(d.added, path), path, o.mask);
  }

  lemma {:induction false} RemovalsHere(texts: seq<string>, path: string)
    ensures forall c :: c in Removals(texts, path) ==> c.path == path && c.op == Removed
  {
    if texts != [] {
      RemovalsHere(texts[1..], path);
    }
  }

  lemma {:induction false} AdditionsHere(texts: seq<string>, path: string)
    ensures forall c :: c in Additions(texts, path) ==> c.path == path && c.op == Added
  {
    if texts != [] {
      AdditionsHere(texts[1..], path);
    }
  }

  lemma {:induction false} MaskVisit(v: Visit, xs: seq<Node>, ys: seq<Node>, path: string, o: Options)
    requires AllMaskable(xs) && AllMaskable(ys) && Extensible(path)
    ensures PrunedInside(VisitOne(v, xs, ys, path, o), VisitOne(v, xs, ys, path, Unmask(o)), path, o.mask)
    decreases SizeAll(xs) + SizeAll(ys), 1, 1
  {
    hide SegmentsOf, Under, VisibleFrom, Extensible, PrunedInside, Pruned, DiffNodes, At, MatchesSegments;
    var x, y, sub, u := Picked(xs, v.left), Picked(ys, v.right), At(path, v.at), Unmask(o);
    ResolveAt(Scalar("", "", "", Nil), path, v.at);
    SegmentsAt(path, v.at);
    MaskNodes(x, y, sub, o);
    PrunedBelow(DiffNodes(x, y, sub, o), DiffNodes(x, y, sub, u), path, sub, o.mask);
  }

  lemma {:induction false} MaskVisits(visits: seq<Visit>, xs: seq<Node>, ys: seq<Node>, path: string, o: Options)
    requires AllMaskable(xs) && AllMaskable(ys) && Extensible(path)
    ensures PrunedInside(VisitAll(visits, xs, ys, path, o), VisitAll(visits, xs, ys, path, Unmask(o)), path, o.mask)
    decreases SizeAll(xs) + SizeAll(ys), 2, |visits|
  {
    hide SegmentsOf, Under, VisibleFrom, Extensible, PrunedInside, VisitOne;
    if visits == [] {
      PrunedHere([], path, o.mask);
    } else {
      var u := Unmask(o);
      MaskVisit(visits[0], xs, ys, path, o);
      MaskVisits(visits[1..], xs, ys, path, o);
      PrunedAppend(VisitOne(visits[0], xs, ys, path, o), VisitOne(visits[0], xs, ys, path, u),
                   VisitAll(visits[1..], xs, ys, path, o), VisitAll(visits[1..], xs, ys, path, u), path, o.mask);
    }
  }

  lemma {:induction false} MaskTagged(visits: seq<Visit>, xs: seq<Node>, ys: seq<Node>, path: string, o: Options)
    requires AllMaskable(xs) && AllMaskable(ys) && Extensible(path)
    ensures PositionsPruned(VisitTagged(visits, xs, ys, path, o), VisitTagged(visits, xs, ys, path, Unmask(o)), path, o.mask)
    decreases SizeAll(xs) + SizeAll(ys), 2, |visits|
  {
    hide SegmentsOf, Under, VisibleFrom, Extensible, PrunedInside, VisitOne, Hides, PositionAll;
    if visits != [] {
      var v, u := visits[0], Unmask(o);
      MaskVisit(v, xs, ys, path, o);
      GroupPruned(v.at, VisitOne(v, xs, ys, path, o), VisitOne(v, xs, ys, path, u), path, o.mask);
      MaskTagged(visits[1..], xs, ys, path, o);
      PositionsPrunedAppend(PositionAll(v.at, VisitOne(v, xs, ys, path, o)), PositionAll(v.at, VisitOne(v, xs, ys, path, u)),
                            VisitTagged(visits[1..], xs, ys, path, o), VisitTagged(visits[1..], xs, ys, path, u), path, o.mask);
    }
  }

  lemma {:induction false} MaskOperations(xs: seq<Node>, ys: seq<Node>, path: string, o: Options)
    requires AllMaskable(xs) && AllMaskable(ys) && Extensible(path)
    ensures PrunedInside(DiffOperations(xs, ys, path, o), DiffOperations(xs, ys, path, Unmask(o)), path, o.mask)
    decreases SizeAll(xs) + SizeAll(ys), 3, 0
  {
    hide SegmentsOf, Under, VisibleFrom, Extensible, PrunedInside, PositionsPruned, VisitTagged, Reorders, OperationVisits, StableByPosition, Same;
    var p, u := GreedyMatching.Matched(xs, ys, Same(o.judge)), Unmask(o);
    var visits := OperationVisits(p);
    ReordersPruned(p.pairs, path, o.mask);
    MaskTagged(visits, xs, ys, path, o);
    PositionsPrunedAppend(Reorders(p.pairs, path), Reorders(p.pairs, path),
                          VisitTagged(visits, xs, ys, path, o), VisitTagged(visits, xs, ys, path, u), path, o.mask);
    SortedPruned(Reorders(p.pairs, path) + VisitTagged(visits, xs, ys, path, o), Reorders(p.pairs, path) + VisitTagged(visits, xs, ys, path, u),
                 Longer(|xs|, |ys|), path, o.mask);
  }

  // ---------------------------------------------------------------- the effect of a mask

  /** The masked comparison reports, in order, the unmasked changes whose way down from `path` meets no masked path. */
  lemma MaskingPrunes(a: Node, b: Node, path: string, o: Options)
    requires Maskable(a) && Maskable(b) && Extensible(path)
    ensures DiffNodes(Some(a), Some(b), path, o)
            == Kept(DiffNodes(Some(a), Some(b), path, Unmask(o)), VisibleFrom(o.mask, |SegmentsOf(path)|))
  {
    hide SegmentsOf, DiffNodes, VisibleFrom, Maskable;
    MaskNodes(Some(a), Some(b), path, o);
  }
}
