/** The order in which a comparison reports its changes. */
module ChangeOrder {
  import opened Text
  import opened Tree
  import opened Changes
  import opened PathFilters
  import opened StructuralDiff
  import opened GreedyMatching
  import opened OperationDiff
  import DiffMask

  // ---------------------------------------------------------------- the stable sort

  /** Where each change of the result stood: by increasing position, and as before within one position. */
  ghost predicate SortsStably(result: seq<Change>, indexed: seq<Positioned>, places: seq<nat>) {
    |places| == |result| == |indexed|
    && (forall k :: 0 <= k < |places| ==> places[k] < |indexed| && result[k] == indexed[places[k]].change)
    && forall k, l :: 0 <= k < l < |places| ==> ComesBefore(indexed, places[k], places[l])
  }

  predicate ComesBefore(indexed: seq<Positioned>, i: nat, j: nat) {
    i < |indexed| && j < |indexed| && (indexed[i].pos < indexed[j].pos || (indexed[i].pos == indexed[j].pos && i < j))
  }

  function IndicesAt(indexed: seq<Positioned>, pos: nat, i: nat): seq<nat>
    requires i <= |indexed|
    decreases |indexed| - i
  {
    if i == |indexed| then [] else (if indexed[i].pos == pos then [i] else []) + IndicesAt(indexed, pos, i + 1)
  }

  lemma {:induction false} IndicesAtSpell(indexed: seq<Positioned>, pos: nat, i: nat)
    requires i <= |indexed|
    ensures var s := IndicesAt(indexed, pos, i);
            |s| == |ChangesAt(indexed[i..], pos)|
            && (forall k :: 0 <= k < |s| ==> i <= s[k] < |indexed| && indexed[s[k]].pos == pos && ChangesAt(indexed[i..], pos)[k] == indexed[s[k]].change)
            && forall k, l :: 0 <= k < l < |s| ==> s[k] < s[l]
    decreases |indexed| - i
  {
    if i < |indexed| {
      assert indexed[i..][1..] == indexed[i + 1..];
      IndicesAtSpell(indexed, pos, i + 1);
    }
  }

  function SortedIndices(indexed: seq<Positioned>, bound: nat): seq<nat> {
    if bound == 0 then [] else SortedIndices(indexed, bound - 1) + IndicesAt(indexed, bound - 1, 0)
  }

  lemma {:induction false} SortedIndicesSpell(indexed: seq<Positioned>, bound: nat)
    ensures var s, r := SortedIndices(indexed, bound), StableByPosition(indexed, bound);
            |s| == |r|
            && (forall k :: 0 <= k < |s| ==> s[k] < |indexed| && indexed[s[k]].pos < bound && r[k] == indexed[s[k]].change)
            && forall k, l :: 0 <= k < l < |s| ==> ComesBefore(indexed, s[k], s[l])
  {
    hide ChangesAt, IndicesAt;
    if bound > 0 {
      SortedIndicesSpell(indexed, bound - 1);
      IndicesAtSpell(indexed, bound - 1, 0);
      assert indexed[0..] == indexed;
    }
  }

  lemma {:induction false} ChangesOfCount(indexed: seq<Positioned>)
    ensures |ChangesOf(indexed)| == |indexed|
  {
    if indexed != [] {
      ChangesOfCount(indexed[1..]);
    }
  }

  /** The sort by position is in order, stable, and loses nothing. */
  lemma SortIsStable(indexed: seq<Positioned>, bound: nat)
    requires forall k :: 0 <= k < |indexed| ==> indexed[k].pos < bound
    ensures exists places :: SortsStably(StableByPosition(indexed, bound), indexed, places)
  {
    hide StableByPosition, SortedIndices;
    SortedIndicesSpell(indexed, bound);
    SortPermutes(indexed, bound);
    SameMultiset(StableByPosition(indexed, bound), ChangesOf(indexed));
    ChangesOfCount(indexed);
    assert SortsStably(StableByPosition(indexed, bound), indexed, SortedIndices(indexed, bound));
  }

  // ---------------------------------------------------------------- changes grouped by where they lie

  /** The change lies at or below the path. */
  predicate Beneath(path: string, c: Change) {
    SegmentsOf(path) <= SegmentsOf(c.path)
  }

  /** Each change lies beneath the place of its rank, and the ranks never fall. */
  ghost predicate Ranked(cs: seq<Change>, place: nat -> string, lo: nat, hi: nat, ranks: seq<nat>) {
    |ranks| == |cs|
    && (forall k :: 0 <= k < |cs| ==> lo <= ranks[k] < hi && Beneath(place(ranks[k]), cs[k]))
    && forall k, l :: 0 <= k < l < |ranks| ==> ranks[k] <= ranks[l]
  }

  ghost predicate InOrder(cs: seq<Change>, place: nat -> string, lo: nat, hi: nat) {
    exists ranks :: Ranked(cs, place, lo, hi, ranks)
  }

  lemma OneGroup(cs: seq<Change>, place: nat -> string, n: nat)
    requires DiffMask.AllUnder(place(n), cs)
    ensures InOrder(cs, place, n, n + 1)
  {
    hide SegmentsOf;
    forall k | 0 <= k < |cs|
      ensures Beneath(place(n), cs[k])
    {
      assert cs[k] in cs;
    }
    assert Ranked(cs, place, n, n + 1, seq(|cs|, _ => n));
  }

  lemma NothingInOrder(place: nat -> string, lo: nat, hi: nat)
    ensures InOrder([], place, lo, hi)
  {
    assert Ranked([], place, lo, hi, []);
  }

  lemma GroupsInOrder(xs: seq<Change>, ys: seq<Change>, place: nat -> string, lo: nat, mid: nat, hi: nat)
    requires lo <= mid <= hi && InOrder(xs, place, lo, mid) && InOrder(ys, place, mid, hi)
    ensures InOrder(xs + ys, place, lo, hi)
  {
    hide Beneath;
    var r :| Ranked(xs, place, lo, mid, r);
    var s :| Ranked(ys, place, mid, hi, s);
    assert Ranked(xs + ys, place, lo, hi, r + s);
  }

  lemma UnmaskedNodesUnder(a: Option<Node>, b: Option<Node>, path: string, o: Options)
    requires DiffMask.MaskableOpt(a) && DiffMask.MaskableOpt(b) && Extensible(path) && Empty(o.mask)
    ensures DiffMask.AllUnder(path, DiffNodes(a, b, path, o))
  {
    hide SegmentsOf, DiffNodes, DiffMask.Maskable, Extensible, DiffMask.Under;
    assert DiffMask.Unmask(o) == o;
    DiffMask.MaskNodes(a, b, path, o);
  }

  // ---------------------------------------------------------------- structs

  /** The fields in the order of report: those of the left struct, then those of the right one. */
  function FieldPlace(a: Node, b: Node, path: string): nat -> string {
    (r: nat) =>
      if r < |Children(a)| then Join(path, Children(a)[r].name)
      else if r - |Children(a)| < |Children(b)| then Join(path, Children(b)[r - |Children(a)|].name)
      else path
  }

  lemma FieldPlaces(a: Node, b: Node, path: string, i: nat)
    requires a.Struct? && b.Struct?
    ensures i < |a.children| ==> FieldPlace(a, b, path)(i) == Join(path, a.children[i].name)
    ensures i < |b.children| ==> FieldPlace(a, b, path)(|a.children| + i) == Join(path, b.children[i].name)
  {
    hide Join;
  }

  lemma FieldMaskable(b: Node, i: nat)
    requires DiffMask.Maskable(b) && b.Struct? && i < |b.children|
    ensures DiffMask.Maskable(b.children[i]) && CleanName(b.children[i].name)
  {
  }

  lemma LeftFieldInOrder(a: Node, b: Node, i: nat, path: string, o: Options)
    requires DiffMask.Maskable(a) && DiffMask.Maskable(b) && a.Struct? && b.Struct? && Extensible(path) && Empty(o.mask) && i < |a.children|
    ensures InOrder(LeftField(a.children[i], b, path, o), FieldPlace(a, b, path), i, i + 1)
  {
    hide Extensible, DiffNodes, Join, InOrder, DiffMask.AllUnder, DiffMask.Maskable, CleanName, FieldPlace, SegmentsOf, Resolve;
    var x := a.children[i];
    FieldPlaces(a, b, path, i);
    FieldMaskable(a, i);
    DiffMask.ChildMaskable(b, x.name);
    ResolveJoin(a, path, x.name);
    UnmaskedNodesUnder(Some(x), Child(b, x.name), Join(path, x.name), o);
    OneGroup(LeftField(x, b, path, o), FieldPlace(a, b, path), i);
  }

  lemma {:induction false} LeftFieldsInOrder(a: Node, b: Node, i: nat, path: string, o: Options)
    requires DiffMask.Maskable(a) && DiffMask.Maskable(b) && a.Struct? && b.Struct? && Extensible(path) && Empty(o.mask)
    requires i <= |a.children|
    ensures InOrder(LeftFields(a.children[i..], b, path, o), FieldPlace(a, b, path), i, |a.children|)
    decreases |a.children| - i
  {
    hide Extensible, LeftField, InOrder, DiffMask.Maskable, FieldPlace;
    var place := FieldPlace(a, b, path);
    if i == |a.children| {
      NothingInOrder(place, i, i);
    } else {
      assert a.children[i..][0] == a.children[i] && a.children[i..][1..] == a.children[i + 1..];
      LeftFieldInOrder(a, b, i, path, o);
      LeftFieldsInOrder(a, b, i + 1, path, o);
      GroupsInOrder(LeftField(a.children[i], b, path, o), LeftFields(a.children[i + 1..], b, path, o), place, i, i + 1, |a.children|);
    }
  }

  lemma RightFieldInOrder(a: Node, b: Node, i: nat, path: string, o: Options)
    requires DiffMask.Maskable(b) && a.Struct? && b.Struct? && Extensible(path) && Empty(o.mask) && i < |b.children|
    ensures InOrder(RightField(b.children[i], a, path, o), FieldPlace(a, b, path), |a.children| + i, |a.children| + i + 1)
  {
    hide Extensible, DiffNodes, Join, InOrder, DiffMask.AllUnder, DiffMask.Maskable, CleanName, FieldPlace, SegmentsOf, Resolve;
    var place, n, x := FieldPlace(a, b, path), |a.children| + i, b.children[i];
    FieldPlaces(a, b, path, i);
    FieldMaskable(b, i);
    if Child(a, x.name).Some? {
      NothingInOrder(place, n, n + 1);
    } else {
      ResolveJoin(a, path, x.name);
      UnmaskedNodesUnder(None, Some(x), Join(path, x.name), o);
      OneGroup(RightField(x, a, path, o), place, n);
    }
  }

  lemma {:induction false} RightFieldsInOrder(a: Node, b: Node, i: nat, path: string, o: Options)
    requires DiffMask.Maskable(b) && a.Struct? && b.Struct? && Extensible(path) && Empty(o.mask) && i <= |b.children|
    ensures InOrder(RightFields(b.children[i..], a, path, o), FieldPlace(a, b, path), |a.children| + i, |a.children| + |b.children|)
    decreases |b.children| - i
  {
    hide Extensible, RightField, InOrder, DiffMask.Maskable, FieldPlace;
    var place, n := FieldPlace(a, b, path), |a.children| + i;
    if i == |b.children| {
      NothingInOrder(place, n, n);
    } else {
      assert b.children[i..][0] == b.children[i] && b.children[i..][1..] == b.children[i + 1..];
      RightFieldInOrder(a, b, i, path, o);
      RightFieldsInOrder(a, b, i + 1, path, o);
      GroupsInOrder(RightField(b.children[i], a, path, o), RightFields(b.children[i + 1..], a, path, o), place, n, n + 1, |a.children| + |b.children|);
    }
  }

  /** The changes of two structs follow the fields: in the left order, then those that only the right struct has. */
  lemma FieldChangesInOrder(a: Node, b: Node, path: string, o: Options)
    requires DiffMask.Maskable(a) && DiffMask.Maskable(b) && a.Struct? && b.Struct? && Extensible(path) && Empty(o.mask)
    ensures InOrder(DiffFields(a, b, path, o), FieldPlace(a, b, path), 0, |a.children| + |b.children|)
  {
    hide InOrder, LeftFields, RightFields, FieldPlace, Extensible, DiffMask.Maskable;
    LeftFieldsInOrder(a, b, 0, path, o);
    RightFieldsInOrder(a, b, 0, path, o);
    assert a.children[0..] == a.children && b.children[0..] == b.children;
    GroupsInOrder(LeftFields(a.children, b, path, o), RightFields(b.children, a, path, o), FieldPlace(a, b, path), 0, |a.children|, |a.children| + |b.children|);
  }

  // ---------------------------------------------------------------- lists

  function ElementPlace(path: string): nat -> string {
    (n: nat) => At(path, n)
  }

  lemma PositionInOrder(v: Visit, xs: seq<Node>, ys: seq<Node>, path: string, o: Options)
    requires DiffMask.AllMaskable(xs) && DiffMask.AllMaskable(ys) && Extensible(path) && Empty(o.mask)
    ensures InOrder(VisitOne(v, xs, ys, path, o), ElementPlace(path), v.at, v.at + 1)
  {
    hide Extensible, DiffNodes, At, InOrder, DiffMask.AllUnder, DiffMask.Maskable;
    ResolveAt(Scalar("", "", "", Nil), path, v.at);
    UnmaskedNodesUnder(Picked(xs, v.left), Picked(ys, v.right), At(path, v.at), o);
    OneGroup(VisitOne(v, xs, ys, path, o), ElementPlace(path), v.at);
  }

  /** The changes of lists compared by position follow the positions. */
  lemma {:induction false} PositionChangesInOrder(xs: seq<Node>, ys: seq<Node>, i: nat, path: string, o: Options)
    requires DiffMask.AllMaskable(xs) && DiffMask.AllMaskable(ys) && Extensible(path) && Empty(o.mask) && i <= Longer(|xs|, |ys|)
    ensures InOrder(VisitAll(PositionalVisits(|xs|, |ys|, i), xs, ys, path, o), ElementPlace(path), i, Longer(|xs|, |ys|))
    decreases Longer(|xs|, |ys|) - i
  {
    hide Extensible, VisitOne, InOrder, DiffMask.AllMaskable, ElementPlace;
    var place, n := ElementPlace(path), Longer(|xs|, |ys|);
    if i == n {
      NothingInOrder(place, i, n);
    } else {
      var v := Visit(if i < |xs| then Some(i) else None, if i < |ys| then Some(i) else None, i);
      var rest := PositionalVisits(|xs|, |ys|, i + 1);
      assert PositionalVisits(|xs|, |ys|, i) == [v] + rest && ([v] + rest)[1..] == rest;
      PositionInOrder(v, xs, ys, path, o);
      PositionChangesInOrder(xs, ys, i + 1, path, o);
      GroupsInOrder(VisitOne(v, xs, ys, path, o), VisitAll(rest, xs, ys, path, o), place, i, i + 1, n);
    }
  }

  // ---------------------------------------------------------------- operation lists

  /** Each change lies beneath the element of its position. */
  ghost predicate AtPositions(indexed: seq<Positioned>, path: string) {
    forall k :: 0 <= k < |indexed| ==> Beneath(At(path, indexed[k].pos), indexed[k].change)
  }

  lemma {:induction false} ReordersAtPositions(moved: seq<(nat, nat)>, path: string)
    ensures AtPositions(Reorders(moved, path), path)
  {
    hide At;
    if moved != [] {
      ReordersAtPositions(moved[1..], path);
    }
  }

  lemma {:induction false} GroupAtPosition(pos: nat, cs: seq<Change>, path: string)
    requires forall c :: c in cs ==> Beneath(At(path, pos), c)
    ensures AtPositions(PositionAll(pos, cs), path)
  {
    hide At, Beneath;
    if cs != [] {
      GroupAtPosition(pos, cs[1..], path);
    }
  }

  lemma {:induction false} TaggedAtPositions(visits: seq<Visit>, xs: seq<Node>, ys: seq<Node>, path: string, o: Options)
    requires DiffMask.AllMaskable(xs) && DiffMask.AllMaskable(ys) && Extensible(path) && Empty(o.mask)
    ensures AtPositions(VisitTagged(visits, xs, ys, path, o), path)
    decreases |visits|
  {
    hide At, Extensible, DiffNodes, SegmentsOf;
    if visits != [] {
      var v := visits[0];
      ResolveAt(Scalar("", "", "", Nil), path, v.at);
      UnmaskedNodesUnder(Picked(xs, v.left), Picked(ys, v.right), At(path, v.at), o);
      GroupAtPosition(v.at, VisitOne(v, xs, ys, path, o), path);
      TaggedAtPositions(visits[1..], xs, ys, path, o);
    }
  }

  lemma {:induction false} TaggedBelow(visits: seq<Visit>, xs: seq<Node>, ys: seq<Node>, path: string, o: Options, bound: nat)
    requires forall k :: 0 <= k < |visits| ==> visits[k].at < bound
    ensures forall k :: 0 <= k < |VisitTagged(visits, xs, ys, path, o)| ==> VisitTagged(visits, xs, ys, path, o)[k].pos < bound
    decreases |visits|
  {
    hide VisitOne;
    if visits != [] {
      PositionAllAt(visits[0].at, VisitOne(visits[0], xs, ys, path, o));
      TaggedBelow(visits[1..], xs, ys, path, o, bound);
    }
  }

  lemma {:induction false} PositionAllAt(pos: nat, cs: seq<Change>)
    ensures forall k :: 0 <= k < |PositionAll(pos, cs)| ==> PositionAll(pos, cs)[k].pos == pos
  {
    if cs != [] {
      PositionAllAt(pos, cs[1..]);
    }
  }

  /** Leftovers are compared at the right index, or reported at the index of the side that has them. */
  lemma {:induction false} LeftoversSpelled(lefts: seq<nat>, rights: seq<nat>)
    ensures var visits := LeftoverVisits(lefts, rights);
            |visits| == Longer(|lefts|, |rights|)
            && forall k :: 0 <= k < |visits| ==>
                 visits[k] == Visit(if k < |lefts| then Some(lefts[k]) else None, if k < |rights| then Some(rights[k]) else None,
                                    if k < |rights| then rights[k] else lefts[k])
  {
    if lefts == [] {
      LoneVisits(rights);
    } else if rights == [] {
      LoneVisits(lefts);
    } else {
      LeftoversSpelled(lefts[1..], rights[1..]);
    }
  }

  lemma {:induction false} LoneVisits(indices: seq<nat>)
    ensures |AdditionVisits(indices)| == |RemovalVisits(indices)| == |indices|
    ensures forall k :: 0 <= k < |indices| ==> AdditionVisits(indices)[k] == Visit(None, Some(indices[k]), indices[k])
    ensures forall k :: 0 <= k < |indices| ==> RemovalVisits(indices)[k] == Visit(Some(indices[k]), None, indices[k])
  {
    if indices != [] {
      LoneVisits(indices[1..]);
    }
  }

  /** The moves and leftover changes of an operation list before they are sorted. */
  function Unsorted(xs: seq<Node>, ys: seq<Node>, path: string, o: Options): seq<Positioned> {
    var p := Matched(xs, ys, Same(o.judge));
    Reorders(p.pairs, path) + VisitTagged(OperationVisits(p), xs, ys, path, o)
  }

  lemma UnsortedBelow(xs: seq<Node>, ys: seq<Node>, path: string, o: Options)
    ensures forall k :: 0 <= k < |Unsorted(xs, ys, path, o)| ==> Unsorted(xs, ys, path, o)[k].pos < Longer(|xs|, |ys|)
  {
    hide Same, VisitTagged, Reorders, LeftoverVisits, Unmatched;
    var p, bound := Matched(xs, ys, Same(o.judge)), Longer(|xs|, |ys|);
    EveryIndexUsedOnce(xs, ys, Same(o.judge));
    forall k | 0 <= k < |p.pairs|
      ensures p.pairs[k].1 < bound
    {
      assert IsMove(xs, ys, Same(o.judge), p.pairs[k]);
    }
    ReordersStripped(p.pairs, path, bound);
    UnmatchedExact(p.left, 0);
    UnmatchedExact(p.right, 0);
    LeftoversSpelled(Unmatched(p.left, 0), Unmatched(p.right, 0));
    TaggedBelow(OperationVisits(p), xs, ys, path, o, bound);
  }

  /** The changes of an operation list are its moves and leftover changes, stably sorted by position. */
  lemma OperationsAreSorted(xs: seq<Node>, ys: seq<Node>, path: string, o: Options)
    ensures exists places :: SortsStably(DiffOperations(xs, ys, path, o), Unsorted(xs, ys, path, o), places)
  {
    hide SortsStably;
    UnsortedBelow(xs, ys, path, o);
    SortIsStable(Unsorted(xs, ys, path, o), Longer(|xs|, |ys|));
    SortsUnsorted(xs, ys, path, o);
  }

  lemma SortsUnsorted(xs: seq<Node>, ys: seq<Node>, path: string, o: Options)
    ensures DiffOperations(xs, ys, path, o) == StableByPosition(Unsorted(xs, ys, path, o), Longer(|xs|, |ys|))
  {
    hide StableByPosition, Matched, VisitTagged, Reorders;
  }

  /** They follow the elements that they lie at. */
  lemma OperationChangesInOrder(xs: seq<Node>, ys: seq<Node>, path: string, o: Options)
    requires DiffMask.AllMaskable(xs) && DiffMask.AllMaskable(ys) && Extensible(path) && Empty(o.mask)
    ensures InOrder(DiffOperations(xs, ys, path, o), ElementPlace(path), 0, Longer(|xs|, |ys|))
  {
    hide DiffOperations, Beneath, At, Extensible, DiffMask.AllMaskable, VisitTagged, Reorders, OperationVisits, Matched;
    var indexed, p := Unsorted(xs, ys, path, o), Matched(xs, ys, Same(o.judge));
    UnsortedBelow(xs, ys, path, o);
    ReordersAtPositions(p.pairs, path);
    TaggedAtPositions(OperationVisits(p), xs, ys, path, o);
    OperationsAreSorted(xs, ys, path, o);
    var cs := DiffOperations(xs, ys, path, o);
    var places :| SortsStably(cs, indexed, places);
    var ranks := seq(|cs|, k requires 0 <= k < |cs| => indexed[places[k]].pos);
    assert Ranked(cs, ElementPlace(path), 0, Longer(|xs|, |ys|), ranks);
  }

  // ---------------------------------------------------------------- what a move says

  /** The change tells that an operation went from one index to another. */
  predicate TellsMove(c: Change, from: nat, to: nat, path: string) {
    c.op == Reordered && c.path == path + "[" + Itoa(to) + "]" && c.before == Num(from) && c.after == Num(to)
    && c.beforeNote == "index " + Itoa(from) && c.afterNote == "index " + Itoa(to)
  }

  lemma {:induction false} MoveIsTold(moved: seq<(nat, nat)>, path: string, k: nat)
    requires k < |moved|
    ensures |ReorderChanges(moved, path)| == |moved| && TellsMove(ReorderChanges(moved, path)[k], moved[k].0, moved[k].1, path)
  {
    hide Itoa;
    if k > 0 {
      MoveIsTold(moved[1..], path, k - 1);
    } else if |moved| > 1 {
      MoveIsTold(moved[1..], path, 0);
    } else {
      assert moved[1..] == [];
    }
  }

  /** On a permutation every change tells a move between equal operations at different places. */
  lemma PermutationTellsMoves(xs: seq<Node>, ys: seq<Node>, path: string, o: Options, c: Change)
    requires Equivalence(Elements(xs) + Elements(ys), Same(o.judge)) && IsPermutation(xs, ys, Same(o.judge))
    requires c in DiffOperations(xs, ys, path, o)
    ensures exists from: nat, to: nat :: from < |xs| && to < |ys| && from != to && SameNode(xs[from], ys[to], o.judge) && TellsMove(c, from, to, path)
  {
    hide SameNode, DiffOperations, TellsMove, ReorderChanges, Matched;
    var moved := Matched(xs, ys, Same(o.judge)).pairs;
    PermutationDetectionIsExact(xs, ys, Same(o.judge));
    PermutationReportsOnlyMoves(xs, ys, path, o);
    SameMultiset(DiffOperations(xs, ys, path, o), ReorderChanges(moved, path));
    var k :| 0 <= k < |ReorderChanges(moved, path)| && ReorderChanges(moved, path)[k] == c;
    ReordersCount(moved, path);
    MoveIsTold(moved, path, k);
    assert IsMove(xs, ys, Same(o.judge), moved[k]);
  }

  lemma {:induction false} ReordersCount(moved: seq<(nat, nat)>, path: string)
    ensures |ReorderChanges(moved, path)| == |moved|
  {
    if moved != [] {
      ReordersCount(moved[1..], path);
    }
  }
}
