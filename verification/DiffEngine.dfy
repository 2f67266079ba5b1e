/** The comparison as it is carried out: loops over the trees, appending to the list of changes. */
module DiffEngine {
  import opened Text
  import opened Tree
  import opened Changes
  import opened PathFilters
  import opened StructuralDiff
  import opened Alignment
  import opened GreedyMatching
  import SignerDiff

  /** Compares two values and keeps the changes the filter selects. */
  method DiffWithOptions(left: Node, right: Node, o: Options, filter: PathFilter) returns (changes: seq<Change>)
    ensures var all := DiffNodes(Some(left), Some(right), "", o);
            changes == if Empty(filter) then all else Kept(all, Selected(filter))
  {
    var out := new ChangeList();
    DiffNodesInto(Some(left), Some(right), "", out, o);
    changes := out.items;
    assert [] + DiffNodes(Some(left), Some(right), "", o) == DiffNodes(Some(left), Some(right), "", o);
    if !Empty(filter) {
      changes := FilterChanges(changes, filter);
    }
  }

  method DiffNodesInto(a: Option<Node>, b: Option<Node>, path: string, out: ChangeList, o: Options)
    modifies out
    ensures out.items == old(out.items) + DiffNodes(a, b, path, o)
    decreases SizeOpt(a) + SizeOpt(b), 1, 0
  {
    hide MatchesPath, DiffStructs, DiffLists;
    if !Empty(o.mask) {
      var masked := Matches(o.mask, path);
      if masked {
        return;
      }
    }
    if a.None? && b.None? {
      return;
    }
    if a.None? {
      out.Append(AddedChange(b.value, path));
      return;
    }
    if b.None? {
      out.Append(RemovedChange(a.value, path));
      return;
    }
    var x, y := a.value, b.value;
    if !SameKind(x, y) {
      if !o.judge.binaryEqual(x, y) {
        out.Append(Change(path, TypeChanged, LeafValue(x), LeafValue(y), x.note, y.note));
      }
      return;
    }
    match x {
      case Scalar(_, _, _, value) =>
        if !o.judge.sameScalar(x, y) {
          out.Append(Change(path, Modified, value, y.value, x.note, y.note));
        }
      case List(_, _, _, _) => DiffListsInto(x, y, path, out, o);
      case Struct(_, _, _, _) => DiffStructsInto(x, y, path, out, o);
    }
  }

  method DiffStructsInto(a: Node, b: Node, path: string, out: ChangeList, o: Options)
    requires a.Struct? && b.Struct?
    modifies out
    ensures out.items == old(out.items) + DiffStructs(a, b, path, o)
    decreases SizeAll(a.children) + SizeAll(b.children) + 1, 4, 0
  {
    hide DiffFields;
    if IsMemoStruct(a, b) {
      var left, right := MemoArm(a.children), MemoArm(b.children);
      if left.0 == right.0 {
        DiffFieldsInto(a, b, path, out, o);
      } else if MemoEquivalent(left, right, o.judge) {
        out.Append(MemoChange(left, right, path));
      } else {
        DiffFieldsInto(a, b, path, out, o);
      }
      return;
    }
    if IsLedgerEntryStruct(a, b) {
      var detailed := new ChangeList();
      DiffFieldsInto(a, b, path, detailed, o);
      out.AppendAll(LedgerHeader(a, b, path, detailed.items, o.judge));
      out.AppendAll(detailed.items);
      return;
    }
    DiffFieldsInto(a, b, path, out, o);
  }

  /** The names seen so far are those of the fields already walked. */
  lemma SeenIsChild(fields: seq<Node>, name: string)
    ensures (exists i :: 0 <= i < |fields| && fields[i].name == name) <==> FirstNamed(fields, name).Some?
  {
    if fields != [] {
      SeenIsChild(fields[1..], name);
    }
  }

  method DiffFieldsInto(a: Node, b: Node, path: string, out: ChangeList, o: Options)
    requires a.Struct? && b.Struct?
    modifies out
    ensures out.items == old(out.items) + DiffFields(a, b, path, o)
    decreases SizeAll(a.children) + SizeAll(b.children) + 1, 3, 0
  {
    hide Join, DiffNodes;
    var seen: set<string> := {};
    ghost var start, lefts := out.items, LeftFields(a.children, b, path, o);
    for i := 0 to |a.children|
      invariant seen == set k | 0 <= k < i :: a.children[k].name
      invariant out.items + LeftFields(a.children[i..], b, path, o) == start + lefts
    {
      var ac := a.children[i];
      seen := seen + {ac.name};
      SizeOfMember(a.children, i);
      DiffNodesInto(Some(ac), Child(b, ac.name), Join(path, ac.name), out, o);
      assert a.children[i..][1..] == a.children[i + 1..];
      Associate(out.items[..|out.items| - |LeftField(ac, b, path, o)|], LeftField(ac, b, path, o), LeftFields(a.children[i + 1..], b, path, o));
    }
    assert out.items == start + lefts;
    start := out.items;
    ghost var rights := RightFields(b.children, a, path, o);
    for i := 0 to |b.children|
      invariant out.items + RightFields(b.children[i..], a, path, o) == start + rights
    {
      var bc := b.children[i];
      SeenIsChild(a.children, bc.name);
      assert b.children[i..][1..] == b.children[i + 1..];
      if bc.name in seen {
        assert RightField(bc, a, path, o) == [];
      } else {
        SizeOfMember(b.children, i);
        DiffNodesInto(None, Some(bc), Join(path, bc.name), out, o);
        Associate(out.items[..|out.items| - |RightField(bc, a, path, o)|], RightField(bc, a, path, o), RightFields(b.children[i + 1..], a, path, o));
      }
    }
    assert out.items == start + rights;
    Associate(old(out.items), lefts, rights);
    assert DiffFields(a, b, path, o) == lefts + rights;
  }

  method DiffListsInto(a: Node, b: Node, path: string, out: ChangeList, o: Options)
    requires a.List? && b.List?
    modifies out
    ensures out.items == old(out.items) + DiffLists(a, b, path, o)
    decreases SizeAll(a.children) + SizeAll(b.children) + 1, 3, 0
  {
    hide CollectionName, DiffMultisets, DiffOperations, VisitAll, PairEvents, EventVisits;
    var name := CollectionName(path, a, b);
    if o.unorderedSigners && IsSignerCollection(name) {
      DiffMultisetsInto(a.children, b.children, path, out, o);
    } else if IsOperationCollection(name) {
      DiffOperationsInto(a.children, b.children, path, out, o);
    } else if IsEventCollection(name, a, b) {
      DiffEventsInto(a.children, b.children, path, out, o);
    } else if UsesAlignment(|a.children|, |b.children|, o) {
      DiffAlignedInto(a.children, b.children, path, out, o);
    } else {
      DiffPositionsInto(a.children, b.children, path, out, o);
    }
  }

  /** One comparison of two elements, and what is then left to visit. */
  lemma VisitFirst(before: seq<Change>, v: Visit, rest: seq<Visit>, ls: seq<Node>, rs: seq<Node>, path: string, o: Options)
    ensures before + VisitAll([v] + rest, ls, rs, path, o) == before + VisitOne(v, ls, rs, path, o) + VisitAll(rest, ls, rs, path, o)
  {
    hide VisitOne;
    assert ([v] + rest)[1..] == rest;
    Associate(before, VisitOne(v, ls, rs, path, o), VisitAll(rest, ls, rs, path, o));
  }

  /** Compares the elements a visit names. */
  method VisitInto(v: Visit, ls: seq<Node>, rs: seq<Node>, path: string, out: ChangeList, o: Options, ghost rest: seq<Visit>)
    modifies out
    ensures out.items == old(out.items) + VisitOne(v, ls, rs, path, o)
    ensures out.items + VisitAll(rest, ls, rs, path, o) == old(out.items) + VisitAll([v] + rest, ls, rs, path, o)
    decreases SizeAll(ls) + SizeAll(rs), 1, 1
  {
    VisitFirst(out.items, v, rest, ls, rs, path, o);
    DiffNodesInto(Picked(ls, v.left), Picked(rs, v.right), At(path, v.at), out, o);
  }

  method DiffPositionsInto(ls: seq<Node>, rs: seq<Node>, path: string, out: ChangeList, o: Options)
    modifies out
    ensures out.items == old(out.items) + VisitAll(PositionalVisits(|ls|, |rs|, 0), ls, rs, path, o)
    decreases SizeAll(ls) + SizeAll(rs), 2, 0
  {
    hide VisitAll;
    var maxLen := if |rs| > |ls| then |rs| else |ls|;
    for i := 0 to maxLen
      invariant out.items + VisitAll(PositionalVisits(|ls|, |rs|, i), ls, rs, path, o)
                == old(out.items) + VisitAll(PositionalVisits(|ls|, |rs|, 0), ls, rs, path, o)
    {
      var v := Visit(if i < |ls| then Some(i) else None, if i < |rs| then Some(i) else None, i);
      VisitInto(v, ls, rs, path, out, o, PositionalVisits(|ls|, |rs|, i + 1));
    }
    NothingToVisit(ls, rs, path, o);
  }

  lemma NothingToVisit(ls: seq<Node>, rs: seq<Node>, path: string, o: Options)
    ensures VisitAll([], ls, rs, path, o) == []
  {
  }

  method DiffAlignedInto(left: seq<Node>, right: seq<Node>, path: string, out: ChangeList, o: Options)
    modifies out
    ensures out.items == old(out.items) + VisitAll(EditVisits(Script(left, right, Same(o.judge), 0, 0)), left, right, path, o)
    decreases SizeAll(left) + SizeAll(right), 3, 0
  {
    hide VisitAll, SameNode, Lcs;
    ghost var same, goal := Same(o.judge), old(out.items) + VisitAll(EditVisits(Script(left, right, Same(o.judge), 0, 0)), left, right, path, o);
    var lcs := BuildTable(left, right, Same(o.judge));
    var i, j := 0, 0;
    while i < |left| && j < |right|
      invariant i <= |left| && j <= |right|
      invariant forall r :: 0 <= r <= |left| ==> RowFilled(lcs, left, right, same, r, 0)
      invariant out.items + VisitAll(EditVisits(Script(left, right, same, i, j)), left, right, path, o) == goal
      decreases |left| - i + |right| - j
    {
      assert RowFilled(lcs, left, right, same, i, 0) && RowFilled(lcs, left, right, same, i + 1, 0);
      if SameNode(left[i], right[j], o.judge) {
        FirstEdit(Keep(i, j), Script(left, right, same, i + 1, j + 1));
        VisitInto(Visit(Some(i), Some(j), j), left, right, path, out, o, EditVisits(Script(left, right, same, i + 1, j + 1)));
        i, j := i + 1, j + 1;
      } else if lcs[i, j + 1] >= lcs[i + 1, j] {
        FirstEdit(Insert(j), Script(left, right, same, i, j + 1));
        VisitInto(Visit(None, Some(j), j), left, right, path, out, o, EditVisits(Script(left, right, same, i, j + 1)));
        j := j + 1;
      } else {
        FirstEdit(Delete(i), Script(left, right, same, i + 1, j));
        VisitInto(Visit(Some(i), None, i), left, right, path, out, o, EditVisits(Script(left, right, same, i + 1, j)));
        i := i + 1;
      }
    }
    FlushInto(left, right, i, j, path, out, o);
  }

  /** Once one side is used up, the rest of the other is removed or added. */
  method FlushInto(left: seq<Node>, right: seq<Node>, i0: nat, j0: nat, path: string, out: ChangeList, o: Options)
    requires i0 <= |left| && j0 <= |right| && (i0 == |left| || j0 == |right|)
    modifies out
    ensures out.items == old(out.items) + VisitAll(EditVisits(Script(left, right, Same(o.judge), i0, j0)), left, right, path, o)
    decreases SizeAll(left) + SizeAll(right), 2, 0
  {
    hide VisitAll, SameNode, Script, EditVisits;
    var i, j := i0, j0;
    ghost var same := Same(o.judge);
    ghost var goal := old(out.items) + VisitAll(EditVisits(Script(left, right, same, i, j)), left, right, path, o);
    while i < |left|
      invariant i <= |left| && j <= |right| && (i == |left| || j == |right|)
      invariant out.items + VisitAll(EditVisits(Script(left, right, same, i, j)), left, right, path, o) == goal
    {
      ScriptTail(left, right, same, i, j);
      FirstEdit(Delete(i), Script(left, right, same, i + 1, j));
      VisitInto(Visit(Some(i), None, i), left, right, path, out, o, EditVisits(Script(left, right, same, i + 1, j)));
      i := i + 1;
    }
    while j < |right|
      invariant i == |left| && j <= |right|
      invariant out.items + VisitAll(EditVisits(Script(left, right, same, i, j)), left, right, path, o) == goal
    {
      ScriptTail(left, right, same, i, j);
      FirstEdit(Insert(j), Script(left, right, same, i, j + 1));
      VisitInto(Visit(None, Some(j), j), left, right, path, out, o, EditVisits(Script(left, right, same, i, j + 1)));
      j := j + 1;
    }
    ScriptTail(left, right, same, i, j);
    NothingToVisit(left, right, path, o);
  }

  lemma ScriptTail<T>(left: seq<T>, right: seq<T>, same: (T, T) -> bool, i: nat, j: nat)
    requires i <= |left| && j <= |right| && (i == |left| || j == |right|)
    ensures i < |left| ==> Script(left, right, same, i, j) == [Delete(i)] + Script(left, right, same, i + 1, j)
    ensures j < |right| ==> Script(left, right, same, i, j) == [Insert(j)] + Script(left, right, same, i, j + 1)
    ensures i == |left| && j == |right| ==> EditVisits(Script(left, right, same, i, j)) == []
  {
  }

  lemma FirstEdit(e: Edit, rest: seq<Edit>)
    ensures EditVisits([e] + rest) == [EditVisit(e)] + EditVisits(rest)
  {
    assert ([e] + rest)[1..] == rest;
  }

  // ---------------------------------------------------------------- greedy matching on flag arrays

  /** The first free element of `right` that equals `x`, found by scanning the flags. */
  method FindFree<T>(x: T, right: seq<T>, matched: array<bool>, same: (T, T) -> bool) returns (j: nat)
    requires matched.Length == |right|
    ensures j == FirstFree(x, right, matched[..], same, 0)
  {
    j := 0;
    while j < |right|
      invariant j <= |right| && FirstFree(x, right, matched[..], same, j) == FirstFree(x, right, matched[..], same, 0)
    {
      if !matched[j] && same(x, right[j]) {
        return;
      }
      j := j + 1;
    }
  }

  /** One greedy pass: each unmatched left element takes the first free equal element on the right. */
  method MatchShifted<T>(left: seq<T>, right: seq<T>, same: (T, T) -> bool, matchedLeft: array<bool>, matchedRight: array<bool>, pairs: seq<(nat, nat)>)
    returns (r: seq<(nat, nat)>)
    requires matchedLeft.Length == |left| && matchedRight.Length == |right| && matchedLeft != matchedRight
    modifies matchedLeft, matchedRight
    ensures Pairing(matchedLeft[..], matchedRight[..], r)
            == Shifted(left, right, same, Pairing(old(matchedLeft[..]), old(matchedRight[..]), pairs), 0)
  {
    r := pairs;
    ghost var goal := Shifted(left, right, same, Pairing(matchedLeft[..], matchedRight[..], pairs), 0);
    for i := 0 to |left|
      invariant Shifted(left, right, same, Pairing(matchedLeft[..], matchedRight[..], r), i) == goal
    {
      if !matchedLeft[i] {
        var j := FindFree(left[i], right, matchedRight, same);
        if j < |right| {
          ghost var p := Pairing(matchedLeft[..], matchedRight[..], r);
          matchedLeft[i] := true;
          matchedRight[j] := true;
          r := r + [(i, j)];
          assert matchedLeft[..] == p.left[i := true] && matchedRight[..] == p.right[j := true];
        }
      }
    }
  }

  /** The indices whose flag is not set. */
  method UnmatchedIndices(matched: array<bool>) returns (r: seq<nat>)
    ensures r == Unmatched(matched[..], 0)
  {
    r := [];
    for i := 0 to matched.Length
      invariant r + Unmatched(matched[..], i) == Unmatched(matched[..], 0)
    {
      if !matched[i] {
        r := r + [i];
      }
    }
  }

  /** Pass 1 on operations: equal elements at the same position. */
  method MatchInPlace<T>(left: seq<T>, right: seq<T>, same: (T, T) -> bool) returns (matchedLeft: array<bool>, matchedRight: array<bool>)
    ensures fresh(matchedLeft) && fresh(matchedRight) && matchedLeft != matchedRight
    ensures matchedLeft.Length == |left| && matchedRight.Length == |right|
    ensures Pairing(matchedLeft[..], matchedRight[..], []) == InPlace(left, right, same)
  {
    matchedLeft, matchedRight := new bool[|left|](_ => false), new bool[|right|](_ => false);
    var minLen := if |right| < |left| then |right| else |left|;
    for i := 0 to minLen
      invariant forall k :: 0 <= k < |left| ==> matchedLeft[k] == (k < i && KeptAt(left, right, same, k))
      invariant forall k :: 0 <= k < |right| ==> matchedRight[k] == (k < i && KeptAt(left, right, same, k))
    {
      if same(left[i], right[i]) {
        matchedLeft[i] := true;
        matchedRight[i] := true;
      }
    }
    assert matchedLeft[..] == InPlace(left, right, same).left;
    assert matchedRight[..] == InPlace(left, right, same).right;
  }

  // ---------------------------------------------------------------- operation lists

  method DiffOperationsInto(ls: seq<Node>, rs: seq<Node>, path: string, out: ChangeList, o: Options)
    modifies out
    ensures out.items == old(out.items) + DiffOperations(ls, rs, path, o)
    decreases SizeAll(ls) + SizeAll(rs), 3, 0
  {
    hide SameNode, StableByPosition, Reorders, VisitTagged, Shifted, InPlace, Unmatched;
    var matchedLeft, matchedRight := MatchInPlace(ls, rs, Same(o.judge));
    var reordered := MatchShifted(ls, rs, Same(o.judge), matchedLeft, matchedRight, []);
    var unmatchedLeft := UnmatchedIndices(matchedLeft);
    var unmatchedRight := UnmatchedIndices(matchedRight);
    ghost var p := Matched(ls, rs, Same(o.judge));
    assert p == Pairing(matchedLeft[..], matchedRight[..], reordered);
    var moves := ReordersOf(reordered, path);
    var rest := LeftoverChanges(unmatchedLeft, unmatchedRight, ls, rs, path, o);
    // The library's stable sort by position.
    out.AppendAll(StableByPosition(moves + rest, Longer(|ls|, |rs|)));
  }

  method ReordersOf(reordered: seq<(nat, nat)>, path: string) returns (indexed: seq<Positioned>)
    ensures indexed == Reorders(reordered, path)
  {
    hide ReorderChange;
    indexed := [];
    for k := 0 to |reordered|
      invariant indexed + Reorders(reordered[k..], path) == Reorders(reordered, path)
    {
      var rm := reordered[k];
      assert reordered[k..][1..] == reordered[k + 1..];
      indexed := indexed + [Positioned(rm.1, ReorderChange(rm, path))];
    }
  }

  /** One leftover comparison into a list of its own, its changes tagged with the visit's position. */
  method VisitPositioned(v: Visit, ls: seq<Node>, rs: seq<Node>, path: string, o: Options, indexed: seq<Positioned>, ghost rest: seq<Visit>)
    returns (r: seq<Positioned>)
    ensures r + VisitTagged(rest, ls, rs, path, o) == indexed + VisitTagged([v] + rest, ls, rs, path, o)
    decreases SizeAll(ls) + SizeAll(rs), 1, 1
  {
    hide DiffNodes;
    var sub := new ChangeList();
    DiffNodesInto(Picked(ls, v.left), Picked(rs, v.right), At(path, v.at), sub, o);
    r := indexed;
    for k := 0 to |sub.items|
      invariant r + PositionAll(v.at, sub.items[k..]) == indexed + PositionAll(v.at, sub.items)
    {
      assert sub.items[k..][1..] == sub.items[k + 1..];
      r := r + [Positioned(v.at, sub.items[k])];
    }
    assert ([v] + rest)[1..] == rest;
    assert r == indexed + PositionAll(v.at, VisitOne(v, ls, rs, path, o));
    Associate(indexed, PositionAll(v.at, VisitOne(v, ls, rs, path, o)), VisitTagged(rest, ls, rs, path, o));
  }

  method LeftoverChanges(lefts: seq<nat>, rights: seq<nat>, ls: seq<Node>, rs: seq<Node>, path: string, o: Options)
    returns (indexed: seq<Positioned>)
    ensures indexed == VisitTagged(LeftoverVisits(lefts, rights), ls, rs, path, o)
    decreases SizeAll(ls) + SizeAll(rs), 2, 0
  {
    hide VisitTagged;
    indexed := [];
    var pairs := if |rights| < |lefts| then |rights| else |lefts|;
    ghost var goal := VisitTagged(LeftoverVisits(lefts, rights), ls, rs, path, o);
    for k := 0 to pairs
      invariant indexed + VisitTagged(LeftoverVisits(lefts[k..], rights[k..]), ls, rs, path, o) == goal
    {
      assert lefts[k..][1..] == lefts[k + 1..] && rights[k..][1..] == rights[k + 1..];
      indexed := VisitPositioned(Visit(Some(lefts[k]), Some(rights[k]), rights[k]), ls, rs, path, o, indexed,
                                 LeftoverVisits(lefts[k + 1..], rights[k + 1..]));
    }
    assert LeftoverVisits(lefts[pairs..], rights[pairs..]) == RemovalVisits(lefts[pairs..]) + AdditionVisits(rights[pairs..]);
    for k := pairs to |lefts|
      invariant indexed + VisitTagged(RemovalVisits(lefts[k..]) + AdditionVisits(rights[pairs..]), ls, rs, path, o) == goal
    {
      assert lefts[k..][1..] == lefts[k + 1..];
      var v := Visit(Some(lefts[k]), None, lefts[k]);
      Associate([v], RemovalVisits(lefts[k + 1..]), AdditionVisits(rights[pairs..]));
      indexed := VisitPositioned(v, ls, rs, path, o, indexed, RemovalVisits(lefts[k + 1..]) + AdditionVisits(rights[pairs..]));
    }
    assert RemovalVisits([]) + AdditionVisits(rights[pairs..]) == AdditionVisits(rights[pairs..]);
    for k := pairs to |rights|
      invariant indexed + VisitTagged(AdditionVisits(rights[k..]), ls, rs, path, o) == goal
    {
      assert rights[k..][1..] == rights[k + 1..];
      indexed := VisitPositioned(Visit(None, Some(rights[k]), rights[k]), ls, rs, path, o, indexed, AdditionVisits(rights[k + 1..]));
    }
    NothingTagged(ls, rs, path, o);
  }

  lemma NothingTagged(ls: seq<Node>, rs: seq<Node>, path: string, o: Options)
    ensures VisitTagged([], ls, rs, path, o) == []
  {
  }

  // ---------------------------------------------------------------- event lists

  method DiffEventsInto(ls: seq<Node>, rs: seq<Node>, path: string, out: ChangeList, o: Options)
    modifies out
    ensures out.items == old(out.items) + VisitAll(EventVisits(PairEvents(MetasOf(ls, o.judge), MetasOf(rs, o.judge))), ls, rs, path, o)
    decreases SizeAll(ls) + SizeAll(rs), 3, 0
  {
    hide VisitAll, MetaOf, Shifted, Unmatched, PairVisits, RemovalVisits, AdditionVisits;
    var leftMetas, rightMetas := MetasOf(ls, o.judge), MetasOf(rs, o.judge);
    var matchedLeft, matchedRight := new bool[|ls|](_ => false), new bool[|rs|](_ => false);
    assert matchedLeft[..] == Free(|ls|) && matchedRight[..] == Free(|rs|);
    var paired := MatchShifted(leftMetas, rightMetas, SameTopics, matchedLeft, matchedRight, []);
    paired := MatchShifted(leftMetas, rightMetas, SamePrimaryTopic, matchedLeft, matchedRight, paired);
    ghost var p := PairEvents(leftMetas, rightMetas);
    assert p == Pairing(matchedLeft[..], matchedRight[..], paired);
    var unpairedLeft := UnmatchedIndices(matchedLeft);
    var unpairedRight := UnmatchedIndices(matchedRight);
    Associate(PairVisits(paired), RemovalVisits(unpairedLeft), AdditionVisits(unpairedRight));
    VisitEvents(paired, unpairedLeft, unpairedRight, ls, rs, path, out, o);
  }

  /** Compares the paired events, then reports the unpaired ones of each side. */
  method VisitEvents(paired: seq<(nat, nat)>, lefts: seq<nat>, rights: seq<nat>, ls: seq<Node>, rs: seq<Node>, path: string, out: ChangeList, o: Options)
    modifies out
    ensures out.items == old(out.items) + VisitAll(PairVisits(paired) + (RemovalVisits(lefts) + AdditionVisits(rights)), ls, rs, path, o)
    decreases SizeAll(ls) + SizeAll(rs), 2, 0
  {
    hide VisitAll;
    ghost var goal := old(out.items) + VisitAll(PairVisits(paired) + (RemovalVisits(lefts) + AdditionVisits(rights)), ls, rs, path, o);
    for k := 0 to |paired|
      invariant out.items + VisitAll(PairVisits(paired[k..]) + (RemovalVisits(lefts) + AdditionVisits(rights)), ls, rs, path, o) == goal
    {
      assert paired[k..][1..] == paired[k + 1..];
      var v := Visit(Some(paired[k].0), Some(paired[k].1), paired[k].1);
      Associate([v], PairVisits(paired[k + 1..]), RemovalVisits(lefts) + AdditionVisits(rights));
      VisitInto(v, ls, rs, path, out, o, PairVisits(paired[k + 1..]) + (RemovalVisits(lefts) + AdditionVisits(rights)));
    }
    assert PairVisits([]) + (RemovalVisits(lefts) + AdditionVisits(rights)) == RemovalVisits(lefts) + AdditionVisits(rights);
    for k := 0 to |lefts|
      invariant out.items + VisitAll(RemovalVisits(lefts[k..]) + AdditionVisits(rights), ls, rs, path, o) == goal
    {
      assert lefts[k..][1..] == lefts[k + 1..];
      var v := Visit(Some(lefts[k]), None, lefts[k]);
      Associate([v], RemovalVisits(lefts[k + 1..]), AdditionVisits(rights));
      VisitInto(v, ls, rs, path, out, o, RemovalVisits(lefts[k + 1..]) + AdditionVisits(rights));
    }
    assert RemovalVisits([]) + AdditionVisits(rights) == AdditionVisits(rights);
    for k := 0 to |rights|
      invariant out.items + VisitAll(AdditionVisits(rights[k..]), ls, rs, path, o) == goal
    {
      assert rights[k..][1..] == rights[k + 1..];
      VisitInto(Visit(None, Some(rights[k]), rights[k]), ls, rs, path, out, o, AdditionVisits(rights[k + 1..]));
    }
    NothingToVisit(ls, rs, path, o);
  }

  // ---------------------------------------------------------------- signer collections

  method DiffMultisetsInto(ls: seq<Node>, rs: seq<Node>, path: string, out: ChangeList, o: Options)
    modifies out
    ensures out.items == old(out.items) + DiffMultisets(ls, rs, path, o)
  {
    hide SignerDiff.Diff, ItemsOf;
    var diff := SignerDiff.SignerSetDiff(ItemsOf(ls, o.judge), ItemsOf(rs, o.judge));
    ghost var start, removals, additions := out.items, Removals(diff.removed, path), Additions(diff.added, path);
    for k := 0 to |diff.removed|
      invariant out.items + Removals(diff.removed[k..], path) == start + Removals(diff.removed, path)
    {
      assert diff.removed[k..][1..] == diff.removed[k + 1..];
      out.Append(Change(path, Removed, Str(diff.removed[k]), Nil, "", ""));
    }
    assert out.items == start + removals;
    start := out.items;
    for k := 0 to |diff.added|
      invariant out.items + Additions(diff.added[k..], path) == start + Additions(diff.added, path)
    {
      assert diff.added[k..][1..] == diff.added[k + 1..];
      out.Append(Change(path, Added, Nil, Str(diff.added[k]), "", ""));
    }
    assert out.items == start + additions;
    Associate(old(out.items), removals, additions);
    assert DiffMultisets(ls, rs, path, o) == removals + additions;
  }
}
