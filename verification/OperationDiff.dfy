/** What the comparison of two operation lists reports, in general and when one list is a permutation of the other. */
module OperationDiff {
  import opened Text
  import opened Tree
  import opened Changes
  import opened StructuralDiff
  import opened GreedyMatching

  // ---------------------------------------------------------------- sorting by position

  function ChangesOf(indexed: seq<Positioned>): seq<Change> {
    if indexed == [] then [] else [indexed[0].change] + ChangesOf(indexed[1..])
  }

  function ChangesBelow(indexed: seq<Positioned>, bound: nat): seq<Change> {
    if indexed == [] then []
    else (if indexed[0].pos < bound then [indexed[0].change] else []) + ChangesBelow(indexed[1..], bound)
  }

  lemma {:induction false} OneMorePosition(indexed: seq<Positioned>, bound: nat)
    ensures multiset(ChangesBelow(indexed, bound + 1)) == multiset(ChangesBelow(indexed, bound)) + multiset(ChangesAt(indexed, bound))
  {
    if indexed != [] {
      OneMorePosition(indexed[1..], bound);
    }
  }

  lemma {:induction false} SortedBelow(indexed: seq<Positioned>, bound: nat)
    ensures multiset(StableByPosition(indexed, bound)) == multiset(ChangesBelow(indexed, bound))
  {
    hide ChangesAt, ChangesBelow;
    if bound == 0 {
      NoneBelowZero(indexed);
    } else {
      SortedBelow(indexed, bound - 1);
      OneMorePosition(indexed, bound - 1);
    }
  }

  lemma {:induction false} NoneBelowZero(indexed: seq<Positioned>)
    ensures ChangesBelow(indexed, 0) == []
  {
    if indexed != [] {
      NoneBelowZero(indexed[1..]);
    }
  }

  lemma {:induction false} AllBelow(indexed: seq<Positioned>, bound: nat)
    requires forall k :: 0 <= k < |indexed| ==> indexed[k].pos < bound
    ensures ChangesBelow(indexed, bound) == ChangesOf(indexed)
  {
    if indexed != [] {
      AllBelow(indexed[1..], bound);
    }
  }

  /** Sorting by position loses and invents nothing. */
  lemma SortPermutes(indexed: seq<Positioned>, bound: nat)
    requires forall k :: 0 <= k < |indexed| ==> indexed[k].pos < bound
    ensures multiset(StableByPosition(indexed, bound)) == multiset(ChangesOf(indexed))
  {
    SortedBelow(indexed, bound);
    AllBelow(indexed, bound);
  }

  // ---------------------------------------------------------------- leftover operations

  function LeftsVisited(visits: seq<Visit>): seq<nat> {
    if visits == [] then []
    else (if visits[0].left.Some? then [visits[0].left.value] else []) + LeftsVisited(visits[1..])
  }

  function RightsVisited(visits: seq<Visit>): seq<nat> {
    if visits == [] then []
    else (if visits[0].right.Some? then [visits[0].right.value] else []) + RightsVisited(visits[1..])
  }

  /** Each unmatched operation is paired, removed or added exactly once, and only a surplus is removed or added. */
  lemma {:induction false} LeftoversVisitedOnce(lefts: seq<nat>, rights: seq<nat>)
    ensures LeftsVisited(LeftoverVisits(lefts, rights)) == lefts
    ensures RightsVisited(LeftoverVisits(lefts, rights)) == rights
    ensures |LeftoverVisits(lefts, rights)| == Longer(|lefts|, |rights|)
  {
    if lefts == [] {
      AdditionsVisit(rights);
    } else if rights == [] {
      RemovalsVisit(lefts);
    } else {
      LeftoversVisitedOnce(lefts[1..], rights[1..]);
    }
  }

  lemma {:induction false} AdditionsVisit(indices: seq<nat>)
    ensures LeftsVisited(AdditionVisits(indices)) == [] && RightsVisited(AdditionVisits(indices)) == indices
    ensures |AdditionVisits(indices)| == |indices|
  {
    if indices != [] {
      AdditionsVisit(indices[1..]);
    }
  }

  lemma {:induction false} RemovalsVisit(indices: seq<nat>)
    ensures RightsVisited(RemovalVisits(indices)) == [] && LeftsVisited(RemovalVisits(indices)) == indices
    ensures |RemovalVisits(indices)| == |indices|
  {
    if indices != [] {
      RemovalsVisit(indices[1..]);
    }
  }

  // ---------------------------------------------------------------- permutations

  function ReorderChanges(moved: seq<(nat, nat)>, path: string): seq<Change> {
    if moved == [] then [] else [ReorderChange(moved[0], path)] + ReorderChanges(moved[1..], path)
  }

  lemma {:induction false} ReordersStripped(moved: seq<(nat, nat)>, path: string, bound: nat)
    requires forall k :: 0 <= k < |moved| ==> moved[k].1 < bound
    ensures ChangesOf(Reorders(moved, path)) == ReorderChanges(moved, path)
    ensures forall k :: 0 <= k < |Reorders(moved, path)| ==> Reorders(moved, path)[k].pos < bound
  {
    hide ReorderChange;
    if moved != [] {
      ReordersStripped(moved[1..], path, bound);
    }
  }

  lemma {:induction false} ReordersAreMoves(moved: seq<(nat, nat)>, path: string)
    requires forall k :: 0 <= k < |moved| ==> moved[k].0 != moved[k].1
    ensures |ReorderChanges(moved, path)| == |moved|
    ensures forall c :: c in ReorderChanges(moved, path) ==> c.op == Reordered && c.before != c.after
  {
    if moved != [] {
      ReordersAreMoves(moved[1..], path);
    }
  }

  lemma SameMultiset(xs: seq<Change>, ys: seq<Change>)
    requires multiset(xs) == multiset(ys)
    ensures |xs| == |ys|
    ensures forall c :: c in xs <==> c in ys
  {
    assert |multiset(xs)| == |xs| && |multiset(ys)| == |ys|;
    forall c
      ensures c in xs <==> c in ys
    {
      assert c in multiset(xs) <==> c in multiset(ys);
    }
  }

  /** What the comparison of a permutation reports: its moves and nothing else. */
  lemma OnlyMoves(xs: seq<Node>, ys: seq<Node>, path: string, o: Options)
    requires AllMatched(Matched(xs, ys, Same(o.judge)))
    ensures multiset(DiffOperations(xs, ys, path, o)) == multiset(ReorderChanges(Matched(xs, ys, Same(o.judge)).pairs, path))
  {
    hide SameNode, ReorderChange;
    var p, bound := Matched(xs, ys, Same(o.judge)), Longer(|xs|, |ys|);
    EveryIndexUsedOnce(xs, ys, Same(o.judge));
    forall k | 0 <= k < |p.pairs|
      ensures p.pairs[k].1 < bound
    {
      assert IsMove(xs, ys, Same(o.judge), p.pairs[k]);
    }
    NothingLeftOver(p);
    assert VisitTagged([], xs, ys, path, o) == [];
    assert Reorders(p.pairs, path) + [] == Reorders(p.pairs, path);
    ReordersStripped(p.pairs, path, bound);
    SortPermutes(Reorders(p.pairs, path), bound);
  }

  lemma NothingLeftOver(p: Pairing)
    requires AllMatched(p)
    ensures OperationVisits(p) == []
  {
    NoneUnmatched(p.left, 0);
    NoneUnmatched(p.right, 0);
  }

  /**
   When node sameness is an equivalence and the right operations are a permutation of the left ones, every
   change is a reordering between two different positions, there are as many as positions that differ, they
   are exactly the moves detected, and making those moves turns the left list into the right one.
   */
  lemma PermutationReportsOnlyMoves(xs: seq<Node>, ys: seq<Node>, path: string, o: Options)
    requires Equivalence(Elements(xs) + Elements(ys), Same(o.judge)) && IsPermutation(xs, ys, Same(o.judge))
    ensures var cs, moved := DiffOperations(xs, ys, path, o), Matched(xs, ys, Same(o.judge)).pairs;
            multiset(cs) == multiset(ReorderChanges(moved, path))
            && |cs| == |Differing(xs, ys, Same(o.judge), 0)|
            && (forall c :: c in cs ==> c.op == Reordered && c.before != c.after)
            && OrderRestored(xs, ys, Same(o.judge), moved)
  {
    hide SameNode, DiffOperations, ReorderChange;
    var cs, moved := DiffOperations(xs, ys, path, o), Matched(xs, ys, Same(o.judge)).pairs;
    PermutationDetectionIsExact(xs, ys, Same(o.judge));
    OnlyMoves(xs, ys, path, o);
    ReordersAreMoves(moved, path);
    SameMultiset(cs, ReorderChanges(moved, path));
  }

  // ---------------------------------------------------------------- two operations swapped

  /** The lists agree on `i` operations, then `x` and `y` follow in either order. */
  function Swapped<T>(i: nat, x: T, y: T): (ops: seq<T>)
    ensures |ops| == i + 2
  {
    seq(i, _ => x) + [x, y]
  }

  function SwappedBack<T>(i: nat, x: T, y: T): (ops: seq<T>)
    ensures |ops| == i + 2
  {
    seq(i, _ => x) + [y, x]
  }

  lemma {:induction false} KeptAreSkipped<T>(left: seq<T>, right: seq<T>, same: (T, T) -> bool, p: Pairing, i: nat, n: nat)
    requires |p.left| == |left| && |p.right| == |right| && i <= n <= |left| && forall k :: i <= k < n ==> p.left[k]
    ensures Shifted(left, right, same, p, i) == Shifted(left, right, same, p, n)
    decreases n - i
  {
    if i < n {
      KeptAreSkipped(left, right, same, p, i + 1, n);
    }
  }

  /** Swapping two different neighbours is detected as two moves. */
  lemma SwapIsTwoMoves<T>(i: nat, x: T, y: T, same: (T, T) -> bool)
    requires same(x, x) && same(y, y) && !same(x, y) && !same(y, x)
    ensures var p := Matched(Swapped(i, x, y), SwappedBack(i, x, y), same);
            p.pairs == [(i, i + 1), (i + 1, i)] && AllMatched(p)
  {
    var left, right := Swapped(i, x, y), SwappedBack(i, x, y);
    var p0 := InPlace(left, right, same);
    KeptAreSkipped(left, right, same, p0, 0, i);
    var p1 := Pairing(p0.left[i := true], p0.right[i + 1 := true], [(i, i + 1)]);
    assert Shifted(left, right, same, p0, i) == Shifted(left, right, same, p1, i + 1) by {
      assert FirstFree(x, right, p0.right, same, 0) == i + 1;
      assert p0.pairs + [(i, i + 1)] == p1.pairs;
    }
    var p2 := Pairing(p1.left[i + 1 := true], p1.right[i := true], [(i, i + 1), (i + 1, i)]);
    assert Shifted(left, right, same, p1, i + 1) == p2 by {
      assert FirstFree(y, right, p1.right, same, 0) == i;
      assert p1.pairs + [(i + 1, i)] == p2.pairs;
    }
  }

  lemma TwoReorders(moves: seq<(nat, nat)>, path: string)
    requires |moves| == 2
    ensures ReorderChange(moves[1], path) in ReorderChanges(moves, path)
  {
    assert ReorderChanges(moves, path) == [ReorderChange(moves[0], path)] + ReorderChanges(moves[1..], path);
  }

  /** The comparison of the two lists reports the two moves. */
  lemma SwapIsReported(i: nat, x: Node, y: Node, path: string, o: Options)
    requires SameNode(x, x, o.judge) && SameNode(y, y, o.judge) && !SameNode(x, y, o.judge) && !SameNode(y, x, o.judge)
    ensures ReorderChange((i + 1, i), path) in DiffOperations(Swapped(i, x, y), SwappedBack(i, x, y), path, o)
  {
    hide SameNode, ReorderChange, DiffOperations, Swapped, SwappedBack, AllMatched;
    var xs, ys := Swapped(i, x, y), SwappedBack(i, x, y);
    SwapIsTwoMoves(i, x, y, Same(o.judge));
    OnlyMoves(xs, ys, path, o);
    var moves := [(i, i + 1), (i + 1, i)];
    TwoReorders(moves, path);
    SameMultiset(DiffOperations(xs, ys, path, o), ReorderChanges(moves, path));
  }
}
