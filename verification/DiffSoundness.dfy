/** What an empty change list means: the two trees are related node by node. */
module DiffSoundness {
  import opened Text
  import opened Tree
  import opened Changes
  import opened PathFilters
  import opened StructuralDiff
  import opened GreedyMatching

  /** The default options: nothing masked, lists compared by position. Scalar sameness stays arbitrary. */
  predicate Default(o: Options) {
    !o.alignLists && !o.unorderedSigners && Empty(o.mask)
  }

  /** The pairs match every index below `m` with a different index below `n`, leaving none out. */
  ghost predicate Bijection(pairs: seq<(nat, nat)>, m: nat, n: nat) {
    Disjoint(pairs)
    && (forall k :: 0 <= k < |pairs| ==> pairs[k].0 < m && pairs[k].1 < n)
    && (forall i :: 0 <= i < m ==> HasLeft(pairs, i))
    && forall j :: 0 <= j < n ==> HasRight(pairs, j)
  }

  /**
   Related trees: nodes of one kind (or byte-equal leaves), the same scalars, structs with the same field names
   and related fields, lists related position by position, and event lists related by some bijection.
   */
  ghost predicate Related(a: Node, b: Node, path: string, o: Options)
    decreases a
  {
    if !SameKind(a, b) then o.judge.binaryEqual(a, b)
    else match a
      case Scalar(_, _, _, _) => o.judge.sameScalar(a, b)
      case Struct(_, _, _, fields) =>
        (forall i :: 0 <= i < |b.children| ==> Child(a, b.children[i].name).Some?)
        && forall i :: 0 <= i < |fields| ==>
             Child(b, fields[i].name).Some?
             && Related(fields[i], Child(b, fields[i].name).value, Join(path, fields[i].name), o)
      case List(_, _, _, items) =>
        if !IsOperationCollection(CollectionName(path, a, b)) && IsEventCollection(CollectionName(path, a, b), a, b) then
          exists pairs: seq<(nat, nat)> :: Bijection(pairs, |items|, |b.children|)
            && forall k :: 0 <= k < |pairs| ==> Related(items[pairs[k].0], b.children[pairs[k].1], At(path, pairs[k].1), o)
        else
          |items| == |b.children| && forall i :: 0 <= i < |items| ==> Related(items[i], b.children[i], At(path, i), o)
  }

  // ---------------------------------------------------------------- reading an empty list of changes

  lemma {:induction false} VisitsAppend(u: seq<Visit>, v: seq<Visit>, xs: seq<Node>, ys: seq<Node>, path: string, o: Options)
    ensures VisitAll(u + v, xs, ys, path, o) == VisitAll(u, xs, ys, path, o) + VisitAll(v, xs, ys, path, o)
    decreases |u|
  {
    hide VisitOne;
    if u == [] {
      assert u + v == v;
    } else {
      assert (u + v)[1..] == u[1..] + v;
      VisitsAppend(u[1..], v, xs, ys, path, o);
      Associate(VisitOne(u[0], xs, ys, path, o), VisitAll(u[1..], xs, ys, path, o), VisitAll(v, xs, ys, path, o));
    }
  }

  lemma SilentAppend(u: seq<Visit>, v: seq<Visit>, xs: seq<Node>, ys: seq<Node>, path: string, o: Options)
    requires VisitAll(u + v, xs, ys, path, o) == []
    ensures VisitAll(u, xs, ys, path, o) == [] && VisitAll(v, xs, ys, path, o) == []
  {
    VisitsAppend(u, v, xs, ys, path, o);
  }

  lemma {:induction false} SilentVisits(visits: seq<Visit>, xs: seq<Node>, ys: seq<Node>, path: string, o: Options, k: nat)
    requires VisitAll(visits, xs, ys, path, o) == [] && k < |visits|
    ensures VisitOne(visits[k], xs, ys, path, o) == []
    decreases |visits|
  {
    hide VisitOne;
    if k > 0 {
      SilentVisits(visits[1..], xs, ys, path, o, k - 1);
    }
  }

  /** A visit to one side only is never silent. */
  lemma OneSidedVisitSpeaks(v: Visit, xs: seq<Node>, ys: seq<Node>, path: string, o: Options)
    requires Default(o) && VisitOne(v, xs, ys, path, o) == []
    ensures Picked(xs, v.left).Some? == Picked(ys, v.right).Some?
  {
  }

  lemma VisitedPair(v: Visit, xs: seq<Node>, ys: seq<Node>, path: string, o: Options)
    requires v.left.Some? && v.right.Some? && v.left.value < |xs| && v.right.value < |ys|
    ensures VisitOne(v, xs, ys, path, o) == DiffNodes(Some(xs[v.left.value]), Some(ys[v.right.value]), At(path, v.at), o)
  {
  }

  lemma RemovalSpeaks(indices: seq<nat>, xs: seq<Node>, ys: seq<Node>, path: string, o: Options)
    requires Default(o) && VisitAll(RemovalVisits(indices), xs, ys, path, o) == []
    requires forall k :: 0 <= k < |indices| ==> indices[k] < |xs|
    ensures indices == []
  {
    if indices != [] {
      SilentVisits(RemovalVisits(indices), xs, ys, path, o, 0);
      OneSidedVisitSpeaks(RemovalVisits(indices)[0], xs, ys, path, o);
    }
  }

  lemma AdditionSpeaks(indices: seq<nat>, xs: seq<Node>, ys: seq<Node>, path: string, o: Options)
    requires Default(o) && VisitAll(AdditionVisits(indices), xs, ys, path, o) == []
    requires forall k :: 0 <= k < |indices| ==> indices[k] < |ys|
    ensures indices == []
  {
    if indices != [] {
      SilentVisits(AdditionVisits(indices), xs, ys, path, o, 0);
      OneSidedVisitSpeaks(AdditionVisits(indices)[0], xs, ys, path, o);
    }
  }

  // ---------------------------------------------------------------- positional lists

  lemma {:induction false} PositionalAt(m: nat, n: nat, i: nat, k: nat)
    requires i <= k < Longer(m, n)
    ensures k - i < |PositionalVisits(m, n, i)|
    ensures PositionalVisits(m, n, i)[k - i] == Visit(if k < m then Some(k) else None, if k < n then Some(k) else None, k)
    decreases k - i
  {
    if i < k {
      PositionalAt(m, n, i + 1, k);
    }
  }

  /** The elements at one position are both there, and silent. */
  lemma SilentPosition(xs: seq<Node>, ys: seq<Node>, path: string, o: Options, k: nat)
    requires Default(o) && VisitAll(PositionalVisits(|xs|, |ys|, 0), xs, ys, path, o) == []
    requires k < Longer(|xs|, |ys|)
    ensures k < |xs| && k < |ys| && DiffNodes(Some(xs[k]), Some(ys[k]), At(path, k), o) == []
  {
    var visits := PositionalVisits(|xs|, |ys|, 0);
    PositionalAt(|xs|, |ys|, 0, k);
    SilentVisits(visits, xs, ys, path, o, k);
    OneSidedVisitSpeaks(visits[k], xs, ys, path, o);
    VisitedPair(visits[k], xs, ys, path, o);
  }

  // ---------------------------------------------------------------- event lists

  lemma {:induction false} PairVisitsAt(pairs: seq<(nat, nat)>, k: nat)
    requires k < |pairs|
    ensures |PairVisits(pairs)| == |pairs| && PairVisits(pairs)[k] == Visit(Some(pairs[k].0), Some(pairs[k].1), pairs[k].1)
    decreases |pairs|
  {
    if k > 0 {
      PairVisitsAt(pairs[1..], k - 1);
    } else if |pairs| > 1 {
      PairVisitsAt(pairs[1..], 0);
    }
  }

  lemma AllPaired(p: Pairing)
    requires OneToOne(p) && Unmatched(p.left, 0) == [] && Unmatched(p.right, 0) == []
    ensures Bijection(p.pairs, |p.left|, |p.right|)
  {
    UnmatchedExact(p.left, 0);
    UnmatchedExact(p.right, 0);
    forall i | 0 <= i < |p.left|
      ensures HasLeft(p.pairs, i)
    {
      assert p.left[i];
    }
    forall j | 0 <= j < |p.right|
      ensures HasRight(p.pairs, j)
    {
      assert p.right[j];
    }
  }

  /** Visits that remove or add elements are never silent, so a silent event comparison has none. */
  lemma SilentPairsOnly(pairs: seq<(nat, nat)>, lefts: seq<nat>, rights: seq<nat>, xs: seq<Node>, ys: seq<Node>, path: string, o: Options)
    requires Default(o)
    requires VisitAll(PairVisits(pairs) + RemovalVisits(lefts) + AdditionVisits(rights), xs, ys, path, o) == []
    requires forall k :: 0 <= k < |lefts| ==> lefts[k] < |xs|
    requires forall k :: 0 <= k < |rights| ==> rights[k] < |ys|
    ensures lefts == [] && rights == [] && VisitAll(PairVisits(pairs), xs, ys, path, o) == []
  {
    hide VisitAll, PairVisits, RemovalVisits, AdditionVisits, Default;
    SilentAppend(PairVisits(pairs) + RemovalVisits(lefts), AdditionVisits(rights), xs, ys, path, o);
    SilentAppend(PairVisits(pairs), RemovalVisits(lefts), xs, ys, path, o);
    RemovalSpeaks(lefts, xs, ys, path, o);
    AdditionSpeaks(rights, xs, ys, path, o);
  }

  /** A silent event comparison leaves no event unpaired. */
  lemma SilentEventsArePaired(p: Pairing, xs: seq<Node>, ys: seq<Node>, path: string, o: Options)
    requires Default(o) && |p.left| == |xs| && |p.right| == |ys| && OneToOne(p)
    requires VisitAll(EventVisits(p), xs, ys, path, o) == []
    ensures Bijection(p.pairs, |xs|, |ys|)
    ensures VisitAll(PairVisits(p.pairs), xs, ys, path, o) == []
  {
    UnmatchedExact(p.left, 0);
    UnmatchedExact(p.right, 0);
    SilentPairsOnly(p.pairs, Unmatched(p.left, 0), Unmatched(p.right, 0), xs, ys, path, o);
    AllPaired(p);
  }

  lemma SilentEventPair(pairs: seq<(nat, nat)>, xs: seq<Node>, ys: seq<Node>, path: string, o: Options, k: nat)
    requires VisitAll(PairVisits(pairs), xs, ys, path, o) == []
    requires k < |pairs| && pairs[k].0 < |xs| && pairs[k].1 < |ys|
    ensures DiffNodes(Some(xs[pairs[k].0]), Some(ys[pairs[k].1]), At(path, pairs[k].1), o) == []
  {
    PairVisitsAt(pairs, k);
    SilentVisits(PairVisits(pairs), xs, ys, path, o, k);
    VisitedPair(PairVisits(pairs)[k], xs, ys, path, o);
  }

  // ---------------------------------------------------------------- operation lists

  lemma {:induction false} NothingSortedNothingThere(indexed: seq<Positioned>, bound: nat)
    requires StableByPosition(indexed, bound) == []
    ensures forall k :: 0 <= k < |indexed| ==> indexed[k].pos >= bound
  {
    if bound > 0 {
      NothingSortedNothingThere(indexed, bound - 1);
      NothingAt(indexed, bound - 1);
    }
  }

  lemma {:induction false} NothingAt(indexed: seq<Positioned>, pos: nat)
    requires ChangesAt(indexed, pos) == []
    ensures forall k :: 0 <= k < |indexed| ==> indexed[k].pos != pos
  {
    if indexed != [] {
      NothingAt(indexed[1..], pos);
    }
  }

  lemma {:induction false} TaggedSilent(visits: seq<Visit>, xs: seq<Node>, ys: seq<Node>, path: string, o: Options, bound: nat)
    requires forall k :: 0 <= k < |visits| ==> visits[k].at < bound
    requires forall k :: 0 <= k < |VisitTagged(visits, xs, ys, path, o)| ==> VisitTagged(visits, xs, ys, path, o)[k].pos >= bound
    ensures VisitAll(visits, xs, ys, path, o) == []
    decreases |visits|
  {
    hide VisitOne;
    if visits != [] {
      var head, rest := PositionAll(visits[0].at, VisitOne(visits[0], xs, ys, path, o)), VisitTagged(visits[1..], xs, ys, path, o);
      assert VisitTagged(visits, xs, ys, path, o) == head + rest;
      EitherBeyond(head, rest, bound);
      TaggedSilent(visits[1..], xs, ys, path, o, bound);
      NothingPositioned(visits[0].at, VisitOne(visits[0], xs, ys, path, o), bound);
    }
  }

  lemma EitherBeyond(head: seq<Positioned>, rest: seq<Positioned>, bound: nat)
    requires forall k :: 0 <= k < |head + rest| ==> (head + rest)[k].pos >= bound
    ensures forall k :: 0 <= k < |head| ==> head[k].pos >= bound
    ensures forall k :: 0 <= k < |rest| ==> rest[k].pos >= bound
  {
    forall k | 0 <= k < |head|
      ensures head[k].pos >= bound
    {
      assert (head + rest)[k] == head[k];
    }
    forall k | 0 <= k < |rest|
      ensures rest[k].pos >= bound
    {
      assert (head + rest)[|head| + k] == rest[k];
    }
  }

  lemma NothingPositioned(pos: nat, changes: seq<Change>, bound: nat)
    requires pos < bound && forall k :: 0 <= k < |PositionAll(pos, changes)| ==> PositionAll(pos, changes)[k].pos >= bound
    ensures changes == []
  {
    if changes != [] {
      FirstPositioned(pos, changes);
    }
  }

  lemma FirstPositioned(pos: nat, changes: seq<Change>)
    requires changes != []
    ensures |PositionAll(pos, changes)| > 0 && PositionAll(pos, changes)[0].pos == pos
  {
  }

  lemma {:induction false} LeftoverInRange(lefts: seq<nat>, rights: seq<nat>, m: nat, n: nat)
    requires forall k :: 0 <= k < |lefts| ==> lefts[k] < m
    requires forall k :: 0 <= k < |rights| ==> rights[k] < n
    ensures forall k :: 0 <= k < |LeftoverVisits(lefts, rights)| ==> LeftoverVisits(lefts, rights)[k].at < Longer(m, n)
  {
    if lefts == [] {
      AdditionsInRange(rights, Longer(m, n));
    } else if rights == [] {
      RemovalsInRange(lefts, Longer(m, n));
    } else {
      LeftoverInRange(lefts[1..], rights[1..], m, n);
    }
  }

  lemma {:induction false} RemovalsInRange(indices: seq<nat>, bound: nat)
    requires forall k :: 0 <= k < |indices| ==> indices[k] < bound
    ensures forall k :: 0 <= k < |RemovalVisits(indices)| ==> RemovalVisits(indices)[k].at < bound
  {
    if indices != [] {
      RemovalsInRange(indices[1..], bound);
    }
  }

  lemma {:induction false} AdditionsInRange(indices: seq<nat>, bound: nat)
    requires forall k :: 0 <= k < |indices| ==> indices[k] < bound
    ensures forall k :: 0 <= k < |AdditionVisits(indices)| ==> AdditionVisits(indices)[k].at < bound
  {
    if indices != [] {
      AdditionsInRange(indices[1..], bound);
    }
  }

  lemma NoMoves(pairs: seq<(nat, nat)>, path: string, bound: nat)
    requires forall k :: 0 <= k < |pairs| ==> pairs[k].1 < bound
    requires forall k :: 0 <= k < |Reorders(pairs, path)| ==> Reorders(pairs, path)[k].pos >= bound
    ensures pairs == []
  {
    if pairs != [] {
      FirstReorder(pairs, path);
    }
  }

  lemma FirstReorder(pairs: seq<(nat, nat)>, path: string)
    requires pairs != []
    ensures |Reorders(pairs, path)| > 0 && Reorders(pairs, path)[0].pos == pairs[0].1
  {
  }

  lemma MovesInRange(xs: seq<Node>, ys: seq<Node>, o: Options, p: Pairing)
    requires Consistent(xs, ys, Same(o.judge), p, |xs|)
    ensures forall k :: 0 <= k < |p.pairs| ==> p.pairs[k].1 < Longer(|xs|, |ys|)
  {
    forall k | 0 <= k < |p.pairs|
      ensures p.pairs[k].1 < Longer(|xs|, |ys|)
    {
      assert IsMove(xs, ys, Same(o.judge), p.pairs[k]);
    }
  }

  /** A silent operation comparison moved nothing, and its leftover visits are silent. */
  lemma SilentOperations(xs: seq<Node>, ys: seq<Node>, path: string, o: Options)
    requires DiffOperations(xs, ys, path, o) == []
    ensures var p := Matched(xs, ys, Same(o.judge));
            p.pairs == [] && FlagsExact(xs, ys, Same(o.judge), p)
            && VisitAll(OperationVisits(p), xs, ys, path, o) == []
  {
    var p := Matched(xs, ys, Same(o.judge));
    EveryIndexUsedOnce(xs, ys, Same(o.judge));
    MovesInRange(xs, ys, o, p);
    SilentMatching(p, xs, ys, path, o);
  }

  lemma SilentMatching(p: Pairing, xs: seq<Node>, ys: seq<Node>, path: string, o: Options)
    requires |p.left| == |xs| && |p.right| == |ys|
    requires forall k :: 0 <= k < |p.pairs| ==> p.pairs[k].1 < Longer(|xs|, |ys|)
    requires StableByPosition(Reorders(p.pairs, path) + VisitTagged(OperationVisits(p), xs, ys, path, o), Longer(|xs|, |ys|)) == []
    ensures p.pairs == [] && VisitAll(OperationVisits(p), xs, ys, path, o) == []
  {
    var visits, bound := OperationVisits(p), Longer(|xs|, |ys|);
    var moves, rest := Reorders(p.pairs, path), VisitTagged(visits, xs, ys, path, o);
    NothingSortedNothingThere(moves + rest, bound);
    EitherBeyond(moves, rest, bound);
    NoMoves(p.pairs, path, bound);
    OperationVisitsInRange(p);
    TaggedSilent(visits, xs, ys, path, o, bound);
  }

  lemma OperationVisitsInRange(p: Pairing)
    ensures forall k :: 0 <= k < |OperationVisits(p)| ==> OperationVisits(p)[k].at < Longer(|p.left|, |p.right|)
  {
    UnmatchedExact(p.left, 0);
    UnmatchedExact(p.right, 0);
    LeftoverInRange(Unmatched(p.left, 0), Unmatched(p.right, 0), |p.left|, |p.right|);
  }

  lemma {:induction false} AllUnmatched(f: seq<bool>, i: nat)
    requires i <= |f| && forall k :: i <= k < |f| ==> !f[k]
    ensures |Unmatched(f, i)| == |f| - i
    decreases |f| - i
  {
    if i < |f| {
      AllUnmatched(f, i + 1);
    }
  }

  /** When only shared positions are matched, the surplus of unmatched elements is the surplus of elements. */
  lemma {:induction false} UnmatchedSurplus(f: seq<bool>, g: seq<bool>, i: nat)
    requires i <= |f| && i <= |g|
    requires forall k :: i <= k < |f| ==> f[k] == (k < |g| && g[k])
    requires forall k :: i <= k < |g| ==> g[k] == (k < |f| && f[k])
    ensures |Unmatched(f, i)| - |Unmatched(g, i)| == |f| - |g|
    decreases |f| - i
  {
    if i == |f| || i == |g| {
      AllUnmatched(f, i);
      AllUnmatched(g, i);
    } else {
      UnmatchedSurplus(f, g, i + 1);
    }
  }

  lemma {:induction false} LeftoverLength(lefts: seq<nat>, rights: seq<nat>, xs: seq<Node>, ys: seq<Node>, path: string, o: Options)
    requires Default(o) && VisitAll(LeftoverVisits(lefts, rights), xs, ys, path, o) == []
    requires forall k :: 0 <= k < |lefts| ==> lefts[k] < |xs|
    requires forall k :: 0 <= k < |rights| ==> rights[k] < |ys|
    ensures |lefts| == |rights|
    ensures forall k :: 0 <= k < |lefts| ==> DiffNodes(Some(xs[lefts[k]]), Some(ys[rights[k]]), At(path, rights[k]), o) == []
    decreases |lefts|
  {
    if lefts == [] {
      AdditionSpeaks(rights, xs, ys, path, o);
    } else if rights == [] {
      RemovalSpeaks(lefts, xs, ys, path, o);
    } else {
      var v := Visit(Some(lefts[0]), Some(rights[0]), rights[0]);
      var rest := LeftoverVisits(lefts[1..], rights[1..]);
      assert LeftoverVisits(lefts, rights) == [v] + rest;
      SilentAppend([v], rest, xs, ys, path, o);
      SilentVisits(LeftoverVisits(lefts, rights), xs, ys, path, o, 0);
      VisitedPair(v, xs, ys, path, o);
      LeftoverLength(lefts[1..], rights[1..], xs, ys, path, o);
    }
  }

  lemma FlagsArePositional(xs: seq<Node>, ys: seq<Node>, o: Options, p: Pairing)
    requires p.pairs == [] && FlagsExact(xs, ys, Same(o.judge), p)
    ensures p == InPlace(xs, ys, Same(o.judge))
  {
    assert p.left == InPlace(xs, ys, Same(o.judge)).left;
    assert p.right == InPlace(xs, ys, Same(o.judge)).right;
  }

  /** In a silent operation comparison each element is the same as, or silently compared with, its counterpart. */
  lemma SilentOperationAt(xs: seq<Node>, ys: seq<Node>, path: string, o: Options)
    requires Default(o) && DiffOperations(xs, ys, path, o) == []
    ensures |xs| == |ys|
    ensures forall i :: 0 <= i < |xs| ==> SameNode(xs[i], ys[i], o.judge) || DiffNodes(Some(xs[i]), Some(ys[i]), At(path, i), o) == []
  {
    hide DiffNodes, At;
    var p := Matched(xs, ys, Same(o.judge));
    SilentOperations(xs, ys, path, o);
    FlagsArePositional(xs, ys, o, p);
    SilentLeftovers(p, xs, ys, path, o);
  }

  lemma InPlaceSurplus(xs: seq<Node>, ys: seq<Node>, j: Judge)
    ensures var p := InPlace(xs, ys, Same(j));
            |Unmatched(p.left, 0)| - |Unmatched(p.right, 0)| == |xs| - |ys|
            && (|xs| == |ys| ==> p.left == p.right)
  {
    hide SameNode;
    var p := InPlace(xs, ys, Same(j));
    UnmatchedSurplus(p.left, p.right, 0);
  }

  lemma OperationsAreLeftovers(p: Pairing)
    ensures OperationVisits(p) == LeftoverVisits(Unmatched(p.left, 0), Unmatched(p.right, 0))
  {
  }

  lemma SilentLeftovers(p: Pairing, xs: seq<Node>, ys: seq<Node>, path: string, o: Options)
    requires Default(o) && p == InPlace(xs, ys, Same(o.judge))
    requires VisitAll(OperationVisits(p), xs, ys, path, o) == []
    ensures |xs| == |ys|
    ensures forall i :: 0 <= i < |xs| ==> SameNode(xs[i], ys[i], o.judge) || DiffNodes(Some(xs[i]), Some(ys[i]), At(path, i), o) == []
  {
    hide DiffNodes, At, SameNode, VisitAll, OperationVisits, Unmatched, Default;
    var lefts := Unmatched(p.left, 0);
    OperationsAreLeftovers(p);
    UnmatchedExact(p.left, 0);
    UnmatchedExact(p.right, 0);
    LeftoverLength(lefts, Unmatched(p.right, 0), xs, ys, path, o);
    InPlaceSurplus(xs, ys, o.judge);
    forall i | 0 <= i < |xs| && !SameNode(xs[i], ys[i], o.judge)
      ensures DiffNodes(Some(xs[i]), Some(ys[i]), At(path, i), o) == []
    {
      assert !p.left[i];
      var k :| 0 <= k < |lefts| && lefts[k] == i;
    }
  }

  // ---------------------------------------------------------------- same nodes are related

  lemma IdentityIsBijection(n: nat)
    ensures Bijection(seq(n, k => (k, k)), n, n)
  {
    var pairs := seq(n, k => (k, k));
    forall i | 0 <= i < n
      ensures HasLeft(pairs, i) && HasRight(pairs, i)
    {
      assert pairs[i] == (i, i);
    }
  }

  lemma {:induction false} SameIsRelated(a: Node, b: Node, path: string, o: Options)
    requires SameNode(a, b, o.judge) && UniqueNames(a) && UniqueNames(b)
    ensures Related(a, b, path, o)
    decreases a
  {
    if SameKind(a, b) && !a.Scalar? {
      if a.children != [] {
        SameNodesAt(a.children, b.children, o.judge, 0);
      }
      forall i, p | 0 <= i < |a.children|
        ensures Related(a.children[i], b.children[i], p, o)
      {
        SameNodesAt(a.children, b.children, o.judge, i);
        SameIsRelated(a.children[i], b.children[i], p, o);
      }
      if a.Struct? {
        forall i | 0 <= i < |a.children|
          ensures Child(b, a.children[i].name) == Some(b.children[i]) && Child(a, b.children[i].name).Some?
        {
          SameNodesAt(a.children, b.children, o.judge, i);
          FirstNamedUnique(a.children, i);
          FirstNamedUnique(b.children, i);
        }
      } else {
        IdentityIsBijection(|a.children|);
      }
    }
  }

  // ---------------------------------------------------------------- soundness

  lemma {:induction false} SilentLeftField(fields: seq<Node>, b: Node, path: string, o: Options, i: nat)
    requires b.Struct? && LeftFields(fields, b, path, o) == [] && i < |fields|
    ensures LeftField(fields[i], b, path, o) == []
  {
    hide LeftField;
    if i > 0 {
      SilentLeftField(fields[1..], b, path, o, i - 1);
    }
  }

  lemma {:induction false} SilentRightField(fields: seq<Node>, a: Node, path: string, o: Options, i: nat)
    requires RightFields(fields, a, path, o) == [] && i < |fields|
    ensures RightField(fields[i], a, path, o) == []
  {
    hide RightField;
    if i > 0 {
      SilentRightField(fields[1..], a, path, o, i - 1);
    }
  }

  lemma SilentRightFieldIsShared(field: Node, a: Node, path: string, o: Options)
    requires Default(o) && RightField(field, a, path, o) == []
    ensures Child(a, field.name).Some?
  {
  }

  lemma Unmasked(a: Option<Node>, b: Option<Node>, path: string, o: Options)
    requires Default(o) && DiffNodes(a, b, path, o) == []
    ensures a.Some? == b.Some?
    ensures a.Some? && b.Some? ==> DiffPair(a.value, b.value, path, o) == []
  {
  }

  lemma SilentStruct(a: Node, b: Node, path: string, o: Options)
    requires a.Struct? && b.Struct? && DiffStructs(a, b, path, o) == []
    ensures LeftFields(a.children, b, path, o) == [] && RightFields(b.children, a, path, o) == []
  {
    assert DiffFields(a, b, path, o) == LeftFields(a.children, b, path, o) + RightFields(b.children, a, path, o);
  }

  /** An empty change list means related trees. */
  lemma {:induction false} EqualIsSound(a: Node, b: Node, path: string, o: Options)
    requires Default(o) && UniqueNames(a) && UniqueNames(b)
    requires Equal(DiffNodes(Some(a), Some(b), path, o))
    ensures Related(a, b, path, o)
    decreases a
  {
    Unmasked(Some(a), Some(b), path, o);
    if SameKind(a, b) && a.Struct? {
      SilentStruct(a, b, path, o);
      forall i | 0 <= i < |b.children|
        ensures Child(a, b.children[i].name).Some?
      {
        SilentRightField(b.children, a, path, o, i);
        SilentRightFieldIsShared(b.children[i], a, path, o);
      }
      forall i | 0 <= i < |a.children|
        ensures Child(b, a.children[i].name).Some?
                && Related(a.children[i], Child(b, a.children[i].name).value, Join(path, a.children[i].name), o)
      {
        var x, y := a.children[i], Child(b, a.children[i].name);
        SilentLeftField(a.children, b, path, o, i);
        Unmasked(Some(x), y, Join(path, x.name), o);
        var k := FirstNamedAt(b.children, x.name);
        EqualIsSound(x, y.value, Join(path, x.name), o);
      }
    } else if SameKind(a, b) && a.List? {
      EqualListsAreRelated(a, b, path, o);
    }
  }

  lemma {:induction false} EqualListsAreRelated(a: Node, b: Node, path: string, o: Options)
    requires Default(o) && UniqueNames(a) && UniqueNames(b)
    requires a.List? && b.List? && DiffLists(a, b, path, o) == []
    ensures Related(a, b, path, o)
    decreases a, 1
  {
    hide CollectionName, IsEventCollection, DiffLists, Default;
    if IsOperationCollection(CollectionName(path, a, b)) {
      EqualOperationsAreRelated(a, b, path, o);
    } else if IsEventCollection(CollectionName(path, a, b), a, b) {
      EqualEventsAreRelated(a, b, path, o);
    } else {
      EqualPositionsAreRelated(a, b, path, o);
    }
  }

  lemma {:induction false} EqualOperationsAreRelated(a: Node, b: Node, path: string, o: Options)
    requires Default(o) && UniqueNames(a) && UniqueNames(b)
    requires a.List? && b.List? && DiffLists(a, b, path, o) == []
    requires IsOperationCollection(CollectionName(path, a, b))
    ensures Related(a, b, path, o)
    decreases a, 0
  {
    hide CollectionName, DiffOperations;
    var xs, ys := a.children, b.children;
    SilentOperationAt(xs, ys, path, o);
    forall i | 0 <= i < |xs|
      ensures Related(xs[i], ys[i], At(path, i), o)
    {
      if SameNode(xs[i], ys[i], o.judge) {
        SameIsRelated(xs[i], ys[i], At(path, i), o);
      } else {
        EqualIsSound(xs[i], ys[i], At(path, i), o);
      }
    }
  }

  lemma {:induction false} EqualEventsAreRelated(a: Node, b: Node, path: string, o: Options)
    requires Default(o) && UniqueNames(a) && UniqueNames(b)
    requires a.List? && b.List? && DiffLists(a, b, path, o) == []
    requires !IsOperationCollection(CollectionName(path, a, b)) && IsEventCollection(CollectionName(path, a, b), a, b)
    ensures Related(a, b, path, o)
    decreases a, 0
  {
    hide CollectionName, IsEventCollection, PairEvents, VisitAll;
    var xs, ys := a.children, b.children;
    var p := PairEvents(MetasOf(xs, o.judge), MetasOf(ys, o.judge));
    SilentEventsArePaired(p, xs, ys, path, o);
    forall k | 0 <= k < |p.pairs|
      ensures Related(xs[p.pairs[k].0], ys[p.pairs[k].1], At(path, p.pairs[k].1), o)
    {
      SilentEventPair(p.pairs, xs, ys, path, o, k);
      EqualIsSound(xs[p.pairs[k].0], ys[p.pairs[k].1], At(path, p.pairs[k].1), o);
    }
  }

  lemma {:induction false} EqualPositionsAreRelated(a: Node, b: Node, path: string, o: Options)
    requires Default(o) && UniqueNames(a) && UniqueNames(b)
    requires a.List? && b.List? && DiffLists(a, b, path, o) == []
    requires !IsOperationCollection(CollectionName(path, a, b)) && !IsEventCollection(CollectionName(path, a, b), a, b)
    ensures Related(a, b, path, o)
    decreases a, 0
  {
    hide CollectionName, IsEventCollection, VisitAll;
    var xs, ys := a.children, b.children;
    forall k | 0 <= k < Longer(|xs|, |ys|)
      ensures k < |xs| && k < |ys| && DiffNodes(Some(xs[k]), Some(ys[k]), At(path, k), o) == []
    {
      SilentPosition(xs, ys, path, o, k);
    }
    if |xs| != |ys| {
      SilentPosition(xs, ys, path, o, Longer(|xs|, |ys|) - 1);
    }
    forall k | 0 <= k < |xs|
      ensures Related(xs[k], ys[k], At(path, k), o)
    {
      EqualIsSound(xs[k], ys[k], At(path, k), o);
    }
  }
}
