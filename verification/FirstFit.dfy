/** What one greedy pass decides, spelled out without the pass: each element takes the first place left to it. */
module FirstFit {
  import opened GreedyMatching

  /** Some pair among the first n takes the right element. */
  ghost predicate TakenBy(pairs: seq<(nat, nat)>, n: nat, k: nat)
    requires n <= |pairs|
  {
    exists m :: 0 <= m < n && pairs[m].1 == k
  }

  /** Some pair of an earlier left element takes the right element. */
  ghost predicate TakenBefore(pairs: seq<(nat, nat)>, i: nat, k: nat) {
    exists m :: 0 <= m < |pairs| && pairs[m].0 < i && pairs[m].1 == k
  }

  /** A pair joins two related elements that were both free. */
  predicate JoinsFree<T>(left: seq<T>, right: seq<T>, same: (T, T) -> bool, p: Pairing, m: (nat, nat)) {
    m.0 < |left| && m.1 < |right| && |p.left| == |left| && |p.right| == |right|
    && !p.left[m.0] && !p.right[m.1] && same(left[m.0], right[m.1])
  }

  /** The pairs of a pass: by increasing left element, each with the first related right element not yet taken. */
  ghost predicate TakesFirst<T>(left: seq<T>, right: seq<T>, same: (T, T) -> bool, p: Pairing, pairs: seq<(nat, nat)>) {
    (forall m :: 0 <= m < |pairs| ==> JoinsFree(left, right, same, p, pairs[m]))
    && (forall m, n :: 0 <= m < n < |pairs| ==> pairs[m].0 < pairs[n].0 && pairs[m].1 != pairs[n].1)
    && forall m, k :: 0 <= m < |pairs| && 0 <= k < pairs[m].1 && same(left[pairs[m].0], right[k]) ==> p.right[k] || TakenBy(pairs, m, k)
  }

  /** A left element below `bound` that stays free found all its related right elements taken. */
  ghost predicate LeavesNone<T>(left: seq<T>, right: seq<T>, same: (T, T) -> bool, p: Pairing, pairs: seq<(nat, nat)>, bound: nat)
    requires |p.left| == |left| && |p.right| == |right|
  {
    forall i, k :: 0 <= i < bound && i < |left| && 0 <= k < |right| && !p.left[i] && !HasLeft(pairs, i) && same(left[i], right[k]) ==>
      p.right[k] || TakenBefore(pairs, i, k)
  }

  /** The flags after a pass are those before it and the ends of its pairs. */
  ghost predicate MarksEnds(p: Pairing, q: Pairing, pairs: seq<(nat, nat)>) {
    |q.left| == |p.left| && |q.right| == |p.right|
    && (forall i :: 0 <= i < |q.left| ==> (q.left[i] <==> p.left[i] || HasLeft(pairs, i)))
    && forall k :: 0 <= k < |q.right| ==> (q.right[k] <==> p.right[k] || HasRight(pairs, k))
  }

  /** What a pass from p to q decides for the left elements below `bound`. */
  ghost predicate FirstFitBelow<T>(left: seq<T>, right: seq<T>, same: (T, T) -> bool, p: Pairing, q: Pairing, pairs: seq<(nat, nat)>, bound: nat) {
    |p.left| == |left| && |p.right| == |right|
    && q.pairs == p.pairs + pairs
    && TakesFirst(left, right, same, p, pairs)
    && (forall m :: 0 <= m < |pairs| ==> pairs[m].0 < bound)
    && LeavesNone(left, right, same, p, pairs, bound)
    && MarksEnds(p, q, pairs)
  }

  lemma SkipsMatched<T>(left: seq<T>, right: seq<T>, same: (T, T) -> bool, p: Pairing, q: Pairing, pairs: seq<(nat, nat)>, i: nat)
    requires FirstFitBelow(left, right, same, p, q, pairs, i) && i < |left|
    requires q.left[i] || FirstFree(left[i], right, q.right, same, 0) == |right|
    ensures FirstFitBelow(left, right, same, p, q, pairs, i + 1)
  {
    hide TakesFirst, FirstFree;
    forall k | 0 <= k < |right| && !p.left[i] && !HasLeft(pairs, i) && same(left[i], right[k])
      ensures p.right[k] || TakenBefore(pairs, i, k)
    {
      assert q.right[k];
      if !p.right[k] {
        var m :| 0 <= m < |pairs| && pairs[m].1 == k;
        assert pairs[m].0 < i;
      }
    }
  }

  lemma TakesOneMore<T>(left: seq<T>, right: seq<T>, same: (T, T) -> bool, p: Pairing, q: Pairing, pairs: seq<(nat, nat)>, i: nat, j: nat)
    requires FirstFitBelow(left, right, same, p, q, pairs, i) && i < |left| && !q.left[i]
    requires j == FirstFree(left[i], right, q.right, same, 0) && j < |right|
    ensures FirstFitBelow(left, right, same, p, Pairing(q.left[i := true], q.right[j := true], q.pairs + [(i, j)]), pairs + [(i, j)], i + 1)
  {
    hide FirstFree, TakesFirst, LeavesNone, MarksEnds;
    var more := pairs + [(i, j)];
    assert p.pairs + pairs + [(i, j)] == p.pairs + more;
    FirstFitSizes(left, right, same, p, q, pairs, i);
    MarkTwoEnds(p, q, pairs, i, j);
    LastTakesFirst(left, right, same, p, q, pairs, i, j);
    StillNone(left, right, same, p, pairs, i, j);
  }

  lemma MarkTwoEnds(p: Pairing, q: Pairing, pairs: seq<(nat, nat)>, i: nat, j: nat)
    requires MarksEnds(p, q, pairs) && i < |q.left| && j < |q.right|
    ensures MarksEnds(p, Pairing(q.left[i := true], q.right[j := true], q.pairs + [(i, j)]), pairs + [(i, j)])
  {
    forall k: nat
      ensures HasLeft(pairs + [(i, j)], k) <==> HasLeft(pairs, k) || k == i
      ensures HasRight(pairs + [(i, j)], k) <==> HasRight(pairs, k) || k == j
    {
      MovesAppend(pairs, i, j, k);
    }
  }

  lemma LastTakesFirst<T>(left: seq<T>, right: seq<T>, same: (T, T) -> bool, p: Pairing, q: Pairing, pairs: seq<(nat, nat)>, i: nat, j: nat)
    requires TakesFirst(left, right, same, p, pairs) && MarksEnds(p, q, pairs) && |p.left| == |left| && |p.right| == |right|
    requires i < |left| && j < |right| && !q.left[i] && !q.right[j] && same(left[i], right[j])
    requires forall m :: 0 <= m < |pairs| ==> pairs[m].0 < i
    requires forall k :: 0 <= k < j ==> q.right[k] || !same(left[i], right[k])
    ensures TakesFirst(left, right, same, p, pairs + [(i, j)])
  {
    var more := pairs + [(i, j)];
    forall m, k | 0 <= m < |more| && 0 <= k < more[m].1 && same(left[more[m].0], right[k])
      ensures p.right[k] || TakenBy(more, m, k)
    {
      if !p.right[k] {
        if m < |pairs| {
          assert TakenBy(pairs, m, k);
          var n :| 0 <= n < m && pairs[n].1 == k;
          assert more[n].1 == k;
        } else {
          assert HasRight(pairs, k);
          var n :| 0 <= n < |pairs| && pairs[n].1 == k;
          assert more[n].1 == k;
        }
      }
    }
    forall m | 0 <= m < |pairs|
      ensures more[m].1 != j
    {
      if pairs[m].1 == j {
        assert HasRight(pairs, j);
      }
    }
  }

  lemma StillNone<T>(left: seq<T>, right: seq<T>, same: (T, T) -> bool, p: Pairing, pairs: seq<(nat, nat)>, i: nat, j: nat)
    requires |p.left| == |left| && |p.right| == |right| && LeavesNone(left, right, same, p, pairs, i)
    ensures LeavesNone(left, right, same, p, pairs + [(i, j)], i + 1)
  {
    var more := pairs + [(i, j)];
    MovesAppend(pairs, i, j, i);
    forall l, k | 0 <= l < i + 1 && l < |left| && 0 <= k < |right| && !p.left[l] && !HasLeft(more, l) && same(left[l], right[k])
      ensures p.right[k] || TakenBefore(more, l, k)
    {
      MovesAppend(pairs, i, j, l);
      if !p.right[k] {
        assert TakenBefore(pairs, l, k);
        var m :| 0 <= m < |pairs| && pairs[m].0 < l && pairs[m].1 == k;
        assert more[m].0 < l && more[m].1 == k;
      }
    }
  }

  /** A whole pass decides every left element so. */
  lemma {:induction false} PassIsFirstFit<T>(left: seq<T>, right: seq<T>, same: (T, T) -> bool, p: Pairing, q: Pairing, pairs: seq<(nat, nat)>, i: nat)
    requires FirstFitBelow(left, right, same, p, q, pairs, i) && i <= |left|
    ensures var r := Shifted(left, right, same, q, i);
            exists more :: FirstFitBelow(left, right, same, p, r, more, |left|)
    decreases |left| - i
  {
    hide FirstFitBelow;
    FirstFitSizes(left, right, same, p, q, pairs, i);
    if i < |left| {
      var j := if q.left[i] then |right| else FirstFree(left[i], right, q.right, same, 0);
      if j == |right| {
        SkipsMatched(left, right, same, p, q, pairs, i);
        assert Shifted(left, right, same, q, i) == Shifted(left, right, same, q, i + 1);
        PassIsFirstFit(left, right, same, p, q, pairs, i + 1);
        var more :| FirstFitBelow(left, right, same, p, Shifted(left, right, same, q, i + 1), more, |left|);
        assert FirstFitBelow(left, right, same, p, Shifted(left, right, same, q, i), more, |left|);
      } else {
        var next := Pairing(q.left[i := true], q.right[j := true], q.pairs + [(i, j)]);
        TakesOneMore(left, right, same, p, q, pairs, i, j);
        assert Shifted(left, right, same, q, i) == Shifted(left, right, same, next, i + 1);
        PassIsFirstFit(left, right, same, p, next, pairs + [(i, j)], i + 1);
        var more :| FirstFitBelow(left, right, same, p, Shifted(left, right, same, next, i + 1), more, |left|);
        assert FirstFitBelow(left, right, same, p, Shifted(left, right, same, q, i), more, |left|);
      }
    } else {
      assert Shifted(left, right, same, q, i) == q;
    }
  }

  lemma FirstFitSizes<T>(left: seq<T>, right: seq<T>, same: (T, T) -> bool, p: Pairing, q: Pairing, pairs: seq<(nat, nat)>, i: nat)
    requires FirstFitBelow(left, right, same, p, q, pairs, i)
    ensures |q.left| == |left| && |q.right| == |right|
  {
  }

  /** The pairs that a pass adds are the first fit, and whoever stays free fits nowhere. */
  lemma ShiftedIsFirstFit<T>(left: seq<T>, right: seq<T>, same: (T, T) -> bool, p: Pairing)
    requires |p.left| == |left| && |p.right| == |right|
    ensures exists pairs :: FirstFitBelow(left, right, same, p, Shifted(left, right, same, p, 0), pairs, |left|)
  {
    assert p.pairs + [] == p.pairs;
    assert FirstFitBelow(left, right, same, p, p, [], 0);
    PassIsFirstFit(left, right, same, p, p, [], 0);
  }
}
