/**
 Greedy matching of two lists: each free left element takes the first free related element on the right.
 Operation lists run it after matching equal elements in place, which detects permutations; event lists
 run it twice, with a finer and then a coarser relation.
 */
module GreedyMatching {

  /** Which elements are matched, and the pairs (from, to) matched at shifted positions. */
  datatype Pairing = Pairing(left: seq<bool>, right: seq<bool>, pairs: seq<(nat, nat)>)

  predicate KeptAt<T>(left: seq<T>, right: seq<T>, same: (T, T) -> bool, i: nat) {
    i < |left| && i < |right| && same(left[i], right[i])
  }

  function InPlace<T>(left: seq<T>, right: seq<T>, same: (T, T) -> bool): Pairing {
    Pairing(seq(|left|, i requires 0 <= i => KeptAt(left, right, same, i)),
            seq(|right|, j requires 0 <= j => KeptAt(left, right, same, j)), [])
  }

  /** The first unmatched element of `right` at or after `j` that equals `x`, or `|right|`. */
  function FirstFree<T>(x: T, right: seq<T>, matched: seq<bool>, same: (T, T) -> bool, j: nat): (r: nat)
    requires |matched| == |right| && j <= |right|
    ensures j <= r <= |right|
    ensures r < |right| ==> !matched[r] && same(x, right[r])
    ensures forall k :: j <= k < r ==> matched[k] || !same(x, right[k])
    decreases |right| - j
  {
    if j == |right| || (!matched[j] && same(x, right[j])) then j else FirstFree(x, right, matched, same, j + 1)
  }

  function Shifted<T>(left: seq<T>, right: seq<T>, same: (T, T) -> bool, p: Pairing, i: nat): Pairing
    requires |p.left| == |left| && |p.right| == |right| && i <= |left|
    decreases |left| - i
  {
    if i == |left| then p
    else if p.left[i] then Shifted(left, right, same, p, i + 1)
    else
      var j := FirstFree(left[i], right, p.right, same, 0);
      if j == |right| then Shifted(left, right, same, p, i + 1)
      else Shifted(left, right, same, Pairing(p.left[i := true], p.right[j := true], p.pairs + [(i, j)]), i + 1)
  }

  function Matched<T>(left: seq<T>, right: seq<T>, same: (T, T) -> bool): Pairing {
    Shifted(left, right, same, InPlace(left, right, same), 0)
  }

  /** The unmatched indices at or after `i`, in order. */
  function Unmatched(matched: seq<bool>, i: nat): seq<nat>
    requires i <= |matched|
    decreases |matched| - i
  {
    if i == |matched| then [] else (if matched[i] then [] else [i]) + Unmatched(matched, i + 1)
  }

  /** The unmatched indices are those of the false flags, each listed once in increasing order. */
  lemma {:induction false} UnmatchedExact(matched: seq<bool>, i: nat)
    requires i <= |matched|
    ensures var r := Unmatched(matched, i);
            (forall k :: 0 <= k < |r| ==> i <= r[k] < |matched| && !matched[r[k]])
            && (forall k, l :: 0 <= k < l < |r| ==> r[k] < r[l])
            && forall k :: i <= k < |matched| && !matched[k] ==> k in r
    decreases |matched| - i
  {
    if i < |matched| {
      UnmatchedExact(matched, i + 1);
    }
  }

  lemma {:induction false} NoneUnmatched(flags: seq<bool>, i: nat)
    requires i <= |flags| && forall k :: 0 <= k < |flags| ==> flags[k]
    ensures Unmatched(flags, i) == []
    decreases |flags| - i
  {
    if i < |flags| {
      NoneUnmatched(flags, i + 1);
    }
  }

  ghost predicate HasLeft(moved: seq<(nat, nat)>, i: nat) {
    exists k :: 0 <= k < |moved| && moved[k].0 == i
  }

  ghost predicate HasRight(moved: seq<(nat, nat)>, j: nat) {
    exists k :: 0 <= k < |moved| && moved[k].1 == j
  }

  /** A move names two equal elements, neither of them matched in place. */
  ghost predicate IsMove<T>(left: seq<T>, right: seq<T>, same: (T, T) -> bool, m: (nat, nat)) {
    m.0 < |left| && m.1 < |right| && same(left[m.0], right[m.1])
    && !KeptAt(left, right, same, m.0) && !KeptAt(left, right, same, m.1)
  }

  /** Moves are listed by increasing source, and no two share a target. */
  ghost predicate Orderly(moved: seq<(nat, nat)>) {
    forall k, l :: 0 <= k < l < |moved| ==> moved[k].0 < moved[l].0 && moved[k].1 != moved[l].1
  }

  /** The flags mark exactly the elements kept in place or moved. */
  ghost predicate FlagsExact<T>(left: seq<T>, right: seq<T>, same: (T, T) -> bool, p: Pairing) {
    |p.left| == |left| && |p.right| == |right|
    && (forall k :: 0 <= k < |left| ==> (p.left[k] <==> KeptAt(left, right, same, k) || HasLeft(p.pairs, k)))
    && (forall k :: 0 <= k < |right| ==> (p.right[k] <==> KeptAt(left, right, same, k) || HasRight(p.pairs, k)))
  }

  /** What both passes maintain, `i` being the next left element of the second pass. */
  ghost predicate Consistent<T>(left: seq<T>, right: seq<T>, same: (T, T) -> bool, p: Pairing, i: nat) {
    FlagsExact(left, right, same, p) && Orderly(p.pairs)
    && forall k :: 0 <= k < |p.pairs| ==> p.pairs[k].0 < i && IsMove(left, right, same, p.pairs[k])
  }

  lemma MovesAppend(moved: seq<(nat, nat)>, i: nat, j: nat, k: nat)
    ensures HasLeft(moved + [(i, j)], k) <==> HasLeft(moved, k) || k == i
    ensures HasRight(moved + [(i, j)], k) <==> HasRight(moved, k) || k == j
  {
    var more := moved + [(i, j)];
    assert more[|moved|] == (i, j);
    if HasLeft(moved, k) {
      var n :| 0 <= n < |moved| && moved[n].0 == k;
      assert more[n].0 == k;
    }
    if HasRight(moved, k) {
      var n :| 0 <= n < |moved| && moved[n].1 == k;
      assert more[n].1 == k;
    }
  }

  /** Marking both ends of a new pair keeps the flags exact. */
  lemma FlagsAfterMove<T>(left: seq<T>, right: seq<T>, same: (T, T) -> bool, p: Pairing, i: nat, j: nat)
    requires FlagsExact(left, right, same, p) && i < |left| && j < |right|
    ensures FlagsExact(left, right, same, Pairing(p.left[i := true], p.right[j := true], p.pairs + [(i, j)]))
  {
    forall k: nat
      ensures HasLeft(p.pairs + [(i, j)], k) <==> HasLeft(p.pairs, k) || k == i
      ensures HasRight(p.pairs + [(i, j)], k) <==> HasRight(p.pairs, k) || k == j
    {
      MovesAppend(p.pairs, i, j, k);
    }
  }

  lemma Move<T>(left: seq<T>, right: seq<T>, same: (T, T) -> bool, p: Pairing, i: nat, j: nat)
    requires Consistent(left, right, same, p, i)
    requires i < |left| && j < |right| && !p.left[i] && !p.right[j] && same(left[i], right[j])
    ensures Consistent(left, right, same, Pairing(p.left[i := true], p.right[j := true], p.pairs + [(i, j)]), i + 1)
  {
    FlagsAfterMove(left, right, same, p, i, j);
    assert IsMove(left, right, same, (i, j));
    forall k | 0 <= k < |p.pairs|
      ensures p.pairs[k].1 != j
    {
      assert HasRight(p.pairs, p.pairs[k].1);
    }
  }

  lemma {:induction false} ShiftedConsistent<T>(left: seq<T>, right: seq<T>, same: (T, T) -> bool, p: Pairing, i: nat)
    requires i <= |left| && Consistent(left, right, same, p, i)
    ensures Consistent(left, right, same, Shifted(left, right, same, p, i), |left|)
    decreases |left| - i
  {
    if i < |left| {
      var j := FirstFree(left[i], right, p.right, same, 0);
      if p.left[i] || j == |right| {
        ShiftedConsistent(left, right, same, p, i + 1);
      } else {
        Move(left, right, same, p, i, j);
        ShiftedConsistent(left, right, same, Pairing(p.left[i := true], p.right[j := true], p.pairs + [(i, j)]), i + 1);
      }
    }
  }

  /** Every left and every right index is used exactly once: kept in place, moved, or left unmatched. */
  lemma EveryIndexUsedOnce<T>(left: seq<T>, right: seq<T>, same: (T, T) -> bool)
    ensures var p := Matched(left, right, same);
            Consistent(left, right, same, p, |left|)
    ensures var p := Matched(left, right, same);
            forall i :: 0 <= i < |left| ==>
              OneOf(KeptAt(left, right, same, i), HasLeft(p.pairs, i), i in Unmatched(p.left, 0))
    ensures var p := Matched(left, right, same);
            forall j :: 0 <= j < |right| ==>
              OneOf(KeptAt(left, right, same, j), HasRight(p.pairs, j), j in Unmatched(p.right, 0))
  {
    assert Consistent(left, right, same, InPlace(left, right, same), 0);
    ShiftedConsistent(left, right, same, InPlace(left, right, same), 0);
    var p := Matched(left, right, same);
    UnmatchedExact(p.left, 0);
    UnmatchedExact(p.right, 0);
    forall k | 0 <= k < |p.pairs|
      ensures !KeptAt(left, right, same, p.pairs[k].0) && !KeptAt(left, right, same, p.pairs[k].1)
    {
      assert IsMove(left, right, same, p.pairs[k]);
    }
  }

  predicate OneOf(a: bool, b: bool, c: bool) {
    (a && !b && !c) || (!a && b && !c) || (!a && !b && c)
  }

  // ------------------------------------------------ permutations of equal elements

  ghost predicate Equivalence<T>(xs: set<T>, same: (T, T) -> bool) {
    (forall x :: x in xs ==> same(x, x))
    && (forall x, y :: x in xs && y in xs && same(x, y) ==> same(y, x))
    && forall x, y, z :: x in xs && y in xs && z in xs && same(x, y) && same(y, z) ==> same(x, z)
  }

  /** How many elements at or after `i` that are not `matched` equal `x`. */
  function Count<T>(xs: seq<T>, matched: seq<bool>, x: T, same: (T, T) -> bool, i: nat): nat
    requires |matched| == |xs| && i <= |xs|
    decreases |xs| - i
  {
    if i == |xs| then 0
    else (if !matched[i] && same(xs[i], x) then 1 else 0) + Count(xs, matched, x, same, i + 1)
  }

  function Free(n: nat): seq<bool> {
    seq(n, _ => false)
  }

  function Elements<T>(xs: seq<T>): set<T> {
    set x | x in xs
  }

  /** `right` is `left` in another order, up to `same`: each element occurs equally often on both sides. */
  ghost predicate IsPermutation<T>(left: seq<T>, right: seq<T>, same: (T, T) -> bool) {
    |left| == |right|
    && forall x :: x in Elements(left) + Elements(right) ==>
         Count(left, Free(|left|), x, same, 0) == Count(right, Free(|right|), x, same, 0)
  }

  lemma {:induction false} CountWitness<T>(xs: seq<T>, matched: seq<bool>, x: T, same: (T, T) -> bool, i: nat)
    requires |matched| == |xs| && i <= |xs|
    ensures Count(xs, matched, x, same, i) > 0 <==> exists k :: i <= k < |xs| && !matched[k] && same(xs[k], x)
    decreases |xs| - i
  {
    if i < |xs| {
      CountWitness(xs, matched, x, same, i + 1);
    }
  }

  lemma {:induction false} CountAfterMatch<T>(xs: seq<T>, matched: seq<bool>, x: T, same: (T, T) -> bool, i: nat, k: nat)
    requires |matched| == |xs| && i <= |xs| && k < |xs| && !matched[k]
    ensures Count(xs, matched[k := true], x, same, i) ==
            Count(xs, matched, x, same, i) - (if i <= k && same(xs[k], x) then 1 else 0)
    decreases |xs| - i
  {
    if i < |xs| {
      CountAfterMatch(xs, matched, x, same, i + 1, k);
    }
  }

  /** Matching in place removes equally many elements equal to `x` from both sides. */
  lemma {:induction false} CountAfterInPlace<T>(left: seq<T>, right: seq<T>, same: (T, T) -> bool, x: T, i: nat)
    requires |left| == |right| && i <= |left|
    requires Equivalence(Elements(left) + Elements(right), same) && x in Elements(left) + Elements(right)
    ensures var p := InPlace(left, right, same);
            Count(left, Free(|left|), x, same, i) - Count(left, p.left, x, same, i)
            == Count(right, Free(|right|), x, same, i) - Count(right, p.right, x, same, i)
    decreases |left| - i
  {
    if i < |left| {
      CountAfterInPlace(left, right, same, x, i + 1);
      assert left[i] in left && right[i] in right;
    }
  }

  ghost predicate Balanced<T>(left: seq<T>, right: seq<T>, same: (T, T) -> bool, p: Pairing)
    requires |p.left| == |left| && |p.right| == |right|
  {
    forall x :: x in Elements(left) + Elements(right) ==> Count(left, p.left, x, same, 0) == Count(right, p.right, x, same, 0)
  }

  predicate AllMatched(p: Pairing) {
    (forall k :: 0 <= k < |p.left| ==> p.left[k]) && forall k :: 0 <= k < |p.right| ==> p.right[k]
  }

  /** On a permutation the second pass leaves nothing unmatched. */
  lemma {:induction false} ShiftedMatchesAll<T>(left: seq<T>, right: seq<T>, same: (T, T) -> bool, p: Pairing, i: nat)
    requires |p.left| == |left| && |p.right| == |right| && i <= |left|
    requires Equivalence(Elements(left) + Elements(right), same) && Balanced(left, right, same, p)
    requires forall k :: 0 <= k < i ==> p.left[k]
    ensures AllMatched(Shifted(left, right, same, p, i))
    decreases |left| - i
  {
    if i == |left| {
      forall k | 0 <= k < |right|
        ensures p.right[k]
      {
        CountWitness(left, p.left, right[k], same, 0);
        CountWitness(right, p.right, right[k], same, 0);
        assert right[k] in right;
      }
    } else if p.left[i] {
      ShiftedMatchesAll(left, right, same, p, i + 1);
    } else {
      assert left[i] in left;
      CountWitness(left, p.left, left[i], same, 0);
      CountWitness(right, p.right, left[i], same, 0);
      var k :| 0 <= k < |right| && !p.right[k] && same(right[k], left[i]);
      assert right[k] in right;
      var j := FirstFree(left[i], right, p.right, same, 0);
      assert right[j] in right;
      var q := Pairing(p.left[i := true], p.right[j := true], p.pairs + [(i, j)]);
      forall x | x in Elements(left) + Elements(right)
        ensures Count(left, q.left, x, same, 0) == Count(right, q.right, x, same, 0)
      {
        CountAfterMatch(left, p.left, x, same, 0, i);
        CountAfterMatch(right, p.right, x, same, 0, j);
      }
      ShiftedMatchesAll(left, right, same, q, i + 1);
    }
  }

  /** `left` after moving every named element to its new position. */
  function AfterMoves<T>(left: seq<T>, moved: seq<(nat, nat)>): (r: seq<T>)
    requires forall k :: 0 <= k < |moved| ==> moved[k].0 < |left| && moved[k].1 < |left|
    ensures |r| == |left|
    decreases |moved|
  {
    if moved == [] then left
    else
      var last := moved[|moved| - 1];
      AfterMoves(left, moved[..|moved| - 1])[last.1 := left[last.0]]
  }

  lemma {:induction false} AfterMovesAt<T>(left: seq<T>, moved: seq<(nat, nat)>, j: nat)
    requires forall k :: 0 <= k < |moved| ==> moved[k].0 < |left| && moved[k].1 < |left|
    requires forall k, l :: 0 <= k < l < |moved| ==> moved[k].1 != moved[l].1
    requires j < |left|
    ensures !HasRight(moved, j) ==> AfterMoves(left, moved)[j] == left[j]
    ensures forall k :: 0 <= k < |moved| && moved[k].1 == j ==> AfterMoves(left, moved)[j] == left[moved[k].0]
    decreases |moved|
  {
    if moved != [] {
      var init := moved[..|moved| - 1];
      AfterMovesAt(left, init, j);
      assert HasRight(init, j) ==> HasRight(moved, j);
    }
  }

  /** The positions that differ, at or after `i`. */
  function Differing<T>(left: seq<T>, right: seq<T>, same: (T, T) -> bool, i: nat): seq<nat>
    requires |left| == |right| && i <= |left|
    decreases |left| - i
  {
    if i == |left| then []
    else (if same(left[i], right[i]) then [] else [i]) + Differing(left, right, same, i + 1)
  }

  /** When the right list is a permutation of the left one, nothing stays unmatched. */
  lemma PermutationIsMatched<T>(left: seq<T>, right: seq<T>, same: (T, T) -> bool)
    requires Equivalence(Elements(left) + Elements(right), same) && IsPermutation(left, right, same)
    ensures AllMatched(Matched(left, right, same))
  {
    var start := InPlace(left, right, same);
    forall x | x in Elements(left) + Elements(right)
      ensures Count(left, start.left, x, same, 0) == Count(right, start.right, x, same, 0)
    {
      CountAfterInPlace(left, right, same, x, 0);
    }
    ShiftedMatchesAll(left, right, same, start, 0);
  }

  /** Making the moves turns the left list into the right one. */
  lemma MovesRestoreOrder<T>(left: seq<T>, right: seq<T>, same: (T, T) -> bool, p: Pairing, j: nat)
    requires |left| == |right| && AllMatched(p) && Consistent(left, right, same, p, |left|) && j < |left|
    ensures forall k :: 0 <= k < |p.pairs| ==> p.pairs[k].0 < |left| && p.pairs[k].1 < |left|
    ensures same(AfterMoves(left, p.pairs)[j], right[j])
  {
    AfterMovesAt(left, p.pairs, j);
    if HasRight(p.pairs, j) {
      var k :| 0 <= k < |p.pairs| && p.pairs[k].1 == j;
      assert IsMove(left, right, same, p.pairs[k]);
    }
  }

  /** Every left element holds the place of an equal right element once the moves are made. */
  ghost predicate OrderRestored<T>(left: seq<T>, right: seq<T>, same: (T, T) -> bool, moved: seq<(nat, nat)>) {
    |left| == |right|
    && (forall k :: 0 <= k < |moved| ==> moved[k].0 < |left| && moved[k].1 < |left|)
    && forall j :: 0 <= j < |left| ==> same(AfterMoves(left, moved)[j], right[j])
  }

  /**
   When the right list is a permutation of the left one, the elements moved are exactly those at differing
   positions, each moves somewhere else, and making the moves turns the left list into the right one.
   */
  lemma PermutationDetectionIsExact<T>(left: seq<T>, right: seq<T>, same: (T, T) -> bool)
    requires Equivalence(Elements(left) + Elements(right), same) && IsPermutation(left, right, same)
    ensures var p := Matched(left, right, same);
            AllMatched(p) && Consistent(left, right, same, p, |left|)
            && Froms(p.pairs) == Differing(left, right, same, 0)
            && (forall k :: 0 <= k < |p.pairs| ==> p.pairs[k].0 != p.pairs[k].1)
            && OrderRestored(left, right, same, p.pairs)
  {
    var p := Matched(left, right, same);
    PermutationIsMatched(left, right, same);
    EveryIndexUsedOnce(left, right, same);
    MovesAreDiffering(left, right, same, p);
    forall k | 0 <= k < |p.pairs|
      ensures p.pairs[k].0 < |left| && p.pairs[k].1 < |left|
    {
      assert IsMove(left, right, same, p.pairs[k]);
    }
    forall j | 0 <= j < |left|
      ensures same(AfterMoves(left, p.pairs)[j], right[j])
    {
      MovesRestoreOrder(left, right, same, p, j);
    }
  }

  lemma MovesAreDiffering<T>(left: seq<T>, right: seq<T>, same: (T, T) -> bool, p: Pairing)
    requires |left| == |right| && AllMatched(p) && Consistent(left, right, same, p, |left|)
    ensures Froms(p.pairs) == Differing(left, right, same, 0)
    ensures forall k :: 0 <= k < |p.pairs| ==> p.pairs[k].0 != p.pairs[k].1
  {
    forall k | 0 <= k < |p.pairs|
      ensures p.pairs[k].0 != p.pairs[k].1 && !same(left[p.pairs[k].0], right[p.pairs[k].0])
    {
      assert IsMove(left, right, same, p.pairs[k]);
    }
    FromsAreDiffering(left, right, same, p.pairs, 0);
  }

  function Froms(moved: seq<(nat, nat)>): (r: seq<nat>)
    ensures |r| == |moved|
  {
    seq(|moved|, k requires 0 <= k < |moved| => moved[k].0)
  }

  lemma FirstOfIncreasing(moved: seq<(nat, nat)>, i: nat)
    requires HasLeft(moved, i) && forall k :: 0 <= k < |moved| ==> i <= moved[k].0
    requires forall k, l :: 0 <= k < l < |moved| ==> moved[k].0 < moved[l].0
    ensures |moved| > 0 && moved[0].0 == i
  {
    var k :| 0 <= k < |moved| && moved[k].0 == i;
  }

  lemma FoundInRest(moved: seq<(nat, nat)>, i: nat)
    requires HasLeft(moved, i) && |moved| > 0 && moved[0].0 != i
    ensures HasLeft(moved[1..], i)
  {
    var k :| 0 <= k < |moved| && moved[k].0 == i;
    assert moved[1..][k - 1].0 == i;
  }

  lemma {:induction false} FromsAreDiffering<T>(left: seq<T>, right: seq<T>, same: (T, T) -> bool, moved: seq<(nat, nat)>, i: nat)
    requires |left| == |right| && i <= |left|
    requires forall k, l :: 0 <= k < l < |moved| ==> moved[k].0 < moved[l].0
    requires forall k :: 0 <= k < |moved| ==> i <= moved[k].0 < |left| && !same(left[moved[k].0], right[moved[k].0])
    requires forall k :: i <= k < |left| && !same(left[k], right[k]) ==> HasLeft(moved, k)
    ensures Froms(moved) == Differing(left, right, same, i)
    decreases |left| - i
  {
    if i < |left| {
      if same(left[i], right[i]) {
        FromsAreDiffering(left, right, same, moved, i + 1);
      } else {
        assert HasLeft(moved, i);
        FirstOfIncreasing(moved, i);
        var rest := moved[1..];
        forall k | i + 1 <= k < |left| && !same(left[k], right[k])
          ensures HasLeft(rest, k)
        {
          FoundInRest(moved, k);
        }
        FromsAreDiffering(left, right, same, rest, i + 1);
        assert Froms(moved) == [i] + Froms(rest);
      }
    }
  }

  // ------------------------------------------------ one-to-one pairing

  ghost predicate FlagsMarkPairs(p: Pairing) {
    (forall k :: 0 <= k < |p.left| ==> (p.left[k] <==> HasLeft(p.pairs, k)))
    && forall k :: 0 <= k < |p.right| ==> (p.right[k] <==> HasRight(p.pairs, k))
  }

  ghost predicate Disjoint(pairs: seq<(nat, nat)>) {
    forall k, l :: 0 <= k < l < |pairs| ==> pairs[k].0 != pairs[l].0 && pairs[k].1 != pairs[l].1
  }

  /** The flags mark exactly the paired elements, and no element is in two pairs. */
  ghost predicate OneToOne(p: Pairing) {
    FlagsMarkPairs(p) && Disjoint(p.pairs)
    && forall k :: 0 <= k < |p.pairs| ==> p.pairs[k].0 < |p.left| && p.pairs[k].1 < |p.right|
  }

  lemma PairStaysOneToOne(p: Pairing, i: nat, j: nat)
    requires OneToOne(p) && i < |p.left| && j < |p.right| && !p.left[i] && !p.right[j]
    ensures OneToOne(Pairing(p.left[i := true], p.right[j := true], p.pairs + [(i, j)]))
  {
    var q := Pairing(p.left[i := true], p.right[j := true], p.pairs + [(i, j)]);
    assert FlagsMarkPairs(q) by {
      forall k | 0 <= k < |p.left|
        ensures q.left[k] <==> HasLeft(q.pairs, k)
      {
        MovesAppend(p.pairs, i, j, k);
      }
      forall k | 0 <= k < |p.right|
        ensures q.right[k] <==> HasRight(q.pairs, k)
      {
        MovesAppend(p.pairs, i, j, k);
      }
    }
    forall k | 0 <= k < |p.pairs|
      ensures p.pairs[k].0 != i && p.pairs[k].1 != j
    {
      assert HasLeft(p.pairs, p.pairs[k].0) && HasRight(p.pairs, p.pairs[k].1);
    }
  }

  /** A pass keeps the pairing one-to-one. */
  lemma {:induction false} ShiftedStaysOneToOne<T>(left: seq<T>, right: seq<T>, same: (T, T) -> bool, p: Pairing, i: nat)
    requires |p.left| == |left| && |p.right| == |right| && i <= |left| && OneToOne(p)
    ensures var q := Shifted(left, right, same, p, i);
            |q.left| == |left| && |q.right| == |right| && OneToOne(q)
    decreases |left| - i
  {
    if i < |left| {
      var j := FirstFree(left[i], right, p.right, same, 0);
      if p.left[i] || j == |right| {
        ShiftedStaysOneToOne(left, right, same, p, i + 1);
      } else {
        PairStaysOneToOne(p, i, j);
        ShiftedStaysOneToOne(left, right, same, Pairing(p.left[i := true], p.right[j := true], p.pairs + [(i, j)]), i + 1);
      }
    }
  }

  /** The pairing that matches the first `i` of `n` elements with themselves. */
  function Identity(n: nat, i: nat): Pairing
    requires i <= n
  {
    Pairing(seq(n, k => k < i), seq(n, k => k < i), seq(i, k => (k, k)))
  }

  /** When every element is related to its counterpart, a pass from scratch pairs each with its counterpart. */
  lemma {:induction false} GreedyIsIdentity<T>(left: seq<T>, right: seq<T>, same: (T, T) -> bool, i: nat)
    requires |left| == |right| && i <= |left|
    requires forall k :: 0 <= k < |left| ==> same(left[k], right[k])
    ensures Shifted(left, right, same, Identity(|left|, i), i) == Identity(|left|, |left|)
    decreases |left| - i
  {
    if i < |left| {
      var p := Identity(|left|, i);
      var j := FirstFree(left[i], right, p.right, same, 0);
      assert j == i;
      assert p.left[i := true] == Identity(|left|, i + 1).left;
      assert p.pairs + [(i, i)] == Identity(|left|, i + 1).pairs;
      GreedyIsIdentity(left, right, same, i + 1);
    }
  }

  /** A pass over fully matched lists changes nothing. */
  lemma {:induction false} ShiftedWhenMatched<T>(left: seq<T>, right: seq<T>, same: (T, T) -> bool, p: Pairing, i: nat)
    requires |p.left| == |left| && |p.right| == |right| && i <= |left|
    requires forall k :: 0 <= k < |left| ==> p.left[k]
    ensures Shifted(left, right, same, p, i) == p
    decreases |left| - i
  {
    if i < |left| {
      ShiftedWhenMatched(left, right, same, p, i + 1);
    }
  }
}
