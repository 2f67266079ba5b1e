/**
 Alignment of two lists by a longest-common-subsequence table. The match relation is arbitrary:
 nothing here assumes that it is transitive, symmetric or reflexive.
 */
module Alignment {

  datatype Edit = Keep(left: nat, right: nat) | Insert(right: nat) | Delete(left: nat)

  /** The value of table cell (i, j). */
  function Lcs<T>(left: seq<T>, right: seq<T>, same: (T, T) -> bool, i: nat, j: nat): nat
    requires i <= |left| && j <= |right|
    decreases |left| - i + |right| - j
  {
    if i == |left| || j == |right| then 0
    else if same(left[i], right[j]) then 1 + Lcs(left, right, same, i + 1, j + 1)
    else
      var skipLeft, skipRight := Lcs(left, right, same, i + 1, j), Lcs(left, right, same, i, j + 1);
      if skipLeft > skipRight then skipLeft else skipRight
  }

  /** The edits made by walking the table from (i, j). */
  function Script<T>(left: seq<T>, right: seq<T>, same: (T, T) -> bool, i: nat, j: nat): seq<Edit>
    requires i <= |left| && j <= |right|
    decreases |left| - i + |right| - j
  {
    if i < |left| && j < |right| then
      if same(left[i], right[j]) then [Keep(i, j)] + Script(left, right, same, i + 1, j + 1)
      else if Lcs(left, right, same, i, j + 1) >= Lcs(left, right, same, i + 1, j) then
        [Insert(j)] + Script(left, right, same, i, j + 1)
      else [Delete(i)] + Script(left, right, same, i + 1, j)
    else if i < |left| then [Delete(i)] + Script(left, right, same, i + 1, j)
    else if j < |right| then [Insert(j)] + Script(left, right, same, i, j + 1)
    else []
  }

  /** Row `i` of the table is filled from column `j` on. */
  ghost predicate RowFilled<T>(lcs: array2<nat>, left: seq<T>, right: seq<T>, same: (T, T) -> bool, i: nat, j: nat)
    requires lcs.Length0 == |left| + 1 && lcs.Length1 == |right| + 1 && i <= |left|
    reads lcs
  {
    forall c :: j <= c <= |right| ==> lcs[i, c] == Lcs(left, right, same, i, c)
  }

  method BuildTable<T>(left: seq<T>, right: seq<T>, same: (T, T) -> bool) returns (lcs: array2<nat>)
    ensures fresh(lcs) && lcs.Length0 == |left| + 1 && lcs.Length1 == |right| + 1
    ensures forall i :: 0 <= i <= |left| ==> RowFilled(lcs, left, right, same, i, 0)
  {
    lcs := new nat[|left| + 1, |right| + 1]((_, _) => 0);
    var i := |left|;
    while i > 0
      invariant 0 <= i <= |left|
      invariant forall r :: i <= r <= |left| ==> RowFilled(lcs, left, right, same, r, 0)
      invariant forall r :: 0 <= r < i ==> lcs[r, |right|] == 0
    {
      i := i - 1;
      label Before:
      FillRow(left, right, same, i, lcs);
      forall r | i < r <= |left|
        ensures RowFilled(lcs, left, right, same, r, 0)
      {
        assert old@Before(RowFilled(lcs, left, right, same, r, 0));
      }
    }
  }

  /** The inner loop of the table: row `i`, right to left. */
  method FillRow<T>(left: seq<T>, right: seq<T>, same: (T, T) -> bool, i: nat, lcs: array2<nat>)
    requires lcs.Length0 == |left| + 1 && lcs.Length1 == |right| + 1 && i < |left|
    requires RowFilled(lcs, left, right, same, i + 1, 0) && lcs[i, |right|] == 0
    modifies lcs
    ensures RowFilled(lcs, left, right, same, i, 0)
    ensures forall r, c :: 0 <= r <= |left| && r != i && 0 <= c <= |right| ==> lcs[r, c] == old(lcs[r, c])
  {
    var j := |right|;
    while j > 0
      invariant 0 <= j <= |right|
      invariant RowFilled(lcs, left, right, same, i, j)
      invariant forall r, c :: 0 <= r <= |left| && r != i && 0 <= c <= |right| ==> lcs[r, c] == old(lcs[r, c])
    {
      j := j - 1;
      assert lcs[i + 1, j] == Lcs(left, right, same, i + 1, j) && lcs[i + 1, j + 1] == Lcs(left, right, same, i + 1, j + 1);
      assert lcs[i, j + 1] == Lcs(left, right, same, i, j + 1);
      if same(left[i], right[j]) {
        lcs[i, j] := 1 + lcs[i + 1, j + 1];
      } else if lcs[i + 1, j] > lcs[i, j + 1] {
        lcs[i, j] := lcs[i + 1, j];
      } else {
        lcs[i, j] := lcs[i, j + 1];
      }
    }
  }

  // ---------------------------------------------------------------- what a script does

  function LeftsOf(script: seq<Edit>): seq<nat> {
    if script == [] then []
    else (if script[0].Insert? then [] else [script[0].left]) + LeftsOf(script[1..])
  }

  function RightsOf(script: seq<Edit>): seq<nat> {
    if script == [] then []
    else (if script[0].Delete? then [] else [script[0].right]) + RightsOf(script[1..])
  }

  function KeptPairs(script: seq<Edit>): seq<(nat, nat)> {
    if script == [] then []
    else (if script[0].Keep? then [(script[0].left, script[0].right)] else []) + KeptPairs(script[1..])
  }

  /** How many elements a script adds or removes. */
  function Cost(script: seq<Edit>): nat {
    if script == [] then 0 else (if script[0].Keep? then 0 else 1) + Cost(script[1..])
  }

  function Range(lo: nat, hi: nat): seq<nat>
    requires lo <= hi
    decreases hi - lo
  {
    if lo == hi then [] else [lo] + Range(lo + 1, hi)
  }

  /** Pairs of matching elements at or after (i, j), each pair after the one before it on both sides. */
  ghost predicate IsMatching<T>(m: seq<(nat, nat)>, left: seq<T>, right: seq<T>, same: (T, T) -> bool, i: nat, j: nat)
    decreases |m|
  {
    m == [] ||
    (i <= m[0].0 < |left| && j <= m[0].1 < |right| && same(left[m[0].0], right[m[0].1])
     && IsMatching(m[1..], left, right, same, m[0].0 + 1, m[0].1 + 1))
  }

  /** A matching spelled out: every pair matches, and the pairs strictly increase on both sides. */
  lemma {:induction false} MatchingIncreases<T>(m: seq<(nat, nat)>, left: seq<T>, right: seq<T>, same: (T, T) -> bool, i: nat, j: nat)
    requires IsMatching(m, left, right, same, i, j)
    ensures forall k :: 0 <= k < |m| ==> i <= m[k].0 < |left| && j <= m[k].1 < |right| && same(left[m[k].0], right[m[k].1])
    ensures forall k, l :: 0 <= k < l < |m| ==> m[k].0 < m[l].0 && m[k].1 < m[l].1
    decreases |m|
  {
    if m != [] {
      MatchingIncreases(m[1..], left, right, same, m[0].0 + 1, m[0].1 + 1);
      assert forall k :: 1 <= k < |m| ==> m[k] == m[1..][k - 1];
    }
  }

  /** A script visits every remaining index of each side exactly once, in order. */
  lemma {:induction false} ScriptVisitsAll<T>(left: seq<T>, right: seq<T>, same: (T, T) -> bool, i: nat, j: nat)
    requires i <= |left| && j <= |right|
    ensures LeftsOf(Script(left, right, same, i, j)) == Range(i, |left|)
    ensures RightsOf(Script(left, right, same, i, j)) == Range(j, |right|)
    decreases |left| - i + |right| - j
  {
    if i < |left| && j < |right| && same(left[i], right[j]) {
      ScriptVisitsAll(left, right, same, i + 1, j + 1);
    } else if j < |right| && (i == |left| || Lcs(left, right, same, i, j + 1) >= Lcs(left, right, same, i + 1, j)) {
      ScriptVisitsAll(left, right, same, i, j + 1);
    } else if i < |left| {
      ScriptVisitsAll(left, right, same, i + 1, j);
    }
  }

  /** A script keeps as many pairs as the table says. */
  lemma {:induction false} ScriptKeepsLcs<T>(left: seq<T>, right: seq<T>, same: (T, T) -> bool, i: nat, j: nat)
    requires i <= |left| && j <= |right|
    ensures |KeptPairs(Script(left, right, same, i, j))| == Lcs(left, right, same, i, j)
    decreases |left| - i + |right| - j
  {
    if i < |left| && j < |right| && same(left[i], right[j]) {
      ScriptKeepsLcs(left, right, same, i + 1, j + 1);
    } else if j < |right| && (i == |left| || Lcs(left, right, same, i, j + 1) >= Lcs(left, right, same, i + 1, j)) {
      ScriptKeepsLcs(left, right, same, i, j + 1);
    } else if i < |left| {
      ScriptKeepsLcs(left, right, same, i + 1, j);
    }
  }

  lemma KeptOfCons(e: Edit, script: seq<Edit>)
    ensures KeptPairs([e] + script) == if e.Keep? then [(e.left, e.right)] + KeptPairs(script) else KeptPairs(script)
  {
    assert ([e] + script)[1..] == script;
  }

  /** A matching further on is a matching from here. */
  lemma MatchingFromEarlier<T>(m: seq<(nat, nat)>, left: seq<T>, right: seq<T>, same: (T, T) -> bool, i: nat, j: nat, k: nat, l: nat)
    requires IsMatching(m, left, right, same, i, j) && k <= i && l <= j
    ensures IsMatching(m, left, right, same, k, l)
  {
  }

  lemma MatchingExtended<T>(m: seq<(nat, nat)>, left: seq<T>, right: seq<T>, same: (T, T) -> bool, i: nat, j: nat)
    requires i < |left| && j < |right| && same(left[i], right[j]) && IsMatching(m, left, right, same, i + 1, j + 1)
    ensures IsMatching([(i, j)] + m, left, right, same, i, j)
  {
    assert ([(i, j)] + m)[1..] == m;
  }

  lemma NoPairs<T>(left: seq<T>, right: seq<T>, same: (T, T) -> bool, i: nat, j: nat)
    ensures KeptPairs([]) == [] && IsMatching([], left, right, same, i, j)
  {
  }

  /** The pairs a script keeps form a matching. */
  lemma {:induction false} ScriptKeepsMatching<T>(left: seq<T>, right: seq<T>, same: (T, T) -> bool, i: nat, j: nat)
    requires i <= |left| && j <= |right|
    ensures IsMatching(KeptPairs(Script(left, right, same, i, j)), left, right, same, i, j)
    decreases |left| - i + |right| - j
  {
    hide Lcs, KeptPairs;
    if i < |left| && j < |right| && same(left[i], right[j]) {
      var rest := Script(left, right, same, i + 1, j + 1);
      ScriptKeepsMatching(left, right, same, i + 1, j + 1);
      KeptOfCons(Keep(i, j), rest);
      MatchingExtended(KeptPairs(rest), left, right, same, i, j);
    } else if j < |right| && (i == |left| || Lcs(left, right, same, i, j + 1) >= Lcs(left, right, same, i + 1, j)) {
      var rest := Script(left, right, same, i, j + 1);
      ScriptKeepsMatching(left, right, same, i, j + 1);
      KeptOfCons(Insert(j), rest);
      assert Script(left, right, same, i, j) == [Insert(j)] + rest;
      MatchingFromEarlier(KeptPairs(rest), left, right, same, i, j + 1, i, j);
    } else if i < |left| {
      var rest := Script(left, right, same, i + 1, j);
      ScriptKeepsMatching(left, right, same, i + 1, j);
      KeptOfCons(Delete(i), rest);
      assert Script(left, right, same, i, j) == [Delete(i)] + rest;
      MatchingFromEarlier(KeptPairs(rest), left, right, same, i + 1, j, i, j);
    } else {
      NoPairs<T>(left, right, same, i, j);
    }
  }

  /** No order-preserving matching is longer than the table's value. */
  lemma {:induction false} LcsIsLargest<T>(left: seq<T>, right: seq<T>, same: (T, T) -> bool, i: nat, j: nat, m: seq<(nat, nat)>)
    requires i <= |left| && j <= |right|
    requires IsMatching(m, left, right, same, i, j)
    ensures |m| <= Lcs(left, right, same, i, j)
    decreases |left| - i + |right| - j
  {
    if m != [] && i < |left| && j < |right| {
      if same(left[i], right[j]) {
        LcsIsLargest(left, right, same, i + 1, j + 1, m[1..]);
      } else if m[0].0 > i {
        LcsIsLargest(left, right, same, i + 1, j, m);
      } else {
        LcsIsLargest(left, right, same, i, j + 1, m);
      }
    }
  }

  lemma {:induction false} CostCounts(script: seq<Edit>)
    ensures Cost(script) + 2 * |KeptPairs(script)| == |LeftsOf(script)| + |RightsOf(script)|
  {
    if script != [] {
      CostCounts(script[1..]);
    }
  }

  lemma RangeLength(lo: nat, hi: nat)
    requires lo <= hi
    ensures |Range(lo, hi)| == hi - lo
    decreases hi - lo
  {
    if lo < hi {
      RangeLength(lo + 1, hi);
    }
  }

  /** Any script that visits both lists completely and keeps only matching pairs. */
  ghost predicate IsEditScript<T>(script: seq<Edit>, left: seq<T>, right: seq<T>, same: (T, T) -> bool) {
    LeftsOf(script) == Range(0, |left|) && RightsOf(script) == Range(0, |right|)
    && IsMatching(KeptPairs(script), left, right, same, 0, 0)
  }

  /** The table-driven walk is an edit script of minimal cost |L| + |R| - 2M, M the largest matching. */
  lemma AlignmentIsMinimal<T>(left: seq<T>, right: seq<T>, same: (T, T) -> bool)
    ensures var script := Script(left, right, same, 0, 0);
            IsEditScript(script, left, right, same)
            && Cost(script) == |left| + |right| - 2 * Lcs(left, right, same, 0, 0)
    ensures forall m :: IsMatching(m, left, right, same, 0, 0) ==> |m| <= Lcs(left, right, same, 0, 0)
    ensures forall other :: IsEditScript(other, left, right, same) ==> Cost(Script(left, right, same, 0, 0)) <= Cost(other)
  {
    var script := Script(left, right, same, 0, 0);
    ScriptVisitsAll(left, right, same, 0, 0);
    ScriptKeepsMatching(left, right, same, 0, 0);
    ScriptKeepsLcs(left, right, same, 0, 0);
    CostCounts(script);
    RangeLength(0, |left|);
    RangeLength(0, |right|);
    forall m | IsMatching(m, left, right, same, 0, 0)
      ensures |m| <= Lcs(left, right, same, 0, 0)
    {
      LcsIsLargest(left, right, same, 0, 0, m);
    }
    forall other | IsEditScript(other, left, right, same)
      ensures Cost(script) <= Cost(other)
    {
      CostCounts(other);
      LcsIsLargest(left, right, same, 0, 0, KeptPairs(other));
    }
  }

  /** Some largest matching from (i, j) does without the element at `j`. */
  ghost predicate SparesRight<T>(left: seq<T>, right: seq<T>, same: (T, T) -> bool, i: nat, j: nat) {
    exists m :: IsMatching(m, left, right, same, i, j + 1)
                && forall other :: IsMatching(other, left, right, same, i, j) ==> |other| <= |m|
  }

  lemma SparedRight<T>(left: seq<T>, right: seq<T>, same: (T, T) -> bool, i: nat, j: nat)
    requires i < |left| && j < |right| && !same(left[i], right[j])
    ensures SparesRight(left, right, same, i, j) <==> Lcs(left, right, same, i, j + 1) >= Lcs(left, right, same, i + 1, j)
  {
    hide KeptPairs, Script;
    var n, k := Lcs(left, right, same, i, j + 1), Lcs(left, right, same, i + 1, j);
    if n >= k {
      var m := KeptPairs(Script(left, right, same, i, j + 1));
      ScriptKeepsMatching(left, right, same, i, j + 1);
      ScriptKeepsLcs(left, right, same, i, j + 1);
      forall other | IsMatching(other, left, right, same, i, j)
        ensures |other| <= |m|
      {
        LcsIsLargest(left, right, same, i, j, other);
      }
    } else {
      var better := KeptPairs(Script(left, right, same, i + 1, j));
      ScriptKeepsMatching(left, right, same, i + 1, j);
      ScriptKeepsLcs(left, right, same, i + 1, j);
      MatchingFromEarlier(better, left, right, same, i + 1, j, i, j);
      forall m | IsMatching(m, left, right, same, i, j + 1)
        ensures |m| < |better|
      {
        LcsIsLargest(left, right, same, i, j + 1, m);
      }
    }
  }

  /**
   Equal elements are kept together at once. Otherwise the right element is added first whenever that loses no
   pair, and only else the left one removed: on a tie, additions come before removals.
   */
  lemma AdditionsComeFirst<T>(left: seq<T>, right: seq<T>, same: (T, T) -> bool, i: nat, j: nat)
    requires i <= |left| && j <= |right|
    ensures Script(left, right, same, i, j) ==
            (if i == |left| && j == |right| then []
             else if i < |left| && j < |right| && same(left[i], right[j]) then [Keep(i, j)] + Script(left, right, same, i + 1, j + 1)
             else if j < |right| && (i == |left| || SparesRight(left, right, same, i, j)) then [Insert(j)] + Script(left, right, same, i, j + 1)
             else [Delete(i)] + Script(left, right, same, i + 1, j))
  {
    hide Lcs, SparesRight;
    if i < |left| && j < |right| && !same(left[i], right[j]) {
      SparedRight(left, right, same, i, j);
    }
  }

  lemma DiagonalCell<T>(left: seq<T>, right: seq<T>, same: (T, T) -> bool, i: nat)
    requires |left| == |right| && i <= |left|
    requires forall k :: i <= k < |left| ==> same(left[k], right[k])
    ensures Script(left, right, same, i, i) == Diagonal(i, |left|)
    decreases |left| - i
  {
    if i < |left| {
      DiagonalCell(left, right, same, i + 1);
    }
  }

  function Diagonal(lo: nat, hi: nat): seq<Edit>
    requires lo <= hi
    decreases hi - lo
  {
    if lo == hi then [] else [Keep(lo, lo)] + Diagonal(lo + 1, hi)
  }
}
