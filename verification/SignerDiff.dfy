/** Order-insensitive comparison of signer and signature collections. */
module SignerDiff {

  /** A canonical identity and its human-readable rendering. */
  datatype Item = Item(key: string, text: string)

  datatype SetDiff = SetDiff(added: seq<string>, removed: seq<string>, common: seq<string>)

  function KeySeq(items: seq<Item>): (r: seq<string>)
    ensures |r| == |items|
  {
    if items == [] then [] else [items[0].key] + KeySeq(items[1..])
  }

  function Keys(items: seq<Item>): multiset<string> {
    multiset(KeySeq(items))
  }

  function Labels(items: seq<Item>): seq<string> {
    if items == [] then [] else [items[0].text] + Labels(items[1..])
  }

  /** The items whose key is still available in `pool`, each using up one occurrence. */
  function Covered(items: seq<Item>, pool: multiset<string>): seq<Item>
    decreases |items|
  {
    if items == [] then []
    else if items[0].key in pool then [items[0]] + Covered(items[1..], pool - multiset{items[0].key})
    else Covered(items[1..], pool)
  }

  /** The items left over once `pool` is used up. */
  function Surplus(items: seq<Item>, pool: multiset<string>): seq<Item>
    decreases |items|
  {
    if items == [] then []
    else if items[0].key in pool then Surplus(items[1..], pool - multiset{items[0].key})
    else [items[0]] + Surplus(items[1..], pool)
  }

  function Diff(left: seq<Item>, right: seq<Item>): SetDiff {
    SetDiff(Labels(Surplus(right, Keys(left))), Labels(Surplus(left, Keys(right))), Labels(Covered(left, Keys(right))))
  }

  predicate Equal(d: SetDiff) {
    |d.added| == 0 && |d.removed| == 0
  }

  // ---------------------------------------------------------------- the algorithm

  function CountIn(counts: map<string, int>, key: string): int {
    if key in counts then counts[key] else 0
  }

  /** `counts` is a table of the multiplicities of `keys`. */
  ghost predicate Tallies(counts: map<string, int>, keys: multiset<string>) {
    forall key :: CountIn(counts, key) == keys[key]
  }

  method Tally(items: seq<Item>) returns (counts: map<string, int>)
    ensures Tallies(counts, Keys(items))
  {
    counts := map[];
    for i := 0 to |items|
      invariant Tallies(counts, Keys(items[..i]))
    {
      KeysOfPrefix(items, i);
      counts := counts[items[i].key := CountIn(counts, items[i].key) + 1];
    }
    assert items[..|items|] == items;
  }

  method SignerSetDiff(left: seq<Item>, right: seq<Item>) returns (diff: SetDiff)
    ensures diff == Diff(left, right)
  {
    var leftCounts := Tally(left);
    var remaining := Tally(right);
    var common, removed := SplitLeft(left, remaining, Keys(right));
    var added := SplitRight(right, leftCounts, Keys(left));
    diff := SetDiff(added, removed, common);
  }

  /** The loop over the left items: each one uses up an occurrence on the right, or is removed. */
  method SplitLeft(left: seq<Item>, counts: map<string, int>, ghost keys: multiset<string>)
    returns (common: seq<string>, removed: seq<string>)
    requires Tallies(counts, keys)
    ensures common == Labels(Covered(left, keys)) && removed == Labels(Surplus(left, keys))
  {
    var remaining := counts;
    ghost var pool := keys;
    common, removed := [], [];
    for i := 0 to |left|
      invariant Tallies(remaining, pool)
      invariant common + Labels(Covered(left[i..], pool)) == Labels(Covered(left, keys))
      invariant removed + Labels(Surplus(left[i..], pool)) == Labels(Surplus(left, keys))
    {
      var item := left[i];
      SplitStep(left, i, pool);
      if CountIn(remaining, item.key) > 0 {
        remaining := remaining[item.key := CountIn(remaining, item.key) - 1];
        common := common + [item.text];
        pool := pool - multiset{item.key};
      } else {
        removed := removed + [item.text];
      }
    }
  }

  /** The loop over the right items: those beyond the left multiplicities are added. */
  method SplitRight(right: seq<Item>, leftCounts: map<string, int>, ghost keys: multiset<string>) returns (added: seq<string>)
    requires Tallies(leftCounts, keys)
    ensures added == Labels(Surplus(right, keys))
  {
    var consumed: map<string, int> := map[];
    ghost var pool := keys;
    added := [];
    for i := 0 to |right|
      invariant forall key :: CountIn(leftCounts, key) - CountIn(consumed, key) == pool[key]
      invariant added + Labels(Surplus(right[i..], pool)) == Labels(Surplus(right, keys))
    {
      var item := right[i];
      SplitStep(right, i, pool);
      if CountIn(consumed, item.key) < CountIn(leftCounts, item.key) {
        consumed := consumed[item.key := CountIn(consumed, item.key) + 1];
        pool := pool - multiset{item.key};
      } else {
        added := added + [item.text];
      }
    }
  }

  /** What one more item contributes to each side of the split. */
  lemma SplitStep(items: seq<Item>, i: nat, pool: multiset<string>)
    requires i < |items|
    ensures items[i].key in pool ==>
              var rest := pool - multiset{items[i].key};
              Labels(Covered(items[i..], pool)) == [items[i].text] + Labels(Covered(items[i + 1..], rest))
              && Labels(Surplus(items[i..], pool)) == Labels(Surplus(items[i + 1..], rest))
    ensures items[i].key !in pool ==>
              Labels(Covered(items[i..], pool)) == Labels(Covered(items[i + 1..], pool))
              && Labels(Surplus(items[i..], pool)) == [items[i].text] + Labels(Surplus(items[i + 1..], pool))
  {
    assert items[i..][1..] == items[i + 1..];
  }

  // ---------------------------------------------------------------- multiset algebra

  lemma KeysOfCons(items: seq<Item>)
    requires items != []
    ensures Keys(items) == multiset{items[0].key} + Keys(items[1..])
  {
    assert KeySeq(items) == [items[0].key] + KeySeq(items[1..]);
  }

  lemma {:induction false} KeySeqAppend(xs: seq<Item>, ys: seq<Item>)
    ensures KeySeq(xs + ys) == KeySeq(xs) + KeySeq(ys)
  {
    if xs == [] {
      assert xs + ys == ys;
    } else {
      assert (xs + ys)[1..] == xs[1..] + ys;
      KeySeqAppend(xs[1..], ys);
    }
  }

  lemma KeysOfPrefix(items: seq<Item>, i: nat)
    requires i < |items|
    ensures Keys(items[..i + 1]) == Keys(items[..i]) + multiset{items[i].key}
  {
    assert items[..i + 1] == items[..i] + [items[i]];
    KeySeqAppend(items[..i], [items[i]]);
    assert KeySeq([items[i]]) == [items[i].key];
  }

  /** What is covered has the common keys, what is surplus the remaining ones. */
  lemma {:induction false} KeysSplit(items: seq<Item>, pool: multiset<string>)
    ensures Keys(Covered(items, pool)) == Keys(items) * pool
    ensures Keys(Surplus(items, pool)) == Keys(items) - pool
    decreases |items|
  {
    if items != [] {
      var key, rest := items[0].key, items[1..];
      KeysOfCons(items);
      if key in pool {
        KeysSplit(rest, pool - multiset{key});
        KeysOfCons(Covered(items, pool));
      } else {
        KeysSplit(rest, pool);
        KeysOfCons(Surplus(items, pool));
      }
    }
  }

  /** `xs` is `ys` with some elements left out. */
  predicate Subsequence<T(==)>(xs: seq<T>, ys: seq<T>) {
    if xs == [] then true
    else ys != [] && ((xs[0] == ys[0] && Subsequence(xs[1..], ys[1..])) || Subsequence(xs, ys[1..]))
  }

  lemma {:induction false} SplitKeepsOrder(items: seq<Item>, pool: multiset<string>)
    ensures Subsequence(Covered(items, pool), items) && Subsequence(Surplus(items, pool), items)
    ensures multiset(Covered(items, pool)) + multiset(Surplus(items, pool)) == multiset(items)
    decreases |items|
  {
    if items != [] {
      var rest := items[1..];
      assert items == [items[0]] + rest;
      SplitKeepsOrder(rest, if items[0].key in pool then pool - multiset{items[0].key} else pool);
    }
  }

  /** The difference is min(L, R), L - R and R - L on keys, each list in its side's order, and nothing is lost. */
  lemma DiffIsMultisetAlgebra(left: seq<Item>, right: seq<Item>)
    ensures var common, removed, added := Covered(left, Keys(right)), Surplus(left, Keys(right)), Surplus(right, Keys(left));
            Diff(left, right) == SetDiff(Labels(added), Labels(removed), Labels(common))
            && Keys(common) == Keys(left) * Keys(right)
            && Keys(removed) == Keys(left) - Keys(right)
            && Keys(added) == Keys(right) - Keys(left)
            && multiset(common) + multiset(removed) == multiset(left)
            && Subsequence(common, left) && Subsequence(removed, left) && Subsequence(added, right)
  {
    KeysSplit(left, Keys(right));
    KeysSplit(right, Keys(left));
    SplitKeepsOrder(left, Keys(right));
    SplitKeepsOrder(right, Keys(left));
  }

  lemma {:induction false} NothingReported(items: seq<Item>)
    ensures |Labels(items)| == 0 <==> Keys(items) == multiset{}
  {
    if items != [] {
      KeysOfCons(items);
      assert items[0].key in Keys(items);
    }
  }

  /** The verdict is equality of multisets of keys, whatever the order on either side. */
  lemma EqualIffSameKeys(left: seq<Item>, right: seq<Item>)
    ensures Equal(Diff(left, right)) <==> Keys(left) == Keys(right)
  {
    KeysSplit(left, Keys(right));
    KeysSplit(right, Keys(left));
    NothingReported(Surplus(left, Keys(right)));
    NothingReported(Surplus(right, Keys(left)));
    NoDifference(Keys(left), Keys(right));
  }

  lemma NoDifference(l: multiset<string>, r: multiset<string>)
    ensures l == r <==> l - r == multiset{} && r - l == multiset{}
  {
    if l - r == multiset{} && r - l == multiset{} {
      forall key
        ensures l[key] == r[key]
      {
        assert (l - r)[key] == 0 && (r - l)[key] == 0;
      }
    }
  }

  /** Swapping the sides swaps what is added with what is removed and keeps what is common. */
  lemma DiffSwaps(left: seq<Item>, right: seq<Item>)
    ensures Diff(right, left).added == Diff(left, right).removed
    ensures Diff(right, left).removed == Diff(left, right).added
    ensures Keys(Covered(right, Keys(left))) == Keys(Covered(left, Keys(right)))
  {
    KeysSplit(left, Keys(right));
    KeysSplit(right, Keys(left));
  }

  /** Reordering either side changes neither the verdict nor how often any key is reported. */
  lemma DiffIgnoresOrder(left: seq<Item>, right: seq<Item>, left': seq<Item>, right': seq<Item>)
    requires multiset(left) == multiset(left') && multiset(right) == multiset(right')
    ensures Keys(Surplus(left', Keys(right'))) == Keys(Surplus(left, Keys(right)))
    ensures Keys(Surplus(right', Keys(left'))) == Keys(Surplus(right, Keys(left)))
    ensures Keys(Covered(left', Keys(right'))) == Keys(Covered(left, Keys(right)))
    ensures Equal(Diff(left', right')) == Equal(Diff(left, right))
  {
    KeysOfReordered(left, left');
    KeysOfReordered(right, right');
    KeysSplit(left, Keys(right));
    KeysSplit(right, Keys(left));
    KeysSplit(left', Keys(right'));
    KeysSplit(right', Keys(left'));
    EqualIffSameKeys(left, right);
    EqualIffSameKeys(left', right');
  }

  lemma KeysWithout(ys: seq<Item>, k: nat)
    requires k < |ys|
    ensures var rest := ys[..k] + ys[k + 1..];
            Keys(ys) == Keys(rest) + multiset{ys[k].key} && multiset(ys) == multiset(rest) + multiset{ys[k]}
  {
    KeysOfPrefix(ys, k);
    assert ys == ys[..k + 1] + ys[k + 1..];
    assert ys[..k + 1] == ys[..k] + [ys[k]];
    KeySeqAppend(ys[..k + 1], ys[k + 1..]);
    KeySeqAppend(ys[..k], ys[k + 1..]);
  }

  lemma Cancel<T>(a: multiset<T>, b: multiset<T>, x: T)
    requires a + multiset{x} == b + multiset{x}
    ensures a == b
  {
    assert a == a + multiset{x} - multiset{x};
    assert b == b + multiset{x} - multiset{x};
  }

  lemma {:induction false} KeysOfReordered(xs: seq<Item>, ys: seq<Item>)
    requires multiset(xs) == multiset(ys)
    ensures Keys(xs) == Keys(ys)
    decreases |xs|
  {
    if xs == [] {
      assert |multiset(ys)| == 0;
    } else {
      assert xs[0] in multiset(xs);
      assert xs[0] in ys;
      var k :| 0 <= k < |ys| && ys[k] == xs[0];
      var rest := ys[..k] + ys[k + 1..];
      KeysWithout(ys, k);
      KeysWithout(xs, 0);
      assert xs[..0] + xs[1..] == xs[1..];
      Cancel(multiset(xs[1..]), multiset(rest), xs[0]);
      KeysOfReordered(xs[1..], rest);
    }
  }
}
