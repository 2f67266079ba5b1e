/** Which signers an order-insensitive comparison reports, and how, spelled out element by element. */
module SignerChanges {
  import opened Text
  import opened Tree
  import opened Changes
  import opened StructuralDiff
  import opened SignerDiff

  // ---------------------------------------------------------------- which items are left over

  /** One more item is left over exactly when the items before it have used up its key. */
  lemma {:induction false} SplitAppend(items: seq<Item>, x: Item, pool: multiset<string>)
    ensures Surplus(items + [x], pool) == Surplus(items, pool) + if Keys(items)[x.key] >= pool[x.key] then [x] else []
    ensures Covered(items + [x], pool) == Covered(items, pool) + if Keys(items)[x.key] < pool[x.key] then [x] else []
    decreases |items|
  {
    hide Keys;
    var all := items + [x];
    if items == [] {
      NoKeys();
      assert all == [x] && all[1..] == [];
    } else {
      assert all[0] == items[0] && all[1..] == items[1..] + [x];
      KeysOfCons(items);
      SplitAppend(items[1..], x, if items[0].key in pool then pool - multiset{items[0].key} else pool);
    }
  }

  lemma NoKeys()
    ensures Keys([]) == multiset{}
  {
  }

  /** The item at `i` comes after as many of its key as `pool` holds. */
  predicate UsedUp(items: seq<Item>, i: nat, pool: multiset<string>)
    requires i < |items|
  {
    Keys(items[..i])[items[i].key] >= pool[items[i].key]
  }

  /** The indices below `n` of the items that are left over, in order. */
  ghost predicate LeftOver(items: seq<Item>, pool: multiset<string>, n: nat, indices: seq<nat>)
    requires n <= |items|
  {
    (forall k :: 0 <= k < |indices| ==> indices[k] < n && UsedUp(items, indices[k], pool))
    && (forall k, l :: 0 <= k < l < |indices| ==> indices[k] < indices[l])
    && forall i :: 0 <= i < n && UsedUp(items, i, pool) ==> i in indices
  }

  ghost predicate PicksOut<T>(picked: seq<T>, from: seq<T>, indices: seq<nat>) {
    |picked| == |indices| && forall k :: 0 <= k < |indices| ==> indices[k] < |from| && picked[k] == from[indices[k]]
  }

  lemma {:induction false} SurplusIsLeftOver(items: seq<Item>, pool: multiset<string>, n: nat) returns (indices: seq<nat>)
    requires n <= |items|
    ensures LeftOver(items, pool, n, indices) && PicksOut(Surplus(items[..n], pool), items, indices)
  {
    hide Surplus, UsedUp;
    if n == 0 {
      assert items[..0] == [];
      SurplusOfNothing(pool);
      indices := [];
    } else {
      var before := SurplusIsLeftOver(items, pool, n - 1);
      SurplusOfPrefix(items, pool, n - 1);
      indices := if UsedUp(items, n - 1, pool) then before + [n - 1] else before;
      OneMoreLeftOver(items, pool, n - 1, before, indices);
    }
  }

  lemma SurplusOfPrefix(items: seq<Item>, pool: multiset<string>, n: nat)
    requires n < |items|
    ensures Surplus(items[..n + 1], pool) == Surplus(items[..n], pool) + if UsedUp(items, n, pool) then [items[n]] else []
  {
    hide Surplus, Keys;
    assert items[..n + 1] == items[..n] + [items[n]];
    SplitAppend(items[..n], items[n], pool);
  }

  lemma OneMoreLeftOver(items: seq<Item>, pool: multiset<string>, n: nat, before: seq<nat>, indices: seq<nat>)
    requires n < |items| && LeftOver(items, pool, n, before)
    requires indices == if UsedUp(items, n, pool) then before + [n] else before
    ensures LeftOver(items, pool, n + 1, indices)
  {
    hide UsedUp;
    forall i | 0 <= i <= n && UsedUp(items, i, pool)
      ensures i in indices
    {
      assert i < n ==> i in before;
    }
  }

  lemma SurplusOfNothing(pool: multiset<string>)
    ensures Surplus([], pool) == []
  {
  }

  // ---------------------------------------------------------------- the changes

  function NodeKeys(ns: seq<Node>, j: Judge): multiset<string> {
    if ns == [] then multiset{} else multiset{j.nodeKey(ns[0])} + NodeKeys(ns[1..], j)
  }

  function Selected(ns: seq<Node>, indices: seq<nat>): (r: seq<Node>)
    requires forall k :: 0 <= k < |indices| ==> indices[k] < |ns|
    ensures |r| == |indices| && forall k :: 0 <= k < |r| ==> r[k] == ns[indices[k]]
  {
    seq(|indices|, k requires 0 <= k < |indices| => ns[indices[k]])
  }

  /**
   The indices, in order, of the elements that come after as many elements of their key as the other side has:
   together they make up what the keys of this side exceed those of the other by.
   */
  ghost predicate Exceeds(ns: seq<Node>, others: seq<Node>, j: Judge, indices: seq<nat>) {
    (forall k :: 0 <= k < |indices| ==> indices[k] < |ns|)
    && (forall k, l :: 0 <= k < l < |indices| ==> indices[k] < indices[l])
    && (forall i :: 0 <= i < |ns| ==> (i in indices <==> NodeKeys(ns[..i], j)[j.nodeKey(ns[i])] >= NodeKeys(others, j)[j.nodeKey(ns[i])]))
    && NodeKeys(Selected(ns, indices), j) == NodeKeys(ns, j) - NodeKeys(others, j)
  }

  /** One removal for each left element in excess, then one addition for each right one, all at the list's own path. */
  ghost predicate ReportsExcess(changes: seq<Change>, ls: seq<Node>, rs: seq<Node>, path: string, j: Judge, removed: seq<nat>, added: seq<nat>) {
    Exceeds(ls, rs, j, removed) && Exceeds(rs, ls, j, added)
    && |changes| == |removed| + |added|
    && (forall k :: 0 <= k < |removed| ==> changes[k] == Change(path, Removed, Str(j.nodeLabel(ls[removed[k]])), Nil, "", ""))
    && forall k :: 0 <= k < |added| ==> changes[|removed| + k] == Change(path, Added, Nil, Str(j.nodeLabel(rs[added[k]])), "", "")
  }

  lemma {:induction false} ItemsAt(ns: seq<Node>, j: Judge)
    ensures |ItemsOf(ns, j)| == |ns|
    ensures forall i :: 0 <= i < |ns| ==> ItemsOf(ns, j)[i] == Item(j.nodeKey(ns[i]), j.nodeLabel(ns[i]))
  {
    if ns != [] {
      ItemsAt(ns[1..], j);
    }
  }

  lemma {:induction false} ItemKeys(ns: seq<Node>, j: Judge)
    ensures Keys(ItemsOf(ns, j)) == NodeKeys(ns, j)
  {
    if ns != [] {
      ItemKeys(ns[1..], j);
      KeysOfCons(ItemsOf(ns, j));
    }
  }

  lemma ItemsOfPrefix(ns: seq<Node>, i: nat, j: Judge)
    requires i <= |ns|
    ensures |ItemsOf(ns, j)| == |ns| && ItemsOf(ns[..i], j) == ItemsOf(ns, j)[..i]
  {
    ItemsAt(ns, j);
    ItemsAt(ns[..i], j);
  }

  /** The node at `i` is left over as an item exactly when it is in excess of its key. */
  lemma UsedUpNode(ns: seq<Node>, i: nat, pool: multiset<string>, j: Judge)
    requires i < |ns| && i < |ItemsOf(ns, j)|
    ensures UsedUp(ItemsOf(ns, j), i, pool) <==> NodeKeys(ns[..i], j)[j.nodeKey(ns[i])] >= pool[j.nodeKey(ns[i])]
  {
    hide ItemsOf, NodeKeys, Keys;
    ItemsAt(ns, j);
    ItemsOfPrefix(ns, i, j);
    ItemKeys(ns[..i], j);
  }

  lemma SurplusExceeds(ns: seq<Node>, others: seq<Node>, j: Judge) returns (indices: seq<nat>)
    ensures Exceeds(ns, others, j, indices)
    ensures PicksOut(Surplus(ItemsOf(ns, j), Keys(ItemsOf(others, j))), ItemsOf(ns, j), indices)
  {
    hide Surplus, ItemsOf, NodeKeys, Keys, UsedUp;
    var items, pool := ItemsOf(ns, j), Keys(ItemsOf(others, j));
    ItemsAt(ns, j);
    ItemKeys(others, j);
    indices := SurplusIsLeftOver(items, pool, |items|);
    assert items[..|items|] == items;
    forall i | 0 <= i < |ns|
      ensures i in indices <==> NodeKeys(ns[..i], j)[j.nodeKey(ns[i])] >= NodeKeys(others, j)[j.nodeKey(ns[i])]
    {
      UsedUpNode(ns, i, pool, j);
    }
    ItemsAt(Selected(ns, indices), j);
    assert ItemsOf(Selected(ns, indices), j) == Surplus(items, pool);
    ItemKeys(Selected(ns, indices), j);
    ItemKeys(ns, j);
    KeysSplit(items, pool);
  }

  lemma {:induction false} RemovalsAt(items: seq<Item>, path: string)
    ensures |Removals(Labels(items), path)| == |items|
    ensures forall k :: 0 <= k < |items| ==> Removals(Labels(items), path)[k] == Change(path, Removed, Str(items[k].text), Nil, "", "")
  {
    if items != [] {
      RemovalsAt(items[1..], path);
    }
  }

  lemma {:induction false} AdditionsAt(items: seq<Item>, path: string)
    ensures |Additions(Labels(items), path)| == |items|
    ensures forall k :: 0 <= k < |items| ==> Additions(Labels(items), path)[k] == Change(path, Added, Nil, Str(items[k].text), "", "")
  {
    if items != [] {
      AdditionsAt(items[1..], path);
    }
  }

  /** An order-insensitive comparison reports the excess of either side over the other and nothing else. */
  lemma ExcessIsReported(ls: seq<Node>, rs: seq<Node>, path: string, o: Options)
    ensures exists removed, added :: ReportsExcess(DiffMultisets(ls, rs, path, o), ls, rs, path, o.judge, removed, added)
  {
    hide Surplus, ItemsOf, Keys, Exceeds, Removals, Additions, Labels;
    var xs, ys := ItemsOf(ls, o.judge), ItemsOf(rs, o.judge);
    var removed := SurplusExceeds(ls, rs, o.judge);
    var added := SurplusExceeds(rs, ls, o.judge);
    RemovalsAt(Surplus(xs, Keys(ys)), path);
    AdditionsAt(Surplus(ys, Keys(xs)), path);
    ItemsAt(ls, o.judge);
    ItemsAt(rs, o.judge);
    assert ReportsExcess(DiffMultisets(ls, rs, path, o), ls, rs, path, o.judge, removed, added);
  }
}
