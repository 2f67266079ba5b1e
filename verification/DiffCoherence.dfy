/** The boolean comparison and the change-emitting walk agree: nodes judged the same yield no change. */
module DiffCoherence {
  import opened Text
  import opened Tree
  import opened Changes
  import opened StructuralDiff
  import Alignment
  import GreedyMatching
  import SignerDiff

  /** Scalars are the same only when their values are equal, and nodes of different kinds never are. */
  ghost predicate ExactScalars(o: Options) {
    (forall a: Node, b: Node :: a.Scalar? && b.Scalar? && o.judge.sameScalar(a, b) ==> a.value == b.value)
    && forall a: Node, b: Node :: !SameKind(a, b) ==> !o.judge.binaryEqual(a, b)
  }

  /** Signer collections are compared in order, or by keys that do not tell same nodes apart. */
  ghost predicate KeysRespectSame(o: Options) {
    !o.unorderedSigners || forall x: Node, y: Node :: SameNode(x, y, o.judge) ==> o.judge.nodeKey(x) == o.judge.nodeKey(y)
  }

  ghost predicate SameOption(x: Option<Node>, y: Option<Node>, o: Options) {
    x.Some? == y.Some? && (x.Some? ==> SameNode(x.value, y.value, o.judge))
  }

  lemma {:induction false} SameFirstNamed(xs: seq<Node>, ys: seq<Node>, name: string, o: Options)
    requires SameNodes(xs, ys, o.judge)
    ensures SameOption(FirstNamed(xs, name), FirstNamed(ys, name), o)
  {
    if xs != [] {
      SameFirstNamed(xs[1..], ys[1..], name, o);
    }
  }

  lemma SameField(x: Option<Node>, y: Option<Node>, name: string, o: Options)
    requires ExactScalars(o) && SameOption(x, y, o)
    ensures SameOption(FieldOf(x, name), FieldOf(y, name), o)
  {
    if x.Some? && !x.value.Scalar? {
      SameFirstNamed(x.value.children, y.value.children, name, o);
    }
  }

  lemma SameValue(x: Node, y: Node, o: Options)
    requires ExactScalars(o) && SameNode(x, y, o.judge)
    ensures SameKind(x, y) && ValueOf(x) == ValueOf(y) && SameNodes(Children(x), Children(y), o.judge)
  {
  }

  // ---------------------------------------------------------------- the special cases look alike

  lemma {:induction false} SameMemoArm(xs: seq<Node>, ys: seq<Node>, o: Options)
    requires ExactScalars(o) && SameNodes(xs, ys, o.judge)
    ensures MemoArm(xs) == MemoArm(ys)
  {
    if xs != [] {
      SameValue(xs[0], ys[0], o);
      SameMemoArm(xs[1..], ys[1..], o);
    }
  }

  lemma SameLedgerData(a: Node, b: Node, o: Options)
    requires ExactScalars(o) && SameNode(a, b, o.judge)
    ensures HasLedgerEntryData(a) ==> HasLedgerEntryData(b)
  {
    if HasLedgerEntryData(a) {
      SameValue(a, b, o);
      var i :| 0 <= i < |Children(a)| && IsTypedData(Children(a)[i]);
      var x := Children(a)[i];
      SameNodesAt(Children(a), Children(b), o.judge, i);
      var y := Children(b)[i];
      SameValue(x, y, o);
      var k :| 0 <= k < |x.children| && x.children[k].name == "Type" && ValueOf(x.children[k]) != Nil;
      SameNodesAt(x.children, y.children, o.judge, k);
      SameValue(x.children[k], y.children[k], o);
      assert IsTypedData(y);
    }
  }

  lemma SameLedgerDataBack(a: Node, b: Node, o: Options)
    requires ExactScalars(o) && SameNode(a, b, o.judge)
    ensures HasLedgerEntryData(b) ==> HasLedgerEntryData(a)
  {
    if HasLedgerEntryData(b) {
      SameValue(a, b, o);
      var i :| 0 <= i < |Children(b)| && IsTypedData(Children(b)[i]);
      var y := Children(b)[i];
      SameNodesAt(Children(a), Children(b), o.judge, i);
      var x := Children(a)[i];
      SameValue(x, y, o);
      var k :| 0 <= k < |y.children| && y.children[k].name == "Type" && ValueOf(y.children[k]) != Nil;
      SameNodesAt(x.children, y.children, o.judge, k);
      SameValue(x.children[k], y.children[k], o);
      assert IsTypedData(x);
    }
  }

  lemma NoTransition(a: Node, b: Node, path: string, o: Options)
    requires ExactScalars(o) && SameNode(a, b, o.judge)
    ensures LedgerHeader(a, b, path, [], o.judge) == []
  {
    SameLedgerData(a, b, o);
    SameLedgerDataBack(a, b, o);
  }

  lemma {:induction false} SameTopicSummary(x: Node, y: Node, arms: seq<string>, o: Options)
    requires ExactScalars(o) && SameNode(x, y, o.judge)
    ensures TopicSummary(x, arms, o.judge) == TopicSummary(y, arms, o.judge)
  {
    SameValue(x, y, o);
    if arms != [] {
      SameField(Some(x), Some(y), arms[0], o);
      var u, v := Child(x, arms[0]), Child(y, arms[0]);
      if u.Some? {
        SameValue(u.value, v.value, o);
      }
      SameTopicSummary(x, y, arms[1..], o);
    }
  }

  lemma {:induction false} SameTopicSummaries(xs: seq<Node>, ys: seq<Node>, o: Options)
    requires ExactScalars(o) && SameNodes(xs, ys, o.judge)
    ensures TopicSummaries(xs, o.judge) == TopicSummaries(ys, o.judge)
  {
    if xs != [] {
      SameTopicSummary(xs[0], ys[0], ARMS, o);
      SameTopicSummaries(xs[1..], ys[1..], o);
    }
  }

  lemma SameMeta(x: Node, y: Node, o: Options)
    requires ExactScalars(o) && SameNode(x, y, o.judge)
    ensures MetaOf(x, o.judge) == MetaOf(y, o.judge)
  {
    SameField(Some(x), Some(y), "Event", o);
    var e := if Child(x, "Event").Some? then Child(x, "Event").value else x;
    var f := if Child(y, "Event").Some? then Child(y, "Event").value else y;
    SameField(Some(e), Some(f), "ContractId", o);
    var c, d := Child(e, "ContractId"), Child(f, "ContractId");
    if c.Some? {
      SameValue(c.value, d.value, o);
    }
    SameField(Some(e), Some(f), "Body", o);
    SameField(FieldOf(Some(e), "Body"), FieldOf(Some(f), "Body"), "V0", o);
    SameField(FieldOf(FieldOf(Some(e), "Body"), "V0"), FieldOf(FieldOf(Some(f), "Body"), "V0"), "Topics", o);
    var s := FieldOf(FieldOf(FieldOf(Some(e), "Body"), "V0"), "Topics");
    var t := FieldOf(FieldOf(FieldOf(Some(f), "Body"), "V0"), "Topics");
    if s.Some? {
      SameValue(s.value, t.value, o);
      SameTopicSummaries(Children(s.value), Children(t.value), o);
    }
  }

  // ---------------------------------------------------------------- same lists are visited diagonally

  /** The visit compares an element with its counterpart. */
  predicate IsDiagonal(v: Visit, n: nat) {
    v.left.Some? && v.right == v.left && v.left.value < n
  }

  lemma {:induction false} PositionalDiagonal(n: nat, i: nat)
    requires i <= n
    ensures forall k :: 0 <= k < |PositionalVisits(n, n, i)| ==> IsDiagonal(PositionalVisits(n, n, i)[k], n)
    decreases n - i
  {
    if i < n {
      PositionalDiagonal(n, i + 1);
    }
  }

  lemma {:induction false} EditDiagonal(n: nat, i: nat)
    requires i <= n
    ensures forall k :: 0 <= k < |EditVisits(Alignment.Diagonal(i, n))| ==> IsDiagonal(EditVisits(Alignment.Diagonal(i, n))[k], n)
    decreases n - i
  {
    if i < n {
      EditDiagonal(n, i + 1);
      assert Alignment.Diagonal(i, n)[1..] == Alignment.Diagonal(i + 1, n);
    }
  }

  lemma {:induction false} PairDiagonal(pairs: seq<(nat, nat)>, n: nat)
    requires forall k :: 0 <= k < |pairs| ==> pairs[k].0 == pairs[k].1 < n
    ensures forall k :: 0 <= k < |PairVisits(pairs)| ==> IsDiagonal(PairVisits(pairs)[k], n)
  {
    if pairs != [] {
      PairDiagonal(pairs[1..], n);
    }
  }

  lemma ListDiagonal(xs: seq<Node>, ys: seq<Node>, o: Options)
    requires SameNodes(xs, ys, o.judge)
    ensures forall k :: 0 <= k < |ListVisits(xs, ys, o)| ==> IsDiagonal(ListVisits(xs, ys, o)[k], |xs|)
  {
    forall i | 0 <= i < |xs|
      ensures SameNode(xs[i], ys[i], o.judge)
    {
      SameNodesAt(xs, ys, o.judge, i);
    }
    Alignment.DiagonalCell(xs, ys, Same(o.judge), 0);
    EditDiagonal(|xs|, 0);
    PositionalDiagonal(|xs|, 0);
  }

  /** Greedy event pairing is the identity on lists whose events look alike. */
  lemma EventDiagonal(xs: seq<Node>, ys: seq<Node>, j: Judge)
    requires |xs| == |ys| && forall i :: 0 <= i < |xs| ==> MetaOf(xs[i], j) == MetaOf(ys[i], j)
    ensures PairEvents(MetasOf(xs, j), MetasOf(ys, j)) == GreedyMatching.Identity(|xs|, |xs|)
    ensures var visits := EventVisits(PairEvents(MetasOf(xs, j), MetasOf(ys, j)));
            forall k :: 0 <= k < |visits| ==> IsDiagonal(visits[k], |xs|)
  {
    hide MetaOf;
    var ms, ns, n := MetasOf(xs, j), MetasOf(ys, j), |xs|;
    assert GreedyMatching.Pairing(GreedyMatching.Free(n), GreedyMatching.Free(n), []) == GreedyMatching.Identity(n, 0);
    GreedyMatching.GreedyIsIdentity(ms, ns, SameTopics, 0);
    var p := GreedyMatching.Identity(n, n);
    GreedyMatching.ShiftedWhenMatched(ms, ns, SamePrimaryTopic, p, 0);
    GreedyMatching.NoneUnmatched(p.left, 0);
    GreedyMatching.NoneUnmatched(p.right, 0);
    PairDiagonal(p.pairs, n);
    assert EventVisits(p) == PairVisits(p.pairs);
  }

  lemma SameMetas(xs: seq<Node>, ys: seq<Node>, o: Options)
    requires ExactScalars(o) && SameNodes(xs, ys, o.judge)
    ensures |xs| == |ys| && forall i :: 0 <= i < |xs| ==> MetaOf(xs[i], o.judge) == MetaOf(ys[i], o.judge)
  {
    hide MetaOf;
    forall i | 0 <= i < |xs|
      ensures MetaOf(xs[i], o.judge) == MetaOf(ys[i], o.judge)
    {
      SameNodesAt(xs, ys, o.judge, i);
      SameMeta(xs[i], ys[i], o);
    }
  }

  lemma {:induction false} NothingToSort(bound: nat)
    ensures StableByPosition([], bound) == []
  {
    if bound > 0 {
      NothingToSort(bound - 1);
    }
  }

  lemma SameOperations(xs: seq<Node>, ys: seq<Node>, path: string, o: Options)
    requires SameNodes(xs, ys, o.judge)
    ensures DiffOperations(xs, ys, path, o) == []
  {
    var p := GreedyMatching.InPlace(xs, ys, Same(o.judge));
    forall i | 0 <= i < |xs|
      ensures SameNode(xs[i], ys[i], o.judge)
    {
      SameNodesAt(xs, ys, o.judge, i);
    }
    GreedyMatching.ShiftedWhenMatched(xs, ys, Same(o.judge), p, 0);
    GreedyMatching.NoneUnmatched(p.left, 0);
    GreedyMatching.NoneUnmatched(p.right, 0);
    assert OperationVisits(p) == [];
    NothingToSort(Longer(|xs|, |ys|));
  }

  lemma {:induction false} SameItems(xs: seq<Node>, ys: seq<Node>, o: Options)
    requires SameNodes(xs, ys, o.judge) && o.unorderedSigners && KeysRespectSame(o)
    ensures SignerDiff.Keys(ItemsOf(xs, o.judge)) == SignerDiff.Keys(ItemsOf(ys, o.judge))
  {
    if xs != [] {
      SameItems(xs[1..], ys[1..], o);
      SignerDiff.KeysOfCons(ItemsOf(xs, o.judge));
      SignerDiff.KeysOfCons(ItemsOf(ys, o.judge));
    }
  }

  /** Corresponding elements yield no change, at whatever path they are reported. */
  ghost predicate PairsSilent(xs: seq<Node>, ys: seq<Node>, o: Options) {
    |xs| == |ys| && forall i, p :: 0 <= i < |xs| ==> DiffNodes(Some(xs[i]), Some(ys[i]), p, o) == []
  }

  lemma {:induction false} DiagonalVisitsSilent(visits: seq<Visit>, xs: seq<Node>, ys: seq<Node>, path: string, o: Options)
    requires PairsSilent(xs, ys, o) && forall k :: 0 <= k < |visits| ==> IsDiagonal(visits[k], |xs|)
    ensures VisitAll(visits, xs, ys, path, o) == []
    decreases |visits|
  {
    if visits != [] {
      var v := visits[0];
      assert IsDiagonal(v, |xs|);
      assert DiffNodes(Some(xs[v.left.value]), Some(ys[v.left.value]), At(path, v.at), o) == [];
      assert VisitOne(v, xs, ys, path, o) == [];
      DiagonalVisitsSilent(visits[1..], xs, ys, path, o);
    }
  }

  // ---------------------------------------------------------------- the walk is silent

  /** Fields of one name yield no change, at whatever path they are reported. */
  ghost predicate NamesakesSilent(a: Node, b: Node, o: Options)
    requires a.Struct? && b.Struct?
  {
    forall i, k, p :: 0 <= i < |a.children| && 0 <= k < |b.children| && a.children[i].name == b.children[k].name ==>
      DiffNodes(Some(a.children[i]), Some(b.children[k]), p, o) == []
  }

  lemma {:induction false} SameFieldsSilent(a: Node, b: Node, i: nat, path: string, o: Options)
    requires a.Struct? && b.Struct? && SameNodes(a.children, b.children, o.judge) && i <= |a.children|
    requires NamesakesSilent(a, b, o)
    ensures LeftFields(a.children[i..], b, path, o) == [] && RightFields(b.children[i..], a, path, o) == []
    decreases |a.children| - i
  {
    hide DiffNodes, SameNode, Join;
    if i < |a.children| {
      SameNodesAt(a.children, b.children, o.judge, i);
      NamedIsFound(a.children, i);
      NamedIsFound(b.children, i);
      var k := FirstNamedAt(b.children, a.children[i].name);
      assert LeftField(a.children[i], b, path, o) == [] && RightField(b.children[i], a, path, o) == [];
      assert a.children[i..][1..] == a.children[i + 1..] && b.children[i..][1..] == b.children[i + 1..];
      SameFieldsSilent(a, b, i + 1, path, o);
    }
  }

  lemma {:induction false} NamedIsFound(ns: seq<Node>, i: nat)
    requires i < |ns|
    ensures FirstNamed(ns, ns[i].name).Some?
  {
    if i > 0 {
      NamedIsFound(ns[1..], i - 1);
    }
  }

  /** Below every struct, fields of one name are the same on both sides; unique names are one way to have that. */
  ghost predicate NamesakesAlike(a: Node, b: Node, j: Judge)
    decreases a
  {
    !SameKind(a, b) || a.Scalar? ||
    forall i, k :: 0 <= i < |a.children| && 0 <= k < |b.children| && Meet(a, i, b, k) ==>
      SameNode(a.children[i], b.children[k], j) && NamesakesAlike(a.children[i], b.children[k], j)
  }

  /** The walk may compare these two children. */
  predicate Meet(a: Node, i: nat, b: Node, k: nat)
    requires !a.Scalar? && !b.Scalar? && i < |a.children| && k < |b.children|
  {
    i == k || (a.Struct? && a.children[i].name == b.children[k].name)
  }

  lemma {:induction false} UniqueNamesAreAlike(a: Node, b: Node, j: Judge)
    requires SameNode(a, b, j) && UniqueNames(a) && UniqueNames(b)
    ensures NamesakesAlike(a, b, j)
    decreases a
  {
    if SameKind(a, b) && !a.Scalar? {
      forall i, k | 0 <= i < |a.children| && 0 <= k < |b.children| && Meet(a, i, b, k)
        ensures SameNode(a.children[i], b.children[k], j) && NamesakesAlike(a.children[i], b.children[k], j)
      {
        SameNodesAt(a.children, b.children, j, i);
        SameNodesAt(a.children, b.children, j, k);
        UniqueNamesAreAlike(a.children[i], b.children[k], j);
      }
    }
  }

  /** Nodes judged the same yield no change at any path, whatever branch of the walk they take. */
  lemma {:induction false} SameNodesAreSilent(a: Node, b: Node, path: string, o: Options)
    requires SameNode(a, b, o.judge) && NamesakesAlike(a, b, o.judge)
    requires ExactScalars(o) && KeysRespectSame(o)
    ensures DiffNodes(Some(a), Some(b), path, o) == []
    decreases a
  {
    hide ExactScalars, KeysRespectSame, DiffStructs, DiffLists;
    SameValue(a, b, o);
    if !a.Scalar? {
      forall i, k, p | 0 <= i < |a.children| && 0 <= k < |b.children| && Meet(a, i, b, k)
        ensures DiffNodes(Some(a.children[i]), Some(b.children[k]), p, o) == []
      {
        SameNodesAreSilent(a.children[i], b.children[k], p, o);
      }
      if a.Struct? {
        SameStructsSilent(a, b, path, o);
      } else {
        SameListsSilent(a, b, path, o);
      }
    }
  }

  lemma SameStructsSilent(a: Node, b: Node, path: string, o: Options)
    requires a.Struct? && b.Struct? && SameNode(a, b, o.judge) && ExactScalars(o)
    requires NamesakesSilent(a, b, o)
    ensures DiffStructs(a, b, path, o) == []
  {
    hide LeftFields, RightFields, NamesakesSilent, HasLedgerEntryData, MemoArm;
    SameFieldsSilent(a, b, 0, path, o);
    assert a.children[0..] == a.children && b.children[0..] == b.children;
    assert DiffFields(a, b, path, o) == [];
    if IsMemoStruct(a, b) {
      SameMemoArm(a.children, b.children, o);
    } else if IsLedgerEntryStruct(a, b) {
      NoTransition(a, b, path, o);
    }
  }

  lemma SameListsSilent(a: Node, b: Node, path: string, o: Options)
    requires a.List? && b.List? && SameNode(a, b, o.judge) && ExactScalars(o) && KeysRespectSame(o)
    requires PairsSilent(a.children, b.children, o)
    ensures DiffLists(a, b, path, o) == []
  {
    var xs, ys := a.children, b.children;
    var name := CollectionName(path, a, b);
    if o.unorderedSigners && IsSignerCollection(name) {
      SameItems(xs, ys, o);
      SignerDiff.EqualIffSameKeys(ItemsOf(xs, o.judge), ItemsOf(ys, o.judge));
    } else if IsOperationCollection(name) {
      SameOperations(xs, ys, path, o);
    } else if IsEventCollection(name, a, b) {
      SameMetas(xs, ys, o);
      EventDiagonal(xs, ys, o.judge);
      DiagonalVisitsSilent(EventVisits(PairEvents(MetasOf(xs, o.judge), MetasOf(ys, o.judge))), xs, ys, path, o);
    } else {
      ListDiagonal(xs, ys, o);
      DiagonalVisitsSilent(ListVisits(xs, ys, o), xs, ys, path, o);
    }
  }

  // ---------------------------------------------------------------- a tree against itself

  /** Every scalar is the same as itself. */
  ghost predicate Reflexive(j: Judge) {
    forall n: Node :: n.Scalar? ==> j.sameScalar(n, n)
  }

  lemma {:induction false} SelfSame(n: Node, j: Judge)
    requires Reflexive(j)
    ensures SameNode(n, n, j)
    decreases n, |Children(n)| + 1
  {
    if !n.Scalar? {
      SelfSameAll(n.children, j, n);
    }
  }

  lemma {:induction false} SelfSameAll(ns: seq<Node>, j: Judge, parent: Node)
    requires Reflexive(j) && forall i :: 0 <= i < |ns| ==> ns[i] < parent
    ensures SameNodes(ns, ns, j)
    decreases parent, |ns|
  {
    if ns != [] {
      SelfSame(ns[0], j);
      SelfSameAll(ns[1..], j, parent);
    }
  }

  /** A tree compared with itself yields no change, for any reflexive scalar relation. */
  lemma {:induction false} SelfSilent(n: Node, path: string, o: Options)
    requires Reflexive(o.judge) && UniqueNames(n)
    ensures DiffNodes(Some(n), Some(n), path, o) == []
    decreases n
  {
    hide DiffStructs, DiffLists, Masked;
    if !n.Scalar? {
      SelfSame(n, o.judge);
      forall i, p | 0 <= i < |n.children|
        ensures DiffNodes(Some(n.children[i]), Some(n.children[i]), p, o) == []
      {
        SelfSilent(n.children[i], p, o);
      }
      if n.Struct? {
        SelfStructSilent(n, path, o);
      } else {
        SelfListSilent(n, path, o);
      }
    }
  }

  lemma UniqueFieldsSilent(n: Node, o: Options)
    requires n.Struct? && UniqueNames(n) && PairsSilent(n.children, n.children, o)
    ensures NamesakesSilent(n, n, o)
  {
    hide DiffNodes;
  }

  lemma SelfStructSilent(n: Node, path: string, o: Options)
    requires n.Struct? && SameNode(n, n, o.judge) && UniqueNames(n) && PairsSilent(n.children, n.children, o)
    ensures DiffStructs(n, n, path, o) == []
  {
    hide HasLedgerEntryData, LeftFields, RightFields;
    assert DiffFields(n, n, path, o) == [] by {
      UniqueFieldsSilent(n, o);
      SameFieldsSilent(n, n, 0, path, o);
      assert n.children[0..] == n.children;
    }
  }

  lemma SelfListSilent(n: Node, path: string, o: Options)
    requires n.List? && SameNode(n, n, o.judge) && PairsSilent(n.children, n.children, o)
    ensures DiffLists(n, n, path, o) == []
  {
    hide CollectionName, IsEventCollection, PairEvents, ListVisits, EventVisits, VisitAll, DiffOperations;
    var xs, name := n.children, CollectionName(path, n, n);
    if o.unorderedSigners && IsSignerCollection(name) {
      SignerDiff.EqualIffSameKeys(ItemsOf(xs, o.judge), ItemsOf(xs, o.judge));
    } else if IsOperationCollection(name) {
      SameOperations(xs, xs, path, o);
    } else if IsEventCollection(name, n, n) {
      EventDiagonal(xs, xs, o.judge);
      DiagonalVisitsSilent(EventVisits(PairEvents(MetasOf(xs, o.judge), MetasOf(xs, o.judge))), xs, xs, path, o);
    } else {
      ListDiagonal(xs, xs, o);
      DiagonalVisitsSilent(ListVisits(xs, xs, o), xs, xs, path, o);
    }
  }

  /** Namesakes must be alike: with a repeated name the walk compares the second field with the first. */
  lemma RepeatedNamesBreakCoherence(x: Node, y: Node, o: Options)
    requires x.Scalar? && y.Scalar? && x.name == y.name == "X" && !Masked("X", o) && !Masked("", o)
    requires o.judge.sameScalar(x, x) && o.judge.sameScalar(y, y) && !o.judge.sameScalar(y, x)
    ensures var n := Struct("", "", "", [x, y]);
            SameNode(n, n, o.judge) && DiffNodes(Some(n), Some(n), "", o) != []
  {
    var n := Struct("", "", "", [x, y]);
    assert [x, y][1..] == [y] && [y][1..] == [];
    assert SameNode(x, x, o.judge) && SameNode(y, y, o.judge);
    assert SameNodes([], [], o.judge);
    assert SameNodes([y], [y], o.judge);
    assert SameNodes([x, y], [x, y], o.judge);
    assert Child(n, y.name) == Some(x) && Join("", y.name) == "X";
    assert DiffPair(y, x, "X", o) != [];
    assert LeftField(y, n, "", o) == DiffNodes(Some(y), Some(x), "X", o);
    assert LeftFields([x, y], n, "", o) == LeftField(x, n, "", o) + LeftFields([y], n, "", o);
    assert LeftFields([y], n, "", o) == LeftField(y, n, "", o) + LeftFields([], n, "", o);
    assert DiffFields(n, n, "", o) == LeftFields([x, y], n, "", o) + RightFields([x, y], n, "", o);
    assert DiffStructs(n, n, "", o) == DiffFields(n, n, "", o);
  }
}
