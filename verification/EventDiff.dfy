/** How contract events are paired and compared, spelled out without the matching passes. */
module EventDiff {
  import opened Text
  import opened Tree
  import opened Changes
  import opened StructuralDiff
  import opened GreedyMatching
  import opened FirstFit

  // ---------------------------------------------------------------- the pairing

  /** The events agree on the contract and on every topic. */
  predicate AgreeOnAll(l: EventMeta, r: EventMeta) {
    l.contractId == r.contractId && l.fullTopics == r.fullTopics
  }

  /** The events agree on the contract and on a first topic that is not empty. */
  predicate AgreeOnFirst(l: EventMeta, r: EventMeta) {
    l.contractId == r.contractId && l.primaryTopic == r.primaryTopic && l.primaryTopic != ""
  }

  ghost predicate Within(pairs: seq<(nat, nat)>, m: nat, n: nat) {
    forall k :: 0 <= k < |pairs| ==> pairs[k].0 < m && pairs[k].1 < n
  }

  ghost predicate Increasing(pairs: seq<(nat, nat)>) {
    forall k, l :: 0 <= k < l < |pairs| ==> pairs[k].0 < pairs[l].0 && pairs[k].1 != pairs[l].1
  }

  /**
   * The pairs of events that agree on everything: each left event has the first right one not yet taken, and
   * a left event without a pair finds all its matches taken by earlier ones.
   */
  ghost predicate PairsAll(left: seq<EventMeta>, right: seq<EventMeta>, all: seq<(nat, nat)>) {
    Within(all, |left|, |right|) && Increasing(all)
    && (forall k :: 0 <= k < |all| ==> AgreeOnAll(left[all[k].0], right[all[k].1]))
    && (forall k, j :: 0 <= k < |all| && 0 <= j < all[k].1 && AgreeOnAll(left[all[k].0], right[j]) ==> TakenBy(all, k, j))
    && forall i, j :: 0 <= i < |left| && 0 <= j < |right| && !HasLeft(all, i) && AgreeOnAll(left[i], right[j]) ==> TakenBefore(all, i, j)
  }

  /** The pairs of what is then left, by contract and first topic, chosen in the same way. */
  ghost predicate PairsFirst(left: seq<EventMeta>, right: seq<EventMeta>, all: seq<(nat, nat)>, first: seq<(nat, nat)>) {
    Within(first, |left|, |right|) && Increasing(first)
    && (forall k :: 0 <= k < |first| ==>
          AgreeOnFirst(left[first[k].0], right[first[k].1]) && !HasLeft(all, first[k].0) && !HasRight(all, first[k].1))
    && (forall k, j :: 0 <= k < |first| && 0 <= j < first[k].1 && AgreeOnFirst(left[first[k].0], right[j]) ==> HasRight(all, j) || TakenBy(first, k, j))
    && forall i, j :: 0 <= i < |left| && 0 <= j < |right| && !HasLeft(all, i) && !HasLeft(first, i) && AgreeOnFirst(left[i], right[j]) ==>
         HasRight(all, j) || TakenBefore(first, i, j)
  }

  /** The first pass pairs by everything, the second by contract and first topic, and the flags mark the paired events. */
  ghost predicate PairedInTwoPasses(left: seq<EventMeta>, right: seq<EventMeta>, p: Pairing, all: seq<(nat, nat)>, first: seq<(nat, nat)>) {
    p.pairs == all + first && PairsAll(left, right, all) && PairsFirst(left, right, all, first)
    && |p.left| == |left| && |p.right| == |right|
    && (forall i :: 0 <= i < |left| ==> (p.left[i] <==> HasLeft(all, i) || HasLeft(first, i)))
    && forall j :: 0 <= j < |right| ==> (p.right[j] <==> HasRight(all, j) || HasRight(first, j))
  }

  lemma FirstPass(left: seq<EventMeta>, right: seq<EventMeta>, q: Pairing, all: seq<(nat, nat)>)
    requires FirstFitBelow(left, right, SameTopics, Pairing(Free(|left|), Free(|right|), []), q, all, |left|)
    ensures PairsAll(left, right, all) && q.pairs == all && |q.left| == |left| && |q.right| == |right|
    ensures forall i :: 0 <= i < |left| ==> (q.left[i] <==> HasLeft(all, i))
    ensures forall j :: 0 <= j < |right| ==> (q.right[j] <==> HasRight(all, j))
  {
    hide HasLeft, HasRight, TakenBy, TakenBefore, TakesFirst, LeavesNone;
    assert [] + all == all;
    FirstPassTakes(left, right, all);
    FirstPassLeaves(left, right, all);
  }

  lemma FirstPassTakes(left: seq<EventMeta>, right: seq<EventMeta>, all: seq<(nat, nat)>)
    requires TakesFirst(left, right, SameTopics, Pairing(Free(|left|), Free(|right|), []), all)
    ensures Within(all, |left|, |right|) && Increasing(all)
    ensures forall k :: 0 <= k < |all| ==> AgreeOnAll(left[all[k].0], right[all[k].1])
    ensures forall k, j :: 0 <= k < |all| && 0 <= j < all[k].1 && AgreeOnAll(left[all[k].0], right[j]) ==> TakenBy(all, k, j)
  {
    hide TakenBy;
    var p := Pairing(Free(|left|), Free(|right|), []);
    forall k | 0 <= k < |all|
      ensures all[k].0 < |left| && all[k].1 < |right| && AgreeOnAll(left[all[k].0], right[all[k].1])
    {
      assert JoinsFree(left, right, SameTopics, p, all[k]);
    }
  }

  lemma FirstPassLeaves(left: seq<EventMeta>, right: seq<EventMeta>, all: seq<(nat, nat)>)
    requires LeavesNone(left, right, SameTopics, Pairing(Free(|left|), Free(|right|), []), all, |left|)
    ensures forall i, j :: 0 <= i < |left| && 0 <= j < |right| && !HasLeft(all, i) && AgreeOnAll(left[i], right[j]) ==> TakenBefore(all, i, j)
  {
    hide HasLeft, TakenBefore;
  }

  lemma SecondPass(left: seq<EventMeta>, right: seq<EventMeta>, q: Pairing, r: Pairing, all: seq<(nat, nat)>, first: seq<(nat, nat)>)
    requires |q.left| == |left| && |q.right| == |right|
    requires forall i :: 0 <= i < |left| ==> (q.left[i] <==> HasLeft(all, i))
    requires forall j :: 0 <= j < |right| ==> (q.right[j] <==> HasRight(all, j))
    requires FirstFitBelow(left, right, SamePrimaryTopic, q, r, first, |left|)
    ensures PairsFirst(left, right, all, first) && r.pairs == q.pairs + first && |r.left| == |left| && |r.right| == |right|
    ensures forall i :: 0 <= i < |left| ==> (r.left[i] <==> HasLeft(all, i) || HasLeft(first, i))
    ensures forall j :: 0 <= j < |right| ==> (r.right[j] <==> HasRight(all, j) || HasRight(first, j))
  {
    hide HasLeft, HasRight, TakenBy, TakenBefore;
    forall k | 0 <= k < |first|
      ensures first[k].0 < |left| && first[k].1 < |right| && AgreeOnFirst(left[first[k].0], right[first[k].1])
      ensures !HasLeft(all, first[k].0) && !HasRight(all, first[k].1)
    {
      assert JoinsFree(left, right, SamePrimaryTopic, q, first[k]);
    }
  }

  /** Any two lists of events are paired in this way and no other. */
  lemma EventsArePaired(left: seq<EventMeta>, right: seq<EventMeta>)
    ensures exists all, first :: PairedInTwoPasses(left, right, PairEvents(left, right), all, first)
  {
    hide FirstFitBelow, PairsAll, PairsFirst, Shifted;
    var start := Pairing(Free(|left|), Free(|right|), []);
    ShiftedIsFirstFit(left, right, SameTopics, start);
    var q := Shifted(left, right, SameTopics, start, 0);
    var all :| FirstFitBelow(left, right, SameTopics, start, q, all, |left|);
    FirstPass(left, right, q, all);
    ShiftedIsFirstFit(left, right, SamePrimaryTopic, q);
    var r := Shifted(left, right, SamePrimaryTopic, q, 0);
    var first :| FirstFitBelow(left, right, SamePrimaryTopic, q, r, first, |left|);
    SecondPass(left, right, q, r, all, first);
    assert PairedInTwoPasses(left, right, PairEvents(left, right), all, first);
  }

  /**
   * No match is missed: two events left over agree neither on everything nor on the first topic, a pair agrees
   * on one or the other, and events paired by their first topic alone had no exact match left.
   */
  lemma NoMatchIsMissed(left: seq<EventMeta>, right: seq<EventMeta>)
    ensures var p := PairEvents(left, right);
            (forall i, j :: 0 <= i < |left| && 0 <= j < |right| && !p.left[i] && !p.right[j] ==>
               !AgreeOnAll(left[i], right[j]) && !AgreeOnFirst(left[i], right[j]))
            && forall k :: 0 <= k < |p.pairs| ==>
                 p.pairs[k].0 < |left| && p.pairs[k].1 < |right|
                 && (AgreeOnAll(left[p.pairs[k].0], right[p.pairs[k].1])
                     || (AgreeOnFirst(left[p.pairs[k].0], right[p.pairs[k].1])
                         && forall j :: 0 <= j < |right| && AgreeOnAll(left[p.pairs[k].0], right[j]) ==> p.right[j]))
  {
    hide AgreeOnAll, AgreeOnFirst, PairEvents, PairedInTwoPasses;
    EventsArePaired(left, right);
    var p := PairEvents(left, right);
    var all, first :| PairedInTwoPasses(left, right, p, all, first);
    forall i, j | 0 <= i < |left| && 0 <= j < |right| && !p.left[i] && !p.right[j]
      ensures !AgreeOnAll(left[i], right[j]) && !AgreeOnFirst(left[i], right[j])
    {
      LeftoversDisagree(left, right, p, all, first, i, j);
    }
    forall k | 0 <= k < |p.pairs|
      ensures p.pairs[k].0 < |left| && p.pairs[k].1 < |right|
      ensures AgreeOnAll(left[p.pairs[k].0], right[p.pairs[k].1])
              || (AgreeOnFirst(left[p.pairs[k].0], right[p.pairs[k].1])
                  && forall j :: 0 <= j < |right| && AgreeOnAll(left[p.pairs[k].0], right[j]) ==> p.right[j])
    {
      PairAgrees(left, right, p, all, first, k);
    }
  }

  lemma TakenHasRight(pairs: seq<(nat, nat)>, i: nat, j: nat)
    requires TakenBefore(pairs, i, j)
    ensures HasRight(pairs, j)
  {
  }

  lemma LeftoversDisagree(left: seq<EventMeta>, right: seq<EventMeta>, p: Pairing, all: seq<(nat, nat)>, first: seq<(nat, nat)>, i: nat, j: nat)
    requires PairedInTwoPasses(left, right, p, all, first) && i < |left| && j < |right| && !p.left[i] && !p.right[j]
    ensures !AgreeOnAll(left[i], right[j]) && !AgreeOnFirst(left[i], right[j])
  {
    hide AgreeOnAll, AgreeOnFirst, HasLeft, HasRight, TakenBy, TakenBefore;
    if AgreeOnAll(left[i], right[j]) {
      TakenHasRight(all, i, j);
    }
    if AgreeOnFirst(left[i], right[j]) {
      TakenHasRight(first, i, j);
    }
  }

  lemma PairAgrees(left: seq<EventMeta>, right: seq<EventMeta>, p: Pairing, all: seq<(nat, nat)>, first: seq<(nat, nat)>, k: nat)
    requires PairedInTwoPasses(left, right, p, all, first) && k < |p.pairs|
    ensures p.pairs[k].0 < |left| && p.pairs[k].1 < |right|
    ensures AgreeOnAll(left[p.pairs[k].0], right[p.pairs[k].1])
            || (AgreeOnFirst(left[p.pairs[k].0], right[p.pairs[k].1])
                && forall j :: 0 <= j < |right| && AgreeOnAll(left[p.pairs[k].0], right[j]) ==> p.right[j])
  {
    hide AgreeOnAll, AgreeOnFirst, HasLeft, HasRight, TakenBy, TakenBefore;
    if k < |all| {
      assert p.pairs[k] == all[k];
    } else {
      var m := first[k - |all|];
      assert p.pairs[k] == m;
      forall j | 0 <= j < |right| && AgreeOnAll(left[m.0], right[j])
        ensures p.right[j]
      {
        TakenHasRight(all, m.0, j);
      }
    }
  }

  // ---------------------------------------------------------------- what is compared, and where it is reported

  lemma {:induction false} RemovalsSpelled(indices: seq<nat>)
    ensures |RemovalVisits(indices)| == |indices|
    ensures forall k :: 0 <= k < |indices| ==> RemovalVisits(indices)[k] == Visit(Some(indices[k]), None, indices[k])
  {
    if indices != [] {
      RemovalsSpelled(indices[1..]);
    }
  }

  lemma {:induction false} AdditionsSpelled(indices: seq<nat>)
    ensures |AdditionVisits(indices)| == |indices|
    ensures forall k :: 0 <= k < |indices| ==> AdditionVisits(indices)[k] == Visit(None, Some(indices[k]), indices[k])
  {
    if indices != [] {
      AdditionsSpelled(indices[1..]);
    }
  }

  lemma {:induction false} PairsSpelled(pairs: seq<(nat, nat)>)
    ensures |PairVisits(pairs)| == |pairs|
    ensures forall k :: 0 <= k < |pairs| ==> PairVisits(pairs)[k] == Visit(Some(pairs[k].0), Some(pairs[k].1), pairs[k].1)
  {
    if pairs != [] {
      PairsSpelled(pairs[1..]);
    }
  }

  /** The indices of the events left free, each once, in order. */
  ghost predicate FreeIndices(flags: seq<bool>, indices: seq<nat>) {
    (forall k :: 0 <= k < |indices| ==> indices[k] < |flags| && !flags[indices[k]])
    && (forall k, l :: 0 <= k < l < |indices| ==> indices[k] < indices[l])
    && forall i :: 0 <= i < |flags| && !flags[i] ==> i in indices
  }

  /**
   * Paired events are compared first, at their right index; then the left events left over are removed, at
   * their left index, and the right ones added, at their right index.
   */
  ghost predicate VisitsEvents(visits: seq<Visit>, p: Pairing, lefts: seq<nat>, rights: seq<nat>) {
    FreeIndices(p.left, lefts) && FreeIndices(p.right, rights)
    && |visits| == |p.pairs| + |lefts| + |rights|
    && (forall k :: 0 <= k < |p.pairs| ==> visits[k] == Visit(Some(p.pairs[k].0), Some(p.pairs[k].1), p.pairs[k].1))
    && (forall k :: 0 <= k < |lefts| ==> visits[|p.pairs| + k] == Visit(Some(lefts[k]), None, lefts[k]))
    && forall k :: 0 <= k < |rights| ==> visits[|p.pairs| + |lefts| + k] == Visit(None, Some(rights[k]), rights[k])
  }

  lemma UnmatchedAreFree(flags: seq<bool>)
    ensures FreeIndices(flags, Unmatched(flags, 0))
  {
    hide Unmatched;
    UnmatchedExact(flags, 0);
    var r := Unmatched(flags, 0);
    forall i | 0 <= i < |flags| && !flags[i]
      ensures i in r
    {
      var k: nat := i;
      assert k in r;
    }
  }

  lemma EventsAreVisited(p: Pairing)
    ensures exists lefts, rights :: VisitsEvents(EventVisits(p), p, lefts, rights)
  {
    hide PairVisits, RemovalVisits, AdditionVisits, Unmatched, FreeIndices;
    var lefts, rights := Unmatched(p.left, 0), Unmatched(p.right, 0);
    UnmatchedAreFree(p.left);
    UnmatchedAreFree(p.right);
    PairsSpelled(p.pairs);
    RemovalsSpelled(lefts);
    AdditionsSpelled(rights);
    var visits, m, n := EventVisits(p), |p.pairs|, |lefts|;
    forall k | 0 <= k < n
      ensures visits[m + k] == RemovalVisits(lefts)[k]
    {
    }
    forall k | 0 <= k < |rights|
      ensures visits[m + n + k] == AdditionVisits(rights)[k]
    {
    }
    assert VisitsEvents(visits, p, lefts, rights);
  }

  /** Two lone events that agree on the contract and the first topic are compared with each other, whatever follows. */
  lemma LoneEventsAreCompared(e: Node, f: Node, path: string, o: Options)
    requires AgreeOnFirst(MetaOf(e, o.judge), MetaOf(f, o.judge))
    ensures VisitAll(EventVisits(PairEvents(MetasOf([e], o.judge), MetasOf([f], o.judge))), [e], [f], path, o)
            == DiffNodes(Some(e), Some(f), At(path, 0), o)
  {
    hide MetaOf, DiffNodes, At, PairEvents, EventVisits;
    var ms, ns := MetasOf([e], o.judge), MetasOf([f], o.judge);
    var p := PairEvents(ms, ns);
    assert ms == [MetaOf(e, o.judge)] && ns == [MetaOf(f, o.judge)];
    NoMatchIsMissed(ms, ns);
    EventsArePaired(ms, ns);
    LonePair(p);
    LoneVisit(p);
    var v := Visit(Some(0), Some(0), 0);
    assert [v][1..] == [];
    assert VisitOne(v, [e], [f], path, o) == DiffNodes(Some(e), Some(f), At(path, 0), o);
    assert VisitAll([], [e], [f], path, o) == [];
  }

  lemma LoneVisit(p: Pairing)
    requires p.pairs == [(0, 0)] && p.left == [true] && p.right == [true]
    ensures EventVisits(p) == [Visit(Some(0), Some(0), 0)]
  {
    hide EventVisits, FreeIndices;
    EventsAreVisited(p);
    var lefts, rights :| VisitsEvents(EventVisits(p), p, lefts, rights);
    NoneFree(p.left, lefts);
    NoneFree(p.right, rights);
    assert EventVisits(p)[0] == Visit(Some(0), Some(0), 0);
  }

  lemma FirstIsFree(flags: seq<bool>, indices: seq<nat>)
    requires FreeIndices(flags, indices) && indices != []
    ensures exists i :: 0 <= i < |flags| && !flags[i]
  {
    assert !flags[indices[0]];
  }

  lemma NoneFree(flags: seq<bool>, indices: seq<nat>)
    requires FreeIndices(flags, indices) && forall i :: 0 <= i < |flags| ==> flags[i]
    ensures indices == []
  {
    if indices != [] {
      FirstIsFree(flags, indices);
      assert false;
    }
  }

  lemma TwoPairsDiffer(p: Pairing)
    requires OneToOne(p) && |p.pairs| > 1
    ensures p.pairs[0].0 != p.pairs[1].0
  {
  }

  lemma FlagMeansPair(p: Pairing)
    requires OneToOne(p) && |p.left| == 1 && |p.right| == 1 && (p.left[0] || p.right[0])
    ensures |p.pairs| > 0
  {
  }

  lemma LonePair(p: Pairing)
    requires |p.left| == 1 && |p.right| == 1 && OneToOne(p) && (p.left[0] || p.right[0])
    requires forall k :: 0 <= k < |p.pairs| ==> p.pairs[k].0 < 1 && p.pairs[k].1 < 1
    ensures p.pairs == [(0, 0)] && p.left[0] && p.right[0]
  {
    FlagMeansPair(p);
    assert |p.pairs| > 0 && p.pairs[0] == (0, 0);
    if |p.pairs| > 1 {
      TwoPairsDiffer(p);
      assert false;
    }
  }

  // ---------------------------------------------------------------- what an event is known by

  function TopicNode(arm: string, v: Value): Node {
    Struct("", "ScVal", "", [Scalar("Type", "", "", Str("ScValType")), Scalar(arm, "", "", v)])
  }

  function EventNode(contract: Value, topics: seq<Node>): Node {
    Struct("", "ContractEvent", "",
           [Scalar("ContractId", "", "", contract), Struct("Body", "", "", [Struct("V0", "", "", [List("Topics", "", "", topics)])])])
  }

  /** The separator stands between every topic and the next. */
  lemma {:induction false} TopicsAreJoined(topics: seq<string>, last: string)
    requires topics != []
    ensures JoinTopics(topics + [last]) == JoinTopics(topics) + "::" + last
  {
    var all := topics + [last];
    if |topics| == 1 {
      assert all[1..] == [last];
    } else {
      assert all[1..] == topics[1..] + [last];
      TopicsAreJoined(topics[1..], last);
    }
  }

  lemma {:induction false} SummariesAt(topics: seq<Node>, j: Judge)
    ensures |TopicSummaries(topics, j)| == |topics|
    ensures forall k :: 0 <= k < |topics| ==> TopicSummaries(topics, j)[k] == TopicSummary(topics[k], ARMS, j)
  {
    hide TopicSummary;
    if topics != [] {
      SummariesAt(topics[1..], j);
    }
  }

  lemma TwoFields(n: Node, x: Node, y: Node)
    requires n.Struct? && n.children == [x, y] && x.name != y.name
    ensures Child(n, x.name) == Some(x) && Child(n, y.name) == Some(y)
    ensures forall name :: name != x.name && name != y.name ==> Child(n, name) == None
  {
    assert n.children[1..] == [y] && n.children[1..][1..] == [];
    assert FirstNamed(n.children, y.name) == FirstNamed([y], y.name);
    forall name | name != x.name && name != y.name
      ensures Child(n, name) == None
    {
      assert FirstNamed(n.children, name) == FirstNamed([y], name) == FirstNamed([], name);
    }
  }

  /** A topic goes by the value of its arm, whichever of the known arms that is. */
  lemma {:induction false} TopicGoesByArm(arm: string, v: Value, arms: seq<string>, j: Judge)
    requires v != Nil && arm in arms && "Type" !in arms
    ensures TopicSummary(TopicNode(arm, v), arms, j) == j.render(v)
  {
    hide Child;
    var n := TopicNode(arm, v);
    TwoFields(n, n.children[0], n.children[1]);
    if arms[0] != arm {
      TopicGoesByArm(arm, v, arms[1..], j);
    }
  }

  /** An event is known by its contract, its first topic and all its topics. */
  lemma EventIsKnownBy(contract: Value, arm: string, first: Value, more: seq<Node>, j: Judge)
    requires contract != Nil && first != Nil && arm in ARMS
    ensures var topics := [TopicNode(arm, first)] + more;
            var m := MetaOf(EventNode(contract, topics), j);
            m.contractId == j.render(contract) && m.primaryTopic == j.render(first) && m.fullTopics == JoinTopics(TopicSummaries(topics, j))
  {
    hide TopicSummary, JoinTopics;
    var topics := [TopicNode(arm, first)] + more;
    var e := EventNode(contract, topics);
    TopicGoesByArm(arm, first, ARMS, j);
    SummariesAt(topics, j);
    var body := e.children[1];
    TwoFields(e, e.children[0], body);
    assert Child(e, "Event") == None && Child(e, "ContractId") == Some(e.children[0]) && Child(e, "Body") == Some(body);
    var v0 := body.children[0];
    assert Child(body, "V0") == Some(v0) && Child(v0, "Topics") == Some(v0.children[0]);
  }

  /** A topic behind the first changed: the two events are still compared with each other. */
  lemma TopicMutationIsCompared(contract: Value, arm: string, first: Value, xs: seq<Node>, ys: seq<Node>, path: string, o: Options)
    requires contract != Nil && first != Nil && arm in ARMS && o.judge.render(first) != ""
    ensures var e, f := EventNode(contract, [TopicNode(arm, first)] + xs), EventNode(contract, [TopicNode(arm, first)] + ys);
            VisitAll(EventVisits(PairEvents(MetasOf([e], o.judge), MetasOf([f], o.judge))), [e], [f], path, o)
            == DiffNodes(Some(e), Some(f), At(path, 0), o)
  {
    hide MetaOf, EventNode, TopicNode;
    EventIsKnownBy(contract, arm, first, xs, o.judge);
    EventIsKnownBy(contract, arm, first, ys, o.judge);
    LoneEventsAreCompared(EventNode(contract, [TopicNode(arm, first)] + xs), EventNode(contract, [TopicNode(arm, first)] + ys), path, o);
  }
}
