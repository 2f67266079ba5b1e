/**
 Change paths parse back: the path of every reported change resolves in the compared trees to the node whose
 value the change reports. Where lists are compared position by position, a side without the node has nothing
 at that path; an aligned list reports a removal at its left index and an addition at its right index.
 */
module DiffPaths {
  import opened Text
  import opened Tree
  import opened Changes
  import opened StructuralDiff
  import opened DiffCoherence
  import Alignment

  /** Signer lists keep their order, and aligned lists pair only elements with the same values. */
  ghost predicate Ordered(o: Options) {
    !o.unorderedSigners && (o.alignLists ==> ExactScalars(o))
  }

  predicate OrdinaryName(name: string) {
    !IsOperationCollection(name) && name != "Events" && name != "DiagnosticEvents"
  }

  /** Unique clean field names, and no operation list, event list or ledger entry. */
  ghost predicate Ordinary(n: Node) {
    OrdinaryName(n.name) && (n.Struct? ==> OrdinaryFields(n)) && (n.List? ==> OrdinaryItems(n))
    && (n.Scalar? || forall i :: 0 <= i < |n.children| ==> Ordinary(n.children[i]))
  }

  ghost predicate OrdinaryFields(n: Node)
    requires n.Struct?
  {
    n.typeName != "LedgerEntry"
    && (forall i, j :: 0 <= i < j < |n.children| ==> n.children[i].name != n.children[j].name)
    && forall i :: 0 <= i < |n.children| ==> CleanName(n.children[i].name)
  }

  ghost predicate OrdinaryItems(n: Node)
    requires n.List?
  {
    forall i :: 0 <= i < |n.children| ==> !IsEventNode(n.children[i])
  }

  ghost predicate OrdinaryOpt(n: Option<Node>) {
    n.Some? ==> Ordinary(n.value)
  }

  /** What a change reports of the node on one side. */
  predicate Shows(n: Node, v: Value, note: string) {
    v == LeafValue(n) && note == n.note
  }

  /** The change reports two different scalars, or the arms of two memos that are equivalent. */
  predicate ReportsPair(l: Node, r: Node, c: Change, j: Judge) {
    (l.Scalar? && r.Scalar? && !j.sameScalar(l, r) && Shows(l, c.before, c.beforeNote) && Shows(r, c.after, c.afterNote))
    || (l.Struct? && r.Struct? && IsMemoStruct(l, r) && MemoArm(l.children).0 != MemoArm(r.children).0
        && c.before == MemoArm(l.children).1 && c.after == MemoArm(r.children).1)
  }

  /**
   Each side of a change is found at its path, with the value and note it reports there; the side that lacks the
   node finds nothing there unless lists are aligned. A change of type is between nodes of different kinds.
   */
  predicate Located(left: Node, right: Node, c: Change, o: Options) {
    var l, r := Resolve(left, c.path), Resolve(right, c.path);
    match c.op
    case Modified => l.Some? && r.Some? && ReportsPair(l.value, r.value, c, o.judge)
    case TypeChanged =>
      l.Some? && r.Some? && !SameKind(l.value, r.value) && !o.judge.binaryEqual(l.value, r.value)
      && Shows(l.value, c.before, c.beforeNote) && Shows(r.value, c.after, c.afterNote)
    case Removed => l.Some? && (o.alignLists || r.None?) && Shows(l.value, c.before, c.beforeNote) && c.after == Nil && c.afterNote == ""
    case Added => (o.alignLists || l.None?) && r.Some? && c.before == Nil && c.beforeNote == "" && Shows(r.value, c.after, c.afterNote)
    case Reordered => false
  }

  ghost predicate AllLocated(left: Node, right: Node, cs: seq<Change>, o: Options) {
    forall c :: c in cs ==> Located(left, right, c, o)
  }

  // ---------------------------------------------------------------- the name at the end of a path

  predicate OrdinaryPath(path: string) {
    Extensible(path) && OrdinaryName(LastName(SegsOf(path)))
  }

  lemma OrdinaryAt(path: string, i: nat)
    requires OrdinaryPath(path)
    ensures OrdinaryPath(At(path, i))
  {
    hide SegsOf, Extensible;
    ResolveAt(Scalar("", "", "", Nil), path, i);
    LastNameAt(path, i);
  }

  lemma OrdinaryJoin(path: string, name: string)
    requires CleanName(name) && OrdinaryName(name)
    ensures OrdinaryPath(Join(path, name))
  {
    hide SegsOf, Extensible;
    ResolveJoin(Scalar("", "", "", Nil), path, name);
    LastNameJoin(path, name);
  }

  // ---------------------------------------------------------------- the walk

  /** The walk is at the place of both trees that `path` addresses. */
  ghost predicate AtPlace(left: Node, right: Node, a: Option<Node>, b: Option<Node>, path: string) {
    Resolve(left, path) == a && Resolve(right, path) == b && OrdinaryOpt(a) && OrdinaryOpt(b) && OrdinaryPath(path)
  }

  lemma ChildOrdinary(b: Node, name: string)
    requires Ordinary(b)
    ensures OrdinaryOpt(Child(b, name))
  {
    if Child(b, name).Some? {
      var k := FirstNamedAt(Children(b), name);
    }
  }

  lemma LocatedAppend(left: Node, right: Node, xs: seq<Change>, ys: seq<Change>, o: Options)
    requires AllLocated(left, right, xs, o) && AllLocated(left, right, ys, o)
    ensures AllLocated(left, right, xs + ys, o)
  {
  }

  /** Every change below a place that a path addresses is located. */
  lemma {:induction false} NodesLocated(left: Node, right: Node, a: Option<Node>, b: Option<Node>, path: string, o: Options)
    requires Ordered(o) && AtPlace(left, right, a, b, path)
    ensures AllLocated(left, right, DiffNodes(a, b, path, o), o)
    decreases SizeOpt(a) + SizeOpt(b), 1, 0
  {
    hide SegsOf, Resolve, Masked, OrdinaryPath, DiffStructs, DiffLists;
    if a.Some? && b.Some? && SameKind(a.value, b.value) && a.value.Struct? {
      StructsLocated(left, right, a.value, b.value, path, o);
    } else if a.Some? && b.Some? && SameKind(a.value, b.value) && a.value.List? {
      ListsLocated(left, right, a.value, b.value, path, o);
    }
  }

  lemma {:induction false} StructsLocated(left: Node, right: Node, a: Node, b: Node, path: string, o: Options)
    requires Ordered(o) && AtPlace(left, right, Some(a), Some(b), path) && a.Struct? && b.Struct?
    ensures AllLocated(left, right, DiffStructs(a, b, path, o), o)
    decreases SizeAll(a.children) + SizeAll(b.children) + 1, 4, 0
  {
    hide SegsOf, Resolve, OrdinaryPath, LeftFields, RightFields;
    LeftFieldsLocated(left, right, a.children, a, b, 0, path, o);
    RightFieldsLocated(left, right, a, b.children, b, 0, path, o);
    assert a.children[0..] == a.children && b.children[0..] == b.children;
    LocatedAppend(left, right, LeftFields(a.children, b, path, o), RightFields(b.children, a, path, o), o);
  }

  lemma {:induction false} LeftFieldsLocated(left: Node, right: Node, fields: seq<Node>, a: Node, b: Node, i: nat, path: string, o: Options)
    requires Ordered(o) && AtPlace(left, right, Some(a), Some(b), path) && a.Struct? && b.Struct?
    requires i <= |a.children| && fields == a.children[i..]
    ensures AllLocated(left, right, LeftFields(fields, b, path, o), o)
    decreases SizeAll(fields) + SizeAll(b.children) + 1, 2, |fields|
  {
    hide SegsOf, Resolve, OrdinaryPath, DiffNodes, Join, Located;
    if fields != [] {
      var x := fields[0];
      assert x == a.children[i] && fields[1..] == a.children[i + 1..];
      assert Ordinary(x);
      FieldAtPlace(left, right, a, b, x.name, path);
      FirstNamedUnique(a.children, i);
      NodesLocated(left, right, Some(x), Child(b, x.name), Join(path, x.name), o);
      LeftFieldsLocated(left, right, fields[1..], a, b, i + 1, path, o);
      LocatedAppend(left, right, LeftField(x, b, path, o), LeftFields(fields[1..], b, path, o), o);
    }
  }

  lemma {:induction false} RightFieldsLocated(left: Node, right: Node, a: Node, fields: seq<Node>, b: Node, i: nat, path: string, o: Options)
    requires Ordered(o) && AtPlace(left, right, Some(a), Some(b), path) && a.Struct? && b.Struct?
    requires i <= |b.children| && fields == b.children[i..]
    ensures AllLocated(left, right, RightFields(fields, a, path, o), o)
    decreases SizeAll(fields), 2, |fields|
  {
    hide SegsOf, Resolve, OrdinaryPath, DiffNodes, Join, Located;
    if fields != [] {
      var x := fields[0];
      assert x == b.children[i] && fields[1..] == b.children[i + 1..];
      assert Ordinary(x);
      FieldAtPlace(left, right, a, b, x.name, path);
      FirstNamedUnique(b.children, i);
      if Child(a, x.name).None? {
        NodesLocated(left, right, None, Some(x), Join(path, x.name), o);
      }
      RightFieldsLocated(left, right, a, fields[1..], b, i + 1, path, o);
      LocatedAppend(left, right, RightField(x, a, path, o), RightFields(fields[1..], a, path, o), o);
    }
  }

  lemma FieldAtPlace(left: Node, right: Node, a: Node, b: Node, name: string, path: string)
    requires AtPlace(left, right, Some(a), Some(b), path) && CleanName(name) && OrdinaryName(name)
    ensures AtPlace(left, right, Child(a, name), Child(b, name), Join(path, name))
  {
    hide OrdinaryPath, Ordinary, CleanName, OrdinaryName;
    ResolveJoin(left, path, name);
    ResolveJoin(right, path, name);
    OrdinaryJoin(path, name);
    ChildOrdinary(a, name);
    ChildOrdinary(b, name);
  }

  lemma ElementAtPlace(left: Node, right: Node, a: Node, b: Node, i: nat, path: string)
    requires AtPlace(left, right, Some(a), Some(b), path) && a.List? && b.List?
    ensures AtPlace(left, right, Nth(a.children, i), Nth(b.children, i), At(path, i))
  {
    hide SegsOf, OrdinaryName, IsEventNode;
    ResolveAt(left, path, i);
    ResolveAt(right, path, i);
    OrdinaryAt(path, i);
  }

  lemma NoSpecialList(a: Node, b: Node, path: string)
    requires Ordinary(a) && Ordinary(b) && OrdinaryPath(path) && a.List? && b.List?
    ensures var name := CollectionName(path, a, b); !IsOperationCollection(name) && !IsEventCollection(name, a, b)
  {
  }

  lemma {:induction false} ListsLocated(left: Node, right: Node, a: Node, b: Node, path: string, o: Options)
    requires Ordered(o) && AtPlace(left, right, Some(a), Some(b), path) && a.List? && b.List?
    ensures AllLocated(left, right, DiffLists(a, b, path, o), o)
    decreases SizeAll(a.children) + SizeAll(b.children) + 1, 3, 0
  {
    hide SegsOf, Resolve, OrdinaryPath, VisitAll, IsEventCollection, CollectionName;
    NoSpecialList(a, b, path);
    if UsesAlignment(|a.children|, |b.children|, o) {
      AlignedLocated(left, right, a, b, 0, 0, path, o);
    } else {
      PositionsLocated(left, right, a, b, 0, path, o);
    }
  }

  lemma {:induction false} OrdinaryIsUnique(n: Node)
    requires Ordinary(n)
    ensures UniqueNames(n)
  {
    hide OrdinaryName, OrdinaryItems, CleanName;
    if !n.Scalar? {
      forall i | 0 <= i < |n.children|
        ensures UniqueNames(n.children[i])
      {
        OrdinaryIsUnique(n.children[i]);
      }
    }
  }

  /** A kept pair is silent, a removed element lies at its left index and an added one at its right index. */
  lemma EditLocated(left: Node, right: Node, a: Node, b: Node, e: Alignment.Edit, path: string, o: Options)
    requires Ordered(o) && o.alignLists && AtPlace(left, right, Some(a), Some(b), path) && a.List? && b.List?
    requires match e
             case Keep(i, j) => i < |a.children| && j < |b.children| && SameNode(a.children[i], b.children[j], o.judge)
             case Insert(j) => j < |b.children|
             case Delete(i) => i < |a.children|
    ensures AllLocated(left, right, VisitOne(EditVisit(e), a.children, b.children, path, o), o)
  {
    hide SegsOf, Resolve, OrdinaryPath, Ordinary, At, SameNode, ExactScalars;
    var v := EditVisit(e);
    ElementAtPlace(left, right, a, b, v.at, path);
    match e
    case Keep(i, j) =>
      ElementOrdinary(a, i);
      ElementOrdinary(b, j);
      OrdinaryIsUnique(a.children[i]);
      OrdinaryIsUnique(b.children[j]);
      UniqueNamesAreAlike(a.children[i], b.children[j], o.judge);
      SameNodesAreSilent(a.children[i], b.children[j], At(path, j), o);
    case _ =>
  }

  lemma ElementOrdinary(n: Node, i: nat)
    requires Ordinary(n) && !n.Scalar? && i < |n.children|
    ensures Ordinary(n.children[i])
  {
  }

  lemma {:induction false} AlignedLocated(left: Node, right: Node, a: Node, b: Node, i: nat, j: nat, path: string, o: Options)
    requires Ordered(o) && o.alignLists && AtPlace(left, right, Some(a), Some(b), path) && a.List? && b.List?
    requires i <= |a.children| && j <= |b.children|
    ensures AllLocated(left, right, VisitAll(EditVisits(Alignment.Script(a.children, b.children, Same(o.judge), i, j)), a.children, b.children, path, o), o)
    decreases |a.children| - i + |b.children| - j
  {
    hide AtPlace, Ordered, VisitOne, SameNode, Located, Alignment.Lcs;
    var xs, ys, same := a.children, b.children, Same(o.judge);
    var script := Alignment.Script(xs, ys, same, i, j);
    if script != [] {
      var e := script[0];
      var k, l := if e.Insert? then i else i + 1, if e.Delete? then j else j + 1;
      assert script == [e] + Alignment.Script(xs, ys, same, k, l);
      assert script[1..] == Alignment.Script(xs, ys, same, k, l);
      EditLocated(left, right, a, b, e, path, o);
      AlignedLocated(left, right, a, b, k, l, path, o);
    }
  }

  lemma {:induction false} PositionsLocated(left: Node, right: Node, a: Node, b: Node, i: nat, path: string, o: Options)
    requires Ordered(o) && AtPlace(left, right, Some(a), Some(b), path) && a.List? && b.List?
    ensures AllLocated(left, right, VisitAll(PositionalVisits(|a.children|, |b.children|, i), a.children, b.children, path, o), o)
    decreases SizeAll(a.children) + SizeAll(b.children), 2, Longer(|a.children|, |b.children|) - i
  {
    hide SegsOf, Resolve, OrdinaryPath, DiffNodes, At, Located;
    var m, n := |a.children|, |b.children|;
    if i < m || i < n {
      var v, rest := Visit(if i < m then Some(i) else None, if i < n then Some(i) else None, i), PositionalVisits(m, n, i + 1);
      ElementAtPlace(left, right, a, b, i, path);
      NodesLocated(left, right, Nth(a.children, i), Nth(b.children, i), At(path, i), o);
      PositionsLocated(left, right, a, b, i + 1, path, o);
      assert PositionalVisits(m, n, i) == [v] + rest;
      assert ([v] + rest)[1..] == rest;
      LocatedAppend(left, right, VisitOne(v, a.children, b.children, path, o), VisitAll(rest, a.children, b.children, path, o), o);
    }
  }

  /**
   The path of every change resolves on each side that has the node to the node whose value the change reports;
   the other side has nothing there, unless lists are aligned.
   */
  lemma ChangePathsParseBack(left: Node, right: Node, o: Options)
    requires Ordered(o) && Ordinary(left) && Ordinary(right)
    ensures AllLocated(left, right, DiffNodes(Some(left), Some(right), "", o), o)
  {
    hide DiffNodes, Located, Ordinary;
    RootIsExtensible(left);
    RootIsExtensible(right);
    assert SegsOf("") == [];
    NodesLocated(left, right, Some(left), Some(right), "", o);
  }
}
