/**
 Masking a comparison against filtering its result: which masks make the two agree on every pair of trees,
 and trees on which every other mask makes them differ.
 */
module MaskFilter {
  import opened Text
  import opened Tree
  import opened Changes
  import opened PathFilters
  import opened StructuralDiff
  import opened DiffMask
  import opened ChangeShapes
  import OperationDiff

  /** The test by which the unmasked changes could be filtered after the walk. */
  function Unselected(m: PathFilter): Change -> bool {
    (c: Change) => !Hides(m, SegmentsOf(c.path))
  }

  /** Two tests keep the same changes of a list only by agreeing on each of them. */
  lemma KeptSame(cs: seq<Change>, f: Change -> bool, g: Change -> bool)
    ensures Kept(cs, f) == Kept(cs, g) <==> forall c :: c in cs ==> f(c) == g(c)
  {
    if Kept(cs, f) == Kept(cs, g) {
      forall c | c in cs
        ensures f(c) == g(c)
      {
        KeptMember(cs, f, c);
        KeptMember(cs, g, c);
      }
    } else if forall c :: c in cs ==> f(c) == g(c) {
      KeptAgree(cs, f, g);
    }
  }

  lemma {:induction false} KeptMember(cs: seq<Change>, f: Change -> bool, c: Change)
    ensures c in Kept(cs, f) <==> c in cs && f(c)
  {
    if cs != [] {
      KeptMember(cs[1..], f, c);
    }
  }

  /** Pruning equals filtering afterwards exactly when, for every unmasked change, both judge it alike. */
  lemma PruningIsFilteringIff(a: Node, b: Node, o: Options)
    requires Maskable(a) && Maskable(b)
    ensures var all := DiffNodes(Some(a), Some(b), "", Unmask(o));
            DiffNodes(Some(a), Some(b), "", o) == Kept(all, Unselected(o.mask))
            <==> forall c :: c in all ==> (Visible(o.mask, 0, c) <==> !Hides(o.mask, SegmentsOf(c.path)))
  {
    hide DiffNodes, Visible, Hides, Maskable, Kept;
    RootIsExtensible(a);
    assert SegmentsOf("") == [];
    MaskingPrunes(a, b, "", o);
    KeptSame(DiffNodes(Some(a), Some(b), "", Unmask(o)), VisibleFrom(o.mask, 0), Unselected(o.mask));
  }

  /** A mask without excludes hides everything beneath a path that it hides. */
  lemma HidingIsPrefixClosed(m: PathFilter, segments: seq<string>, k: nat)
    requires m.excludes == [] && k <= |segments| && Hides(m, segments[..k])
    ensures Hides(m, segments)
  {
    hide SegmentsOf, MatchSegments;
    var i :| 0 <= i < |m.includes| && MatchSegments(SegmentsOf(m.includes[i]), segments[..k], m.glob);
    SelectionIsPrefixClosed(SegmentsOf(m.includes[i]), segments[..k], segments[k..], m.glob);
    assert segments[..k] + segments[k..] == segments;
  }

  // ---------------------------------------------------------------- the masks that agree

  /** Whatever lies beneath a hidden path is hidden, among the paths that changes can have. */
  ghost predicate PrefixClosed(m: PathFilter) {
    forall s: seq<string>, k: nat :: CleanPath(s) && k <= |s| && Hides(m, s[..k]) ==> Hides(m, s)
  }

  /** No operation is hidden without the list that it is in. */
  ghost predicate OrderClosed(m: PathFilter) {
    forall s: seq<string>, i: nat :: CleanPath(s) && AtOperations(s) && Hides(m, s + [Itoa(i)]) ==> Hides(m, s)
  }

  /** The masked comparison is the unmasked one with the masked changes dropped, in order. */
  predicate PruningFilters(a: Node, b: Node, o: Options) {
    DiffNodes(Some(a), Some(b), "", o) == Kept(DiffNodes(Some(a), Some(b), "", Unmask(o)), Unselected(o.mask))
  }

  lemma IncludeMasksAreClosed(m: PathFilter)
    requires m.excludes == []
    ensures PrefixClosed(m)
  {
    hide Hides, CleanPath;
    forall s: seq<string>, k: nat | k <= |s| && Hides(m, s[..k])
      ensures Hides(m, s)
    {
      HidingIsPrefixClosed(m, s, k);
    }
  }

  /** Such a mask judges every change that regular trees can yield as the filter does. */
  lemma ClosedMaskJudgesAlike(m: PathFilter, c: Change, operations: bool)
    requires PrefixClosed(m) && (operations ==> OrderClosed(m)) && Shaped(c, operations)
    ensures Visible(m, 0, c) <==> !Hides(m, SegmentsOf(c.path))
  {
    hide SegmentsOf, Hides, CleanName, AtOperations;
    var s := SegmentsOf(c.path);
    if c.op == Reordered {
      var i :| Last(s) == Itoa(i);
      assert s == Front(s) + [Itoa(i)];
      assert Front(s) == s[..|s| - 1];
    } else {
      assert s[..|s|] == s;
    }
  }

  /**
   * Pruning equals filtering on all regular trees under a mask that hides whatever lies beneath what it
   * hides and, if the trees have operation lists, no operation without its list.
   */
  lemma PruningEqualsFiltering(a: Node, b: Node, o: Options, operations: bool)
    requires Regular(a, operations) && Regular(b, operations) && PrefixClosed(o.mask) && (operations ==> OrderClosed(o.mask))
    ensures PruningFilters(a, b, o)
  {
    hide DiffNodes, Visible, Hides, Maskable, Regular, Kept, PrefixClosed, OrderClosed, Shaped;
    RegularIsMaskable(a, operations);
    RegularIsMaskable(b, operations);
    PruningIsFilteringIff(a, b, o);
    ChangesAreShaped(a, b, Unmask(o), operations);
    forall c | c in DiffNodes(Some(a), Some(b), "", Unmask(o))
      ensures Visible(o.mask, 0, c) <==> !Hides(o.mask, SegmentsOf(c.path))
    {
      ClosedMaskJudgesAlike(o.mask, c, operations);
    }
  }

  // ---------------------------------------------------------------- trees built around a path

  /** The name of what lies at the end of a path, `name` being the name at its start. */
  function EndName(name: string, path: seq<string>): string {
    if path == [] then name else Last(path)
  }

  /** Structs nested along a path, around one node. */
  function Wrapped(name: string, path: seq<string>, inner: Node): (n: Node)
    requires inner.name == EndName(name, path)
    ensures n.name == name
    decreases |path|
  {
    if path == [] then inner else Struct(name, "", "", [Wrapped(path[0], path[1..], inner)])
  }

  function PathTo(at: string, path: seq<string>): string
    decreases |path|
  {
    if path == [] then at else PathTo(Join(at, path[0]), path[1..])
  }

  lemma {:induction false} WrappedIsRegular(name: string, path: seq<string>, inner: Node, operations: bool)
    requires inner.name == EndName(name, path) && CleanPath(path) && Regular(inner, operations)
    ensures Regular(Wrapped(name, path, inner), operations)
    decreases |path|
  {
    hide CleanName;
    if path != [] {
      WrappedIsRegular(path[0], path[1..], inner, operations);
    }
  }

  lemma UnmaskedPair(a: Node, b: Node, at: string, o: Options)
    requires Empty(o.mask)
    ensures DiffNodes(Some(a), Some(b), at, o) == DiffPair(a, b, at, o)
  {
  }

  /** Comparing two trees built around a path is comparing what they are built around. */
  lemma {:induction false} WrappedDiffer(name: string, path: seq<string>, x: Node, y: Node, at: string, o: Options)
    requires x.name == y.name == EndName(name, path) && CleanPath(path) && Extensible(at) && Empty(o.mask)
    ensures DiffNodes(Some(Wrapped(name, path, x)), Some(Wrapped(name, path, y)), at, o) == DiffNodes(Some(x), Some(y), PathTo(at, path), o)
    decreases |path|
  {
    hide CleanName, Extensible, DiffNodes, DiffPair, Join;
    if path != [] {
      var u, v := Wrapped(path[0], path[1..], x), Wrapped(path[0], path[1..], y);
      UnmaskedPair(Wrapped(name, path, x), Wrapped(name, path, y), at, o);
      OneField(u, v, Wrapped(name, path, x), Wrapped(name, path, y), at, o);
      ResolveJoin(x, at, path[0]);
      WrappedDiffer(path[0], path[1..], x, y, Join(at, path[0]), o);
    }
  }

  lemma {:induction false} PathToSegments(at: string, path: seq<string>)
    requires CleanPath(path) && Extensible(at)
    ensures Extensible(PathTo(at, path)) && SegmentsOf(PathTo(at, path)) == SegmentsOf(at) + path
    decreases |path|
  {
    hide SegmentsOf, CleanName, Extensible, Join;
    if path == [] {
      assert SegmentsOf(at) + [] == SegmentsOf(at);
    } else {
      SegmentsJoin(at, path[0]);
      ResolveJoin(Scalar("", "", "", Nil), at, path[0]);
      PathToSegments(Join(at, path[0]), path[1..]);
      assert SegmentsOf(at) + [path[0]] + path[1..] == SegmentsOf(at) + path;
    }
  }

  // ---------------------------------------------------------------- the masks that do not

  /** The scalar comparison tells the values apart. */
  ghost predicate Differ(j: Judge, v: Value, w: Value) {
    forall n: string :: !j.sameScalar(Scalar(n, "", "", v), Scalar(n, "", "", w))
  }

  /** It tells them apart either way round, and takes each for itself. */
  ghost predicate TellsApart(j: Judge, v: Value, w: Value) {
    Differ(j, v, w) && Differ(j, w, v)
    && j.sameScalar(Operation(v), Operation(v)) && j.sameScalar(Operation(w), Operation(w))
  }

  function ScalarAt(path: seq<string>, v: Value): Node {
    Wrapped("", path, Scalar(EndName("", path), "", "", v))
  }

  /**
   * A mask that hides a path but not some path beneath it: a change beneath is lost to the walk although
   * the filter would keep it, whatever the patterns.
   */
  lemma PruningLosesExcluded(path: seq<string>, k: nat, v: Value, w: Value, o: Options)
    requires CleanPath(path) && k <= |path| && Hides(o.mask, path[..k]) && !Hides(o.mask, path) && Differ(o.judge, v, w)
    ensures Regular(ScalarAt(path, v), false) && Regular(ScalarAt(path, w), false)
    ensures !PruningFilters(ScalarAt(path, v), ScalarAt(path, w), o)
  {
    hide SegmentsOf, DiffNodes, Hides, Maskable, Regular, Wrapped, Extensible, CleanPath, Kept, Visible;
    var x, y := Scalar(EndName("", path), "", "", v), Scalar(EndName("", path), "", "", w);
    var a, b, at := ScalarAt(path, v), ScalarAt(path, w), PathTo("", path);
    RootIsExtensible(x);
    SegmentsOfA();
    ScalarIsRegular(x);
    ScalarIsRegular(y);
    WrappedIsRegular("", path, x, false);
    WrappedIsRegular("", path, y, false);
    RegularIsMaskable(a, false);
    RegularIsMaskable(b, false);
    WrappedDiffer("", path, x, y, "", Unmask(o));
    PathToSegments("", path);
    assert [] + path == path;
    ScalarsDiffer(x, y, at, Unmask(o));
    var c := Change(at, Modified, v, w, "", "");
    assert c in [c];
    LostUnder(c, k, o);
    PruningIsFilteringIff(a, b, o);
  }

  lemma LostUnder(c: Change, k: nat, o: Options)
    requires k <= |SegmentsOf(c.path)| && Hides(o.mask, SegmentsOf(c.path)[..k]) && c.op != Reordered
    ensures !Visible(o.mask, 0, c)
  {
    hide SegmentsOf, Hides;
  }

  lemma ScalarIsRegular(x: Node)
    requires x.Scalar?
    ensures Regular(x, false)
  {
  }

  lemma ScalarsDiffer(x: Node, y: Node, at: string, o: Options)
    requires x.Scalar? && y.Scalar? && Empty(o.mask) && !o.judge.sameScalar(x, y)
    ensures DiffNodes(Some(x), Some(y), at, o) == [Change(at, Modified, x.value, y.value, x.note, y.note)]
  {
  }

  /** Where an operation list at the path has its name from. */
  function RootName(path: seq<string>): string {
    if path == [] then "Operations" else ""
  }

  function OperationsAt(path: seq<string>, ops: seq<Node>): Node
    requires AtOperations(path)
  {
    Wrapped(RootName(path), path, List("Operations", "", "", ops))
  }

  function Operation(v: Value): Node {
    Scalar("", "", "", v)
  }

  /**
   * A mask that hides an operation but nothing above it: swapping the operation with the next one is
   * reported although the filter would drop it.
   */
  lemma ReorderingEscapesMask(path: seq<string>, i: nat, v: Value, w: Value, o: Options)
    requires CleanPath(path) && AtOperations(path) && Hides(o.mask, path + [Itoa(i)]) && TellsApart(o.judge, v, w)
    requires forall k :: 0 <= k <= |path| ==> !Hides(o.mask, path[..k])
    ensures var a := OperationsAt(path, OperationDiff.Swapped(i, Operation(v), Operation(w)));
            var b := OperationsAt(path, OperationDiff.SwappedBack(i, Operation(v), Operation(w)));
            Regular(a, true) && Regular(b, true) && !PruningFilters(a, b, o)
            && StructuralDiff.ReorderChange((i + 1, i), PathTo("", path)) in DiffNodes(Some(a), Some(b), "", o)
  {
    hide SegmentsOf, DiffNodes, Hides, Maskable, Regular, Wrapped, Extensible, CleanPath, Kept, Visible, OperationDiff.Swapped, OperationDiff.SwappedBack;
    var x, y := Operation(v), Operation(w);
    var xs, ys := OperationDiff.Swapped(i, x, y), OperationDiff.SwappedBack(i, x, y);
    var p, q := List("Operations", "", "", xs), List("Operations", "", "", ys);
    var a, b, at := OperationsAt(path, xs), OperationsAt(path, ys), PathTo("", path);
    RootIsExtensible(x);
    SegmentsOfA();
    SwapsAreRegular(i, x, y);
    WrappedIsRegular(RootName(path), path, p, true);
    WrappedIsRegular(RootName(path), path, q, true);
    RegularIsMaskable(a, true);
    RegularIsMaskable(b, true);
    WrappedDiffer(RootName(path), path, p, q, "", Unmask(o));
    PathToSegments("", path);
    assert [] + path == path;
    SwapIsSeen(i, x, y, at, Unmask(o));
    var c := StructuralDiff.ReorderChange((i + 1, i), at);
    SegmentsAt(at, i);
    StaysAbove(c, path, i, o);
    MaskedReorderingsStay(a, b, o, c);
    PruningIsFilteringIff(a, b, o);
  }

  /** A reordering stays reported although the mask hides its path, as long as nothing above it is hidden. */
  lemma MaskedReorderingsStay(a: Node, b: Node, o: Options, c: Change)
    requires Maskable(a) && Maskable(b)
    requires c in DiffNodes(Some(a), Some(b), "", Unmask(o)) && c.op == Reordered
    requires forall k :: 0 <= k < |SegmentsOf(c.path)| ==> !Hides(o.mask, SegmentsOf(c.path)[..k])
    ensures c in DiffNodes(Some(a), Some(b), "", o)
  {
    hide DiffNodes, Hides, Maskable, Kept;
    RootIsExtensible(a);
    assert SegmentsOf("") == [];
    MaskingPrunes(a, b, "", o);
    KeptMember(DiffNodes(Some(a), Some(b), "", Unmask(o)), VisibleFrom(o.mask, 0), c);
  }

  lemma StaysAbove(c: Change, path: seq<string>, i: nat, o: Options)
    requires SegmentsOf(c.path) == path + [Itoa(i)] && c.op == Reordered && forall k :: 0 <= k <= |path| ==> !Hides(o.mask, path[..k])
    ensures Visible(o.mask, 0, c)
    ensures forall k :: 0 <= k < |SegmentsOf(c.path)| ==> !Hides(o.mask, SegmentsOf(c.path)[..k])
  {
    hide SegmentsOf, Hides;
    forall k | 0 <= k <= |path|
      ensures (path + [Itoa(i)])[..k] == path[..k]
    {
    }
  }

  lemma SwapsAreRegular(i: nat, x: Node, y: Node)
    requires x.Scalar? && y.Scalar?
    ensures Regular(List("Operations", "", "", OperationDiff.Swapped(i, x, y)), true)
    ensures Regular(List("Operations", "", "", OperationDiff.SwappedBack(i, x, y)), true)
  {
  }

  lemma SwapIsSeen(i: nat, x: Node, y: Node, at: string, o: Options)
    requires x.Scalar? && y.Scalar? && x.name == y.name && x.typeName == y.typeName && Empty(o.mask)
    requires o.judge.sameScalar(x, x) && o.judge.sameScalar(y, y) && !o.judge.sameScalar(x, y) && !o.judge.sameScalar(y, x)
    ensures StructuralDiff.ReorderChange((i + 1, i), at) in
              DiffNodes(Some(List("Operations", "", "", OperationDiff.Swapped(i, x, y))), Some(List("Operations", "", "", OperationDiff.SwappedBack(i, x, y))), at, o)
  {
    hide OperationDiff.Swapped, OperationDiff.SwappedBack, DiffOperations, ReorderChange;
    var p, q := List("Operations", "", "", OperationDiff.Swapped(i, x, y)), List("Operations", "", "", OperationDiff.SwappedBack(i, x, y));
    assert DiffNodes(Some(p), Some(q), at, o) == DiffPair(p, q, at, o) == DiffLists(p, q, at, o);
    assert DiffLists(p, q, at, o) == DiffOperations(p.children, q.children, at, o);
    OperationDiff.SwapIsReported(i, x, y, at, o);
  }

  // ---------------------------------------------------------------- exactly which masks

  ghost predicate FiltersEverywhere(o: Options, operations: bool) {
    forall a: Node, b: Node :: Regular(a, operations) && Regular(b, operations) ==> PruningFilters(a, b, o)
  }

  /**
   * Pruning equals filtering on every pair of trees without operation lists exactly when the mask hides
   * whatever lies beneath what it hides; with operation lists, exactly when it also hides no operation
   * without its list.
   */
  lemma PruningFiltersIff(o: Options, operations: bool, v: Value, w: Value)
    requires Differ(o.judge, v, w) && (operations ==> TellsApart(o.judge, v, w))
    ensures FiltersEverywhere(o, operations) <==> PrefixClosed(o.mask) && (operations ==> OrderClosed(o.mask))
  {
    hide Regular, PruningFilters, Hides, CleanPath, Differ, TellsApart, AtOperations;
    if PrefixClosed(o.mask) {
      if operations ==> OrderClosed(o.mask) {
        forall a: Node, b: Node | Regular(a, operations) && Regular(b, operations)
          ensures PruningFilters(a, b, o)
        {
          PruningEqualsFiltering(a, b, o, operations);
        }
      } else {
        var s: seq<string>, i: nat :| CleanPath(s) && AtOperations(s) && Hides(o.mask, s + [Itoa(i)]) && !Hides(o.mask, s);
        ReorderingEscapesMask(s, i, v, w, o);
      }
    } else {
      var s: seq<string>, k: nat :| CleanPath(s) && k <= |s| && Hides(o.mask, s[..k]) && !Hides(o.mask, s);
      PruningLosesExcluded(s, k, v, w, o);
      RegularEitherWay(ScalarAt(s, v), operations);
      RegularEitherWay(ScalarAt(s, w), operations);
    }
  }

  lemma {:induction false} RegularEitherWay(n: Node, operations: bool)
    requires Regular(n, false)
    ensures Regular(n, operations)
  {
    if !n.Scalar? {
      forall i | 0 <= i < |n.children|
        ensures Regular(n.children[i], operations)
      {
        RegularEitherWay(n.children[i], operations);
      }
    }
  }

  // ---------------------------------------------------------------- the smallest inputs

  /** A field excluded from the mask is still lost when the mask hides its parent. */
  lemma ExcludesBreakFiltering(o: Options)
    requires o.mask == PathFilter(["A"], ["A.X"], (pattern, segment) => pattern == segment)
    requires o.judge.sameScalar == ((x: Node, y: Node) => ValueOf(x) == ValueOf(y))
    ensures var a := Struct("", "", "", [Struct("A", "", "", [Scalar("X", "", "", Num(1))])]);
            var b := Struct("", "", "", [Struct("A", "", "", [Scalar("X", "", "", Num(2))])]);
            DiffNodes(Some(a), Some(b), "", o) == []
            && Kept(DiffNodes(Some(a), Some(b), "", Unmask(o)), Unselected(o.mask)) != []
  {
    var x, y := Scalar("X", "", "", Num(1)), Scalar("X", "", "", Num(2));
    var p, q := Struct("A", "", "", [x]), Struct("A", "", "", [y]);
    var a, b, u := Struct("", "", "", [p]), Struct("", "", "", [q]), Unmask(o);
    var c := Change("A.X", Modified, Num(1), Num(2), "", "");
    assert Join("A", "X") == "A.X";
    OneField(x, y, p, q, "A", u);
    assert DiffNodes(Some(x), Some(y), "A.X", u) == [c];
    assert DiffNodes(Some(p), Some(q), "A", u) == [c];
    OneField(p, q, a, b, "", u);
    assert DiffNodes(Some(a), Some(b), "", u) == [c];
    MaskOfA(o);
    assert Kept([c], Unselected(o.mask)) == [c];
    OneField(p, q, a, b, "", o);
    assert DiffNodes(Some(p), Some(q), "A", o) == [];
  }

  lemma OneField(x: Node, y: Node, a: Node, b: Node, path: string, o: Options)
    requires a == Struct(a.name, "", "", [x]) && b == Struct(b.name, "", "", [y]) && x.name == y.name
    ensures DiffPair(a, b, path, o) == DiffNodes(Some(x), Some(y), Join(path, x.name), o)
  {
    hide DiffNodes, Join;
    assert Child(b, x.name) == Some(y) && Child(a, y.name) == Some(x);
    assert [x][1..] == [] && [y][1..] == [];
    assert LeftFields([x], b, path, o) == LeftField(x, b, path, o) + LeftFields([], b, path, o);
    assert RightFields([y], a, path, o) == RightField(y, a, path, o) + RightFields([], a, path, o);
    assert DiffFields(a, b, path, o) == LeftFields([x], b, path, o) + RightFields([y], a, path, o);
    assert DiffStructs(a, b, path, o) == DiffFields(a, b, path, o);
  }

  lemma MaskOfA(o: Options)
    requires o.mask == PathFilter(["A"], ["A.X"], (pattern, segment) => pattern == segment)
    ensures Masked("A", o) && !Masked("", o) && !Hides(o.mask, SegmentsOf("A.X"))
  {
    hide SegmentsOf;
    SegmentsOfA();
    var g := o.mask.glob;
    assert ["A"][1..] == [] && ["A", "X"][1..] == ["X"] && ["X"][1..] == [];
    assert MatchSegments([], [], g) && MatchSegments([], ["X"], g);
    assert MatchSegments(["A"], ["A"], g) && MatchSegments(["A"], ["A", "X"], g) && !MatchSegments(["A"], [], g);
    assert MatchSegments(["X"], ["X"], g) && !MatchSegments(["X"], [], g);
    assert MatchSegments(["A", "X"], ["A", "X"], g) && !MatchSegments(["A", "X"], ["A"], g);
    assert o.mask.includes[0] == "A" && o.mask.excludes[0] == "A.X";
  }

  lemma SegmentsOfA()
    ensures SegmentsOf("") == [] && SegmentsOf("A") == ["A"] && SegmentsOf("A.X") == ["A", "X"]
  {
    assert SegmentsOf("") == [];
    SegmentsJoin("", "A");
    SegmentsJoin("A", "X");
    assert Join("", "A") == "A" && Join("A", "X") == "A.X";
  }

  /** Two swapped operations are both reported although the mask includes the first of their places. */
  lemma SwapEscapesInclude(o: Options)
    requires o.mask == PathFilter(["Operations[0]"], [], (pattern, segment) => pattern == segment)
    requires TellsApart(o.judge, Num(1), Num(2))
    ensures var a := Struct("", "", "", [List("Operations", "", "", [Operation(Num(1)), Operation(Num(2))])]);
            var b := Struct("", "", "", [List("Operations", "", "", [Operation(Num(2)), Operation(Num(1))])]);
            !PruningFilters(a, b, o)
  {
    hide PruningFilters, TellsApart, Hides, SegmentsOf;
    var path := ["Operations"];
    MaskOfFirstOperation(o);
    assert path[..0] == [] && path[..1] == path && path + [Itoa(0)] == ["Operations", Itoa(0)];
    ReorderingEscapesMask(path, 0, Num(1), Num(2), o);
    var x, y := Operation(Num(1)), Operation(Num(2));
    assert OperationDiff.Swapped(0, x, y) == [x, y] && OperationDiff.SwappedBack(0, x, y) == [y, x];
    assert path[1..] == [];
  }

  lemma MaskOfFirstOperation(o: Options)
    requires o.mask == PathFilter(["Operations[0]"], [], (pattern, segment) => pattern == segment)
    ensures Hides(o.mask, ["Operations", Itoa(0)]) && !Hides(o.mask, ["Operations"]) && !Hides(o.mask, [])
  {
    hide SegmentsOf, Itoa, MatchSegments;
    var g, s := o.mask.glob, ["Operations", Itoa(0)];
    FirstOperationSegments();
    assert IsDigit(Itoa(0)[0]);
    TwoExactSegments("Operations", Itoa(0), g);
    assert o.mask.includes[0] == "Operations[0]";
  }

  lemma FirstOperationSegments()
    ensures SegmentsOf("Operations[0]") == ["Operations", Itoa(0)]
  {
    hide SegmentsOf, Extensible, Join, At, Itoa, CleanName;
    SegmentsOfA();
    PathsOfOperations();
    SegmentsJoin("", "Operations");
    ResolveJoin(Operation(Nil), "", "Operations");
    SegmentsAt("Operations", 0);
    assert [] + ["Operations"] == ["Operations"];
  }

  lemma PathsOfOperations()
    ensures Join("", "Operations") == "Operations" && At("Operations", 0) == "Operations[0]" && CleanName("Operations")
  {
    assert Itoa(0) == "0";
  }

  /** A pattern of two literal segments selects its own path and nothing above it. */
  lemma TwoExactSegments(x: string, y: string, g: (string, string) -> bool)
    requires g(x, x) && g(y, y) && x != "**" && y != "**"
    ensures MatchSegments([x, y], [x, y], g) && !MatchSegments([x, y], [x], g) && !MatchSegments([x, y], [], g)
  {
    assert [x, y][1..] == [y] && [y][1..] == [] && [x][1..] == [];
    assert MatchSegments([], [], g) && MatchSegments([y], [y], g) && !MatchSegments([y], [], g);
  }
}
