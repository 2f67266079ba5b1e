/** The neutral tree of a decoded value, and the field paths that address it. */
module Tree {
  import opened Text

  /** A scalar payload; `Nil` is the absent value. */
  datatype Value = Nil | Str(text: string) | Num(n: int) | Float(r: real) | Boolean(b: bool)

  /** Only scalars carry a value and only structs and lists have children, so each kind is a constructor. */
  datatype Node =
    | Scalar(name: string, typeName: string, note: string, value: Value)
    | Struct(name: string, typeName: string, note: string, children: seq<Node>)
    | List(name: string, typeName: string, note: string, children: seq<Node>)

  function Children(n: Node): seq<Node> {
    if n.Scalar? then [] else n.children
  }

  function ValueOf(n: Node): Value {
    if n.Scalar? then n.value else Nil
  }

  predicate SameKind(a: Node, b: Node) {
    (a.Scalar? && b.Scalar?) || (a.Struct? && b.Struct?) || (a.List? && b.List?)
  }

  function Size(n: Node): (s: nat)
    ensures s >= 1
  {
    if n.Scalar? then 1 else 1 + SizeAll(n.children)
  }

  function SizeAll(ns: seq<Node>): nat {
    if ns == [] then 0 else Size(ns[0]) + SizeAll(ns[1..])
  }

  function SizeOpt(n: Option<Node>): nat {
    if n.None? then 0 else Size(n.value)
  }

  lemma SizeOfMember(ns: seq<Node>, i: nat)
    requires i < |ns|
    ensures Size(ns[i]) <= SizeAll(ns)
  {
    if i > 0 {
      SizeOfMember(ns[1..], i - 1);
    }
  }

  /** The first node called `name`. */
  function FirstNamed(ns: seq<Node>, name: string): (r: Option<Node>)
    ensures r.Some? ==> r.value.name == name && SizeOpt(r) <= SizeAll(ns)
  {
    if ns == [] then None
    else if ns[0].name == name then Some(ns[0])
    else FirstNamed(ns[1..], name)
  }

  function Child(n: Node, name: string): (r: Option<Node>)
    ensures SizeOpt(r) < Size(n)
    ensures r.Some? ==> r.value.name == name
  {
    FirstNamed(Children(n), name)
  }

  /** Where the first node called `name` is. */
  lemma FirstNamedAt(ns: seq<Node>, name: string) returns (i: nat)
    requires FirstNamed(ns, name).Some?
    ensures i < |ns| && FirstNamed(ns, name) == Some(ns[i])
  {
    if ns[0].name == name {
      i := 0;
    } else {
      var k := FirstNamedAt(ns[1..], name);
      i := k + 1;
    }
  }

  /** The i-th of `ns`, or nothing past its end. */
  function Nth(ns: seq<Node>, i: nat): (r: Option<Node>)
    ensures SizeOpt(r) <= SizeAll(ns)
  {
    if i < |ns| then SizeOfMember(ns, i); Some(ns[i]) else None
  }

  /** Sibling names are pairwise distinct below every struct of the tree. */
  ghost predicate UniqueNames(n: Node) {
    n.Scalar? ||
    ((n.Struct? ==> forall i, j :: 0 <= i < j < |n.children| ==> n.children[i].name != n.children[j].name)
     && forall i :: 0 <= i < |n.children| ==> UniqueNames(n.children[i]))
  }

  lemma FirstNamedUnique(ns: seq<Node>, i: nat)
    requires i < |ns|
    requires forall i, j :: 0 <= i < j < |ns| ==> ns[i].name != ns[j].name
    ensures FirstNamed(ns, ns[i].name) == Some(ns[i])
  {
    if i > 0 {
      FirstNamedUnique(ns[1..], i - 1);
    }
  }

  /** What a change reports for a node: its value, or a short description of a struct or list. */
  function LeafValue(n: Node): Value {
    match n
    case Scalar(_, _, _, value) => value
    case List(_, _, _, children) => Str("[" + Itoa(|children|) + " item(s)]")
    case Struct(_, typeName, _, _) => Str(if typeName != "" then "{" + typeName + "}" else "{...}")
  }

  // ---------------------------------------------------------------- paths

  function Join(path: string, name: string): string {
    if path == "" then name
    else if name == "" then path
    else path + ['.'] + name
  }

  /** The path of list element `i`. */
  function At(path: string, i: nat): string {
    path + ("[" + Itoa(i) + "]")
  }

  /** One addressing step; a negative index means the step only names a field. */
  datatype PathSeg = PathSeg(name: string, index: int)

  /** Where the first bracket of a part closes, relative to the whole part. */
  function CloseOf(part: string): (close: nat)
    ensures close <= |part|
  {
    IndexOf(part, '[') + IndexOf(part[IndexOf(part, '[')..], ']')
  }

  /** The steps of one dot-free part of a path, such as `Results[0]`. */
  function SegsOfPart(part: string): seq<PathSeg>
    decreases |part|
  {
    var open := IndexOf(part, '[');
    if open == |part| then if part == "" then [] else [PathSeg(part, -1)]
    else
      var close := CloseOf(part);
      if close == |part| then [PathSeg(part, -1)]
      else [PathSeg(part[..open], ScannedIndex(part[open + 1..close]))] + SegsOfPart(part[close + 1..])
  }

  function ScannedIndex(digits: string): int {
    if ScanInt(digits).Some? then ScanInt(digits).value else -1
  }

  function SegsOfParts(parts: seq<string>): seq<PathSeg> {
    if parts == [] then [] else SegsOfPart(parts[0]) + SegsOfParts(parts[1..])
  }

  function SegsOf(path: string): seq<PathSeg> {
    SegsOfParts(Split(path, '.'))
  }

  function ElementOf(n: Option<Node>, i: int): Option<Node> {
    if n.Some? && 0 <= i < |Children(n.value)| then Some(Children(n.value)[i]) else None
  }

  function FieldOf(n: Option<Node>, name: string): Option<Node> {
    if n.Some? then Child(n.value, name) else None
  }

  function Step(n: Option<Node>, seg: PathSeg): Option<Node> {
    if seg.index < 0 then FieldOf(n, seg.name)
    else ElementOf(if seg.name == "" then n else FieldOf(n, seg.name), seg.index)
  }

  function Steps(n: Option<Node>, segs: seq<PathSeg>): Option<Node>
    decreases |segs|
  {
    if segs == [] then n else Steps(Step(n, segs[0]), segs[1..])
  }

  /** The node a path resolves to. */
  function Resolve(root: Node, path: string): Option<Node> {
    Steps(Some(root), SegsOf(path))
  }

  method SplitPath(path: string) returns (segs: seq<PathSeg>)
    ensures segs == SegsOf(path)
  {
    segs := [];
    var parts := Split(path, '.');
    for i := 0 to |parts|
      invariant segs + SegsOfParts(parts[i..]) == SegsOf(path)
    {
      assert parts[i..][1..] == parts[i + 1..];
      Associate(segs, SegsOfPart(parts[i]), SegsOfParts(parts[i + 1..]));
      segs := SplitPart(segs, parts[i]);
    }
  }

  /** The inner loop of SplitPath: the name, then each bracketed index. */
  method SplitPart(segs: seq<PathSeg>, part: string) returns (r: seq<PathSeg>)
    ensures r == segs + SegsOfPart(part)
  {
    r := segs;
    var name := part;
    while name != ""
      invariant r + SegsOfPart(name) == segs + SegsOfPart(part)
      decreases |name|
    {
      var open := IndexOf(name, '[');
      if open == |name| {
        return r + [PathSeg(name, -1)];
      }
      var close := CloseOf(name);
      if close == |name| {
        return r + [PathSeg(name, -1)];
      }
      var seg := PathSeg(name[..open], ScannedIndex(name[open + 1..close]));
      Associate(r, [seg], SegsOfPart(name[close + 1..]));
      r := r + [seg];
      name := name[close + 1..];
    }
  }

  method Find(root: Node, path: string) returns (r: Option<Node>)
    ensures r == Resolve(root, path)
  {
    r := Some(root);
    var segs := SplitPath(path);
    for i := 0 to |segs|
      invariant Steps(r, segs[i..]) == Resolve(root, path)
    {
      assert segs[i..][1..] == segs[i + 1..];
      if r.None? {
        StepsFromNowhere(segs[i..]);
        return None;
      }
      if segs[i].index >= 0 {
        if segs[i].name != "" {
          r := Child(r.value, segs[i].name);
          if r.None? {
            StepsFromNowhere(segs[i + 1..]);
            return None;
          }
        }
        if segs[i].index >= |Children(r.value)| {
          StepsFromNowhere(segs[i + 1..]);
          return None;
        }
        r := Some(Children(r.value)[segs[i].index]);
      } else {
        r := Child(r.value, segs[i].name);
      }
    }
  }

  lemma StepsFromNowhere(segs: seq<PathSeg>)
    ensures Steps(None, segs) == None
  {
    if segs != [] {
      assert Step(None, segs[0]) == None;
    }
  }

  // ------------------------------------------- paths grow by whole segments

  /** A field name that a path can carry unambiguously. */
  predicate CleanName(name: string) {
    name != "" && '.' !in name && '[' !in name
  }

  /** Every bracket of the part is closed. */
  predicate Closed(part: string)
    decreases |part|
  {
    IndexOf(part, '[') == |part| || (CloseOf(part) < |part| && Closed(part[CloseOf(part) + 1..]))
  }

  /** A path that can be extended: its last part has no dangling bracket. */
  predicate Extensible(path: string) {
    Closed(Last(Split(path, '.')))
  }

  /** `t` is a bracketed index and nothing else. */
  predicate Bracketed(t: string) {
    |t| >= 2 && IndexOf(t, '[') == 0 && IndexOf(t, ']') == |t| - 1
  }

  lemma IndexText(i: nat)
    ensures var t := "[" + Itoa(i) + "]"; Bracketed(t) && t[1..|t| - 1] == Itoa(i) && '.' !in t
  {
    assert ']' !in "[" + Itoa(i);
    IndexOfAbsent("[" + Itoa(i), ']');
    IndexOfAppend("[" + Itoa(i), "]", ']');
  }

  /** Appending to a part leaves its closed brackets where they are. */
  lemma BracketsKept(part: string, t: string)
    requires IndexOf(part, '[') < |part| && CloseOf(part) < |part|
    ensures IndexOf(part + t, '[') == IndexOf(part, '[') && CloseOf(part + t) == CloseOf(part)
    ensures (part + t)[CloseOf(part) + 1..] == part[CloseOf(part) + 1..] + t
    ensures (part + t)[..IndexOf(part, '[')] == part[..IndexOf(part, '[')]
    ensures (part + t)[IndexOf(part, '[') + 1..CloseOf(part)] == part[IndexOf(part, '[') + 1..CloseOf(part)]
  {
    hide IndexOf;
    var open := IndexOf(part, '[');
    IndexOfAppend(part, t, '[');
    DropConcat(part, t, open);
    IndexOfAppend(part[open..], t, ']');
    DropConcat(part, t, CloseOf(part) + 1);
    TakeConcat(part, t, open);
    SliceConcat(part, t, open + 1, CloseOf(part));
  }

  lemma SliceConcat(a: string, b: string, lo: nat, hi: nat)
    requires lo <= hi <= |a|
    ensures (a + b)[lo..hi] == a[lo..hi]
  {
  }

  lemma BracketAdded(part: string, t: string)
    requires Bracketed(t) && IndexOf(part, '[') == |part|
    ensures IndexOf(part + t, '[') == |part| && CloseOf(part + t) == |part + t| - 1
    ensures (part + t)[..|part|] == part && (part + t)[|part| + 1..|part + t| - 1] == t[1..|t| - 1]
    ensures (part + t)[|part + t|..] == ""
  {
    hide IndexOf;
    IndexOfAppend(part, t, '[');
    assert (part + t)[|part|..] == t;
  }

  lemma {:induction false} ClosedGrows(part: string, t: string)
    requires Closed(part) && Bracketed(t)
    ensures Closed(part + t)
    decreases |part|
  {
    hide IndexOf, CloseOf;
    if IndexOf(part, '[') == |part| {
      BracketAdded(part, t);
      ClosedAtEnd(part + t);
    } else {
      BracketsKept(part, t);
      ClosedGrows(part[CloseOf(part) + 1..], t);
      ClosedStep(part + t);
    }
  }

  lemma ClosedAtEnd(part: string)
    requires part != "" && CloseOf(part) == |part| - 1
    ensures Closed(part)
  {
    hide CloseOf;
    assert part[CloseOf(part) + 1..] == "";
  }

  lemma ClosedStep(part: string)
    requires CloseOf(part) < |part| && Closed(part[CloseOf(part) + 1..])
    ensures Closed(part)
  {
    hide IndexOf, CloseOf;
  }

  lemma {:induction false} StepsAppend(n: Option<Node>, xs: seq<PathSeg>, ys: seq<PathSeg>)
    ensures Steps(n, xs + ys) == Steps(Steps(n, xs), ys)
    decreases |xs|
  {
    if xs == [] {
      assert xs + ys == ys;
    } else {
      assert (xs + ys)[1..] == xs[1..] + ys;
      StepsAppend(Step(n, xs[0]), xs[1..], ys);
    }
  }

  lemma {:induction false} SegsOfPartsAppend(ps: seq<string>, qs: seq<string>)
    ensures SegsOfParts(ps + qs) == SegsOfParts(ps) + SegsOfParts(qs)
  {
    if ps == [] {
      assert ps + qs == qs;
    } else {
      assert (ps + qs)[1..] == ps[1..] + qs;
      SegsOfPartsAppend(ps[1..], qs);
      Associate(SegsOfPart(ps[0]), SegsOfParts(ps[1..]), SegsOfParts(qs));
    }
  }

  /** The first step of a part that has a closed bracket. */
  function FirstSeg(part: string): PathSeg
    requires IndexOf(part, '[') < CloseOf(part) <= |part|
  {
    PathSeg(part[..IndexOf(part, '[')], ScannedIndex(part[IndexOf(part, '[') + 1..CloseOf(part)]))
  }

  lemma FirstSegKept(part: string, t: string)
    requires IndexOf(part, '[') < CloseOf(part) < |part|
    ensures SegsOfPart(part) == [FirstSeg(part)] + SegsOfPart(part[CloseOf(part) + 1..])
    ensures SegsOfPart(part + t) == [FirstSeg(part)] + SegsOfPart(part[CloseOf(part) + 1..] + t)
  {
    BracketsKept(part, t);
    SegsByFirst(part, part, part[CloseOf(part) + 1..]);
    SegsByFirst(part + t, part, part[CloseOf(part) + 1..] + t);
  }

  lemma SegsByFirst(s: string, part: string, rest: string)
    requires IndexOf(part, '[') < CloseOf(part) < |part| && CloseOf(part) < |s|
    requires IndexOf(s, '[') == IndexOf(part, '[') && CloseOf(s) == CloseOf(part)
    requires s[..IndexOf(part, '[')] == part[..IndexOf(part, '[')]
    requires s[IndexOf(part, '[') + 1..CloseOf(part)] == part[IndexOf(part, '[') + 1..CloseOf(part)]
    requires s[CloseOf(part) + 1..] == rest
    ensures SegsOfPart(s) == [FirstSeg(part)] + SegsOfPart(rest)
  {
    hide IndexOf, CloseOf, ScannedIndex, SegsOfPart;
    SegsUnfold(s);
  }

  lemma SegsUnfold(s: string)
    requires IndexOf(s, '[') < CloseOf(s) < |s|
    ensures SegsOfPart(s) == [FirstSeg(s)] + SegsOfPart(s[CloseOf(s) + 1..])
  {
    hide IndexOf, CloseOf, ScannedIndex;
  }

  lemma BracketCloses(part: string)
    requires IndexOf(part, '[') < |part|
    ensures IndexOf(part, '[') < CloseOf(part)
  {
    var open := IndexOf(part, '[');
    assert part[open..][0] == '[';
  }

  lemma PlainPartIndexed(n: Option<Node>, part: string, t: string, i: nat)
    requires IndexOf(part, '[') == |part| && Bracketed(t) && ScannedIndex(t[1..|t| - 1]) == i
    ensures Steps(n, SegsOfPart(part + t)) == ElementOf(Steps(n, SegsOfPart(part)), i)
  {
    BracketAdded(part, t);
    assert SegsOfPart(part + t) == [PathSeg(part, i)] + SegsOfPart("");
    OneStep(n, PathSeg(part, i));
    OneStep(n, PathSeg(part, -1));
  }

  /** Appending `[i]` to a part selects the i-th child of what the part selected. */
  lemma {:induction false} PartIndexed(n: Option<Node>, part: string, t: string, i: nat)
    requires Closed(part) && Bracketed(t) && ScannedIndex(t[1..|t| - 1]) == i
    ensures Steps(n, SegsOfPart(part + t)) == ElementOf(Steps(n, SegsOfPart(part)), i)
    decreases |part|
  {
    if IndexOf(part, '[') == |part| {
      PlainPartIndexed(n, part, t, i);
    } else {
      BracketCloses(part);
      FirstSegKept(part, t);
      var seg, rest := FirstSeg(part), part[CloseOf(part) + 1..];
      PartIndexed(Step(n, seg), rest, t, i);
      StepsCons(n, seg, SegsOfPart(rest + t));
      StepsCons(n, seg, SegsOfPart(rest));
    }
  }

  lemma OneStep(n: Option<Node>, seg: PathSeg)
    ensures Steps(n, [seg]) == Step(n, seg)
  {
    assert [seg][1..] == [];
  }

  lemma StepsCons(n: Option<Node>, seg: PathSeg, segs: seq<PathSeg>)
    ensures Steps(n, [seg] + segs) == Steps(Step(n, seg), segs)
  {
    assert ([seg] + segs)[1..] == segs;
  }

  /** A path extended by a field name addresses that field of the node it addressed. */
  lemma ResolveJoin(root: Node, path: string, name: string)
    requires CleanName(name)
    ensures Resolve(root, Join(path, name)) == FieldOf(Resolve(root, path), name)
    ensures Extensible(Join(path, name))
  {
    IndexOfAbsent(name, '.');
    IndexOfAbsent(name, '[');
    assert Split(name, '.') == [name];
    var step := [PathSeg(name, -1)];
    assert SegsOfParts([name]) == step;
    if path == "" {
      assert SegsOf("") == [];
      assert Steps(Some(root), step) == Step(Some(root), step[0]);
    } else {
      SplitAtSeparator(path, '.', name);
      SegsOfPartsAppend(Split(path, '.'), [name]);
      StepsAppend(Some(root), SegsOf(path), step);
      var n := Steps(Some(root), SegsOf(path));
      assert Steps(n, step) == Step(n, step[0]);
    }
  }

  /** A path extended by an index addresses that element of the node it addressed. */
  lemma ResolveAt(root: Node, path: string, i: nat)
    requires Extensible(path)
    ensures Resolve(root, At(path, i)) == ElementOf(Resolve(root, path), i)
    ensures Extensible(At(path, i))
  {
    hide SegsOf, SegsOfPart, Itoa, ElementOf;
    var t := "[" + Itoa(i) + "]";
    IndexText(i);
    ScanIntItoa(i);
    var front, last := SegsOfExtended(path, t);
    ClosedGrows(last, t);
    StepsAppend(Some(root), front, SegsOfPart(last));
    StepsAppend(Some(root), front, SegsOfPart(last + t));
    PartIndexed(Steps(Some(root), front), last, t, i);
  }

  /** Dot-free text added to a path only changes the steps of its last part. */
  lemma SegsOfExtended(path: string, t: string) returns (front: seq<PathSeg>, last: string)
    requires '.' !in t
    ensures last == Last(Split(path, '.')) && last + t == Last(Split(path + t, '.'))
    ensures SegsOf(path) == front + SegsOfPart(last) && SegsOf(path + t) == front + SegsOfPart(last + t)
  {
    hide SegsOfPart;
    var parts := Split(path, '.');
    last := Last(parts);
    front := SegsOfParts(Front(parts));
    SplitExtendsLast(path, '.', t);
    assert parts == Front(parts) + [last];
    SegsOfPartsAppend(Front(parts), [last]);
    SegsOfPartsAppend(Front(parts), [last + t]);
    OnePart(last);
    OnePart(last + t);
  }

  lemma OnePart(part: string)
    ensures SegsOfParts([part]) == SegsOfPart(part)
  {
  }

  lemma RootIsExtensible(root: Node)
    ensures Resolve(root, "") == Some(root) && Extensible("")
  {
    assert SegsOf("") == [];
  }

  // ------------------------------------------- the name at the end of a path

  function LastName(segs: seq<PathSeg>): string {
    if segs == [] then "" else Last(segs).name
  }

  lemma LastNameAppend(xs: seq<PathSeg>, ys: seq<PathSeg>)
    ensures LastName(xs + ys) == if ys == [] then LastName(xs) else LastName(ys)
  {
    if ys == [] {
      assert xs + ys == xs;
    }
  }

  lemma {:induction false} LastNameIndexed(part: string, t: string)
    requires Closed(part) && Bracketed(t)
    ensures SegsOfPart(part + t) != []
    ensures LastName(SegsOfPart(part + t)) == "" || (SegsOfPart(part) != [] && LastName(SegsOfPart(part + t)) == LastName(SegsOfPart(part)))
    decreases |part|
  {
    if IndexOf(part, '[') == |part| {
      BracketAdded(part, t);
      assert SegsOfPart(part + t) == [PathSeg(part, ScannedIndex(t[1..|t| - 1]))] + SegsOfPart("");
    } else {
      BracketCloses(part);
      FirstSegKept(part, t);
      var rest := part[CloseOf(part) + 1..];
      LastNameIndexed(rest, t);
      LastNameAppend([FirstSeg(part)], SegsOfPart(rest + t));
      LastNameAppend([FirstSeg(part)], SegsOfPart(rest));
    }
  }

  /** An index keeps the name at the end of a path, or hides it. */
  lemma LastNameAt(path: string, i: nat)
    requires Extensible(path)
    ensures LastName(SegsOf(At(path, i))) == "" || LastName(SegsOf(At(path, i))) == LastName(SegsOf(path))
  {
    hide SegsOf, SegsOfPart, Itoa, Closed;
    var t := "[" + Itoa(i) + "]";
    IndexText(i);
    var front, last := SegsOfExtended(path, t);
    LastNameIndexed(last, t);
    LastNameAppend(front, SegsOfPart(last));
    LastNameAppend(front, SegsOfPart(last + t));
  }

  lemma LastNameJoin(path: string, name: string)
    requires CleanName(name)
    ensures LastName(SegsOf(Join(path, name))) == name
  {
    IndexOfAbsent(name, '.');
    IndexOfAbsent(name, '[');
    assert SegsOfPart(name) == [PathSeg(name, -1)];
    OnePart(name);
    if path != "" {
      SplitAtSeparator(path, '.', name);
      SegsOfPartsAppend(Split(path, '.'), [name]);
      LastNameAppend(SegsOf(path), [PathSeg(name, -1)]);
    }
  }
}
