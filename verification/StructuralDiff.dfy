/** The changes that comparing two trees reports, as a function of the trees, the path and the options. */
module StructuralDiff {
  import opened Text
  import opened Tree
  import opened Changes
  import opened PathFilters
  import Alignment
  import GreedyMatching
  import SignerDiff

  /**
   How scalars compare and render. Scalar sameness, byte normalisation and the renderings that only ever
   appear inside a change or a matching key are relations and functions chosen by the caller.
   */
  datatype Judge = Judge(
    sameScalar: (Node, Node) -> bool,
    binaryEqual: (Node, Node) -> bool,
    textIsId: (Value, Value) -> bool,
    render: Value -> string,
    nodeKey: Node -> string,
    nodeLabel: Node -> string,
    ledgerKey: Node -> string,
    ledgerEntryType: Node -> string)

  datatype Options = Options(alignLists: bool, unorderedSigners: bool, mask: PathFilter, judge: Judge)

  predicate Masked(path: string, o: Options) {
    !Empty(o.mask) && MatchesPath(o.mask, path)
  }

  // ---------------------------------------------------------------- comparing without reporting

  predicate SameNode(a: Node, b: Node, j: Judge) {
    a.name == b.name &&
    if !SameKind(a, b) then j.binaryEqual(a, b)
    else if a.Scalar? then j.sameScalar(a, b)
    else SameNodes(a.children, b.children, j)
  }

  predicate SameNodes(xs: seq<Node>, ys: seq<Node>, j: Judge) {
    |xs| == |ys| && (xs == [] || (SameNode(xs[0], ys[0], j) && SameNodes(xs[1..], ys[1..], j)))
  }

  lemma {:induction false} SameNodesAt(xs: seq<Node>, ys: seq<Node>, j: Judge, i: nat)
    requires SameNodes(xs, ys, j) && i < |xs|
    ensures |xs| == |ys| && SameNode(xs[i], ys[i], j) && xs[i].name == ys[i].name
  {
    if i > 0 {
      SameNodesAt(xs[1..], ys[1..], j, i - 1);
    }
  }

  function Same(j: Judge): (Node, Node) -> bool {
    (x, y) => SameNode(x, y, j)
  }

  // ---------------------------------------------------------------- special structs

  predicate IsMemoStruct(a: Node, b: Node) {
    a.typeName == "Memo" && b.typeName == "Memo"
  }

  predicate IsMemoArmName(name: string) {
    name == "Text" || name == "Id" || name == "Hash" || name == "Return" || name == "HashX"
  }

  /** The active arm of a memo: the first scalar arm that carries a value. */
  function MemoArm(fields: seq<Node>): (string, Value) {
    if fields == [] then ("None", Nil)
    else if fields[0].Scalar? && IsMemoArmName(fields[0].name) && fields[0].value != Nil then (fields[0].name, fields[0].value)
    else MemoArm(fields[1..])
  }

  predicate MemoEquivalent(left: (string, Value), right: (string, Value), j: Judge) {
    (left.0 == "Text" && right.0 == "Id" && j.textIsId(left.1, right.1)) ||
    (left.0 == "Id" && right.0 == "Text" && j.textIsId(right.1, left.1))
  }

  function MemoChange(left: (string, Value), right: (string, Value), path: string): Change {
    Change(path, Modified, left.1, right.1,
           left.0 + " (semantically equivalent to " + right.0 + ")",
           right.0 + " (semantically equivalent to " + left.0 + ")")
  }

  predicate IsLedgerEntryStruct(a: Node, b: Node) {
    a.typeName == "LedgerEntry" && b.typeName == "LedgerEntry"
  }

  predicate HasLedgerEntryData(n: Node) {
    exists i :: 0 <= i < |Children(n)| && IsTypedData(Children(n)[i])
  }

  predicate IsTypedData(n: Node) {
    n.Struct? && n.name == "Data" && exists i :: 0 <= i < |n.children| && n.children[i].name == "Type" && ValueOf(n.children[i]) != Nil
  }

  function Transition(a: Node, b: Node): string {
    if !HasLedgerEntryData(a) && HasLedgerEntryData(b) then "CREATED"
    else if HasLedgerEntryData(a) && !HasLedgerEntryData(b) then "DELETED"
    else if HasLedgerEntryData(a) && HasLedgerEntryData(b) then "UPDATED"
    else "UNKNOWN"
  }

  /** The header announcing a ledger-entry transition, when there is anything to announce. */
  function LedgerHeader(a: Node, b: Node, path: string, details: seq<Change>, j: Judge): seq<Change> {
    var t := Transition(a, b);
    if details == [] && t != "CREATED" && t != "DELETED" then []
    else
      var note := "LedgerEntry transition: " + t;
      var key, kind := j.ledgerKey(a), j.ledgerEntryType(a);
      var about := kind + " (" + key + ")";
      [Change(path, Modified, Str(t), Str(t), note, note)]
      + if key != "" && kind != "" then [Change(path + ".LedgerKey", Modified, Str(key), Str(key), about, about)] else []
  }

  // ---------------------------------------------------------------- special lists

  /** The field name of a list: its own, or the last name on the path of an anonymous list. */
  function CollectionName(path: string, a: Node, b: Node): string {
    if a.name != "" then a.name
    else if b.name != "" then b.name
    else if SegsOf(path) == [] then ""
    else Last(SegsOf(path)).name
  }

  predicate IsSignerCollection(name: string) {
    name == "Signatures" || name == "Signers" || name == "ExtraSigners"
  }

  predicate IsOperationCollection(name: string) {
    name == "Operations"
  }

  predicate IsEventNode(n: Node) {
    n.typeName == "ContractEvent" || n.typeName == "DiagnosticEvent" || Child(n, "ContractId").Some? || Child(n, "Event").Some?
  }

  predicate IsEventCollection(name: string, a: Node, b: Node) {
    name == "Events" || name == "DiagnosticEvents"
    || (Children(a) != [] && IsEventNode(Children(a)[0]))
    || (Children(b) != [] && IsEventNode(Children(b)[0]))
  }

  datatype EventMeta = EventMeta(contractId: string, primaryTopic: string, fullTopics: string)

  const ARMS := ["Sym", "Str", "Address", "U32", "U64", "I32", "I64", "U128", "I128", "Bool", "Bytes"]

  /** The rendering of the first arm that is present with a value, or of the node's own value. */
  function TopicSummary(n: Node, arms: seq<string>, j: Judge): string {
    if arms == [] then if ValueOf(n) != Nil then j.render(ValueOf(n)) else ""
    else
      var arm := Child(n, arms[0]);
      if arm.Some? && ValueOf(arm.value) != Nil then j.render(ValueOf(arm.value)) else TopicSummary(n, arms[1..], j)
  }

  function TopicSummaries(topics: seq<Node>, j: Judge): seq<string> {
    if topics == [] then [] else [TopicSummary(topics[0], ARMS, j)] + TopicSummaries(topics[1..], j)
  }

  function JoinTopics(topics: seq<string>): string {
    if topics == [] then "" else if |topics| == 1 then topics[0] else topics[0] + "::" + JoinTopics(topics[1..])
  }

  function MetaOf(n: Node, j: Judge): EventMeta {
    var event := if Child(n, "Event").Some? then Child(n, "Event").value else n;
    var id := Child(event, "ContractId");
    var topics := FieldOf(FieldOf(FieldOf(Some(event), "Body"), "V0"), "Topics");
    var summaries := if topics.Some? then TopicSummaries(Children(topics.value), j) else [];
    EventMeta(if id.Some? && ValueOf(id.value) != Nil then j.render(ValueOf(id.value)) else "",
              if summaries != [] then summaries[0] else "",
              JoinTopics(summaries))
  }

  function MetasOf(events: seq<Node>, j: Judge): (r: seq<EventMeta>)
    ensures |r| == |events|
  {
    seq(|events|, i requires 0 <= i < |events| => MetaOf(events[i], j))
  }

  predicate SameTopics(l: EventMeta, r: EventMeta) {
    l.contractId == r.contractId && l.fullTopics == r.fullTopics
  }

  predicate SamePrimaryTopic(l: EventMeta, r: EventMeta) {
    l.contractId == r.contractId && l.primaryTopic != "" && l.primaryTopic == r.primaryTopic
  }

  /** Events pair up by contract and all topics first, then by contract and primary topic. */
  function PairEvents(left: seq<EventMeta>, right: seq<EventMeta>): (p: GreedyMatching.Pairing)
    ensures |p.left| == |left| && |p.right| == |right| && GreedyMatching.OneToOne(p)
  {
    var start := GreedyMatching.Pairing(GreedyMatching.Free(|left|), GreedyMatching.Free(|right|), []);
    GreedyMatching.ShiftedStaysOneToOne(left, right, SameTopics, start, 0);
    var exact := GreedyMatching.Shifted(left, right, SameTopics, start, 0);
    GreedyMatching.ShiftedStaysOneToOne(left, right, SamePrimaryTopic, exact, 0);
    GreedyMatching.Shifted(left, right, SamePrimaryTopic, exact, 0)
  }

  // ---------------------------------------------------------------- which elements a list comparison visits

  /** One comparison of list elements; `at` is the index it is reported at. */
  datatype Visit = Visit(left: Option<nat>, right: Option<nat>, at: nat)

  function PositionalVisits(m: nat, n: nat, i: nat): seq<Visit>
    decreases if m > n then m - i else n - i
  {
    if i >= m && i >= n then []
    else [Visit(if i < m then Some(i) else None, if i < n then Some(i) else None, i)] + PositionalVisits(m, n, i + 1)
  }

  function EditVisit(e: Alignment.Edit): Visit {
    match e
    case Keep(i, j) => Visit(Some(i), Some(j), j)
    case Insert(j) => Visit(None, Some(j), j)
    case Delete(i) => Visit(Some(i), None, i)
  }

  function EditVisits(script: seq<Alignment.Edit>): seq<Visit> {
    if script == [] then [] else [EditVisit(script[0])] + EditVisits(script[1..])
  }

  function PairVisits(pairs: seq<(nat, nat)>): seq<Visit> {
    if pairs == [] then [] else [Visit(Some(pairs[0].0), Some(pairs[0].1), pairs[0].1)] + PairVisits(pairs[1..])
  }

  function RemovalVisits(indices: seq<nat>): seq<Visit> {
    if indices == [] then [] else [Visit(Some(indices[0]), None, indices[0])] + RemovalVisits(indices[1..])
  }

  function AdditionVisits(indices: seq<nat>): seq<Visit> {
    if indices == [] then [] else [Visit(None, Some(indices[0]), indices[0])] + AdditionVisits(indices[1..])
  }

  function EventVisits(p: GreedyMatching.Pairing): seq<Visit> {
    PairVisits(p.pairs) + RemovalVisits(GreedyMatching.Unmatched(p.left, 0)) + AdditionVisits(GreedyMatching.Unmatched(p.right, 0))
  }

  /** Unmatched operations are compared in order, the surplus of either side being removed or added. */
  function LeftoverVisits(lefts: seq<nat>, rights: seq<nat>): seq<Visit> {
    if lefts == [] then AdditionVisits(rights)
    else if rights == [] then RemovalVisits(lefts)
    else [Visit(Some(lefts[0]), Some(rights[0]), rights[0])] + LeftoverVisits(lefts[1..], rights[1..])
  }

  function OperationVisits(p: GreedyMatching.Pairing): seq<Visit> {
    LeftoverVisits(GreedyMatching.Unmatched(p.left, 0), GreedyMatching.Unmatched(p.right, 0))
  }

  const MAX_ALIGNMENT_CELLS := 0x10_0000

  /** Alignment is requested, both lists have elements and the table is not too large. */
  predicate UsesAlignment(m: nat, n: nat, o: Options) {
    o.alignLists && m > 0 && n > 0 && m <= MAX_ALIGNMENT_CELLS / n
  }

  function ListVisits(ls: seq<Node>, rs: seq<Node>, o: Options): seq<Visit> {
    if UsesAlignment(|ls|, |rs|, o) then EditVisits(Alignment.Script(ls, rs, Same(o.judge), 0, 0))
    else PositionalVisits(|ls|, |rs|, 0)
  }

  // ---------------------------------------------------------------- ordering by position

  datatype Positioned = Positioned(pos: nat, change: Change)

  function ReorderChange(m: (nat, nat), path: string): Change {
    Change(At(path, m.1), Reordered, Num(m.0), Num(m.1), "index " + Itoa(m.0), "index " + Itoa(m.1))
  }

  function Reorders(moved: seq<(nat, nat)>, path: string): seq<Positioned> {
    if moved == [] then [] else [Positioned(moved[0].1, ReorderChange(moved[0], path))] + Reorders(moved[1..], path)
  }

  function PositionAll(pos: nat, changes: seq<Change>): seq<Positioned> {
    if changes == [] then [] else [Positioned(pos, changes[0])] + PositionAll(pos, changes[1..])
  }

  function ChangesAt(indexed: seq<Positioned>, pos: nat): seq<Change> {
    if indexed == [] then []
    else (if indexed[0].pos == pos then [indexed[0].change] else []) + ChangesAt(indexed[1..], pos)
  }

  /** The stable sort by position: every change at 0 in its order, then those at 1, and so on below `bound`. */
  function StableByPosition(indexed: seq<Positioned>, bound: nat): seq<Change> {
    if bound == 0 then [] else StableByPosition(indexed, bound - 1) + ChangesAt(indexed, bound - 1)
  }

  function Longer(m: nat, n: nat): nat {
    if m > n then m else n
  }

  // ---------------------------------------------------------------- the walk

  function AddedChange(b: Node, path: string): Change {
    Change(path, Added, Nil, LeafValue(b), "", b.note)
  }

  function RemovedChange(a: Node, path: string): Change {
    Change(path, Removed, LeafValue(a), Nil, a.note, "")
  }

  /** Every change between two nodes at `path`, either of which may be absent. */
  function DiffNodes(a: Option<Node>, b: Option<Node>, path: string, o: Options): seq<Change>
    decreases SizeOpt(a) + SizeOpt(b), 1, 0
  {
    if Masked(path, o) then []
    else match (a, b)
      case (None, None) => []
      case (None, Some(y)) => [AddedChange(y, path)]
      case (Some(x), None) => [RemovedChange(x, path)]
      case (Some(x), Some(y)) => DiffPair(x, y, path, o)
  }

  function DiffPair(a: Node, b: Node, path: string, o: Options): seq<Change>
    decreases Size(a) + Size(b), 0, 0
  {
    if !SameKind(a, b) then
      if o.judge.binaryEqual(a, b) then [] else [Change(path, TypeChanged, LeafValue(a), LeafValue(b), a.note, b.note)]
    else match a
      case Scalar(_, _, _, value) =>
        if o.judge.sameScalar(a, b) then [] else [Change(path, Modified, value, b.value, a.note, b.note)]
      case List(_, _, _, _) => DiffLists(a, b, path, o)
      case Struct(_, _, _, _) => DiffStructs(a, b, path, o)
  }

  function DiffStructs(a: Node, b: Node, path: string, o: Options): seq<Change>
    requires a.Struct? && b.Struct?
    decreases SizeAll(a.children) + SizeAll(b.children) + 1, 4, 0
  {
    if IsMemoStruct(a, b) then
      var left, right := MemoArm(a.children), MemoArm(b.children);
      if left.0 != right.0 && MemoEquivalent(left, right, o.judge) then [MemoChange(left, right, path)]
      else DiffFields(a, b, path, o)
    else if IsLedgerEntryStruct(a, b) then
      var details := DiffFields(a, b, path, o);
      LedgerHeader(a, b, path, details, o.judge) + details
    else DiffFields(a, b, path, o)
  }

  /** Field by field in the left order, then the fields only the right side has. */
  function DiffFields(a: Node, b: Node, path: string, o: Options): seq<Change>
    requires a.Struct? && b.Struct?
    decreases SizeAll(a.children) + SizeAll(b.children) + 1, 3, 0
  {
    LeftFields(a.children, b, path, o) + RightFields(b.children, a, path, o)
  }

  function LeftField(field: Node, b: Node, path: string, o: Options): seq<Change>
    requires b.Struct?
    decreases Size(field) + SizeAll(b.children) + 1, 1, 1
  {
    DiffNodes(Some(field), Child(b, field.name), Join(path, field.name), o)
  }

  function LeftFields(fields: seq<Node>, b: Node, path: string, o: Options): seq<Change>
    requires b.Struct?
    decreases SizeAll(fields) + SizeAll(b.children) + 1, 2, |fields|
  {
    if fields == [] then [] else LeftField(fields[0], b, path, o) + LeftFields(fields[1..], b, path, o)
  }

  /** A field the left side has too was already compared with it. */
  function RightField(field: Node, a: Node, path: string, o: Options): seq<Change>
    decreases Size(field), 1, 1
  {
    if Child(a, field.name).Some? then [] else DiffNodes(None, Some(field), Join(path, field.name), o)
  }

  function RightFields(fields: seq<Node>, a: Node, path: string, o: Options): seq<Change>
    decreases SizeAll(fields), 2, |fields|
  {
    if fields == [] then [] else RightField(fields[0], a, path, o) + RightFields(fields[1..], a, path, o)
  }

  function DiffLists(a: Node, b: Node, path: string, o: Options): seq<Change>
    requires a.List? && b.List?
    decreases SizeAll(a.children) + SizeAll(b.children) + 1, 3, 0
  {
    var name := CollectionName(path, a, b);
    if o.unorderedSigners && IsSignerCollection(name) then DiffMultisets(a.children, b.children, path, o)
    else if IsOperationCollection(name) then DiffOperations(a.children, b.children, path, o)
    else if IsEventCollection(name, a, b) then
      VisitAll(EventVisits(PairEvents(MetasOf(a.children, o.judge), MetasOf(b.children, o.judge))), a.children, b.children, path, o)
    else VisitAll(ListVisits(a.children, b.children, o), a.children, b.children, path, o)
  }

  /** The changes of the visits, one after the other. */
  function VisitAll(visits: seq<Visit>, ls: seq<Node>, rs: seq<Node>, path: string, o: Options): seq<Change>
    decreases SizeAll(ls) + SizeAll(rs), 2, |visits|
  {
    if visits == [] then [] else VisitOne(visits[0], ls, rs, path, o) + VisitAll(visits[1..], ls, rs, path, o)
  }

  /** The changes of the visits, each tagged with the index its visit is reported at. */
  function VisitTagged(visits: seq<Visit>, ls: seq<Node>, rs: seq<Node>, path: string, o: Options): seq<Positioned>
    decreases SizeAll(ls) + SizeAll(rs), 2, |visits|
  {
    if visits == [] then []
    else PositionAll(visits[0].at, VisitOne(visits[0], ls, rs, path, o)) + VisitTagged(visits[1..], ls, rs, path, o)
  }

  function Picked(ns: seq<Node>, i: Option<nat>): (r: Option<Node>)
    ensures SizeOpt(r) <= SizeAll(ns)
  {
    if i.Some? then Nth(ns, i.value) else None
  }

  function VisitOne(v: Visit, ls: seq<Node>, rs: seq<Node>, path: string, o: Options): seq<Change>
    decreases SizeAll(ls) + SizeAll(rs), 1, 1
  {
    DiffNodes(Picked(ls, v.left), Picked(rs, v.right), At(path, v.at), o)
  }

  function DiffOperations(ls: seq<Node>, rs: seq<Node>, path: string, o: Options): seq<Change>
    decreases SizeAll(ls) + SizeAll(rs), 3, 0
  {
    var p := GreedyMatching.Matched(ls, rs, Same(o.judge));
    StableByPosition(Reorders(p.pairs, path) + VisitTagged(OperationVisits(p), ls, rs, path, o), Longer(|ls|, |rs|))
  }

  function ItemsOf(ns: seq<Node>, j: Judge): seq<SignerDiff.Item> {
    if ns == [] then [] else [SignerDiff.Item(j.nodeKey(ns[0]), j.nodeLabel(ns[0]))] + ItemsOf(ns[1..], j)
  }

  function Removals(texts: seq<string>, path: string): seq<Change> {
    if texts == [] then [] else [Change(path, Removed, Str(texts[0]), Nil, "", "")] + Removals(texts[1..], path)
  }

  function Additions(texts: seq<string>, path: string): seq<Change> {
    if texts == [] then [] else [Change(path, Added, Nil, Str(texts[0]), "", "")] + Additions(texts[1..], path)
  }

  function DiffMultisets(ls: seq<Node>, rs: seq<Node>, path: string, o: Options): seq<Change> {
    var d := SignerDiff.Diff(ItemsOf(ls, o.judge), ItemsOf(rs, o.judge));
    Removals(d.removed, path) + Additions(d.added, path)
  }

  predicate Equal(changes: seq<Change>) {
    changes == []
  }
}
