/** Memos, ledger entries and named lists: which comparison they get, and what it reports, spelled out. */
module SpecialNodes {
  import opened Text
  import opened Tree
  import opened Changes
  import opened StructuralDiff
  import Alignment

  // ---------------------------------------------------------------- memos

  predicate IsArm(n: Node) {
    n.Scalar? && n.value != Nil && n.name in {"Text", "Id", "Hash", "Return", "HashX"}
  }

  /** The first arm that carries a value. */
  ghost predicate ActiveArm(fields: seq<Node>, i: int): (r: bool)
    ensures r ==> 0 <= i < |fields| && fields[i].Scalar?
  {
    0 <= i < |fields| && IsArm(fields[i]) && forall k :: 0 <= k < i ==> !IsArm(fields[k])
  }

  lemma {:induction false} ActiveArmIsFound(fields: seq<Node>, i: int)
    requires ActiveArm(fields, i)
    ensures MemoArm(fields) == (fields[i].name, fields[i].value)
  {
    if i > 0 {
      assert !IsArm(fields[0]);
      assert forall k :: 0 <= k < i - 1 ==> !IsArm(fields[1..][k]) by {
        assert forall k :: 0 <= k < i - 1 ==> fields[1..][k] == fields[k + 1];
      }
      ActiveArmIsFound(fields[1..], i - 1);
    }
  }

  lemma {:induction false} ArmIsActive(fields: seq<Node>) returns (i: nat)
    requires MemoArm(fields).0 != "None"
    ensures ActiveArm(fields, i)
  {
    if IsArm(fields[0]) {
      i := 0;
    } else {
      var k := ArmIsActive(fields[1..]);
      i := k + 1;
      assert fields[i] == fields[1..][k];
      assert forall m :: 0 < m < i ==> fields[m] == fields[1..][m - 1];
    }
  }

  /** The active arm of one memo is a text and that of the other the number it spells. */
  ghost predicate Switched(a: Node, b: Node, i: int, k: int, j: Judge)
    requires a.Struct? && b.Struct?
  {
    ActiveArm(a.children, i) && ActiveArm(b.children, k)
    && ((a.children[i].name == "Text" && b.children[k].name == "Id" && j.textIsId(a.children[i].value, b.children[k].value))
        || (a.children[i].name == "Id" && b.children[k].name == "Text" && j.textIsId(b.children[k].value, a.children[i].value)))
  }

  /** A memo that switched between a text and the number it spells is one change; every other one is compared by fields. */
  lemma MemosAreCompared(a: Node, b: Node, path: string, o: Options)
    requires a.Struct? && b.Struct? && a.typeName == "Memo" && b.typeName == "Memo"
    ensures forall i, k :: Switched(a, b, i, k, o.judge) ==>
              var x, y := a.children[i], b.children[k];
              DiffStructs(a, b, path, o)
              == [Change(path, Modified, x.value, y.value,
                         x.name + " (semantically equivalent to " + y.name + ")", y.name + " (semantically equivalent to " + x.name + ")")]
    ensures (forall i, k :: !Switched(a, b, i, k, o.judge)) ==> DiffStructs(a, b, path, o) == DiffFields(a, b, path, o)
  {
    hide DiffFields, MemoArm, ActiveArm;
    forall i, k | Switched(a, b, i, k, o.judge)
      ensures MemoArm(a.children) == (a.children[i].name, a.children[i].value)
      ensures MemoArm(b.children) == (b.children[k].name, b.children[k].value)
    {
      ActiveArmIsFound(a.children, i);
      ActiveArmIsFound(b.children, k);
    }
    if MemoEquivalent(MemoArm(a.children), MemoArm(b.children), o.judge) {
      var i := ArmIsActive(a.children);
      var k := ArmIsActive(b.children);
      ActiveArmIsFound(a.children, i);
      ActiveArmIsFound(b.children, k);
      assert Switched(a, b, i, k, o.judge);
    }
  }

  // ---------------------------------------------------------------- ledger entries

  /** The entry has a data struct whose type is given. */
  ghost predicate HasData(n: Node) {
    exists i, k :: 0 <= i < |Children(n)| && n.children[i].Struct? && n.children[i].name == "Data"
                   && 0 <= k < |n.children[i].children| && n.children[i].children[k].name == "Type"
                   && n.children[i].children[k].Scalar? && n.children[i].children[k].value != Nil
  }

  lemma DataIsFound(n: Node)
    ensures HasLedgerEntryData(n) <==> HasData(n)
  {
    if HasLedgerEntryData(n) {
      var i :| 0 <= i < |Children(n)| && IsTypedData(Children(n)[i]);
      var d := Children(n)[i];
      var k :| 0 <= k < |d.children| && d.children[k].name == "Type" && ValueOf(d.children[k]) != Nil;
      assert n.children[i] == d && d.children[k].Scalar?;
    }
    if HasData(n) {
      var i, k :| 0 <= i < |Children(n)| && n.children[i].Struct? && n.children[i].name == "Data"
                  && 0 <= k < |n.children[i].children| && n.children[i].children[k].name == "Type"
                  && n.children[i].children[k].Scalar? && n.children[i].children[k].value != Nil;
      assert ValueOf(n.children[i].children[k]) != Nil;
      assert IsTypedData(Children(n)[i]);
    }
  }

  /** What happened to an entry, by whether either side has data. */
  ghost predicate IsTransition(a: Node, b: Node, t: string) {
    (t == "CREATED" && !HasData(a) && HasData(b)) || (t == "DELETED" && HasData(a) && !HasData(b))
    || (t == "UPDATED" && HasData(a) && HasData(b)) || (t == "UNKNOWN" && !HasData(a) && !HasData(b))
  }

  lemma TransitionIsClassified(a: Node, b: Node)
    ensures IsTransition(a, b, Transition(a, b))
    ensures forall t :: IsTransition(a, b, t) ==> t == Transition(a, b)
  {
    hide HasLedgerEntryData, HasData;
    DataIsFound(a);
    DataIsFound(b);
  }

  /**
   The changes of a ledger entry follow a header that names the transition, and the entry's key where key and
   type are known. An entry that both sides have, or neither, and whose fields are silent gets none.
   */
  lemma LedgerEntriesAreAnnounced(a: Node, b: Node, t: string, path: string, o: Options)
    requires a.Struct? && b.Struct? && a.typeName == "LedgerEntry" && b.typeName == "LedgerEntry" && IsTransition(a, b, t)
    ensures var fields, key, kind := DiffFields(a, b, path, o), o.judge.ledgerKey(a), o.judge.ledgerEntryType(a);
            var header := Change(path, Modified, Str(t), Str(t), "LedgerEntry transition: " + t, "LedgerEntry transition: " + t);
            var about := Change(path + ".LedgerKey", Modified, Str(key), Str(key), kind + " (" + key + ")", kind + " (" + key + ")");
            DiffStructs(a, b, path, o) ==
            if fields == [] && (HasData(a) <==> HasData(b)) then []
            else if key == "" || kind == "" then [header] + fields
            else [header, about] + fields
  {
    hide HasData, Transition, DiffFields;
    TransitionIsClassified(a, b);
  }

  // ---------------------------------------------------------------- named lists

  lemma OwnNameIsUsed(path: string, a: Node, b: Node)
    ensures a.name != "" ==> CollectionName(path, a, b) == a.name
    ensures a.name == "" && b.name != "" ==> CollectionName(path, a, b) == b.name
  {
  }

  /** An anonymous list goes by the last name on its path. */
  lemma PathNamesTheList(path: string, name: string, a: Node, b: Node)
    requires a.name == "" && b.name == "" && CleanName(name)
    ensures CollectionName(Join(path, name), a, b) == name
  {
    hide SegsOf, Join;
    LastNameJoin(path, name);
    NameAtEnd(Join(path, name), a, b);
  }

  lemma NameAtEnd(path: string, a: Node, b: Node)
    requires a.name == "" && b.name == ""
    ensures CollectionName(path, a, b) == LastName(SegsOf(path))
  {
  }

  /** An element that shows that its list is one of events. */
  predicate MarksEvents(n: Node) {
    n.typeName == "ContractEvent" || n.typeName == "DiagnosticEvent" || Child(n, "ContractId") != None || Child(n, "Event") != None
  }

  predicate StartsWithEvent(n: Node) {
    |Children(n)| > 0 && MarksEvents(Children(n)[0])
  }

  /**
   Which comparison a list gets: signers as a multiset if that is asked for, operations by matching, events by
   pairing, and every other list position by position or, if that is asked for and its table fits, aligned.
   */
  lemma ListsAreCompared(a: Node, b: Node, path: string, o: Options)
    requires a.List? && b.List?
    ensures var name, ls, rs, all := CollectionName(path, a, b), a.children, b.children, DiffLists(a, b, path, o);
            if o.unorderedSigners && (name == "Signatures" || name == "Signers" || name == "ExtraSigners") then all == DiffMultisets(ls, rs, path, o)
            else if name == "Operations" then all == DiffOperations(ls, rs, path, o)
            else if name == "Events" || name == "DiagnosticEvents" || StartsWithEvent(a) || StartsWithEvent(b) then
              all == VisitAll(EventVisits(PairEvents(MetasOf(ls, o.judge), MetasOf(rs, o.judge))), ls, rs, path, o)
            else if o.alignLists && ls != [] && rs != [] && |ls| * |rs| <= 0x10_0000 then
              all == VisitAll(EditVisits(Alignment.Script(ls, rs, Same(o.judge), 0, 0)), ls, rs, path, o)
            else all == VisitAll(PositionalVisits(|ls|, |rs|, 0), ls, rs, path, o)
  {
    hide CollectionName, DiffMultisets, DiffOperations, VisitAll, EventVisits, PairEvents, MetasOf, EditVisits, PositionalVisits;
    if a.children != [] && b.children != [] {
      TableFits(|a.children|, |b.children|);
    }
  }

  lemma TableFits(m: nat, n: nat)
    requires m > 0 && n > 0
    ensures m <= MAX_ALIGNMENT_CELLS / n <==> m * n <= 0x10_0000
  {
    var q := MAX_ALIGNMENT_CELLS / n;
    assert q * n <= MAX_ALIGNMENT_CELLS < (q + 1) * n;
    if m <= q {
      assert m * n <= q * n;
    } else {
      assert m * n >= (q + 1) * n;
    }
  }
}
