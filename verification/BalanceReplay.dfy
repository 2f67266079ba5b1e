/** Balance deltas derived by replaying the ledger-entry changes of a transaction. */
module BalanceReplay {

  const MIN_INT64: int := -0x8000_0000_0000_0000
  const MAX_INT64: int := 0x7fff_ffff_ffff_ffff

  predicate IsInt64(n: int) {
    MIN_INT64 <= n <= MAX_INT64
  }

  datatype Error = BadEntry | ArmMissing | UnknownType | IdentityChanged | Overflow

  datatype Outcome<+T> = Done(value: T) | Failed(error: Error)

  datatype Balance = Balance(holder: string, asset: string, amount: int)

  /** What a ledger entry holds: a balance, something without one, or a malformed arm. */
  datatype Data = Tracked(balance: Balance) | Untracked | Malformed

  datatype LedgerEntry = LedgerEntry(key: string, data: Data)

  /** A ledger-entry change; `NoArm` lacks the arm its type calls for, `OtherType` has an unknown type. */
  datatype LedgerChange =
    | State(entry: LedgerEntry)
    | Created(entry: LedgerEntry)
    | Updated(entry: LedgerEntry)
    | Restored(entry: LedgerEntry)
    | Removed(key: string)
    | NoArm
    | OtherType

  /** What is known of one entry's balance before and after. */
  datatype Builder = Builder(entryKey: string, holder: string, asset: string, before: int, after: int, beforeKnown: bool, afterKnown: bool)

  datatype BalanceDelta = BalanceDelta(entryKey: string, holder: string, asset: string, before: int, after: int, delta: int, beforeKnown: bool, afterKnown: bool)

  // ---------------------------------------------------------------- one change

  function KeyOf(c: LedgerChange): string
    requires !c.NoArm? && !c.OtherType?
  {
    if c.Removed? then c.key else c.entry.key
  }

  /** The state machine of one entry. */
  function Advance(b: Builder, c: LedgerChange): Builder
    requires c.Removed? || (!c.NoArm? && !c.OtherType? && c.entry.data.Tracked?)
  {
    match c
    case State(e) => if b.beforeKnown then b else b.(before := e.data.balance.amount, beforeKnown := true)
    case Created(e) =>
      (if b.beforeKnown then b else b.(before := 0, beforeKnown := true)).(after := e.data.balance.amount, afterKnown := true)
    case Updated(e) => b.(after := e.data.balance.amount, afterKnown := true)
    case Restored(e) => b.(after := e.data.balance.amount, afterKnown := true)
    case Removed(_) => b.(after := 0, afterKnown := true)
  }

  function NewBuilder(key: string, balance: Balance): Builder {
    Builder(key, balance.holder, balance.asset, 0, 0, false, false)
  }

  function Apply(bs: map<string, Builder>, c: LedgerChange): Outcome<map<string, Builder>> {
    if c.OtherType? then Failed(UnknownType)
    else if c.NoArm? then Failed(ArmMissing)
    else if c.Removed? then if c.key in bs then Done(bs[c.key := Advance(bs[c.key], c)]) else Done(bs)
    else match c.entry.data
      case Malformed => Failed(BadEntry)
      case Untracked => Done(bs)
      case Tracked(balance) =>
        var b := if c.entry.key in bs then bs[c.entry.key] else NewBuilder(c.entry.key, balance);
        if b.holder != balance.holder || b.asset != balance.asset then Failed(IdentityChanged)
        else Done(bs[c.entry.key := Advance(b, c)])
  }

  function ApplyAll(bs: map<string, Builder>, cs: seq<LedgerChange>): Outcome<map<string, Builder>>
    decreases |cs|
  {
    if cs == [] then Done(bs)
    else
      var r := Apply(bs, cs[0]);
      if r.Failed? then r else ApplyAll(r.value, cs[1..])
  }

  // ---------------------------------------------------------------- the summary

  function DeltaOf(b: Builder): BalanceDelta {
    BalanceDelta(b.entryKey, b.holder, b.asset, b.before, b.after, if b.beforeKnown then b.after - b.before else 0, b.beforeKnown, true)
  }

  /** The guard that rejects a difference before it is computed. */
  predicate Overflows(b: Builder) {
    b.afterKnown && b.beforeKnown &&
    ((b.before < 0 && b.after > MAX_INT64 + b.before) || (b.before > 0 && b.after < MIN_INT64 + b.before))
  }

  predicate Reported(b: Builder) {
    b.afterKnown && !(b.beforeKnown && b.after - b.before == 0)
  }

  predicate TextLess(a: string, b: string) {
    b != "" && (a == "" || a[0] < b[0] || (a[0] == b[0] && TextLess(a[1..], b[1..])))
  }

  predicate Before(x: BalanceDelta, y: BalanceDelta) {
    if x.holder != y.holder then TextLess(x.holder, y.holder)
    else if x.asset != y.asset then TextLess(x.asset, y.asset)
    else TextLess(x.entryKey, y.entryKey)
  }

  /** Each delta comes strictly before all later ones. */
  ghost predicate Sorted(ds: seq<BalanceDelta>) {
    forall i, j :: 0 <= i < j < |ds| ==> Before(ds[i], ds[j])
  }

  /** The deltas are those of the reported builders, sorted. */
  ghost predicate Summarizes(ds: seq<BalanceDelta>, bs: map<string, Builder>) {
    Sorted(ds)
    && (forall i :: 0 <= i < |ds| ==> ds[i].entryKey in bs && Reported(bs[ds[i].entryKey]) && ds[i] == DeltaOf(bs[ds[i].entryKey]))
    && forall k :: k in bs && Reported(bs[k]) ==> DeltaOf(bs[k]) in ds
  }

  /** Every builder is filed under its own key. */
  ghost predicate Filed(bs: map<string, Builder>) {
    forall k :: k in bs ==> bs[k].entryKey == k
  }

  lemma {:induction false} TextLessTotal(a: string, b: string)
    requires a != b
    ensures TextLess(a, b) != TextLess(b, a)
  {
    if a != "" && b != "" && a[0] == b[0] {
      assert a == [a[0]] + a[1..] && b == [b[0]] + b[1..];
      TextLessTotal(a[1..], b[1..]);
    }
  }

  lemma {:induction false} TextLessIrreflexive(a: string)
    ensures !TextLess(a, a)
  {
    if a != "" {
      TextLessIrreflexive(a[1..]);
    }
  }

  lemma {:induction false} TextLessTransitive(a: string, b: string, c: string)
    requires TextLess(a, b) && TextLess(b, c)
    ensures TextLess(a, c)
  {
    if a != "" && a[0] == b[0] == c[0] {
      TextLessTransitive(a[1..], b[1..], c[1..]);
    }
  }

  lemma BeforeTransitive(x: BalanceDelta, y: BalanceDelta, z: BalanceDelta)
    requires Before(x, y) && Before(y, z)
    ensures Before(x, z)
  {
    hide TextLess;
    TextLessIrreflexive(x.holder);
    TextLessIrreflexive(x.asset);
    TextLessIrreflexive(x.entryKey);
    if x.holder != y.holder && y.holder != z.holder {
      TextLessTransitive(x.holder, y.holder, z.holder);
    } else if x.holder == y.holder == z.holder {
      if x.asset != y.asset && y.asset != z.asset {
        TextLessTransitive(x.asset, y.asset, z.asset);
      } else if x.asset == y.asset == z.asset {
        TextLessTransitive(x.entryKey, y.entryKey, z.entryKey);
      }
    }
  }

  lemma BeforeTotal(x: BalanceDelta, y: BalanceDelta)
    requires x.entryKey != y.entryKey
    ensures Before(x, y) != Before(y, x)
  {
    hide TextLess;
    if x.holder != y.holder {
      TextLessTotal(x.holder, y.holder);
    } else if x.asset != y.asset {
      TextLessTotal(x.asset, y.asset);
    } else {
      TextLessTotal(x.entryKey, y.entryKey);
    }
  }

  // ---------------------------------------------------------------- as it is carried out

  class BalanceDeltaBuilder {
    var entryKey: string
    var holder: string
    var asset: string
    var before: int
    var after: int
    var beforeKnown: bool
    var afterKnown: bool

    function View(): Builder
      reads this
    {
      Builder(entryKey, holder, asset, before, after, beforeKnown, afterKnown)
    }

    constructor (key: string, balance: Balance)
      ensures View() == NewBuilder(key, balance)
    {
      entryKey, holder, asset := key, balance.holder, balance.asset;
      before, after, beforeKnown, afterKnown := 0, 0, false, false;
    }

    method Record(c: LedgerChange)
      requires c.Removed? || (!c.NoArm? && !c.OtherType? && c.entry.data.Tracked?)
      modifies this
      ensures View() == Advance(old(View()), c)
    {
      match c {
        case State(e) =>
          if !beforeKnown {
            before := e.data.balance.amount;
            beforeKnown := true;
          }
        case Created(e) =>
          if !beforeKnown {
            before := 0;
            beforeKnown := true;
          }
          after := e.data.balance.amount;
          afterKnown := true;
        case Updated(e) =>
          after := e.data.balance.amount;
          afterKnown := true;
        case Restored(e) =>
          after := e.data.balance.amount;
          afterKnown := true;
        case Removed(_) =>
          after := 0;
          afterKnown := true;
      }
    }
  }

  /** The builders of a replay, each an object of its own. */
  class Replay {
    var builders: map<string, BalanceDeltaBuilder>

    ghost predicate Valid()
      reads this
    {
      forall j, k :: j in builders && k in builders && j != k ==> builders[j] != builders[k]
    }

    function Contents(): map<string, Builder>
      reads this, builders.Values
    {
      map k | k in builders :: builders[k].View()
    }

    constructor ()
      ensures Valid() && Contents() == map[] && builders == map[]
    {
      builders := map[];
    }

    /** One builder records a change; no other builder is affected. */
    method RecordAt(key: string, c: LedgerChange)
      requires Valid() && key in builders
      requires c.Removed? || (!c.NoArm? && !c.OtherType? && c.entry.data.Tracked?)
      modifies builders.Values
      ensures Valid() && builders == old(builders)
      ensures Contents() == old(Contents())[key := Advance(old(Contents())[key], c)]
    {
      hide Advance;
      builders[key].Record(c);
    }

    method Open(key: string, balance: Balance)
      requires Valid() && key !in builders
      modifies this
      ensures Valid() && builders.Keys == old(builders.Keys) + {key} && fresh(builders.Values - old(builders.Values))
      ensures Contents() == old(Contents())[key := NewBuilder(key, balance)]
    {
      var builder := new BalanceDeltaBuilder(key, balance);
      builders := builders[key := builder];
      assert builders.Values <= old(builders.Values) + {builder};
    }

    method OpenWith(key: string, c: LedgerChange)
      requires Valid() && key !in builders && !c.Removed? && !c.NoArm? && !c.OtherType? && c.entry.data.Tracked?
      modifies this, builders.Values
      ensures Valid() && fresh(builders.Values - old(builders.Values))
      ensures Contents() == old(Contents())[key := Advance(NewBuilder(key, c.entry.data.balance), c)]
    {
      hide Advance, NewBuilder;
      Open(key, c.entry.data.balance);
      RecordAt(key, c);
    }

    method ApplyBalance(c: LedgerChange) returns (failure: Outcome<()>)
      requires Valid() && !c.Removed? && !c.NoArm? && !c.OtherType? && c.entry.data.Tracked?
      modifies this, builders.Values
      ensures Valid() && fresh(builders.Values - old(builders.Values))
      ensures failure.Done? ==> Apply(old(Contents()), c) == Done(Contents())
      ensures failure.Failed? ==> Apply(old(Contents()), c) == Failed(failure.error) && Contents() == old(Contents())
    {
      hide Advance;
      var key, balance := c.entry.key, c.entry.data.balance;
      if key in builders {
        var builder := builders[key];
        if builder.holder != balance.holder || builder.asset != balance.asset {
          return Failed(IdentityChanged);
        }
        RecordAt(key, c);
      } else {
        OpenWith(key, c);
      }
      return Done(());
    }

    method ApplyLedgerEntryChange(c: LedgerChange) returns (failure: Outcome<()>)
      requires Valid()
      modifies this, builders.Values
      ensures Valid() && fresh(builders.Values - old(builders.Values))
      ensures failure.Done? ==> Apply(old(Contents()), c) == Done(Contents())
      ensures failure.Failed? ==> Apply(old(Contents()), c) == Failed(failure.error) && Contents() == old(Contents())
    {
      hide Advance;
      if c.OtherType? {
        return Failed(UnknownType);
      }
      if c.NoArm? {
        return Failed(ArmMissing);
      }
      if c.Removed? {
        if c.key in builders {
          RecordAt(c.key, c);
        }
        return Done(());
      }
      if c.entry.data.Malformed? {
        return Failed(BadEntry);
      }
      if c.entry.data.Untracked? {
        return Done(());
      }
      failure := ApplyBalance(c);
    }

    method Process(cs: seq<LedgerChange>) returns (failure: Outcome<()>)
      requires Valid()
      modifies this, builders.Values
      ensures Valid() && fresh(builders.Values - old(builders.Values))
      ensures failure.Done? ==> ApplyAll(old(Contents()), cs) == Done(Contents())
      ensures failure.Failed? ==> ApplyAll(old(Contents()), cs) == Failed(failure.error)
    {
      hide Apply;
      for i := 0 to |cs|
        invariant Valid() && fresh(builders.Values - old(builders.Values))
        invariant ApplyAll(Contents(), cs[i..]) == ApplyAll(old(Contents()), cs)
      {
        assert cs[i..][1..] == cs[i + 1..];
        var r := ApplyLedgerEntryChange(cs[i]);
        if r.Failed? {
          return r;
        }
      }
      return Done(());
    }

    /** The deltas of all builders, visited in whatever order the map yields them, then sorted. */
    method Summarize() returns (r: Outcome<seq<BalanceDelta>>)
      requires Filed(Contents())
      ensures r.Done? ==> (forall k :: k in Contents() ==> !Overflows(Contents()[k])) && Summarizes(r.value, Contents())
      ensures r.Failed? ==> r.error == Overflow && exists k :: k in Contents() && Overflows(Contents()[k])
    {
      hide Before, Overflows, Reported;
      ghost var bs := Contents();
      var pending := builders.Keys;
      var changes: seq<BalanceDelta> := [];
      while pending != {}
        invariant pending <= bs.Keys && Filed(bs)
        invariant forall k :: k in bs && k !in pending ==> !Overflows(bs[k])
        invariant Summarizes(changes, map k | k in bs && k !in pending :: bs[k])
        decreases pending
      {
        var k :| k in pending;
        var b := builders[k].View();
        ghost var done := map x | x in bs && x !in pending :: bs[x];
        pending := pending - {k};
        ghost var more := map x | x in bs && x !in pending :: bs[x];
        assert more == done[k := bs[k]] && k !in done;
        if Overflows(b) {
          assert k in Contents() && Overflows(Contents()[k]);
          return Failed(Overflow);
        }
        if Reported(b) {
          OneMoreReported(changes, done, k, b);
          changes := Inserted(changes, DeltaOf(b));
        } else {
          OneMoreSilent(changes, done, k, b);
        }
      }
      assert bs == map k | k in bs && k !in pending :: bs[k];
      return Done(changes);
    }
  }

  /** Sorted insertion, standing for the library sort by holder, asset and key. */
  function Inserted(ds: seq<BalanceDelta>, d: BalanceDelta): seq<BalanceDelta> {
    if ds == [] then [d]
    else if Before(ds[0], d) then [ds[0]] + Inserted(ds[1..], d)
    else [d] + ds
  }

  lemma {:induction false} InsertedKeeps(ds: seq<BalanceDelta>, d: BalanceDelta)
    ensures |Inserted(ds, d)| == |ds| + 1
    ensures forall x :: x in Inserted(ds, d) <==> x == d || x in ds
  {
    hide Before;
    if ds != [] && Before(ds[0], d) {
      InsertedKeeps(ds[1..], d);
      assert ds == [ds[0]] + ds[1..];
    }
  }

  lemma {:induction false} InsertedSorted(ds: seq<BalanceDelta>, d: BalanceDelta)
    requires Sorted(ds) && forall i :: 0 <= i < |ds| ==> ds[i].entryKey != d.entryKey
    ensures Sorted(Inserted(ds, d))
  {
    hide Before;
    if ds != [] {
      BeforeTotal(ds[0], d);
      if Before(ds[0], d) {
        var rest := Inserted(ds[1..], d);
        InsertedSorted(ds[1..], d);
        InsertedKeeps(ds[1..], d);
        forall i | 0 <= i < |rest|
          ensures Before(ds[0], rest[i])
        {
          assert rest[i] in rest;
        }
      } else {
        forall i | 0 <= i < |ds|
          ensures Before(d, ds[i])
        {
          if i > 0 {
            BeforeTransitive(d, ds[0], ds[i]);
          }
        }
      }
    }
  }

  lemma OneMoreReported(ds: seq<BalanceDelta>, bs: map<string, Builder>, k: string, b: Builder)
    requires Summarizes(ds, bs) && Filed(bs) && k !in bs && b.entryKey == k && Reported(b)
    ensures Summarizes(Inserted(ds, DeltaOf(b)), bs[k := b])
  {
    hide Before, Reported;
    var d, more := DeltaOf(b), bs[k := b];
    InsertedSorted(ds, d);
    InsertedKeeps(ds, d);
    var es := Inserted(ds, d);
    forall i | 0 <= i < |es|
      ensures es[i].entryKey in more && Reported(more[es[i].entryKey]) && es[i] == DeltaOf(more[es[i].entryKey])
    {
      assert es[i] in es;
    }
  }

  lemma OneMoreSilent(ds: seq<BalanceDelta>, bs: map<string, Builder>, k: string, b: Builder)
    requires Summarizes(ds, bs) && k !in bs && !Reported(b)
    ensures Summarizes(ds, bs[k := b])
  {
  }

  lemma {:induction false} ReplayFiles(bs: map<string, Builder>, cs: seq<LedgerChange>)
    requires Filed(bs)
    ensures ApplyAll(bs, cs).Done? ==> Filed(ApplyAll(bs, cs).value)
    decreases |cs|
  {
    if cs != [] {
      var r := Apply(bs, cs[0]);
      if r.Done? {
        ReplayFiles(r.value, cs[1..]);
      }
    }
  }

  lemma NothingFiled()
    ensures Filed(map[])
  {
  }

  /** What replaying a stream comes to: the first failing change, an overflow, or the summary. */
  ghost predicate Explains(r: Outcome<seq<BalanceDelta>>, cs: seq<LedgerChange>) {
    match ApplyAll(map[], cs)
    case Failed(e) => r == Failed(e)
    case Done(bs) =>
      if exists k :: k in bs && Overflows(bs[k]) then r == Failed(Overflow) else r.Done? && Summarizes(r.value, bs)
  }

  /** The balance changes of a stream of ledger-entry changes. */
  method DiffTransactionMetaBalances(cs: seq<LedgerChange>) returns (r: Outcome<seq<BalanceDelta>>)
    ensures Explains(r, cs)
  {
    hide Overflows, Summarizes, Filed, Apply;
    var replay := new Replay();
    var processed := replay.Process(cs);
    if processed.Failed? {
      return Failed(processed.error);
    }
    NothingFiled();
    ReplayFiles(map[], cs);
    r := replay.Summarize();
  }
}
