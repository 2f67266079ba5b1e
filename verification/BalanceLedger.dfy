/** A ledger of balances, and the replay of honest change streams against it. */
module BalanceLedger {
  import opened BalanceReplay

  /** Who holds which asset in the entry under a key, if the entry carries a balance; the key decides it. */
  datatype Identity = Holds(holder: string, asset: string) | NoBalance

  /** The balances of the entries present. */
  type Ledger = map<string, int>

  function Amount(l: Ledger, k: string): int {
    if k in l then l[k] else 0
  }

  /** A ledger together with the keys the stream has introduced. */
  datatype World = World(ledger: Ledger, seen: set<string>)

  /**
   * A change tells the truth about the ledger: a state shows the current balance, a creation
   * comes only when the entry is absent, and an entry is rewritten or removed only while
   * present and after the stream introduced it. Entries without a balance come and go freely.
   */
  predicate Truthful(w: World, c: LedgerChange, ids: string -> Identity) {
    match c
    case NoArm => false
    case OtherType => false
    case Removed(key) => if ids(key).NoBalance? then key !in w.ledger else key in w.ledger && key in w.seen
    case _ =>
      match c.entry.data
      case Malformed => false
      case Untracked => ids(c.entry.key).NoBalance?
      case Tracked(b) =>
        ids(c.entry.key) == Holds(b.holder, b.asset) && IsInt64(b.amount) &&
        match c
        case State(e) => e.key in w.ledger && w.ledger[e.key] == b.amount
        case Created(e) => e.key !in w.ledger
        case _ => c.entry.key in w.ledger && c.entry.key in w.seen
  }

  function Step(w: World, c: LedgerChange): World {
    match c
    case NoArm => w
    case OtherType => w
    case Removed(key) => World(w.ledger - {key}, w.seen)
    case State(e) => if e.data.Tracked? then World(w.ledger, w.seen + {e.key}) else w
    case _ =>
      if c.entry.data.Tracked? then World(w.ledger[c.entry.key := c.entry.data.balance.amount], w.seen + {c.entry.key}) else w
  }

  predicate Honest(w: World, cs: seq<LedgerChange>, ids: string -> Identity)
    decreases |cs|
  {
    cs == [] || (Truthful(w, cs[0], ids) && Honest(Step(w, cs[0]), cs[1..], ids))
  }

  function Run(w: World, cs: seq<LedgerChange>): World
    decreases |cs|
  {
    if cs == [] then w else Run(Step(w, cs[0]), cs[1..])
  }

  // ---------------------------------------------------------------- the builders follow the ledger

  /** One builder knows the balance its key had at the start and, once it was written, the one it has now. */
  predicate Follows(b: Builder, k: string, start: Ledger, now: Ledger, ids: string -> Identity) {
    b.entryKey == k && ids(k) == Holds(b.holder, b.asset)
    && b.beforeKnown && b.before == Amount(start, k) && IsInt64(b.before)
    && if b.afterKnown then b.after == Amount(now, k) && IsInt64(b.after) else Amount(now, k) == Amount(start, k)
  }

  ghost predicate Mirrors(bs: map<string, Builder>, start: Ledger, w: World, ids: string -> Identity) {
    bs.Keys == w.seen
    && (forall k :: k in bs ==> Follows(bs[k], k, start, w.ledger, ids))
    && forall k :: k !in w.seen ==> Amount(w.ledger, k) == Amount(start, k)
  }

  /** The key a change writes in the ledger of balances, if it writes one. */
  predicate Concerns(c: LedgerChange, k: string) {
    (c.Removed? && c.key == k) || (!c.Removed? && !c.NoArm? && !c.OtherType? && c.entry.key == k && c.entry.data.Tracked?)
  }

  lemma OthersStay(w: World, c: LedgerChange, k: string)
    requires !Concerns(c, k)
    ensures Amount(Step(w, c).ledger, k) == Amount(w.ledger, k) && (k in Step(w, c).seen <==> k in w.seen)
  {
  }

  lemma OthersFollow(b: Builder, k: string, start: Ledger, w: World, c: LedgerChange, ids: string -> Identity)
    requires !Concerns(c, k) && Follows(b, k, start, w.ledger, ids)
    ensures Follows(b, k, start, Step(w, c).ledger, ids)
  {
    OthersStay(w, c, k);
  }

  lemma AbsentStays(w: World, k: string)
    requires k !in w.ledger
    ensures forall x :: Amount(w.ledger - {k}, x) == Amount(w.ledger, x)
  {
  }

  lemma NothingMirrors(start: Ledger, ids: string -> Identity)
    ensures Mirrors(map[], start, World(start, {}), ids)
  {
  }

  lemma ZeroFits()
    ensures IsInt64(0)
  {
  }

  lemma AdvanceFollows(b: Builder, k: string, start: Ledger, w: World, c: LedgerChange, ids: string -> Identity)
    requires Follows(b, k, start, w.ledger, ids) && Truthful(w, c, ids) && Concerns(c, k)
    ensures Follows(Advance(b, c), k, start, Step(w, c).ledger, ids)
    ensures !c.Removed? ==> b.holder == c.entry.data.balance.holder && b.asset == c.entry.data.balance.asset
  {
  }

  lemma OpenFollows(k: string, start: Ledger, w: World, c: LedgerChange, ids: string -> Identity)
    requires Truthful(w, c, ids) && Concerns(c, k) && !c.Removed? && k !in w.seen && Amount(w.ledger, k) == Amount(start, k)
    ensures Follows(Advance(NewBuilder(k, c.entry.data.balance), c), k, start, Step(w, c).ledger, ids)
  {
  }

  lemma StepMirrors(bs: map<string, Builder>, start: Ledger, w: World, c: LedgerChange, ids: string -> Identity)
    requires Mirrors(bs, start, w, ids) && Truthful(w, c, ids)
    ensures Apply(bs, c).Done? && Mirrors(Apply(bs, c).value, start, Step(w, c), ids)
  {
    hide Amount, Advance, Follows;
    forall k, b | !Concerns(c, k) && Follows(b, k, start, w.ledger, ids)
      ensures Follows(b, k, start, Step(w, c).ledger, ids)
    {
      OthersFollow(b, k, start, w, c, ids);
    }
    forall k | !Concerns(c, k)
      ensures Amount(Step(w, c).ledger, k) == Amount(w.ledger, k) && (k in Step(w, c).seen <==> k in w.seen)
    {
      OthersStay(w, c, k);
    }
    var k := KeyOf(c);
    if Concerns(c, k) {
      if k in bs {
        AdvanceFollows(bs[k], k, start, w, c, ids);
      } else if !c.Removed? {
        OpenFollows(k, start, w, c, ids);
      } else {
        AbsentStays(w, k);
      }
    }
  }

  /** Every run keeps the builders in step with the ledger. */
  lemma {:induction false} RunMirrors(bs: map<string, Builder>, start: Ledger, w: World, cs: seq<LedgerChange>, ids: string -> Identity)
    requires Mirrors(bs, start, w, ids) && Honest(w, cs, ids)
    ensures ApplyAll(bs, cs).Done? && Mirrors(ApplyAll(bs, cs).value, start, Run(w, cs), ids)
    decreases |cs|
  {
    hide Apply, Truthful, Mirrors, Step;
    if cs != [] {
      StepMirrors(bs, start, w, cs[0], ids);
      RunMirrors(Apply(bs, cs[0]).value, start, Step(w, cs[0]), cs[1..], ids);
    }
  }

  // ---------------------------------------------------------------- the summary is the difference of two ledgers

  /** A delta tells exactly what became of one entry between two ledgers. */
  predicate Tells(d: BalanceDelta, start: Ledger, finish: Ledger, ids: string -> Identity) {
    var k := d.entryKey;
    d == BalanceDelta(k, d.holder, d.asset, Amount(start, k), Amount(finish, k), Amount(finish, k) - Amount(start, k), true, true)
    && ids(k) == Holds(d.holder, d.asset) && d.delta != 0
  }

  /** Every change of balance is told, each by one delta, in strict order of holder, asset and key. */
  ghost predicate IsDifference(ds: seq<BalanceDelta>, start: Ledger, finish: Ledger, ids: string -> Identity) {
    Sorted(ds)
    && (forall i :: 0 <= i < |ds| ==> Tells(ds[i], start, finish, ids))
    && (forall i, j :: 0 <= i < j < |ds| ==> ds[i].entryKey != ds[j].entryKey)
    && forall k :: Amount(finish, k) != Amount(start, k) ==> exists i :: 0 <= i < |ds| && ds[i].entryKey == k
  }

  lemma OverflowsIffOutside(b: Builder, k: string, start: Ledger, now: Ledger, ids: string -> Identity)
    requires Follows(b, k, start, now, ids)
    ensures Overflows(b) <==> !IsInt64(Amount(now, k) - Amount(start, k))
  {
  }

  lemma OverflowIsExact(bs: map<string, Builder>, start: Ledger, w: World, ids: string -> Identity)
    requires Mirrors(bs, start, w, ids)
    ensures (exists k :: k in bs && Overflows(bs[k])) <==> (exists k :: !IsInt64(Amount(w.ledger, k) - Amount(start, k)))
  {
    hide Overflows, Follows, IsInt64;
    forall k | k in bs
      ensures Overflows(bs[k]) <==> !IsInt64(Amount(w.ledger, k) - Amount(start, k))
    {
      OverflowsIffOutside(bs[k], k, start, w.ledger, ids);
    }
    ZeroFits();
    if k :| !IsInt64(Amount(w.ledger, k) - Amount(start, k)) {
      assert k in bs;
    }
  }

  lemma SummaryTells(ds: seq<BalanceDelta>, bs: map<string, Builder>, start: Ledger, w: World, ids: string -> Identity)
    requires Mirrors(bs, start, w, ids) && Summarizes(ds, bs)
    ensures IsDifference(ds, start, w.ledger, ids)
  {
    hide Before;
    forall i, j | 0 <= i < j < |ds|
      ensures ds[i].entryKey != ds[j].entryKey
    {
      if ds[i].entryKey == ds[j].entryKey {
        assert Before(ds[i], ds[i]);
        NeverBeforeItself(ds[i]);
      }
    }
    forall k | Amount(w.ledger, k) != Amount(start, k)
      ensures exists i :: 0 <= i < |ds| && ds[i].entryKey == k
    {
      assert k in bs && Reported(bs[k]);
      var i :| 0 <= i < |ds| && ds[i] == DeltaOf(bs[k]);
    }
  }

  lemma NeverBeforeItself(d: BalanceDelta)
    ensures !Before(d, d)
  {
    TextLessIrreflexive(d.entryKey);
  }

  /**
   * Replaying an honest stream yields exactly the difference between the ledger it started from
   * and the ledger it ends in, or an overflow, precisely when some difference leaves 64 bits.
   */
  lemma ReplayIsExact(r: Outcome<seq<BalanceDelta>>, start: Ledger, cs: seq<LedgerChange>, ids: string -> Identity)
    requires Honest(World(start, {}), cs, ids) && Explains(r, cs)
    ensures var finish := Run(World(start, {}), cs).ledger;
            if exists k :: !IsInt64(Amount(finish, k) - Amount(start, k)) then r == Failed(Overflow)
            else r.Done? && IsDifference(r.value, start, finish, ids)
  {
    hide Apply, Overflows, Summarizes, Mirrors, IsDifference, IsInt64, Amount, Honest, Run;
    NothingMirrors(start, ids);
    RunMirrors(map[], start, World(start, {}), cs, ids);
    var bs, w := ApplyAll(map[], cs).value, Run(World(start, {}), cs);
    OverflowIsExact(bs, start, w, ids);
    if r.Done? {
      SummaryTells(r.value, bs, start, w, ids);
    }
  }

  // ---------------------------------------------------------------- conservation

  ghost function SumOver(s: set<string>, f: string -> int): int {
    if s == {} then 0 else
      var k :| k in s;
      f(k) + SumOver(s - {k}, f)
  }

  lemma {:induction false} SumTakes(s: set<string>, k: string, f: string -> int)
    requires k in s
    ensures SumOver(s, f) == f(k) + SumOver(s - {k}, f)
    decreases s
  {
    var first :| first in s && SumOver(s, f) == f(first) + SumOver(s - {first}, f);
    if first != k {
      SumTakes(s - {first}, k, f);
      SumTakes(s - {k}, first, f);
      assert s - {first} - {k} == s - {k} - {first};
    }
  }

  lemma {:induction false} SumIgnoresZeros(s: set<string>, t: set<string>, f: string -> int)
    requires s <= t && forall k :: k in t && k !in s ==> f(k) == 0
    ensures SumOver(t, f) == SumOver(s, f)
    decreases t
  {
    if k :| k in t && k !in s {
      SumTakes(t, k, f);
      SumIgnoresZeros(s, t - {k}, f);
    } else {
      assert s == t;
    }
  }

  lemma {:induction false} SumSubtracts(s: set<string>, f: string -> int, g: string -> int, h: string -> int)
    requires forall k :: k in s ==> h(k) == f(k) - g(k)
    ensures SumOver(s, h) == SumOver(s, f) - SumOver(s, g)
    decreases s
  {
    if k :| k in s {
      SumTakes(s, k, f);
      SumTakes(s, k, g);
      SumTakes(s, k, h);
      SumSubtracts(s - {k}, f, g, h);
    }
  }

  /** The balance under a key, if it is in the given asset. */
  function InAsset(l: Ledger, asset: string, ids: string -> Identity): string -> int {
    k => if ids(k).Holds? && ids(k).asset == asset then Amount(l, k) else 0
  }

  function GainIn(start: Ledger, finish: Ledger, asset: string, ids: string -> Identity): string -> int {
    k => InAsset(finish, asset, ids)(k) - InAsset(start, asset, ids)(k)
  }

  /** All balances of an asset. */
  ghost function Total(l: Ledger, asset: string, ids: string -> Identity): int {
    SumOver(l.Keys, InAsset(l, asset, ids))
  }

  /** The reported gains in an asset. */
  function Gains(ds: seq<BalanceDelta>, asset: string): int {
    if ds == [] then 0 else (if ds[0].asset == asset then ds[0].delta else 0) + Gains(ds[1..], asset)
  }

  ghost function KeysOf(ds: seq<BalanceDelta>): set<string> {
    set i | 0 <= i < |ds| :: ds[i].entryKey
  }

  lemma TellsTheGain(d: BalanceDelta, start: Ledger, finish: Ledger, asset: string, ids: string -> Identity)
    requires Tells(d, start, finish, ids)
    ensures GainIn(start, finish, asset, ids)(d.entryKey) == (if d.asset == asset then d.delta else 0)
    ensures d.entryKey in start || d.entryKey in finish
  {
    assert ids(d.entryKey) == Holds(d.holder, d.asset);
    assert d.delta == Amount(finish, d.entryKey) - Amount(start, d.entryKey);
    assert InAsset(start, asset, ids)(d.entryKey) == if d.asset == asset then Amount(start, d.entryKey) else 0;
    assert InAsset(finish, asset, ids)(d.entryKey) == if d.asset == asset then Amount(finish, d.entryKey) else 0;
  }

  lemma {:induction false} GainsSum(ds: seq<BalanceDelta>, start: Ledger, finish: Ledger, asset: string, ids: string -> Identity)
    requires forall i :: 0 <= i < |ds| ==> Tells(ds[i], start, finish, ids)
    requires forall i, j :: 0 <= i < j < |ds| ==> ds[i].entryKey != ds[j].entryKey
    ensures Gains(ds, asset) == SumOver(KeysOf(ds), GainIn(start, finish, asset, ids))
  {
    if ds == [] {
      assert KeysOf(ds) == {};
    } else {
      var rest, k, f := ds[1..], ds[0].entryKey, GainIn(start, finish, asset, ids);
      assert KeysOf(ds) == KeysOf(rest) + {k} by {
        assert ds == [ds[0]] + rest;
      }
      assert k !in KeysOf(rest);
      assert KeysOf(ds) - {k} == KeysOf(rest);
      GainsSum(rest, start, finish, asset, ids);
      SumTakes(KeysOf(ds), k, f);
      TellsTheGain(ds[0], start, finish, asset, ids);
    }
  }

  /** Nothing is made or lost: the deltas of an asset add up to the change of its total. */
  lemma DifferenceConserves(ds: seq<BalanceDelta>, start: Ledger, finish: Ledger, asset: string, ids: string -> Identity)
    requires IsDifference(ds, start, finish, ids)
    ensures Gains(ds, asset) == Total(finish, asset, ids) - Total(start, asset, ids)
  {
    hide SumOver, Tells, Before, Gains;
    var all, gain := start.Keys + finish.Keys, GainIn(start, finish, asset, ids);
    var before, after := InAsset(start, asset, ids), InAsset(finish, asset, ids);
    GainsSum(ds, start, finish, asset, ids);
    forall i | 0 <= i < |ds|
      ensures ds[i].entryKey in all
    {
      TellsTheGain(ds[i], start, finish, asset, ids);
    }
    forall k | k in all && k !in KeysOf(ds)
      ensures gain(k) == 0
    {
      if Amount(finish, k) != Amount(start, k) {
        assert false;
      }
    }
    SumIgnoresZeros(KeysOf(ds), all, gain);
    SumIgnoresZeros(start.Keys, all, before);
    SumIgnoresZeros(finish.Keys, all, after);
    SumSubtracts(all, after, before, gain);
  }

  /** Over any honest stream that does not overflow, the reported deltas of an asset account for its whole change. */
  lemma ReplayConserves(r: Outcome<seq<BalanceDelta>>, start: Ledger, cs: seq<LedgerChange>, ids: string -> Identity, asset: string)
    requires Honest(World(start, {}), cs, ids) && Explains(r, cs) && r.Done?
    ensures Gains(r.value, asset) == Total(Run(World(start, {}), cs).ledger, asset, ids) - Total(start, asset, ids)
  {
    hide Honest, Explains, Gains, Total, Run, IsDifference;
    ReplayIsExact(r, start, cs, ids);
    DifferenceConserves(r.value, start, Run(World(start, {}), cs).ledger, asset, ids);
  }
}
