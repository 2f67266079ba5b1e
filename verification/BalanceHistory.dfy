/** What replaying a stream of changes comes to, read off the stream itself. */
module BalanceHistory {
  import opened BalanceReplay

  // ---------------------------------------------------------------- reading a stream

  predicate HasEntry(c: LedgerChange) {
    c.State? || c.Created? || c.Updated? || c.Restored?
  }

  /** The change carries a balance under this key. */
  predicate Tracks(c: LedgerChange, key: string) {
    HasEntry(c) && c.entry.data.Tracked? && c.entry.key == key
  }

  /** An earlier change carried a balance under this key. */
  ghost predicate Known(cs: seq<LedgerChange>, i: nat, key: string)
    requires i <= |cs|
  {
    exists h :: 0 <= h < i && Tracks(cs[h], key)
  }

  /** An earlier balance under the same key belongs to another holder or is of another asset. */
  ghost predicate ChangesIdentity(cs: seq<LedgerChange>, i: nat)
    requires i < |cs|
  {
    HasEntry(cs[i]) && cs[i].entry.data.Tracked?
    && exists h :: 0 <= h < i && Tracks(cs[h], cs[i].entry.key)
                   && (cs[h].entry.data.balance.holder != cs[i].entry.data.balance.holder
                       || cs[h].entry.data.balance.asset != cs[i].entry.data.balance.asset)
  }

  ghost predicate Refused(cs: seq<LedgerChange>, i: nat, e: Error)
    requires i < |cs|
  {
    match e
    case UnknownType => cs[i].OtherType?
    case ArmMissing => cs[i].NoArm?
    case BadEntry => HasEntry(cs[i]) && cs[i].entry.data.Malformed?
    case IdentityChanged => ChangesIdentity(cs, i)
    case Overflow => false
  }

  /** The change tells the balance the entry had before. */
  predicate Opens(c: LedgerChange, key: string) {
    Tracks(c, key) && (c.State? || c.Created?)
  }

  /** The change sets the balance the entry has after: a removal only does where the entry is known. */
  ghost predicate Sets(cs: seq<LedgerChange>, i: nat, key: string)
    requires i < |cs|
  {
    (Tracks(cs[i], key) && !cs[i].State?) || (cs[i].Removed? && cs[i].key == key && Known(cs, i, key))
  }

  /** The first change that opens the entry. */
  ghost predicate FirstOpens(cs: seq<LedgerChange>, i: int, key: string): (r: bool)
    ensures r ==> 0 <= i < |cs|
  {
    0 <= i < |cs| && Opens(cs[i], key) && forall h :: 0 <= h < i ==> !Opens(cs[h], key)
  }

  /** The last change that sets the entry. */
  ghost predicate LastSets(cs: seq<LedgerChange>, i: int, key: string): (r: bool)
    ensures r ==> 0 <= i < |cs|
  {
    0 <= i < |cs| && Sets(cs, i, key) && forall h :: i < h < |cs| ==> !Sets(cs, h, key)
  }

  ghost predicate NeverOpens(cs: seq<LedgerChange>, key: string) {
    forall i :: 0 <= i < |cs| ==> !Opens(cs[i], key)
  }

  ghost predicate NeverSets(cs: seq<LedgerChange>, key: string) {
    forall i :: 0 <= i < |cs| ==> !Sets(cs, i, key)
  }

  /** The balance before is what the first opening change says, nothing for one that creates the entry. */
  function AmountBefore(c: LedgerChange): int {
    if HasEntry(c) && !c.Created? && c.entry.data.Tracked? then c.entry.data.balance.amount else 0
  }

  /** The balance after is what the last setting change says, nothing for one that removes the entry. */
  function AmountAfter(c: LedgerChange): int {
    if HasEntry(c) && c.entry.data.Tracked? then c.entry.data.balance.amount else 0
  }

  ghost predicate TellsBefore(b: Builder, cs: seq<LedgerChange>, key: string) {
    (b.beforeKnown ==> exists i :: FirstOpens(cs, i, key) && b.before == AmountBefore(cs[i]))
    && (!b.beforeKnown ==> NeverOpens(cs, key) && b.before == 0)
  }

  ghost predicate TellsAfter(b: Builder, cs: seq<LedgerChange>, key: string) {
    (b.afterKnown ==> exists i :: LastSets(cs, i, key) && b.after == AmountAfter(cs[i]))
    && (!b.afterKnown ==> NeverSets(cs, key) && b.after == 0)
  }

  ghost predicate TellsIdentity(b: Builder, cs: seq<LedgerChange>, key: string) {
    b.entryKey == key
    && forall i :: 0 <= i < |cs| && Tracks(cs[i], key) ==>
         cs[i].entry.data.balance.holder == b.holder && cs[i].entry.data.balance.asset == b.asset
  }

  /** There is a builder for every key whose balance came up, and it tells that key's history. */
  ghost predicate TellsHistory(bs: map<string, Builder>, cs: seq<LedgerChange>) {
    (forall key :: key in bs <==> Known(cs, |cs|, key))
    && forall key :: key in bs ==> TellsIdentity(bs[key], cs, key) && TellsBefore(bs[key], cs, key) && TellsAfter(bs[key], cs, key)
  }

  // ---------------------------------------------------------------- one more change

  lemma KnownStays(cs: seq<LedgerChange>, c: LedgerChange, i: nat, key: string)
    requires i <= |cs|
    ensures Known(cs + [c], i, key) <==> Known(cs, i, key)
    ensures i < |cs| ==> (Sets(cs + [c], i, key) <==> Sets(cs, i, key))
    ensures Known(cs + [c], |cs| + 1, key) <==> Known(cs, |cs|, key) || Tracks(c, key)
  {
    var all := cs + [c];
    assert forall h :: 0 <= h < |cs| ==> all[h] == cs[h];
    if Known(cs, |cs|, key) {
      var h :| 0 <= h < |cs| && Tracks(cs[h], key);
      assert Tracks(all[h], key);
    }
    if Tracks(c, key) {
      assert Tracks(all[|cs|], key);
    }
    if Known(cs, i, key) {
      var h :| 0 <= h < i && Tracks(cs[h], key);
      assert Tracks(all[h], key);
    }
  }

  /** A change elsewhere leaves the history of a key as it is. */
  lemma HistoryStays(b: Builder, cs: seq<LedgerChange>, c: LedgerChange, key: string)
    requires TellsIdentity(b, cs, key) && TellsBefore(b, cs, key) && TellsAfter(b, cs, key)
    requires !Tracks(c, key) && !(c.Removed? && c.key == key)
    ensures TellsIdentity(b, cs + [c], key) && TellsBefore(b, cs + [c], key) && TellsAfter(b, cs + [c], key)
  {
    BeforeStays(b, cs, c, key);
    AfterStays(b, cs, c, key);
  }

  lemma BeforeStays(b: Builder, cs: seq<LedgerChange>, c: LedgerChange, key: string)
    requires TellsBefore(b, cs, key) && (b.beforeKnown || !Opens(c, key))
    ensures TellsBefore(b, cs + [c], key)
  {
    hide Opens;
    var all := cs + [c];
    if b.beforeKnown {
      var i :| FirstOpens(cs, i, key) && b.before == AmountBefore(cs[i]);
      assert FirstOpens(all, i, key) && all[i] == cs[i];
    }
  }

  lemma AfterStays(b: Builder, cs: seq<LedgerChange>, c: LedgerChange, key: string)
    requires TellsAfter(b, cs, key) && !Sets(cs + [c], |cs|, key)
    ensures TellsAfter(b, cs + [c], key)
  {
    hide Sets;
    var all := cs + [c];
    forall i | 0 <= i < |cs|
      ensures Sets(all, i, key) <==> Sets(cs, i, key)
    {
      KnownStays(cs, c, i, key);
    }
    if b.afterKnown {
      var i :| LastSets(cs, i, key) && b.after == AmountAfter(cs[i]);
      assert LastSets(all, i, key) && all[i] == cs[i];
    }
  }

  /** The builder of the key a change is about records it. */
  lemma HistoryAdvances(b: Builder, cs: seq<LedgerChange>, c: LedgerChange, key: string)
    requires TellsIdentity(b, cs, key) && TellsBefore(b, cs, key) && TellsAfter(b, cs, key)
    requires Tracks(c, key) ==> c.entry.data.balance.holder == b.holder && c.entry.data.balance.asset == b.asset
    requires Tracks(c, key) || (c.Removed? && c.key == key && Known(cs, |cs|, key))
    ensures TellsIdentity(Advance(b, c), cs + [c], key) && TellsBefore(Advance(b, c), cs + [c], key) && TellsAfter(Advance(b, c), cs + [c], key)
  {
    var all, n := cs + [c], Advance(b, c);
    KnownStays(cs, c, |cs|, key);
    if Opens(c, key) && !b.beforeKnown {
      assert FirstOpens(all, |cs|, key) && n.before == AmountBefore(all[|cs|]);
    } else {
      BeforeStays(b, cs, c, key);
      SameBefore(b, n, all, key);
    }
    if Sets(all, |cs|, key) {
      assert LastSets(all, |cs|, key) && n.after == AmountAfter(all[|cs|]);
    } else {
      AfterStays(b, cs, c, key);
    }
  }

  lemma SameBefore(b: Builder, n: Builder, cs: seq<LedgerChange>, key: string)
    requires TellsBefore(b, cs, key) && n.before == b.before && n.beforeKnown == b.beforeKnown
    ensures TellsBefore(n, cs, key)
  {
    hide FirstOpens;
  }

  lemma NewTellsNothing(cs: seq<LedgerChange>, key: string, balance: Balance)
    requires !Known(cs, |cs|, key)
    ensures var b := NewBuilder(key, balance); TellsIdentity(b, cs, key) && TellsBefore(b, cs, key) && TellsAfter(b, cs, key)
  {
    assert forall i :: 0 <= i < |cs| ==> !Tracks(cs[i], key);
    forall i | 0 <= i < |cs|
      ensures !Sets(cs, i, key)
    {
    }
  }

  /** The first balance under a known key has the identity that its builder keeps. */
  lemma KnownIdentity(b: Builder, cs: seq<LedgerChange>, c: LedgerChange)
    requires HasEntry(c) && c.entry.data.Tracked? && Known(cs, |cs|, c.entry.key) && TellsIdentity(b, cs, c.entry.key)
    ensures ChangesIdentity(cs + [c], |cs|) <==> b.holder != c.entry.data.balance.holder || b.asset != c.entry.data.balance.asset
  {
    var all, key := cs + [c], c.entry.key;
    var h :| 0 <= h < |cs| && Tracks(cs[h], key);
    assert all[h] == cs[h] && all[|cs|] == c;
    if ChangesIdentity(all, |cs|) {
      var g :| 0 <= g < |cs| && Tracks(all[g], key)
               && (all[g].entry.data.balance.holder != c.entry.data.balance.holder || all[g].entry.data.balance.asset != c.entry.data.balance.asset);
      assert all[g] == cs[g];
    }
  }

  lemma UnknownKeepsIdentity(cs: seq<LedgerChange>, c: LedgerChange)
    requires HasEntry(c) && c.entry.data.Tracked? && !Known(cs, |cs|, c.entry.key)
    ensures !ChangesIdentity(cs + [c], |cs|)
  {
    var all := cs + [c];
    assert forall h :: 0 <= h < |cs| ==> all[h] == cs[h] && !Tracks(cs[h], c.entry.key);
  }

  /** Writing one builder keeps the history of all keys. */
  lemma HistoryWritten(bs: map<string, Builder>, cs: seq<LedgerChange>, c: LedgerChange, key: string, b: Builder)
    requires TellsHistory(bs, cs) && (Tracks(c, key) || (c.Removed? && c.key == key && key in bs))
    requires TellsIdentity(b, cs + [c], key) && TellsBefore(b, cs + [c], key) && TellsAfter(b, cs + [c], key)
    ensures TellsHistory(bs[key := b], cs + [c])
  {
    hide TellsIdentity, TellsBefore, TellsAfter, Known;
    var all, more := cs + [c], bs[key := b];
    forall k
      ensures k in more <==> Known(all, |all|, k)
      ensures k in more ==> TellsIdentity(more[k], all, k) && TellsBefore(more[k], all, k) && TellsAfter(more[k], all, k)
    {
      KnownStays(cs, c, |cs|, k);
      if k in bs && k != key {
        HistoryStays(bs[k], cs, c, k);
      }
    }
  }

  lemma HistoryUntouched(bs: map<string, Builder>, cs: seq<LedgerChange>, c: LedgerChange)
    requires TellsHistory(bs, cs) && !(HasEntry(c) && c.entry.data.Tracked?) && (c.Removed? ==> c.key !in bs)
    ensures TellsHistory(bs, cs + [c])
  {
    hide TellsIdentity, TellsBefore, TellsAfter, Known;
    var all := cs + [c];
    forall k
      ensures k in bs <==> Known(all, |all|, k)
      ensures k in bs ==> TellsIdentity(bs[k], all, k) && TellsBefore(bs[k], all, k) && TellsAfter(bs[k], all, k)
    {
      KnownStays(cs, c, |cs|, k);
      if k in bs {
        HistoryStays(bs[k], cs, c, k);
      }
    }
  }

  /** A step either is refused for the reason the stream gives or keeps the history. */
  lemma StepTellsHistory(bs: map<string, Builder>, cs: seq<LedgerChange>, c: LedgerChange)
    requires TellsHistory(bs, cs)
    ensures Apply(bs, c).Done? ==> TellsHistory(Apply(bs, c).value, cs + [c]) && forall e :: !Refused(cs + [c], |cs|, e)
    ensures Apply(bs, c).Failed? ==> Refused(cs + [c], |cs|, Apply(bs, c).error)
  {
    hide TellsIdentity, TellsBefore, TellsAfter, Known, ChangesIdentity, TellsHistory, Advance;
    if HasEntry(c) && c.entry.data.Tracked? {
      TrackedStep(bs, cs, c);
    } else if c.Removed? && c.key in bs {
      RemovedStep(bs, cs, c);
      NoIdentity(cs, c);
    } else {
      NoIdentity(cs, c);
      if c.Removed? || HasEntry(c) {
        HistoryUntouched(bs, cs, c);
      }
    }
  }

  lemma NoIdentity(cs: seq<LedgerChange>, c: LedgerChange)
    requires !(HasEntry(c) && c.entry.data.Tracked?)
    ensures !ChangesIdentity(cs + [c], |cs|)
  {
  }

  lemma RemovedStep(bs: map<string, Builder>, cs: seq<LedgerChange>, c: LedgerChange)
    requires TellsHistory(bs, cs) && c.Removed? && c.key in bs
    ensures TellsHistory(bs[c.key := Advance(bs[c.key], c)], cs + [c])
  {
    hide TellsIdentity, TellsBefore, TellsAfter, Known, Advance;
    HistoryAdvances(bs[c.key], cs, c, c.key);
    HistoryWritten(bs, cs, c, c.key, Advance(bs[c.key], c));
  }

  lemma TrackedStep(bs: map<string, Builder>, cs: seq<LedgerChange>, c: LedgerChange)
    requires TellsHistory(bs, cs) && HasEntry(c) && c.entry.data.Tracked?
    ensures Apply(bs, c).Done? ==> TellsHistory(Apply(bs, c).value, cs + [c]) && !ChangesIdentity(cs + [c], |cs|)
    ensures Apply(bs, c).Failed? ==> ChangesIdentity(cs + [c], |cs|) && Apply(bs, c).error == IdentityChanged
  {
    hide TellsIdentity, TellsBefore, TellsAfter, Known, ChangesIdentity, Advance;
    var key, balance := c.entry.key, c.entry.data.balance;
    var b := if key in bs then bs[key] else NewBuilder(key, balance);
    if key in bs {
      KnownIdentity(b, cs, c);
    } else {
      NewTellsNothing(cs, key, balance);
      UnknownKeepsIdentity(cs, c);
    }
    if b.holder == balance.holder && b.asset == balance.asset {
      HistoryAdvances(b, cs, c, key);
      HistoryWritten(bs, cs, c, key, Advance(b, c));
    }
  }

  // ---------------------------------------------------------------- whole streams

  lemma {:induction false} ReplayAppend(bs: map<string, Builder>, cs: seq<LedgerChange>, c: LedgerChange)
    ensures ApplyAll(bs, cs + [c]) == (if ApplyAll(bs, cs).Failed? then ApplyAll(bs, cs) else Apply(ApplyAll(bs, cs).value, c))
    decreases |cs|
  {
    hide Apply;
    if cs == [] {
      assert cs + [c] == [c] && [c][1..] == [];
    } else {
      assert (cs + [c])[0] == cs[0] && (cs + [c])[1..] == cs[1..] + [c];
      if Apply(bs, cs[0]).Done? {
        ReplayAppend(Apply(bs, cs[0]).value, cs[1..], c);
      }
    }
  }

  /** The first change that is refused. */
  ghost predicate FirstRefused(cs: seq<LedgerChange>, i: nat, e: Error) {
    i < |cs| && Refused(cs, i, e) && forall h, f :: 0 <= h < i ==> !Refused(cs, h, f)
  }

  lemma RefusedStays(cs: seq<LedgerChange>, c: LedgerChange, i: nat, e: Error)
    requires i < |cs|
    ensures Refused(cs + [c], i, e) <==> Refused(cs, i, e)
  {
    var all := cs + [c];
    assert forall h :: 0 <= h <= i ==> all[h] == cs[h];
    assert ChangesIdentity(all, i) <==> ChangesIdentity(cs, i) by {
      if ChangesIdentity(cs, i) {
        var h :| 0 <= h < i && Tracks(cs[h], cs[i].entry.key)
                 && (cs[h].entry.data.balance.holder != cs[i].entry.data.balance.holder
                     || cs[h].entry.data.balance.asset != cs[i].entry.data.balance.asset);
        assert Tracks(all[h], all[i].entry.key);
      }
    }
  }

  /**
   A stream is refused exactly at its first refused change, for that reason; otherwise every builder has the
   balance its first opening change tells and the balance its last setting change leaves.
   */
  lemma {:induction false} ReplayTellsHistory(cs: seq<LedgerChange>)
    ensures ApplyAll(map[], cs).Done? ==> TellsHistory(ApplyAll(map[], cs).value, cs) && forall i, e :: 0 <= i < |cs| ==> !Refused(cs, i, e)
    ensures ApplyAll(map[], cs).Failed? ==> exists i :: FirstRefused(cs, i, ApplyAll(map[], cs).error)
    decreases |cs|
  {
    hide Apply, TellsHistory, Refused;
    if cs == [] {
      NothingToTell();
    } else {
      var front, c := cs[..|cs| - 1], cs[|cs| - 1];
      assert cs == front + [c];
      ReplayTellsHistory(front);
      ReplayAppend(map[], front, c);
      forall i, e | 0 <= i < |front|
        ensures Refused(cs, i, e) <==> Refused(front, i, e)
      {
        RefusedStays(front, c, i, e);
      }
      match ApplyAll(map[], front)
      case Failed(e) =>
        var i :| FirstRefused(front, i, e);
        assert FirstRefused(cs, i, e);
      case Done(bs) =>
        StepTellsHistory(bs, front, c);
        if Apply(bs, c).Failed? {
          assert FirstRefused(cs, |front|, Apply(bs, c).error);
        }
    }
  }

  lemma NothingToTell()
    ensures TellsHistory(map[], [])
  {
  }

  // ---------------------------------------------------------------- the summary

  /** The first place where the texts differ, or the end of the shorter. */
  ghost predicate ComesFirst(a: string, b: string) {
    exists k :: 0 <= k <= |a| && k < |b| && a[..k] == b[..k] && (k == |a| || a[k] < b[k])
  }

  lemma {:induction false} TextOrder(a: string, b: string)
    ensures TextLess(a, b) <==> ComesFirst(a, b)
  {
    if b != "" && a != "" && a[0] == b[0] {
      TextOrder(a[1..], b[1..]);
      OrderOfRests(a, b);
    } else if b != "" {
      assert a[..0] == b[..0];
      if a != "" {
        OrderOfHeads(a, b);
      }
    }
  }

  lemma OrderOfHeads(a: string, b: string)
    requires a != "" && b != "" && a[0] != b[0]
    ensures ComesFirst(a, b) <==> a[0] < b[0]
  {
    assert a[..0] == b[..0];
    forall k | 0 < k <= |a| && k <= |b|
      ensures a[..k] != b[..k]
    {
      assert a[..k][0] == a[0] && b[..k][0] == b[0];
    }
  }

  lemma OrderOfRests(a: string, b: string)
    requires a != "" && b != "" && a[0] == b[0]
    ensures ComesFirst(a, b) <==> ComesFirst(a[1..], b[1..])
  {
    if ComesFirst(a[1..], b[1..]) {
      var k :| 0 <= k <= |a[1..]| && k < |b[1..]| && a[1..][..k] == b[1..][..k] && (k == |a[1..]| || a[1..][k] < b[1..][k]);
      assert a[..k + 1] == [a[0]] + a[1..][..k] && b[..k + 1] == [b[0]] + b[1..][..k];
    }
    if ComesFirst(a, b) {
      var k :| 0 <= k <= |a| && k < |b| && a[..k] == b[..k] && (k == |a| || a[k] < b[k]);
      assert k > 0;
      assert a[1..][..k - 1] == a[..k][1..] && b[1..][..k - 1] == b[..k][1..];
    }
  }

  /** By holder, then by asset, then by key. */
  ghost predicate InOrder(x: BalanceDelta, y: BalanceDelta) {
    ComesFirst(x.holder, y.holder)
    || (x.holder == y.holder && (ComesFirst(x.asset, y.asset) || (x.asset == y.asset && ComesFirst(x.entryKey, y.entryKey))))
  }

  lemma BeforeIsInOrder(x: BalanceDelta, y: BalanceDelta)
    requires Before(x, y)
    ensures InOrder(x, y)
  {
    hide TextLess, ComesFirst;
    TextOrder(x.holder, y.holder);
    TextOrder(x.asset, y.asset);
    TextOrder(x.entryKey, y.entryKey);
  }

  /** The entry's balance is set, and is not known to be what it was before. */
  ghost predicate IsChanged(cs: seq<LedgerChange>, key: string) {
    exists i :: LastSets(cs, i, key) && forall h :: FirstOpens(cs, h, key) ==> AmountBefore(cs[h]) != AmountAfter(cs[i])
  }

  /** A delta tells the two balances of its entry; without an earlier balance, the delta stays at zero. */
  ghost predicate IsDeltaOf(d: BalanceDelta, cs: seq<LedgerChange>) {
    (exists i :: LastSets(cs, i, d.entryKey) && d.after == AmountAfter(cs[i])) && d.afterKnown
    && (if d.beforeKnown then d.delta == d.after - d.before && exists h :: FirstOpens(cs, h, d.entryKey) && d.before == AmountBefore(cs[h])
        else d.delta == 0 && d.before == 0 && NeverOpens(cs, d.entryKey))
    && forall i :: 0 <= i < |cs| && Tracks(cs[i], d.entryKey) ==>
         cs[i].entry.data.balance.holder == d.holder && cs[i].entry.data.balance.asset == d.asset
  }

  lemma FirstIsOne(cs: seq<LedgerChange>, i: int, h: int, key: string)
    requires FirstOpens(cs, i, key) && FirstOpens(cs, h, key)
    ensures i == h
  {
  }

  lemma LastIsOne(cs: seq<LedgerChange>, i: int, h: int, key: string)
    requires LastSets(cs, i, key) && LastSets(cs, h, key)
    ensures i == h
  {
  }

  lemma ReportedIsChanged(b: Builder, cs: seq<LedgerChange>, key: string)
    requires TellsBefore(b, cs, key) && TellsAfter(b, cs, key)
    ensures Reported(b) <==> IsChanged(cs, key)
  {
    hide Sets, Opens, LastSets, FirstOpens, AmountBefore, AmountAfter;
    if b.afterKnown {
      var i :| LastSets(cs, i, key) && b.after == AmountAfter(cs[i]);
      if b.beforeKnown {
        var h :| FirstOpens(cs, h, key) && b.before == AmountBefore(cs[h]);
        forall g | FirstOpens(cs, g, key)
          ensures g == h
        {
          FirstIsOne(cs, g, h, key);
        }
        forall g | LastSets(cs, g, key)
          ensures g == i
        {
          LastIsOne(cs, g, i, key);
        }
      } else {
        NeverFirst(cs, key);
      }
    } else {
      NeverLast(cs, key);
    }
  }

  lemma NeverFirst(cs: seq<LedgerChange>, key: string)
    requires NeverOpens(cs, key)
    ensures forall h :: !FirstOpens(cs, h, key)
  {
  }

  lemma NeverLast(cs: seq<LedgerChange>, key: string)
    requires NeverSets(cs, key)
    ensures forall i :: !LastSets(cs, i, key)
  {
  }

  lemma ChangedIsKnown(cs: seq<LedgerChange>, key: string)
    requires IsChanged(cs, key)
    ensures Known(cs, |cs|, key)
  {
    var i :| LastSets(cs, i, key);
    assert Tracks(cs[i], key) || Known(cs, i, key);
  }

  /** The summary has one delta for each entry that changed, in order, and none besides. */
  lemma SummaryTellsHistory(r: Outcome<seq<BalanceDelta>>, cs: seq<LedgerChange>)
    requires Explains(r, cs) && r.Done?
    ensures forall i :: 0 <= i < |r.value| ==> IsDeltaOf(r.value[i], cs) && IsChanged(cs, r.value[i].entryKey)
    ensures forall i, j :: 0 <= i < j < |r.value| ==> InOrder(r.value[i], r.value[j])
    ensures forall key :: IsChanged(cs, key) ==> exists i :: 0 <= i < |r.value| && r.value[i].entryKey == key
  {
    hide Before, InOrder, IsChanged, IsDeltaOf, Reported, Overflows, Known, TellsBefore, TellsAfter, TellsIdentity;
    ReplayTellsHistory(cs);
    var bs := ApplyAll(map[], cs).value;
    forall key | key in bs
      ensures Reported(bs[key]) <==> IsChanged(cs, key)
      ensures Reported(bs[key]) ==> IsDeltaOf(DeltaOf(bs[key]), cs)
      ensures DeltaOf(bs[key]).entryKey == key
    {
      ReportedIsChanged(bs[key], cs, key);
      DeltaTells(bs[key], cs, key);
    }
    forall i, j | 0 <= i < j < |r.value|
      ensures InOrder(r.value[i], r.value[j])
    {
      BeforeIsInOrder(r.value[i], r.value[j]);
    }
    forall key | IsChanged(cs, key)
      ensures exists i :: 0 <= i < |r.value| && r.value[i].entryKey == key
    {
      ChangedIsKnown(cs, key);
      assert DeltaOf(bs[key]) in r.value;
    }
  }

  lemma DeltaTells(b: Builder, cs: seq<LedgerChange>, key: string)
    requires TellsIdentity(b, cs, key) && TellsBefore(b, cs, key) && TellsAfter(b, cs, key)
    ensures DeltaOf(b).entryKey == key
    ensures Reported(b) ==> IsDeltaOf(DeltaOf(b), cs)
  {
    hide FirstOpens, LastSets, AmountBefore, AmountAfter;
  }
}
