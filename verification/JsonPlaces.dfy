/** What the search for a path finds: the value that following the path step by step leads to. */
module JsonPlaces {
  import opened Text
  import opened JsonSearch
  import JsonCodec

  // ---------------------------------------------------------------- following a path

  ghost predicate FirstKey(ms: seq<Member>, key: string, i: nat) {
    i < |ms| && ms[i].key == key && forall k :: 0 <= k < i ==> ms[k].key != key
  }

  /** One step goes to the first member with that key, or to the element with that index. */
  ghost predicate StepsTo(d: Doc, step: string, next: Doc) {
    match d
    case Object(members) => exists i: nat :: FirstKey(members, step, i) && members[i].value == next
    case Array(items) =>
      var index := JsonCodec.ParseInt(step);
      index.Some? && 0 <= index.value < |items| && items[index.value] == next
    case _ => false
  }

  /** The path leads to `sub`, which is a member or element of `owner`. */
  ghost predicate LeadsTo(d: Doc, path: seq<string>, owner: Doc, sub: Doc)
    requires path != []
    decreases |path|
  {
    if |path| == 1 then owner == d && StepsTo(d, path[0], sub)
    else exists next: Doc :: StepsTo(d, path[0], next) && LeadsTo(next, path[1..], owner, sub)
  }

  /** The tokens from a place on: the key if it is a member, its value, and whatever follows. */
  ghost predicate Opens(ts: seq<Token>, key: string, owner: Doc, sub: Doc) {
    (if owner.Object? then [Str(key)] else []) + Tokens(sub) <= ts
  }

  lemma StepIsOne(d: Doc, step: string, x: Doc, y: Doc)
    requires StepsTo(d, step, x) && StepsTo(d, step, y)
    ensures x == y
  {
  }

  // ---------------------------------------------------------------- members and elements

  lemma {:induction false} MemberTokensSplit(ms: seq<Member>, i: nat)
    requires i < |ms|
    ensures MemberTokens(ms) == MemberTokens(ms[..i]) + ([Str(ms[i].key)] + Tokens(ms[i].value) + MemberTokens(ms[i + 1..]))
  {
    hide Tokens;
    if i == 0 {
      assert ms[..0] == [];
    } else {
      MemberTokensSplit(ms[1..], i - 1);
      assert ms[..i][1..] == ms[1..][..i - 1] && ms[1..][i..] == ms[i + 1..];
    }
  }

  lemma {:induction false} ItemTokensSplit(ds: seq<Doc>, i: nat)
    requires i < |ds|
    ensures ItemTokens(ds) == ItemTokens(ds[..i]) + (Tokens(ds[i]) + ItemTokens(ds[i + 1..]))
  {
    hide Tokens;
    if i == 0 {
      assert ds[..0] == [];
    } else {
      ItemTokensSplit(ds[1..], i - 1);
      assert ds[..i][1..] == ds[1..][..i - 1] && ds[1..][i..] == ds[i + 1..];
    }
  }

  /** The members before the first with the key are passed over. */
  lemma {:induction false} FirstMember(ms: seq<Member>, path: seq<string>, i: nat)
    requires path != [] && FirstKey(ms, path[0], i)
    ensures ResolveInMembers(ms, path)
            == Shifted(|MemberTokens(ms[..i])|, if |path| == 1 then Some(0) else Shifted(1, Resolve(ms[i].value, path[1..])))
  {
    hide Tokens, Resolve;
    if i == 0 {
      assert ms[..0] == [];
    } else {
      assert forall k :: 0 <= k < i - 1 ==> ms[1..][k] == ms[k + 1];
      FirstMember(ms[1..], path, i - 1);
      assert ms[..i][1..] == ms[1..][..i - 1];
    }
  }

  lemma {:induction false} NoMember(ms: seq<Member>, path: seq<string>)
    requires path != [] && forall k :: 0 <= k < |ms| ==> ms[k].key != path[0]
    ensures ResolveInMembers(ms, path).None?
  {
    hide Tokens, Resolve;
    if ms != [] {
      NoMember(ms[1..], path);
    }
  }

  lemma {:induction false} KeyOrNone(ms: seq<Member>, key: string) returns (i: nat)
    ensures i == |ms| ==> forall k :: 0 <= k < |ms| ==> ms[k].key != key
    ensures i != |ms| ==> FirstKey(ms, key, i)
  {
    if ms == [] || ms[0].key == key {
      i := 0;
    } else {
      var k := KeyOrNone(ms[1..], key);
      i := k + 1;
      assert forall m :: 0 < m < |ms| ==> ms[m] == ms[1..][m - 1];
    }
  }

  lemma {:induction false} ItemAt(ds: seq<Doc>, path: seq<string>, index: int)
    requires path != []
    ensures ResolveInItems(ds, path, index) ==
            if 0 <= index < |ds| then Shifted(|ItemTokens(ds[..index])|, if |path| == 1 then Some(0) else Resolve(ds[index], path[1..]))
            else None
  {
    hide Tokens, Resolve;
    if ds != [] {
      if index == 0 {
        assert ds[..0] == [];
      } else {
        ItemAt(ds[1..], path, index - 1);
        if 0 < index < |ds| {
          assert ds[..index][1..] == ds[1..][..index - 1];
        }
      }
    }
  }

  // ---------------------------------------------------------------- the place of a path

  /** A place found is that of the value the path leads to; where none is found, it leads nowhere. */
  ghost predicate IsPlace(d: Doc, path: seq<string>, at: Option<nat>)
    requires path != []
  {
    if at.None? then forall owner, sub :: !LeadsTo(d, path, owner, sub)
    else
      at.value <= |Tokens(d)|
      && exists owner, sub :: LeadsTo(d, path, owner, sub) && Opens(Tokens(d)[at.value..], path[|path| - 1], owner, sub)
  }

  /** A step further up, the place moves by what stands before the value stepped to. */
  lemma StepBack(d: Doc, path: seq<string>, next: Doc, before: seq<Token>, after: seq<Token>, at: Option<nat>)
    requires |path| > 1 && StepsTo(d, path[0], next) && Tokens(d) == before + (Tokens(next) + after) && IsPlace(next, path[1..], at)
    ensures IsPlace(d, path, Shifted(|before|, at))
  {
    hide Tokens, StepsTo, Opens;
    var rest := path[1..];
    assert rest[|rest| - 1] == path[|path| - 1];
    if at.Some? {
      var owner, sub :| LeadsTo(next, rest, owner, sub) && Opens(Tokens(next)[at.value..], rest[|rest| - 1], owner, sub);
      assert LeadsTo(d, path, owner, sub);
      assert Tokens(d)[|before| + at.value..] == Tokens(next)[at.value..] + after;
      OpensLonger(Tokens(next)[at.value..], after, path[|path| - 1], owner, sub);
    } else {
      forall owner, sub
        ensures !LeadsTo(d, path, owner, sub)
      {
        if LeadsTo(d, path, owner, sub) {
          var other :| StepsTo(d, path[0], other) && LeadsTo(other, rest, owner, sub);
          StepIsOne(d, path[0], next, other);
          assert false;
        }
      }
    }
  }

  lemma OpensLonger(ts: seq<Token>, more: seq<Token>, key: string, owner: Doc, sub: Doc)
    requires Opens(ts, key, owner, sub)
    ensures Opens(ts + more, key, owner, sub)
  {
    hide Tokens;
  }

  lemma LastStep(d: Doc, path: seq<string>, next: Doc, before: seq<Token>, after: seq<Token>)
    requires |path| == 1 && StepsTo(d, path[0], next)
    requires Tokens(d) == before + ((if d.Object? then [Str(path[0])] else []) + Tokens(next) + after)
    ensures IsPlace(d, path, Some(|before|))
  {
    hide Tokens, StepsTo;
    assert Tokens(d)[|before|..] == (if d.Object? then [Str(path[0])] else []) + Tokens(next) + after;
    assert LeadsTo(d, path, d, next) && Opens(Tokens(d)[|before|..], path[0], d, next);
  }

  lemma NoStep(d: Doc, path: seq<string>)
    requires path != [] && forall next :: !StepsTo(d, path[0], next)
    ensures IsPlace(d, path, None)
  {
    hide StepsTo;
  }

  /** The place a document resolves a path to is that of the value the path leads to. */
  lemma {:induction false} ResolvedIsPlace(d: Doc, path: seq<string>)
    requires path != []
    ensures IsPlace(d, path, Resolve(d, path))
    decreases |path|
  {
    hide IsPlace, Tokens;
    match d
    case Object(members) => MemberIsPlace(d, path);
    case Array(items) => ItemIsPlace(d, path);
    case _ => NoStep(d, path);
  }

  lemma ObjectTokens(ms: seq<Member>, i: nat)
    requires i < |ms|
    ensures var before, after := [OpenObject] + MemberTokens(ms[..i]), MemberTokens(ms[i + 1..]) + [CloseObject];
            Tokens(Object(ms)) == before + ([Str(ms[i].key)] + Tokens(ms[i].value) + after)
  {
    hide MemberTokens;
    MemberTokensSplit(ms, i);
  }

  lemma {:induction false} MemberIsPlace(d: Doc, path: seq<string>)
    requires path != [] && d.Object?
    ensures IsPlace(d, path, Resolve(d, path))
    decreases |path|, 0
  {
    hide IsPlace, ResolveInMembers, Tokens, MemberTokens;
    var ms := d.members;
    var i := KeyOrNone(ms, path[0]);
    if i == |ms| {
      NoMember(ms, path);
      NoStep(d, path);
    } else {
      var next, before, after := ms[i].value, [OpenObject] + MemberTokens(ms[..i]), MemberTokens(ms[i + 1..]) + [CloseObject];
      FirstMember(ms, path, i);
      ObjectTokens(ms, i);
      assert StepsTo(d, path[0], next);
      if |path| == 1 {
        LastStep(d, path, next, before, after);
      } else {
        ResolvedIsPlace(next, path[1..]);
        Associate(before, [Str(path[0])], Tokens(next) + after);
        Associate([Str(path[0])], Tokens(next), after);
        StepBack(d, path, next, before + [Str(path[0])], after, Resolve(next, path[1..]));
      }
    }
  }

  lemma {:induction false} ItemIsPlace(d: Doc, path: seq<string>)
    requires path != [] && d.Array?
    ensures IsPlace(d, path, Resolve(d, path))
    decreases |path|, 0
  {
    hide IsPlace, ResolveInItems, JsonCodec.ParseInt;
    var ds, index := d.items, JsonCodec.ParseInt(path[0]);
    if index.Some? {
      ItemAt(ds, path, index.value);
    }
    if index.None? || index.value < 0 || index.value >= |ds| {
      NoStep(d, path);
    } else {
      var i := index.value;
      var next, before, after := ds[i], [OpenArray] + ItemTokens(ds[..i]), ItemTokens(ds[i + 1..]) + [CloseArray];
      ItemTokensSplit(ds, i);
      assert StepsTo(d, path[0], next);
      assert Tokens(d) == before + (Tokens(next) + after);
      if |path| == 1 {
        assert [] + Tokens(next) + after == Tokens(next) + after;
        LastStep(d, path, next, before, after);
      } else {
        ResolvedIsPlace(next, path[1..]);
        StepBack(d, path, next, before, after, Resolve(next, path[1..]));
      }
    }
  }

  /**
   The search of a document's tokens, whatever follows them, fails exactly when the path leads nowhere; otherwise
   it stops where the value stands that the path leads to, at its key if that value is a member.
   */
  lemma SearchFindsTheValue(d: Doc, rest: seq<Token>, path: seq<string>)
    requires path != []
    ensures var ts, found := Tokens(d) + rest, Found(Tokens(d) + rest, path);
            if found.None? then forall owner, sub :: !LeadsTo(d, path, owner, sub)
            else
              found.value <= |ts|
              && exists owner, sub :: LeadsTo(d, path, owner, sub) && Opens(ts[|ts| - found.value..], path[|path| - 1], owner, sub)
  {
    hide Tokens, Found, Resolve, LeadsTo, Opens;
    SearchIsExact(d, rest, path);
    ResolvedIsPlace(d, path);
    var ts := Tokens(d) + rest;
    if Found(ts, path).Some? {
      var at := Resolve(d, path).value;
      var owner, sub :| LeadsTo(d, path, owner, sub) && Opens(Tokens(d)[at..], path[|path| - 1], owner, sub);
      assert ts[at..] == Tokens(d)[at..] + rest;
      OpensLonger(Tokens(d)[at..], rest, path[|path| - 1], owner, sub);
    }
  }
}
