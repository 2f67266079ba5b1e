/** The order of an object's keys, and derived keys, make no difference to what is encoded. */
module JsonOrder {
  import opened Text
  import opened JsonCodec
  import JsonRoundTrip

  predicate UniqueKeys(ms: seq<Member>) {
    forall i, j :: 0 <= i < j < |ms| ==> ms[i].key != ms[j].key
  }

  predicate HasKey(ms: seq<Member>, key: string) {
    exists i :: 0 <= i < |ms| && ms[i].key == key
  }

  /** An annotation rather than a field. */
  predicate Ignored(fields: seq<Field>, derived: set<string>, key: string) {
    FieldIndex(fields, key) == |fields| && key in derived
  }

  /** The two documents differ at most in the order of keys and in the derived keys present. */
  predicate SameDocument(t: Type, a: Json, b: Json)
    decreases a, t
  {
    match t
    case Optional(target) => SameDocument(target, a, b)
    case Struct(fields, derived) =>
      if !a.JObject? || !b.JObject? then a == b
      else
        UniqueKeys(a.members) && UniqueKeys(b.members)
        && (forall i :: 0 <= i < |a.members| ==> Ignored(fields, derived, a.members[i].key) || Matched(fields, a.members[i], b.members))
        && forall j :: 0 <= j < |b.members| ==> Ignored(fields, derived, b.members[j].key) || HasKey(a.members, b.members[j].key)
    case List(element) =>
      if !a.JArray? || !b.JArray? then a == b
      else |a.items| == |b.items| && forall i :: 0 <= i < |a.items| ==> SameDocument(element, a.items[i], b.items[i])
    case Array(_, item) =>
      if !a.JArray? || !b.JArray? then a == b
      else |a.items| == |b.items| && forall i :: 0 <= i < |a.items| ==> SameDocument(item, a.items[i], b.items[i])
    case _ => a == b
  }

  /** Another object has this key, with the same content if it names a field. */
  predicate Matched(fields: seq<Field>, m: Member, others: seq<Member>)
    decreases m
  {
    exists j :: 0 <= j < |others| && others[j].key == m.key &&
                (FieldIndex(fields, m.key) < |fields| ==> SameDocument(fields[FieldIndex(fields, m.key)].typ, m.value, others[j].value))
  }

  // ---------------------------------------------------------------- what each member writes

  predicate Accepted(fields: seq<Field>, derived: set<string>, dest: seq<Datum>, m: Member) {
    var i := FieldIndex(fields, m.key);
    if i == |fields| then m.key in derived else i < |dest| && Encode(fields[i].typ, dest[i], m.value).Some?
  }

  function Written(fields: seq<Field>, dest: seq<Datum>, m: Member, i: nat): Datum
    requires i < |dest|
  {
    if i < |fields| && Encode(fields[i].typ, dest[i], m.value).Some? then Encode(fields[i].typ, dest[i], m.value).value else dest[i]
  }

  /** What ends up in the i-th field. */
  function Slot(fields: seq<Field>, dest: seq<Datum>, ms: seq<Member>, i: nat): Datum
    requires i < |dest|
  {
    if ms == [] then dest[i]
    else if i < |fields| && FieldIndex(fields, ms[0].key) == i then Written(fields, dest, ms[0], i)
    else Slot(fields, dest, ms[1..], i)
  }

  lemma {:induction false} SlotAt(fields: seq<Field>, dest: seq<Datum>, ms: seq<Member>, i: nat, k: nat)
    requires i < |dest| && i < |fields| && k < |ms| && UniqueKeys(ms) && FieldIndex(fields, ms[k].key) == i
    ensures Slot(fields, dest, ms, i) == Written(fields, dest, ms[k], i)
  {
    hide Encode, FieldIndex;
    if k > 0 {
      assert ms[0].key != ms[k].key;
      SlotAt(fields, dest, ms[1..], i, k - 1);
    }
  }

  lemma {:induction false} SlotUntouched(fields: seq<Field>, dest: seq<Datum>, ms: seq<Member>, i: nat)
    requires i < |dest| && forall k :: 0 <= k < |ms| ==> FieldIndex(fields, ms[k].key) != i
    ensures Slot(fields, dest, ms, i) == dest[i]
  {
    if ms != [] {
      SlotUntouched(fields, dest, ms[1..], i);
    }
  }

  /** Members with different keys do not disturb one another. */
  lemma {:induction false} MembersAreIndependent(fields: seq<Field>, derived: set<string>, dest: seq<Datum>, ms: seq<Member>)
    requires UniqueKeys(ms)
    ensures EncodeMembers(fields, derived, dest, ms).Some? <==> forall k :: 0 <= k < |ms| ==> Accepted(fields, derived, dest, ms[k])
    ensures var r := EncodeMembers(fields, derived, dest, ms);
            r.Some? ==> |r.value| == |dest| && forall i :: 0 <= i < |dest| ==> r.value[i] == Slot(fields, dest, ms, i)
    decreases |ms|
  {
    hide Encode, FieldIndex;
    if ms != [] && Accepted(fields, derived, dest, ms[0]) {
      var i, rest := FieldIndex(fields, ms[0].key), ms[1..];
      var next := if i == |fields| then dest else dest[i := Written(fields, dest, ms[0], i)];
      MembersAreIndependent(fields, derived, next, rest);
      forall k | 0 <= k < |rest|
        ensures rest[k] == ms[k + 1] && Accepted(fields, derived, next, rest[k]) == Accepted(fields, derived, dest, rest[k])
      {
        assert rest[k].key != ms[0].key;
      }
      forall j | 0 <= j < |dest|
        ensures Slot(fields, next, rest, j) == Slot(fields, dest, ms, j)
      {
        if j == i && i < |fields| {
          SlotUntouched(fields, next, rest, j);
        } else {
          SlotOfRest(fields, dest, next, rest, j);
        }
      }
    }
  }

  lemma {:induction false} SlotOfRest(fields: seq<Field>, dest: seq<Datum>, next: seq<Datum>, ms: seq<Member>, j: nat)
    requires j < |dest| == |next| && dest[j] == next[j]
    ensures Slot(fields, dest, ms, j) == Slot(fields, next, ms, j)
  {
    hide Encode, FieldIndex;
    if ms != [] {
      SlotOfRest(fields, dest, next, ms[1..], j);
    }
  }

  lemma IgnoredIsAccepted(fields: seq<Field>, derived: set<string>, dest: seq<Datum>, m: Member)
    requires Ignored(fields, derived, m.key)
    ensures Accepted(fields, derived, dest, m)
  {
  }

  // ---------------------------------------------------------------- the theorem

  lemma {:induction false} NullsAlike(t: Type, a: Json, b: Json)
    requires SameDocument(t, a, b)
    ensures a.JNull? <==> b.JNull?
    decreases t
  {
    if t.Optional? {
      NullsAlike(t.target, a, b);
    }
  }

  /** Documents that differ in key order and derived keys only are encoded alike, or refused alike. */
  lemma {:induction false} OrderIsIrrelevant(t: Type, dest: Datum, a: Json, b: Json)
    requires SameDocument(t, a, b)
    ensures Encode(t, dest, a) == Encode(t, dest, b)
    decreases a, t
  {
    hide EncodeMembers, EncodeItems, Zero, UniqueKeys, HasKey, Matched, Ignored, EncodeEnum, DecodeJsonBytes, InputInt64, InputUint64, FitsInt, FitsUint, Copies;
    if a == b {
      return;
    }
    NullsAlike(t, a, b);
    match t
    case Optional(target) => OrderIsIrrelevant(target, Zero(target), a, b);
    case Struct(fields, derived) =>
      if a.JObject? && b.JObject? && dest.DStruct? {
        MembersInAnyOrder(fields, derived, dest.values, a.members, b.members);
      }
    case List(element) =>
      if a.JArray? && b.JArray? {
        ItemsAlike(element, Copies(|a.items|, Zero(element)), a.items, b.items);
      }
    case Array(n, item) =>
      if a.JArray? && b.JArray? && dest.DList? && |dest.items| == n == |a.items| {
        ItemsAlike(item, dest.items, a.items, b.items);
      }
    case _ =>
  }

  /** Whatever order the keys of a value's document are put in, and whatever annotations are added, encoding gives the value. */
  lemma RearrangedTripCollapses(t: Type, d: Datum, j: Json)
    requires WellFormed(t) && Typed(t, d) && Nesting(d) <= MAX_DEPTH
    requires SameDocument(t, DocumentOf(BuildNode("", t, d, 0)), j)
    ensures Encode(t, Zero(t), j) == Some(Collapsed(d))
  {
    hide WellFormed, Typed, Nesting, SameDocument, BuildNode, Encode, Zero, Collapsed;
    OrderIsIrrelevant(t, Zero(t), DocumentOf(BuildNode("", t, d, 0)), j);
    JsonRoundTrip.TripCollapses("", t, d, 0);
  }

  lemma {:induction false} ItemsAlike(element: Type, dest: seq<Datum>, items: seq<Json>, others: seq<Json>)
    requires |dest| == |items| == |others| && forall i :: 0 <= i < |items| ==> SameDocument(element, items[i], others[i])
    ensures EncodeItems(element, dest, items) == EncodeItems(element, dest, others)
    decreases items
  {
    hide Encode, SameDocument;
    if items != [] {
      OrderIsIrrelevant(element, dest[0], items[0], others[0]);
      ItemsAlike(element, dest[1..], items[1..], others[1..]);
    }
  }

  /** Two members under one key write the same. */
  lemma PairAlike(fields: seq<Field>, derived: set<string>, dest: seq<Datum>, a: Member, b: Member)
    requires a.key == b.key
    requires FieldIndex(fields, a.key) < |fields| ==> SameDocument(fields[FieldIndex(fields, a.key)].typ, a.value, b.value)
    ensures Accepted(fields, derived, dest, a) == Accepted(fields, derived, dest, b)
    ensures forall i :: 0 <= i < |dest| && i == FieldIndex(fields, a.key) ==> Written(fields, dest, a, i) == Written(fields, dest, b, i)
    decreases a, 0
  {
    hide Encode, FieldIndex, SameDocument;
    var i := FieldIndex(fields, a.key);
    if i < |fields| && i < |dest| {
      OrderIsIrrelevant(fields[i].typ, dest[i], a.value, b.value);
    }
  }

  lemma {:induction false} MembersInAnyOrder(fields: seq<Field>, derived: set<string>, dest: seq<Datum>, ms: seq<Member>, others: seq<Member>)
    requires UniqueKeys(ms) && UniqueKeys(others)
    requires forall i :: 0 <= i < |ms| ==> Ignored(fields, derived, ms[i].key) || Matched(fields, ms[i], others)
    requires forall j :: 0 <= j < |others| ==> Ignored(fields, derived, others[j].key) || HasKey(ms, others[j].key)
    ensures EncodeMembers(fields, derived, dest, ms) == EncodeMembers(fields, derived, dest, others)
    decreases ms
  {
    hide Encode, EncodeMembers, FieldIndex, SameDocument, Slot, Accepted, Written;
    MembersAreIndependent(fields, derived, dest, ms);
    MembersAreIndependent(fields, derived, dest, others);
    forall i, j | 0 <= i < |ms| && 0 <= j < |others| && ms[i].key == others[j].key
      ensures Ignored(fields, derived, ms[i].key) || Accepted(fields, derived, dest, ms[i]) == Accepted(fields, derived, dest, others[j])
    {
      if !Ignored(fields, derived, ms[i].key) {
        PairAlike(fields, derived, dest, ms[i], others[j]);
      }
    }
    forall m: Member | Ignored(fields, derived, m.key)
      ensures Accepted(fields, derived, dest, m)
    {
      IgnoredIsAccepted(fields, derived, dest, m);
    }
    forall j | 0 <= j < |dest|
      ensures Slot(fields, dest, ms, j) == Slot(fields, dest, others, j)
    {
      SlotInAnyOrder(fields, derived, dest, ms, others, j);
    }
    var r, s := EncodeMembers(fields, derived, dest, ms), EncodeMembers(fields, derived, dest, others);
    if r.Some? {
      forall j | 0 <= j < |others|
        ensures Accepted(fields, derived, dest, others[j])
      {
        if !Ignored(fields, derived, others[j].key) {
          var i :| 0 <= i < |ms| && ms[i].key == others[j].key;
        }
      }
    }
    if s.Some? {
      forall i | 0 <= i < |ms|
        ensures Accepted(fields, derived, dest, ms[i])
      {
        if !Ignored(fields, derived, ms[i].key) {
          var j :| 0 <= j < |others| && others[j].key == ms[i].key;
        }
      }
    }
    if r.Some? {
      assert r.value == s.value;
    }
  }

  lemma {:induction false} SlotInAnyOrder(fields: seq<Field>, derived: set<string>, dest: seq<Datum>, ms: seq<Member>, others: seq<Member>, j: nat)
    requires j < |dest| && UniqueKeys(ms) && UniqueKeys(others)
    requires forall i :: 0 <= i < |ms| ==> Ignored(fields, derived, ms[i].key) || Matched(fields, ms[i], others)
    requires forall k :: 0 <= k < |others| ==> Ignored(fields, derived, others[k].key) || HasKey(ms, others[k].key)
    ensures Slot(fields, dest, ms, j) == Slot(fields, dest, others, j)
    decreases ms, 0
  {
    hide Encode, FieldIndex, SameDocument, Slot, Written, Accepted;
    if j >= |fields| {
      SlotBeyond(fields, dest, ms, j);
      SlotBeyond(fields, dest, others, j);
    } else if i :| 0 <= i < |ms| && FieldIndex(fields, ms[i].key) == j {
      var k :| 0 <= k < |others| && others[k].key == ms[i].key && SameDocument(fields[j].typ, ms[i].value, others[k].value);
      PairAlike(fields, derived, dest, ms[i], others[k]);
      SlotAt(fields, dest, ms, j, i);
      SlotAt(fields, dest, others, j, k);
    } else {
      SlotUntouched(fields, dest, ms, j);
      forall k | 0 <= k < |others|
        ensures FieldIndex(fields, others[k].key) != j
      {
        if FieldIndex(fields, others[k].key) == j {
          assert false;
        }
      }
      SlotUntouched(fields, dest, others, j);
    }
  }

  lemma {:induction false} SlotBeyond(fields: seq<Field>, dest: seq<Datum>, ms: seq<Member>, j: nat)
    requires |fields| <= j < |dest|
    ensures Slot(fields, dest, ms, j) == dest[j]
  {
    if ms != [] {
      SlotBeyond(fields, dest, ms[1..], j);
    }
  }
}
