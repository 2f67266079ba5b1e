/** What a document means as a value of a type, and what document a value is written as, without the codec. */
module JsonMeaning {
  import opened Text
  import opened JsonCodec
  import opened JsonNumbers
  import JsonRoundTrip
  import JsonOrder

  // ---------------------------------------------------------------- the meaning of a document

  predicate InSignedRange(n: int, w: Width) {
    match w
    case W8 => -0x80 <= n < 0x80
    case W16 => -0x8000 <= n < 0x8000
    case W32 => -0x8000_0000 <= n < 0x8000_0000
    case W64 => -0x8000_0000_0000_0000 <= n < 0x8000_0000_0000_0000
  }

  predicate InUnsignedRange(n: int, w: Width) {
    match w
    case W8 => 0 <= n < 0x100
    case W16 => 0 <= n < 0x1_0000
    case W32 => 0 <= n < 0x1_0000_0000
    case W64 => 0 <= n < 0x1_0000_0000_0000_0000
  }

  /** A constant of this name that the encoder can find. */
  predicate Offers(c: Constant, name: string) {
    c.name == name && -64 <= c.value <= 4096
  }

  /** The last constant of this name stands for `n`. */
  ghost predicate StandsFor(constants: seq<Constant>, name: string, n: int) {
    exists i :: 0 <= i < |constants| && Offers(constants[i], name) && constants[i].value == n
                && forall k :: i < k < |constants| ==> !Offers(constants[k], name)
  }

  predicate NoneOffers(constants: seq<Constant>, name: string) {
    forall i :: 0 <= i < |constants| ==> !Offers(constants[i], name)
  }

  /** A document that carries an integer means that integer; another text names a constant, or else carries its label. */
  ghost predicate CarriesEnum(constants: seq<Constant>, labels: map<string, int>, j: Json, n: int) {
    if exists m :: CarriesInteger(j, m) && InSignedRange(m, W64) then CarriesInteger(j, n) && InSignedRange(n, W32)
    else j.JString? && (StandsFor(constants, j.s, n) || (NoneOffers(constants, j.s) && j.s in labels && labels[j.s] == n))
  }

  /** Every key is a field or an annotation that is passed over. */
  ghost predicate KnownKeys(fields: seq<Field>, derived: set<string>, ms: seq<Member>) {
    forall k :: 0 <= k < |ms| ==> ms[k].key in derived || exists i :: 0 <= i < |fields| && fields[i].name == ms[k].key
  }

  ghost predicate HasMember(ms: seq<Member>, key: string) {
    exists k :: 0 <= k < |ms| && ms[k].key == key
  }

  /** Written over `dest`, the document makes it `d`: an absent document leaves it, every other one spells it out. */
  ghost predicate Denotes(t: Type, dest: Datum, j: Json, d: Datum)
    decreases j, t
  {
    if j.JNull? then d == dest
    else
      match t
      case Bool => j.JBool? && d == DBool(j.b)
      case Text => j.JString? && d == DText(j.s)
      case Int(w) => d.DInt? && CarriesInteger(j, d.n) && InSignedRange(d.n, w)
      case Uint(w) => d.DInt? && CarriesNatural(j, d.n) && InUnsignedRange(d.n, w)
      case Enum(constants, labels) => d.DInt? && CarriesEnum(constants, labels, j, d.n)
      case Bytes => d.DBytes? && CarriesBytes(j, d.bs)
      case ByteArray(n) => d.DBytes? && CarriesBytes(j, d.bs) && |d.bs| == n
      case Optional(target) => d.Ptr? && Denotes(target, Zero(target), j, d.target)
      case List(element) =>
        j.JArray? && d.DList? && |d.items| == |j.items|
        && forall i :: 0 <= i < |j.items| ==> Denotes(element, Zero(element), j.items[i], d.items[i])
      case Array(n, item) =>
        j.JArray? && dest.DList? && d.DList? && |j.items| == |dest.items| == |d.items| == n
        && forall i :: 0 <= i < n ==> Denotes(item, dest.items[i], j.items[i], d.items[i])
      case Struct(fields, derived) =>
        j.JObject? && dest.DStruct? && d.DStruct? && |dest.values| == |d.values| == |fields| && KnownKeys(fields, derived, j.members)
        && (forall i :: 0 <= i < |fields| && !HasMember(j.members, fields[i].name) ==> d.values[i] == dest.values[i])
        && forall i, k :: 0 <= i < |fields| && 0 <= k < |j.members| && j.members[k].key == fields[i].name ==>
             Denotes(fields[i].typ, dest.values[i], j.members[k].value, d.values[i])
  }

  /** No object repeats a key. */
  ghost predicate SingleKeys(j: Json) {
    match j
    case JArray(items) => forall i :: 0 <= i < |items| ==> SingleKeys(items[i])
    case JObject(members) => JsonOrder.UniqueKeys(members) && forall k :: 0 <= k < |members| ==> SingleKeys(members[k].value)
    case _ => true
  }

  // ---------------------------------------------------------------- scalars

  lemma {:induction false} LastConstant(constants: seq<Constant>, name: string)
    ensures ValueFor(constants, name).None? <==> NoneOffers(constants, name)
    ensures forall n :: ValueFor(constants, name) == Some(n) <==> StandsFor(constants, name, n)
  {
    if constants != [] {
      var rest := constants[1..];
      LastConstant(rest, name);
      forall n
        ensures ValueFor(constants, name) == Some(n) <==> StandsFor(constants, name, n)
      {
        LastOfMore(constants, name, n);
      }
    }
  }

  /** The first constant stands for its value only when no later one of that name does. */
  lemma LastOfMore(constants: seq<Constant>, name: string, n: int)
    requires constants != []
    ensures StandsFor(constants, name, n) <==>
            StandsFor(constants[1..], name, n)
            || (Offers(constants[0], name) && constants[0].value == n && forall k :: 1 <= k < |constants| ==> !Offers(constants[k], name))
  {
    var rest := constants[1..];
    if StandsFor(constants, name, n) {
      var i :| 0 <= i < |constants| && Offers(constants[i], name) && constants[i].value == n
               && forall k :: i < k < |constants| ==> !Offers(constants[k], name);
      if i > 0 {
        assert rest[i - 1] == constants[i];
      }
    }
    if StandsFor(rest, name, n) {
      var i :| 0 <= i < |rest| && Offers(rest[i], name) && rest[i].value == n && forall k :: i < k < |rest| ==> !Offers(rest[k], name);
      assert constants[i + 1] == rest[i];
      forall k | i + 1 < k < |constants|
        ensures !Offers(constants[k], name)
      {
        assert constants[k] == rest[k - 1];
      }
    }
  }

  lemma EnumIsCarried(t: Type, j: Json, d: Datum)
    requires t.Enum?
    ensures EncodeEnum(t, j) == Some(d) <==> d.DInt? && CarriesEnum(t.constants, t.labels, j, d.n)
  {
    hide InputInt64, CarriesInteger, StandsFor, NoneOffers, ValueFor;
    forall m
      ensures InputInt64(j) == Some(m) <==> CarriesInteger(j, m) && InSignedRange(m, W64)
    {
      IntegerIsInput(j, m);
    }
    if j.JString? {
      LastConstant(t.constants, j.s);
    }
  }

  predicate ScalarType(t: Type) {
    t.Bool? || t.Text? || t.Int? || t.Uint? || t.Enum? || t.Bytes? || t.ByteArray?
  }

  lemma NumberIsCarried(t: Type, dest: Datum, j: Json, d: Datum)
    requires t.Int? || t.Uint?
    ensures Encode(t, dest, j) == Some(d) <==> Denotes(t, dest, j, d)
  {
    hide InputInt64, InputUint64, CarriesInteger, CarriesNatural, EncodeMembers, EncodeItems;
    if d.DInt? && t.Int? {
      IntegerIsInput(j, d.n);
    } else if d.DInt? {
      NaturalIsInput(j, d.n);
    }
  }

  lemma BytesAreCarried(t: Type, dest: Datum, j: Json, d: Datum)
    requires t.Bytes? || t.ByteArray?
    ensures Encode(t, dest, j) == Some(d) <==> Denotes(t, dest, j, d)
  {
    hide DecodeJsonBytes, CarriesBytes, EncodeMembers, EncodeItems;
    if d.DBytes? {
      BytesAreDecoded(j, d.bs);
    }
  }

  lemma ConstantIsCarried(t: Type, dest: Datum, j: Json, d: Datum)
    requires t.Enum? || t.Bool? || t.Text?
    ensures Encode(t, dest, j) == Some(d) <==> Denotes(t, dest, j, d)
  {
    hide EncodeEnum, CarriesEnum, EncodeMembers, EncodeItems;
    if t.Enum? {
      EnumIsCarried(t, j, d);
    }
  }

  /** A scalar document is accepted exactly when it carries a value in the range of the type, and yields that value. */
  lemma ScalarIsCarried(t: Type, dest: Datum, j: Json, d: Datum)
    requires ScalarType(t)
    ensures Encode(t, dest, j) == Some(d) <==> Denotes(t, dest, j, d)
  {
    hide Encode, Denotes;
    if t.Int? || t.Uint? {
      NumberIsCarried(t, dest, j, d);
    } else if t.Bytes? || t.ByteArray? {
      BytesAreCarried(t, dest, j, d);
    } else {
      ConstantIsCarried(t, dest, j, d);
    }
  }

  // ---------------------------------------------------------------- every document

  lemma {:induction false} ZeroIsTyped(t: Type)
    ensures Typed(t, Zero(t))
  {
    match t
    case Struct(fields, _) =>
      ZeroFieldsAt(fields);
      forall i | 0 <= i < |fields|
        ensures Typed(fields[i].typ, Zero(fields[i].typ))
      {
        ZeroIsTyped(fields[i].typ);
      }
    case Array(n, item) =>
      ZeroIsTyped(item);
      CopiesAt(n, Zero(item));
    case ByteArray(n) => ZerosAt(n);
    case _ =>
  }

  lemma {:induction false} ZeroFieldsAt(fields: seq<Field>)
    ensures |ZeroFields(fields)| == |fields|
    ensures forall i :: 0 <= i < |fields| ==> ZeroFields(fields)[i] == Zero(fields[i].typ)
  {
    hide Zero;
    if fields != [] {
      ZeroFieldsAt(fields[1..]);
    }
  }

  lemma {:induction false} CopiesAt(n: nat, d: Datum)
    ensures forall i :: 0 <= i < n ==> Copies(n, d)[i] == d
  {
    if n > 0 {
      CopiesAt(n - 1, d);
    }
  }

  lemma {:induction false} ZerosAt(n: nat)
    ensures |Zeros(n)| == n
  {
    if n > 0 {
      ZerosAt(n - 1);
    }
  }

  lemma {:induction false} ItemsAreEncoded(element: Type, dest: seq<Datum>, items: seq<Json>, ds: seq<Datum>)
    requires |dest| == |items|
    requires forall i, d :: 0 <= i < |items| ==> (Encode(element, dest[i], items[i]) == Some(d) <==> Denotes(element, dest[i], items[i], d))
    ensures EncodeItems(element, dest, items) == Some(ds) <==>
            |ds| == |items| && forall i :: 0 <= i < |items| ==> Denotes(element, dest[i], items[i], ds[i])
    decreases |items|
  {
    hide Encode, Denotes;
    if items != [] && ds != [] {
      var restDest, rest, tail := dest[1..], items[1..], ds[1..];
      ItemsAreEncoded(element, restDest, rest, tail);
      assert ds == [ds[0]] + tail;
      var head, more := Encode(element, dest[0], items[0]), EncodeItems(element, restDest, rest);
      assert head.Some? && more.Some? ==> ([head.value] + more.value)[1..] == more.value;
      if Denotes(element, dest[0], items[0], ds[0]) && |tail| == |rest| && forall i :: 0 <= i < |rest| ==> Denotes(element, restDest[i], rest[i], tail[i]) {
        forall i | 0 <= i < |items|
          ensures Denotes(element, dest[i], items[i], ds[i])
        {
          if i > 0 {
            assert Denotes(element, restDest[i - 1], rest[i - 1], tail[i - 1]);
          }
        }
        assert more == Some(tail);
        assert head == Some(ds[0]);
        assert EncodeItems(element, dest, items) == Some([ds[0]] + tail);
      }
    }
  }

  /** What a member means for its field is what the encoder writes there. */
  ghost predicate MemberIsExact(fields: seq<Field>, dest: seq<Datum>, ms: seq<Member>, i: nat, k: nat)
    requires i < |fields| && i < |dest| && k < |ms|
  {
    forall d :: Encode(fields[i].typ, dest[i], ms[k].value) == Some(d) <==> Denotes(fields[i].typ, dest[i], ms[k].value, d)
  }

  ghost predicate FieldsDenote(fields: seq<Field>, dest: seq<Datum>, ms: seq<Member>, values: seq<Datum>)
    requires |dest| == |values| == |fields|
  {
    (forall i :: 0 <= i < |fields| && !HasMember(ms, fields[i].name) ==> values[i] == dest[i])
    && forall i, k :: 0 <= i < |fields| && 0 <= k < |ms| && ms[k].key == fields[i].name ==> Denotes(fields[i].typ, dest[i], ms[k].value, values[i])
  }

  ghost predicate MembersExact(fields: seq<Field>, dest: seq<Datum>, ms: seq<Member>)
    requires |dest| == |fields|
  {
    DistinctFields(fields) && JsonOrder.UniqueKeys(ms)
    && forall i, k :: 0 <= i < |fields| && 0 <= k < |ms| && ms[k].key == fields[i].name ==> MemberIsExact(fields, dest, ms, i, k)
  }

  lemma KeyIsField(fields: seq<Field>, key: string)
    ensures FieldIndex(fields, key) < |fields| <==> exists i :: 0 <= i < |fields| && fields[i].name == key
  {
    if FieldIndex(fields, key) == |fields| {
      forall i | 0 <= i < |fields|
        ensures fields[i].name != key
      {
        NoSuchField(fields, key, i);
      }
    }
  }

  lemma {:induction false} NoSuchField(fields: seq<Field>, key: string, i: nat)
    requires FieldIndex(fields, key) == |fields| && i < |fields|
    ensures fields[i].name != key
  {
    if i > 0 {
      NoSuchField(fields[1..], key, i - 1);
    }
  }

  /** Each slot of the result is what its member denotes, or untouched. */
  lemma SlotDenotes(fields: seq<Field>, derived: set<string>, dest: seq<Datum>, ms: seq<Member>, i: nat, d: Datum)
    requires |dest| == |fields| && MembersExact(fields, dest, ms) && i < |fields|
    requires forall k :: 0 <= k < |ms| ==> JsonOrder.Accepted(fields, derived, dest, ms[k])
    ensures JsonOrder.Slot(fields, dest, ms, i) == d <==>
            (!HasMember(ms, fields[i].name) ==> d == dest[i])
            && forall k :: 0 <= k < |ms| && ms[k].key == fields[i].name ==> Denotes(fields[i].typ, dest[i], ms[k].value, d)
  {
    hide Encode, Denotes, FieldIndex, JsonOrder.Slot;
    JsonRoundTrip.FieldAt(fields, i);
    if HasMember(ms, fields[i].name) {
      var k :| 0 <= k < |ms| && ms[k].key == fields[i].name;
      JsonOrder.SlotAt(fields, dest, ms, i, k);
      assert JsonOrder.Accepted(fields, derived, dest, ms[k]);
      assert MemberIsExact(fields, dest, ms, i, k);
      var x := Encode(fields[i].typ, dest[i], ms[k].value);
      assert x.Some?;
      assert Denotes(fields[i].typ, dest[i], ms[k].value, d) <==> x == Some(d);
    } else {
      forall k | 0 <= k < |ms|
        ensures FieldIndex(fields, ms[k].key) != i
      {
        assert ms[k].key != fields[i].name;
      }
      JsonOrder.SlotUntouched(fields, dest, ms, i);
    }
  }

  lemma MembersAccepted(fields: seq<Field>, derived: set<string>, dest: seq<Datum>, ms: seq<Member>, values: seq<Datum>)
    requires |dest| == |values| == |fields| && MembersExact(fields, dest, ms)
    requires KnownKeys(fields, derived, ms) && FieldsDenote(fields, dest, ms, values)
    ensures forall k :: 0 <= k < |ms| ==> JsonOrder.Accepted(fields, derived, dest, ms[k])
  {
    hide Encode, Denotes, FieldIndex;
    forall k | 0 <= k < |ms|
      ensures JsonOrder.Accepted(fields, derived, dest, ms[k])
    {
      KeyIsField(fields, ms[k].key);
      var i := FieldIndex(fields, ms[k].key);
      if i < |fields| {
        assert MemberIsExact(fields, dest, ms, i, k);
        assert Denotes(fields[i].typ, dest[i], ms[k].value, values[i]);
      }
    }
  }

  lemma AcceptedKeysAreKnown(fields: seq<Field>, derived: set<string>, dest: seq<Datum>, ms: seq<Member>)
    requires forall k :: 0 <= k < |ms| ==> JsonOrder.Accepted(fields, derived, dest, ms[k])
    ensures KnownKeys(fields, derived, ms)
  {
    hide Encode, FieldIndex;
    forall k | 0 <= k < |ms|
      ensures ms[k].key in derived || exists i :: 0 <= i < |fields| && fields[i].name == ms[k].key
    {
      assert JsonOrder.Accepted(fields, derived, dest, ms[k]);
      KeyIsField(fields, ms[k].key);
    }
  }

  /** An object is accepted exactly when it means something, and makes of the fields what it means. */
  lemma MembersAreEncoded(fields: seq<Field>, derived: set<string>, dest: seq<Datum>, ms: seq<Member>, values: seq<Datum>)
    requires |dest| == |fields| && MembersExact(fields, dest, ms)
    ensures EncodeMembers(fields, derived, dest, ms) == Some(values) <==>
            |values| == |fields| && KnownKeys(fields, derived, ms) && FieldsDenote(fields, dest, ms, values)
  {
    hide Encode, Denotes, FieldIndex, JsonOrder.Slot, EncodeMembers, MembersExact, KnownKeys, JsonOrder.Accepted;
    assert JsonOrder.UniqueKeys(ms) by {
      KeysAreUnique(fields, dest, ms);
    }
    JsonOrder.MembersAreIndependent(fields, derived, dest, ms);
    if |values| == |fields| {
      if KnownKeys(fields, derived, ms) && FieldsDenote(fields, dest, ms, values) {
        MembersAccepted(fields, derived, dest, ms, values);
      }
      if forall k :: 0 <= k < |ms| ==> JsonOrder.Accepted(fields, derived, dest, ms[k]) {
        AcceptedKeysAreKnown(fields, derived, dest, ms);
        SlotsDenote(fields, derived, dest, ms, values);
        var r := EncodeMembers(fields, derived, dest, ms);
        assert r.Some? && |r.value| == |fields|;
        assert r.value == values <==> forall i :: 0 <= i < |fields| ==> JsonOrder.Slot(fields, dest, ms, i) == values[i];
      }
    }
  }

  lemma KeysAreUnique(fields: seq<Field>, dest: seq<Datum>, ms: seq<Member>)
    requires |dest| == |fields| && MembersExact(fields, dest, ms)
    ensures JsonOrder.UniqueKeys(ms)
  {
  }

  lemma SlotsDenote(fields: seq<Field>, derived: set<string>, dest: seq<Datum>, ms: seq<Member>, values: seq<Datum>)
    requires |dest| == |values| == |fields| && MembersExact(fields, dest, ms)
    requires forall k :: 0 <= k < |ms| ==> JsonOrder.Accepted(fields, derived, dest, ms[k])
    ensures (forall i :: 0 <= i < |fields| ==> JsonOrder.Slot(fields, dest, ms, i) == values[i]) <==> FieldsDenote(fields, dest, ms, values)
  {
    hide Denotes, JsonOrder.Slot, MembersExact, JsonOrder.Accepted, HasMember;
    forall i | 0 <= i < |fields|
      ensures JsonOrder.Slot(fields, dest, ms, i) == values[i] <==>
              (!HasMember(ms, fields[i].name) ==> values[i] == dest[i])
              && forall k :: 0 <= k < |ms| && ms[k].key == fields[i].name ==> Denotes(fields[i].typ, dest[i], ms[k].value, values[i])
    {
      SlotDenotes(fields, derived, dest, ms, i, values[i]);
    }
  }

  /** The encoder accepts exactly the documents that mean a value of the type, and yields that value. */
  lemma {:induction false} EncodingIsMeaning(t: Type, dest: Datum, j: Json, d: Datum)
    requires WellFormed(t) && Typed(t, dest) && SingleKeys(j)
    ensures Encode(t, dest, j) == Some(d) <==> Denotes(t, dest, j, d)
    decreases j, t
  {
    hide Encode, Denotes, WellFormed, Typed, SingleKeys;
    if j.JNull? || (t.Struct? && !j.JObject?) || ((t.List? || t.Array?) && !j.JArray?) {
      OtherKinds(t, dest, j, d);
    } else if ScalarType(t) {
      ScalarIsCarried(t, dest, j, d);
    } else if t.Optional? {
      OptionalIsMeaning(t, dest, j, d);
    } else if t.Struct? {
      ObjectIsMeaning(t, dest, j, d);
    } else {
      ArrayIsMeaning(t, dest, j, d);
    }
  }

  /** An absent document keeps what is there; a document of another kind is refused. */
  lemma OtherKinds(t: Type, dest: Datum, j: Json, d: Datum)
    requires j.JNull? || (t.Struct? && !j.JObject?) || ((t.List? || t.Array?) && !j.JArray?)
    ensures Encode(t, dest, j) == Some(d) <==> Denotes(t, dest, j, d)
  {
    hide KnownKeys, HasMember, EncodeMembers, EncodeItems;
  }

  lemma {:induction false} OptionalIsMeaning(t: Type, dest: Datum, j: Json, d: Datum)
    requires t.Optional? && !j.JNull? && WellFormed(t) && SingleKeys(j)
    ensures Encode(t, dest, j) == Some(d) <==> Denotes(t, dest, j, d)
    decreases j, t, 0
  {
    hide Zero, SingleKeys;
    ZeroIsTyped(t.target);
    if d.Ptr? {
      EncodingIsMeaning(t.target, Zero(t.target), j, d.target);
    }
  }

  lemma {:induction false} ArrayIsMeaning(t: Type, dest: Datum, j: Json, d: Datum)
    requires (t.List? || t.Array?) && j.JArray? && WellFormed(t) && Typed(t, dest) && SingleKeys(j)
    ensures Encode(t, dest, j) == Some(d) <==> Denotes(t, dest, j, d)
    decreases j, t, 1
  {
    hide EncodeItems, Copies, Zero;
    if t.List? {
      ZeroIsTyped(t.element);
      CopiesAt(|j.items|, Zero(t.element));
      ListIsMeaning(t.element, Copies(|j.items|, Zero(t.element)), j, d);
    } else if |dest.items| == |j.items| {
      ListIsMeaning(t.item, dest.items, j, d);
    }
  }

  lemma {:induction false} ListIsMeaning(element: Type, dest: seq<Datum>, j: Json, d: Datum)
    requires j.JArray? && |dest| == |j.items| && WellFormed(element) && SingleKeys(j)
    requires forall i :: 0 <= i < |dest| ==> Typed(element, dest[i])
    ensures d.DList? ==>
              (EncodeItems(element, dest, j.items) == Some(d.items) <==>
               |d.items| == |j.items| && forall i :: 0 <= i < |j.items| ==> Denotes(element, dest[i], j.items[i], d.items[i]))
    decreases j, element, 0
  {
    hide Encode, Denotes, EncodeItems, Typed, WellFormed;
    if d.DList? {
      forall i, x | 0 <= i < |j.items|
        ensures Encode(element, dest[i], j.items[i]) == Some(x) <==> Denotes(element, dest[i], j.items[i], x)
      {
        EncodingIsMeaning(element, dest[i], j.items[i], x);
      }
      ItemsAreEncoded(element, dest, j.items, d.items);
    }
  }

  lemma {:induction false} ObjectIsMeaning(t: Type, dest: Datum, j: Json, d: Datum)
    requires t.Struct? && j.JObject? && WellFormed(t) && Typed(t, dest) && SingleKeys(j)
    ensures Encode(t, dest, j) == Some(d) <==> Denotes(t, dest, j, d)
    decreases j, t, 0
  {
    hide EncodeMembers, KnownKeys, HasMember;
    var fields, ms := t.fields, j.members;
    forall i, k | 0 <= i < |fields| && 0 <= k < |ms| && ms[k].key == fields[i].name
      ensures MemberIsExact(fields, dest.values, ms, i, k)
    {
      forall x
        ensures Encode(fields[i].typ, dest.values[i], ms[k].value) == Some(x) <==> Denotes(fields[i].typ, dest.values[i], ms[k].value, x)
      {
        EncodingIsMeaning(fields[i].typ, dest.values[i], ms[k].value, x);
      }
    }
    if d.DStruct? {
      MembersAreEncoded(fields, t.derived, dest.values, ms, d.values);
      ObjectUnfolds(t, dest, j, d);
    }
  }

  lemma ObjectUnfolds(t: Type, dest: Datum, j: Json, d: Datum)
    requires t.Struct? && j.JObject? && dest.DStruct? && d.DStruct? && |dest.values| == |t.fields|
    ensures Denotes(t, dest, j, d) <==>
            |d.values| == |t.fields| && KnownKeys(t.fields, t.derived, j.members) && FieldsDenote(t.fields, dest.values, j.members, d.values)
    ensures Encode(t, dest, j) == Some(d) <==> EncodeMembers(t.fields, t.derived, dest.values, j.members) == Some(d.values)
  {
    hide EncodeMembers, KnownKeys, HasMember;
  }

  // ---------------------------------------------------------------- what is accepted has the type

  /** The labels of every enumeration fit its 32 bits. */
  predicate LabelsFit(t: Type) {
    match t
    case Enum(_, labels) => forall name :: name in labels ==> InSignedRange(labels[name], W32)
    case Struct(fields, _) => forall i :: 0 <= i < |fields| ==> LabelsFit(fields[i].typ)
    case List(element) => LabelsFit(element)
    case Array(_, item) => LabelsFit(item)
    case Optional(target) => LabelsFit(target)
    case _ => true
  }

  lemma {:induction false} ConstantFits(constants: seq<Constant>, name: string)
    requires ValueFor(constants, name).Some?
    ensures InSignedRange(ValueFor(constants, name).value, W32)
  {
    if ValueFor(constants[1..], name).Some? {
      ConstantFits(constants[1..], name);
    }
  }

  lemma EnumIsTyped(t: Type, j: Json)
    requires t.Enum? && LabelsFit(t) && EncodeEnum(t, j).Some?
    ensures Typed(t, EncodeEnum(t, j).value)
  {
    hide InputInt64, ValueFor;
    if j.JString? && ValueFor(t.constants, j.s).Some? {
      ConstantFits(t.constants, j.s);
    }
  }

  lemma ScalarIsTyped(t: Type, dest: Datum, j: Json)
    requires ScalarType(t) && LabelsFit(t) && !j.JNull? && Encode(t, dest, j).Some?
    ensures Typed(t, Encode(t, dest, j).value)
  {
    hide InputInt64, InputUint64, DecodeJsonBytes, EncodeEnum, LabelsFit;
    if t.Enum? {
      EnumIsTyped(t, j);
    }
  }

  /** Whatever the document, what is accepted is a value of the type. */
  lemma {:induction false} AcceptedIsTyped(t: Type, dest: Datum, j: Json)
    requires LabelsFit(t) && Typed(t, dest) && Encode(t, dest, j).Some?
    ensures Typed(t, Encode(t, dest, j).value)
    decreases j, t
  {
    hide EncodeItems, EncodeMembers, EncodeEnum, DecodeJsonBytes, InputInt64, InputUint64, Copies, Zero, FieldIndex;
    if !j.JNull? {
      if ScalarType(t) {
        ScalarIsTyped(t, dest, j);
      } else if t.Optional? {
        ZeroIsTyped(t.target);
        AcceptedIsTyped(t.target, Zero(t.target), j);
      } else if t.Struct? {
        MembersAreTyped(t, dest.values, j, 0);
        assert j.members[0..] == j.members;
      } else if t.List? {
        ZeroIsTyped(t.element);
        CopiesAt(|j.items|, Zero(t.element));
        ItemsAreTyped(t.element, Copies(|j.items|, Zero(t.element)), j.items, j);
      } else {
        ItemsAreTyped(t.item, dest.items, j.items, j);
      }
    }
  }

  lemma {:induction false} MembersAreTyped(t: Type, dest: seq<Datum>, j: Json, k: nat)
    requires t.Struct? && j.JObject? && k <= |j.members| && |dest| == |t.fields|
    requires forall i :: 0 <= i < |t.fields| ==> LabelsFit(t.fields[i].typ) && Typed(t.fields[i].typ, dest[i])
    requires EncodeMembers(t.fields, t.derived, dest, j.members[k..]).Some?
    ensures var values := EncodeMembers(t.fields, t.derived, dest, j.members[k..]).value;
            |values| == |t.fields| && forall i :: 0 <= i < |t.fields| ==> Typed(t.fields[i].typ, values[i])
    decreases j, t, |j.members| - k
  {
    hide Encode, FieldIndex, Typed, LabelsFit;
    if k < |j.members| {
      var m := j.members[k];
      assert j.members[k..][0] == m && j.members[k..][1..] == j.members[k + 1..];
      var i := FieldIndex(t.fields, m.key);
      if i == |t.fields| {
        MembersAreTyped(t, dest, j, k + 1);
      } else {
        AcceptedIsTyped(t.fields[i].typ, dest[i], m.value);
        MembersAreTyped(t, dest[i := Encode(t.fields[i].typ, dest[i], m.value).value], j, k + 1);
      }
    }
  }

  lemma {:induction false} ItemsAreTyped(element: Type, dest: seq<Datum>, items: seq<Json>, j: Json)
    requires |dest| == |items| && LabelsFit(element) && forall i :: 0 <= i < |dest| ==> Typed(element, dest[i])
    requires forall i :: 0 <= i < |items| ==> items[i] < j
    requires EncodeItems(element, dest, items).Some?
    ensures var ds := EncodeItems(element, dest, items).value;
            |ds| == |items| && forall i :: 0 <= i < |ds| ==> Typed(element, ds[i])
    decreases j, element, |items|
  {
    hide Encode, Typed, LabelsFit;
    if items != [] {
      AcceptedIsTyped(element, dest[0], items[0]);
      ItemsAreTyped(element, dest[1..], items[1..], j);
      var ds := EncodeItems(element, dest, items).value;
      assert ds[1..] == EncodeItems(element, dest[1..], items[1..]).value;
    }
  }
}
