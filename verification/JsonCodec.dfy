/** The structural JSON of a value and its encoding back, over a universe of value types. */
module JsonCodec {
  import opened Text
  import Tree

  // ---------------------------------------------------------------- types, values and documents

  datatype Width = W8 | W16 | W32 | W64

  datatype Constant = Constant(name: string, value: int)

  datatype Field = Field(name: string, typ: Type)

  /**
   * A type of values. Recursive types are covered by their unfoldings: a value is finite, and
   * the type below an absent pointer is never looked at.
   */
  datatype Type =
    | Bool
    | Int(width: Width)
    | Uint(width: Width)
    | Text
    | Bytes
    | ByteArray(length: nat)
    | Enum(constants: seq<Constant>, labels: map<string, int>)
    | Struct(fields: seq<Field>, derived: set<string>)
    | List(element: Type)
    | Array(count: nat, item: Type)
    | Optional(target: Type)

  /** A value; `Nil` is the absent slice or pointer. */
  datatype Datum =
    | DBool(b: bool)
    | DInt(n: int)
    | DText(s: string)
    | DBytes(bs: seq<Byte>)
    | DStruct(values: seq<Datum>)
    | DList(items: seq<Datum>)
    | Nil
    | Ptr(target: Datum)

  /** A parsed document; numbers that are not integers are never accepted here. */
  datatype Json =
    | JNull
    | JBool(b: bool)
    | JNumber(n: int)
    | JFraction(r: real)
    | JString(s: string)
    | JArray(items: seq<Json>)
    | JObject(members: seq<Member>)

  /** One key of an object, in the order in which the object is visited. */
  datatype Member = Member(key: string, value: Json)

  const MAX_DEPTH: nat := 200

  function MaxInt(w: Width): nat {
    match w case W8 => 0x7f case W16 => 0x7fff case W32 => 0x7fff_ffff case W64 => 0x7fff_ffff_ffff_ffff
  }

  predicate FitsInt(n: int, w: Width) { 0 - MaxInt(w) - 1 <= n <= MaxInt(w) }

  predicate FitsUint(n: int, w: Width) { 0 <= n <= 2 * MaxInt(w) + 1 }

  predicate DistinctFields(fields: seq<Field>) {
    forall i, j :: 0 <= i < j < |fields| ==> fields[i].name != fields[j].name
  }

  /**
   * Fields have distinct non-empty names. Enum constants have distinct names that do not read as
   * numbers, distinct values, and lie in the range the encoder probes.
   */
  predicate WellFormed(t: Type) {
    match t
    case Enum(constants, _) =>
      (forall i :: 0 <= i < |constants| ==> constants[i].name != "" && ParseInt(Trim(constants[i].name)).None? && Probed(constants[i].value))
      && forall i, j :: 0 <= i < j < |constants| ==> constants[i].name != constants[j].name && constants[i].value != constants[j].value
    case Struct(fields, _) =>
      DistinctFields(fields) && forall i :: 0 <= i < |fields| ==> fields[i].name != "" && WellFormed(fields[i].typ)
    case List(element) => WellFormed(element)
    case Array(_, item) => WellFormed(item)
    case Optional(target) => WellFormed(target)
    case _ => true
  }

  predicate Probed(n: int) { -64 <= n <= 4096 }

  predicate Typed(t: Type, d: Datum)
    decreases d, t
  {
    match t
    case Bool => d.DBool?
    case Int(w) => d.DInt? && FitsInt(d.n, w)
    case Uint(w) => d.DInt? && FitsUint(d.n, w)
    case Text => d.DText?
    case Bytes => d.DBytes? || d.Nil?
    case ByteArray(n) => d.DBytes? && |d.bs| == n
    case Enum(_, _) => d.DInt? && FitsInt(d.n, W32)
    case Struct(fields, _) => d.DStruct? && |d.values| == |fields| && forall i :: 0 <= i < |fields| ==> Typed(fields[i].typ, d.values[i])
    case List(element) => d.Nil? || (d.DList? && forall i :: 0 <= i < |d.items| ==> Typed(element, d.items[i]))
    case Array(n, item) => d.DList? && |d.items| == n && forall i :: 0 <= i < n ==> Typed(item, d.items[i])
    case Optional(target) => d.Nil? || (d.Ptr? && Typed(target, d.target))
  }

  // ---------------------------------------------------------------- text forms

  /** The characters of Unicode that are white space. */
  predicate IsBlank(c: char) {
    9 <= c as int <= 13 || 0x2000 <= c as int <= 0x200A
    || c as int in {0x20, 0x85, 0xA0, 0x1680, 0x2028, 0x2029, 0x202F, 0x205F, 0x3000}
  }

  function TrimLeft(s: string): string {
    if s != "" && IsBlank(s[0]) then TrimLeft(s[1..]) else s
  }

  function TrimRight(s: string): string {
    if s != "" && IsBlank(s[|s| - 1]) then TrimRight(s[..|s| - 1]) else s
  }

  function Trim(s: string): string {
    TrimRight(TrimLeft(s))
  }

  function ParseUint(s: string): Option<int> {
    if s == "" || !AllDigits(s) || !FitsUint(ScanDigits(s, 0), W64) then None else Some(ScanDigits(s, 0))
  }

  function ParseInt(s: string): Option<int> {
    var digits := if s != "" && s[0] in "+-" then s[1..] else s;
    if digits == "" || !AllDigits(digits) then None
    else
      var n := if s[0] == '-' then 0 - ScanDigits(digits, 0) else ScanDigits(digits, 0);
      if FitsInt(n, W64) then Some(n) else None
  }

  function InputInt64(j: Json): Option<int> {
    match j
    case JNumber(n) => if FitsInt(n, W64) then Some(n) else None
    case JString(s) => ParseInt(Trim(s))
    case _ => None
  }

  function InputUint64(j: Json): Option<int> {
    match j
    case JNumber(n) => if FitsUint(n, W64) then Some(n) else None
    case JString(s) => ParseUint(Trim(s))
    case _ => None
  }

  function HexDigit(n: nat): char
    requires n < 16
  {
    if n < 10 then ('0' as int + n) as char else ('a' as int + (n - 10)) as char
  }

  function Hex(bs: seq<Byte>): string {
    if bs == [] then "" else [HexDigit(bs[0] / 16), HexDigit(bs[0] % 16)] + Hex(bs[1..])
  }

  function HexValue(c: char): Option<nat> {
    if '0' <= c <= '9' then Some(c as int - '0' as int)
    else if 'a' <= c <= 'f' then Some(c as int - 'a' as int + 10)
    else if 'A' <= c <= 'F' then Some(c as int - 'A' as int + 10)
    else None
  }

  function Unhex(s: string): Option<seq<Byte>> {
    if s == "" then Some([])
    else if |s| == 1 || HexValue(s[0]).None? || HexValue(s[1]).None? || Unhex(s[2..]).None? then None
    else
      var high, low := HexValue(s[0]).value, HexValue(s[1]).value;
      if high < 16 && low < 16 then Some([16 * high + low] + Unhex(s[2..]).value) else None
  }

  function WithoutPrefix(s: string, prefix: string): string {
    if prefix <= s then s[|prefix|..] else s
  }

  function DecodeItems(items: seq<Json>): Option<seq<Byte>> {
    if items == [] then Some([])
    else
      var n, rest := InputUint64(items[0]), DecodeItems(items[1..]);
      if n.None? || n.value < 0 || n.value > 255 || rest.None? then None else Some([n.value] + rest.value)
  }

  /** Bytes given as a hex string or as a list of numbers. */
  function DecodeJsonBytes(j: Json): Option<seq<Byte>> {
    match j
    case JString(s) => Unhex(WithoutPrefix(WithoutPrefix(Trim(s), "0x"), "0X"))
    case JArray(items) => DecodeItems(items)
    case _ => None
  }

  // ---------------------------------------------------------------- building the tree

  function NameOf(constants: seq<Constant>, n: int): string {
    if constants == [] then "" else if constants[0].value == n then constants[0].name else NameOf(constants[1..], n)
  }

  function Leaf(name: string, value: Tree.Value): Option<Tree.Node> {
    Some(Tree.Scalar(name, "", "", value))
  }

  /** The tree of a value; an absent value has none. */
  function BuildNode(name: string, t: Type, d: Datum, depth: nat): (n: Option<Tree.Node>)
    requires Typed(t, d)
    ensures n.Some? ==> n.value.name == name
    decreases d, t
  {
    if depth > MAX_DEPTH then Leaf(name, Tree.Str("<max depth exceeded>"))
    else
      match d
      case Nil => None
      case Ptr(target) => BuildNode(name, t.target, target, depth)
      case DBool(b) => Leaf(name, Tree.Boolean(b))
      case DInt(n) => if t.Enum? && NameOf(t.constants, n) != "" then Leaf(name, Tree.Str(NameOf(t.constants, n))) else Leaf(name, Tree.Num(n))
      case DText(s) => Leaf(name, Tree.Str(s))
      case DBytes(bs) => Leaf(name, Tree.Str(Hex(bs)))
      case DStruct(values) => Some(Tree.Struct(name, "", "", BuildFields(t.fields, values, depth + 1)))
      case DList(items) => Some(Tree.List(name, "", "", BuildItems(if t.List? then t.element else t.item, items, depth + 1)))
  }

  function BuildFields(fields: seq<Field>, values: seq<Datum>, depth: nat): seq<Tree.Node>
    requires |values| == |fields| && forall i :: 0 <= i < |fields| ==> Typed(fields[i].typ, values[i])
    decreases values
  {
    if fields == [] then []
    else
      var child, rest := BuildNode(fields[0].name, fields[0].typ, values[0], depth), BuildFields(fields[1..], values[1..], depth);
      if child.None? then rest else [child.value] + rest
  }

  function BuildItems(element: Type, items: seq<Datum>, depth: nat): seq<Tree.Node>
    requires forall i :: 0 <= i < |items| ==> Typed(element, items[i])
    decreases items
  {
    if items == [] then []
    else
      var child := BuildNode("", element, items[0], depth);
      [if child.None? then Tree.Scalar("", "", "", Tree.Nil) else child.value] + BuildItems(element, items[1..], depth)
  }

  // ---------------------------------------------------------------- the document of a tree

  function ScalarJson(v: Tree.Value): Json {
    match v
    case Nil => JNull
    case Str(s) => JString(s)
    case Num(n) => JNumber(n)
    case Float(r) => JFraction(r)
    case Boolean(b) => JBool(b)
  }

  /** Sets a key of an object. */
  function Put(ms: seq<Member>, key: string, value: Json): seq<Member> {
    if ms == [] then [Member(key, value)]
    else if ms[0].key == key then [Member(key, value)] + ms[1..]
    else [ms[0]] + Put(ms[1..], key, value)
  }

  function Convert(n: Tree.Node): Json
    decreases n
  {
    match n
    case Scalar(_, _, _, v) => ScalarJson(v)
    case List(_, _, _, children) => JArray(ConvertItems(children))
    case Struct(_, _, _, children) => JObject(ConvertFields(children, []))
  }

  function ConvertItems(ns: seq<Tree.Node>): seq<Json>
    decreases ns
  {
    if ns == [] then [] else [Convert(ns[0])] + ConvertItems(ns[1..])
  }

  function ConvertFields(ns: seq<Tree.Node>, out: seq<Member>): seq<Member>
    decreases ns
  {
    if ns == [] then out
    else ConvertFields(ns[1..], if ns[0].name == "" then out else Put(out, ns[0].name, Convert(ns[0])))
  }

  function DocumentOf(n: Option<Tree.Node>): Json {
    if n.None? then JNull else Convert(n.value)
  }

  // ---------------------------------------------------------------- encoding a document

  function Zeros(n: nat): seq<Byte> {
    if n == 0 then [] else [0] + Zeros(n - 1)
  }

  function Copies(n: nat, d: Datum): (r: seq<Datum>)
    ensures |r| == n
  {
    if n == 0 then [] else [d] + Copies(n - 1, d)
  }

  function Zero(t: Type): Datum
    decreases t
  {
    match t
    case Bool => DBool(false)
    case Int(_) => DInt(0)
    case Uint(_) => DInt(0)
    case Text => DText("")
    case ByteArray(n) => DBytes(Zeros(n))
    case Enum(_, _) => DInt(0)
    case Struct(fields, _) => DStruct(ZeroFields(fields))
    case Array(n, item) => DList(Copies(n, Zero(item)))
    case _ => Nil
  }

  function ZeroFields(fields: seq<Field>): seq<Datum>
    decreases fields
  {
    if fields == [] then [] else [Zero(fields[0].typ)] + ZeroFields(fields[1..])
  }

  function FieldIndex(fields: seq<Field>, name: string): (i: nat)
    ensures i <= |fields|
    ensures i < |fields| ==> fields[i].name == name
  {
    if fields == [] || fields[0].name == name then 0 else 1 + FieldIndex(fields[1..], name)
  }

  function ValueFor(constants: seq<Constant>, name: string): Option<int> {
    if constants == [] then None
    else
      var rest := ValueFor(constants[1..], name);
      if rest.None? && constants[0].name == name && Probed(constants[0].value) then Some(constants[0].value) else rest
  }

  function EncodeEnum(t: Type, j: Json): Option<Datum>
    requires t.Enum?
  {
    if InputInt64(j).Some? then if FitsInt(InputInt64(j).value, W32) then Some(DInt(InputInt64(j).value)) else None
    else if !j.JString? then None
    else if ValueFor(t.constants, j.s).Some? then Some(DInt(ValueFor(t.constants, j.s).value))
    else if j.s in t.labels then Some(DInt(t.labels[j.s]))
    else None
  }

  /** What a document makes of a destination that holds `dest`; an absent document leaves it alone. */
  function Encode(t: Type, dest: Datum, j: Json): Option<Datum>
    decreases j, t
  {
    if j.JNull? then Some(dest)
    else
      match t
      case Optional(target) =>
        var d := Encode(target, Zero(target), j);
        if d.None? then None else Some(Ptr(d.value))
      case Enum(_, _) => EncodeEnum(t, j)
      case Struct(fields, derived) =>
        if !j.JObject? || !dest.DStruct? then None
        else
          var values := EncodeMembers(fields, derived, dest.values, j.members);
          if values.None? then None else Some(DStruct(values.value))
      case Bytes =>
        var bs := DecodeJsonBytes(j);
        if bs.None? then None else Some(DBytes(bs.value))
      case ByteArray(n) =>
        var bs := DecodeJsonBytes(j);
        if bs.None? || |bs.value| != n then None else Some(DBytes(bs.value))
      case List(element) =>
        if !j.JArray? then None
        else
          var items := EncodeItems(element, Copies(|j.items|, Zero(element)), j.items);
          if items.None? then None else Some(DList(items.value))
      case Array(n, item) =>
        if !j.JArray? || |j.items| != n || !dest.DList? || |dest.items| != n then None
        else
          var items := EncodeItems(item, dest.items, j.items);
          if items.None? then None else Some(DList(items.value))
      case Bool => if j.JBool? then Some(DBool(j.b)) else None
      case Text => if j.JString? then Some(DText(j.s)) else None
      case Int(w) =>
        var n := InputInt64(j);
        if n.None? || !FitsInt(n.value, w) then None else Some(DInt(n.value))
      case Uint(w) =>
        var n := InputUint64(j);
        if n.None? || !FitsUint(n.value, w) then None else Some(DInt(n.value))
  }

  function EncodeMembers(fields: seq<Field>, derived: set<string>, dest: seq<Datum>, ms: seq<Member>): (r: Option<seq<Datum>>)
    decreases ms
  {
    if ms == [] then Some(dest)
    else
      var i := FieldIndex(fields, ms[0].key);
      if i == |fields| || i >= |dest| then
        if i == |fields| && ms[0].key in derived then EncodeMembers(fields, derived, dest, ms[1..]) else None
      else
        var d := Encode(fields[i].typ, dest[i], ms[0].value);
        if d.None? then None else EncodeMembers(fields, derived, dest[i := d.value], ms[1..])
  }

  function EncodeItems(element: Type, dest: seq<Datum>, items: seq<Json>): Option<seq<Datum>>
    requires |dest| == |items|
    decreases items
  {
    if items == [] then Some([])
    else
      var d, rest := Encode(element, dest[0], items[0]), EncodeItems(element, dest[1..], items[1..]);
      if d.None? || rest.None? then None else Some([d.value] + rest.value)
  }

  // ---------------------------------------------------------------- what a trip keeps

  /** Nothing but absent pointers: such a value has no tree. */
  predicate Hollow(d: Datum) {
    d.Nil? || (d.Ptr? && Hollow(d.target))
  }

  /** No pointer leads to an absent value. */
  predicate Solid(d: Datum) {
    match d
    case Ptr(target) => !Hollow(target) && Solid(target)
    case DStruct(values) => forall i :: 0 <= i < |values| ==> Solid(values[i])
    case DList(items) => forall i :: 0 <= i < |items| ==> Solid(items[i])
    case _ => true
  }

  /** The value with every hollow pointer made absent. */
  function Collapsed(d: Datum): Datum {
    if Hollow(d) then Nil
    else
      match d
      case Ptr(target) => Ptr(Collapsed(target))
      case DStruct(values) => DStruct(CollapsedAll(values))
      case DList(items) => DList(CollapsedAll(items))
      case _ => d
  }

  function CollapsedAll(ds: seq<Datum>): (r: seq<Datum>)
    ensures |r| == |ds|
  {
    if ds == [] then [] else [Collapsed(ds[0])] + CollapsedAll(ds[1..])
  }

  /** How many structs and lists enclose one another. */
  function Nesting(d: Datum): nat {
    match d
    case Ptr(target) => Nesting(target)
    case DStruct(values) => 1 + NestingAll(values)
    case DList(items) => 1 + NestingAll(items)
    case _ => 0
  }

  function NestingAll(ds: seq<Datum>): nat {
    if ds == [] then 0
    else
      var first, rest := Nesting(ds[0]), NestingAll(ds[1..]);
      if first > rest then first else rest
  }
}
