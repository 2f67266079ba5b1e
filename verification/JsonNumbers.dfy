/** Which numbers and bytes a document spells, stated apart from the way they are read. */
module JsonNumbers {
  import opened Text
  import opened JsonCodec

  // ---------------------------------------------------------------- blanks around a text

  predicate Blank(s: string) {
    forall i :: 0 <= i < |s| ==> IsBlank(s[i])
  }

  predicate Padded(s: string, before: string, body: string, after: string) {
    s == before + body + after && Blank(before) && Blank(after)
  }

  /** Neither end is a blank. */
  predicate Tight(body: string) {
    body == "" || (!IsBlank(body[0]) && !IsBlank(body[|body| - 1]))
  }

  lemma {:induction false} LeftTrimmed(s: string) returns (before: string)
    ensures s == before + TrimLeft(s) && Blank(before)
    ensures TrimLeft(s) == "" || !IsBlank(TrimLeft(s)[0])
  {
    if s != "" && IsBlank(s[0]) {
      var more := LeftTrimmed(s[1..]);
      before := [s[0]] + more;
    } else {
      before := "";
    }
  }

  lemma {:induction false} RightTrimmed(s: string) returns (after: string)
    ensures s == TrimRight(s) + after && Blank(after)
    ensures TrimRight(s) == "" || (!IsBlank(TrimRight(s)[|TrimRight(s)| - 1]) && TrimRight(s)[0] == s[0])
  {
    if s != "" && IsBlank(s[|s| - 1]) {
      var more := RightTrimmed(s[..|s| - 1]);
      after := more + [s[|s| - 1]];
    } else {
      after := "";
    }
  }

  /** Trimming takes blanks off both ends until neither is one. */
  lemma TrimIsTight(s: string) returns (before: string, after: string)
    ensures Padded(s, before, Trim(s), after) && Tight(Trim(s))
  {
    hide TrimLeft, TrimRight;
    before := LeftTrimmed(s);
    after := RightTrimmed(TrimLeft(s));
  }

  lemma BlanksOnly(s: string, before: string, body: string, after: string)
    requires Padded(s, before, body, after) && Blank(s)
    ensures forall i :: 0 <= i < |body| ==> IsBlank(body[i])
  {
    forall i | 0 <= i < |body|
      ensures IsBlank(body[i])
    {
      assert body[i] == s[|before| + i];
    }
  }

  /** There is only one way to do that. */
  lemma TightIsTrim(s: string, before: string, body: string, after: string)
    requires Padded(s, before, body, after) && Tight(body)
    ensures Trim(s) == body
  {
    var pre, post := TrimIsTight(s);
    var t := Trim(s);
    if body == "" {
      assert Blank(s);
      BlanksOnly(s, pre, t, post);
    } else {
      assert s[|before|] == body[0];
      assert s[|before| + |body| - 1] == body[|body| - 1];
      assert |pre| <= |before| && |post| <= |after|;
      assert t != "";
      assert t[0] == s[|pre|] && t[|t| - 1] == s[|pre| + |t| - 1];
      assert |before| <= |pre| && |after| <= |post|;
      assert t == s[|pre|..|s| - |post|] == body;
    }
  }

  // ---------------------------------------------------------------- decimal numbers

  /** The number that decimal digits spell: ten times what all but the last spell, and the last. */
  function DecimalValue(digits: string): nat
    requires AllDigits(digits)
  {
    if digits == "" then 0 else 10 * DecimalValue(digits[..|digits| - 1]) + (digits[|digits| - 1] as int - '0' as int)
  }

  predicate Decimal(digits: string) {
    digits != "" && AllDigits(digits)
  }

  lemma {:induction false} ScanIsDecimal(digits: string)
    requires AllDigits(digits)
    ensures ScanDigits(digits, 0) == DecimalValue(digits)
  {
    if digits != "" {
      var front := digits[..|digits| - 1];
      assert digits == front + [digits[|digits| - 1]];
      ScanIsDecimal(front);
      ScanDigitsAppend(front, digits[|digits| - 1], 0);
    }
  }

  lemma DigitsAreTight(sign: string, digits: string)
    requires Decimal(digits) && (sign == "" || sign == "+" || sign == "-")
    ensures Tight(sign + digits) && sign + digits != ""
  {
    var body := sign + digits;
    assert body[|body| - 1] == digits[|digits| - 1];
    assert body[0] == if sign == "" then digits[0] else sign[0];
  }

  ghost predicate SpellsUnsigned(text: string, n: int) {
    exists before, digits, after :: Padded(text, before, digits, after) && Decimal(digits) && n == DecimalValue(digits)
  }

  predicate SignedText(body: string, sign: string, digits: string, n: int) {
    body == sign + digits && Decimal(digits)
    && (((sign == "" || sign == "+") && n == DecimalValue(digits)) || (sign == "-" && n + DecimalValue(digits) == 0))
  }

  ghost predicate SpellsSigned(text: string, n: int) {
    exists before, body, after, sign, digits :: Padded(text, before, body, after) && SignedText(body, sign, digits, n)
  }

  /** An unsigned number is read from digits alone, blanks aside, if it has no more than 64 bits. */
  lemma UnsignedIsRead(text: string, n: int)
    ensures ParseUint(Trim(text)) == Some(n) <==> SpellsUnsigned(text, n) && n <= 0xffff_ffff_ffff_ffff
  {
    hide Trim, ScanDigits, DecimalValue;
    if ParseUint(Trim(text)) == Some(n) {
      var before, after := TrimIsTight(text);
      ScanIsDecimal(Trim(text));
      assert Padded(text, before, Trim(text), after) && Decimal(Trim(text));
    }
    if SpellsUnsigned(text, n) {
      var before, digits, after :| Padded(text, before, digits, after) && Decimal(digits) && n == DecimalValue(digits);
      DigitsAreTight("", digits);
      assert "" + digits == digits;
      TightIsTrim(text, before, digits, after);
      ScanIsDecimal(digits);
    }
  }

  /** What the sign and the digits of an accepted text are. */
  lemma ParsedIsSigned(body: string, n: int)
    ensures ParseInt(body) == Some(n) <==>
            (exists sign, digits :: SignedText(body, sign, digits, n)) && -0x8000_0000_0000_0000 <= n <= 0x7fff_ffff_ffff_ffff
  {
    hide ScanDigits, DecimalValue;
    if ParseInt(body) == Some(n) {
      ParsedHasSign(body, n);
    }
    if sign, digits :| SignedText(body, sign, digits, n) {
      SignedIsParsed(body, sign, digits, n);
    }
  }

  lemma ParsedHasSign(body: string, n: int)
    requires ParseInt(body) == Some(n)
    ensures (exists sign, digits :: SignedText(body, sign, digits, n)) && -0x8000_0000_0000_0000 <= n <= 0x7fff_ffff_ffff_ffff
  {
    hide ScanDigits, DecimalValue;
    var sign, digits := if body[0] in "+-" then [body[0]] else "", if body[0] in "+-" then body[1..] else body;
    ScanIsDecimal(digits);
    assert body == sign + digits;
    assert SignedText(body, sign, digits, n);
  }

  lemma SignedIsParsed(body: string, sign: string, digits: string, n: int)
    requires SignedText(body, sign, digits, n)
    ensures ParseInt(body) == if -0x8000_0000_0000_0000 <= n <= 0x7fff_ffff_ffff_ffff then Some(n) else None
  {
    hide ScanDigits, DecimalValue;
    ScanIsDecimal(digits);
    if sign == "" {
      assert body == digits;
      assert IsDigit(body[0]);
    } else {
      assert body[0] == sign[0] && body[1..] == digits;
    }
  }

  /** A signed number is read from digits with at most one sign, blanks aside, if it has no more than 64 bits. */
  lemma SignedIsRead(text: string, n: int)
    ensures ParseInt(Trim(text)) == Some(n) <==> SpellsSigned(text, n) && -0x8000_0000_0000_0000 <= n <= 0x7fff_ffff_ffff_ffff
  {
    hide Trim, ParseInt, SignedText;
    ParsedIsSigned(Trim(text), n);
    if ParseInt(Trim(text)) == Some(n) {
      var before, after := TrimIsTight(text);
      var sign, digits :| SignedText(Trim(text), sign, digits, n);
      assert Padded(text, before, Trim(text), after) && SignedText(Trim(text), sign, digits, n);
    }
    if SpellsSigned(text, n) {
      var before, body, after, sign, digits :| Padded(text, before, body, after) && SignedText(body, sign, digits, n);
      SignedIsTight(body, sign, digits, n);
      TightIsTrim(text, before, body, after);
    }
  }

  lemma SignedIsTight(body: string, sign: string, digits: string, n: int)
    requires SignedText(body, sign, digits, n)
    ensures Tight(body)
  {
    DigitsAreTight(sign, digits);
  }

  /** The integer a document carries, as a number or as its decimal text. */
  ghost predicate CarriesInteger(j: Json, n: int) {
    match j
    case JNumber(m) => n == m
    case JString(s) => SpellsSigned(s, n)
    case _ => false
  }

  /** The same for numbers without a sign. */
  ghost predicate CarriesNatural(j: Json, n: int) {
    match j
    case JNumber(m) => n == m >= 0
    case JString(s) => SpellsUnsigned(s, n)
    case _ => false
  }

  lemma IntegerIsInput(j: Json, n: int)
    ensures InputInt64(j) == Some(n) <==> CarriesInteger(j, n) && -0x8000_0000_0000_0000 <= n <= 0x7fff_ffff_ffff_ffff
  {
    hide ParseInt, Trim, SpellsSigned;
    if j.JString? {
      SignedIsRead(j.s, n);
    }
  }

  lemma NaturalIsInput(j: Json, n: int)
    ensures InputUint64(j) == Some(n) <==> CarriesNatural(j, n) && n <= 0xffff_ffff_ffff_ffff
  {
    hide ParseUint, Trim, SpellsUnsigned;
    if j.JString? {
      UnsignedIsRead(j.s, n);
    }
  }

  // ---------------------------------------------------------------- bytes

  const LOWER := "0123456789abcdef"
  const UPPER := "0123456789ABCDEF"

  predicate DigitOf(c: char, n: nat) {
    n < 16 && (c == LOWER[n] || c == UPPER[n])
  }

  /** Two hexadecimal digits for each byte, of either case. */
  ghost predicate SpellsBytes(text: string, bs: seq<Byte>) {
    |text| == 2 * |bs| && forall i :: 0 <= i < |bs| ==> SpellsByte(text[2 * i], text[2 * i + 1], bs[i])
  }

  predicate SpellsByte(high: char, low: char, b: Byte) {
    DigitOf(high, b / 16) && DigitOf(low, b % 16)
  }

  lemma HexValueIsDigit(c: char, n: nat)
    ensures HexValue(c) == Some(n) <==> DigitOf(c, n)
  {
  }

  lemma UnhexCons(s: string, bs: seq<Byte>)
    requires |s| >= 2 && bs != [] && SpellsByte(s[0], s[1], bs[0]) && Unhex(s[2..]) == Some(bs[1..])
    ensures Unhex(s) == Some(bs)
  {
    hide HexValue;
    HexValueIsDigit(s[0], bs[0] / 16);
    HexValueIsDigit(s[1], bs[0] % 16);
    assert [bs[0]] + bs[1..] == bs;
  }

  /** Two digits and the rest are accepted together. */
  lemma UnhexSplit(s: string)
    requires |s| >= 2 && Unhex(s).Some?
    ensures Unhex(s[2..]).Some? && Unhex(s).value != [] && Unhex(s).value[1..] == Unhex(s[2..]).value
    ensures SpellsByte(s[0], s[1], Unhex(s).value[0])
  {
    hide HexValue, DigitOf;
    var high, low := HexValue(s[0]).value, HexValue(s[1]).value;
    HexValueIsDigit(s[0], high);
    HexValueIsDigit(s[1], low);
    var b: Byte := 16 * high + low;
    assert Unhex(s).value == [b] + Unhex(s[2..]).value;
    assert b / 16 == high && b % 16 == low;
  }

  lemma {:induction false} UnhexSpells(s: string)
    requires Unhex(s).Some?
    ensures SpellsBytes(s, Unhex(s).value)
  {
    hide SpellsByte;
    if s != "" {
      UnhexSplit(s);
      UnhexSpells(s[2..]);
      var bs := Unhex(s).value;
      forall i | 0 <= i < |bs|
        ensures SpellsByte(s[2 * i], s[2 * i + 1], bs[i])
      {
        if i > 0 {
          assert bs[i] == bs[1..][i - 1] && s[2 * i] == s[2..][2 * (i - 1)] && s[2 * i + 1] == s[2..][2 * (i - 1) + 1];
        }
      }
    }
  }

  lemma {:induction false} SpelledIsUnhexed(s: string, bs: seq<Byte>)
    requires SpellsBytes(s, bs)
    ensures Unhex(s) == Some(bs)
  {
    hide SpellsByte;
    if bs != [] {
      forall i | 0 <= i < |bs[1..]|
        ensures SpellsByte(s[2..][2 * i], s[2..][2 * i + 1], bs[1..][i])
      {
        assert SpellsByte(s[2 * (i + 1)], s[2 * (i + 1) + 1], bs[i + 1]);
      }
      SpelledIsUnhexed(s[2..], bs[1..]);
      assert SpellsByte(s[2 * 0], s[2 * 0 + 1], bs[0]);
      UnhexCons(s, bs);
    }
  }

  lemma {:induction false} HexIsLower(bs: seq<Byte>)
    ensures |Hex(bs)| == 2 * |bs|
    ensures forall i :: 0 <= i < |bs| ==> Hex(bs)[2 * i] == LOWER[bs[i] / 16] && Hex(bs)[2 * i + 1] == LOWER[bs[i] % 16]
  {
    hide HexDigit;
    if bs != [] {
      HexIsLower(bs[1..]);
      LowerDigit(bs[0] / 16);
      LowerDigit(bs[0] % 16);
      forall i | 0 < i < |bs|
        ensures Hex(bs)[2 * i] == LOWER[bs[i] / 16] && Hex(bs)[2 * i + 1] == LOWER[bs[i] % 16]
      {
        var rest := bs[1..];
        assert rest[i - 1] == bs[i] && Hex(bs)[2 * i] == Hex(rest)[2 * (i - 1)] && Hex(bs)[2 * i + 1] == Hex(rest)[2 * (i - 1) + 1];
      }
    }
  }

  lemma LowerDigit(n: nat)
    requires n < 16
    ensures HexDigit(n) == LOWER[n]
  {
  }

  const PREFIXES := ["", "0x", "0X", "0x0X"]

  predicate PrefixedBytes(body: string, prefix: string, text: string) {
    prefix in PREFIXES && body == prefix + text
  }

  /** The bytes a document carries: a text of hexadecimal digits, perhaps prefixed, or a number for each byte. */
  ghost predicate CarriesBytes(j: Json, bs: seq<Byte>) {
    match j
    case JString(s) =>
      exists before, body, after, prefix, text ::
        Padded(s, before, body, after) && PrefixedBytes(body, prefix, text) && SpellsBytes(text, bs)
    case JArray(items) => |items| == |bs| && forall i :: 0 <= i < |bs| ==> CarriesNatural(items[i], bs[i])
    case _ => false
  }

  /** The text that is left once both prefixes are taken off. */
  function Bare(body: string): string {
    WithoutPrefix(WithoutPrefix(body, "0x"), "0X")
  }

  lemma BareIsSuffix(body: string) returns (prefix: string)
    ensures PrefixedBytes(body, prefix, Bare(body))
  {
    var once := WithoutPrefix(body, "0x");
    if "0x" <= body {
      assert body == "0x" + once;
      prefix := if "0X" <= once then "0x0X" else "0x";
      assert "0X" <= once ==> once == "0X" + Bare(body);
    } else {
      prefix := if "0X" <= once then "0X" else "";
      assert "0X" <= once ==> once == "0X" + Bare(body);
    }
    assert prefix == PREFIXES[0] || prefix == PREFIXES[1] || prefix == PREFIXES[2] || prefix == PREFIXES[3];
  }

  lemma NoPrefixInBytes(text: string, bs: seq<Byte>)
    requires SpellsBytes(text, bs)
    ensures !("0x" <= text) && !("0X" <= text)
  {
    if bs != [] {
      assert SpellsByte(text[2 * 0], text[2 * 0 + 1], bs[0]);
    }
  }

  lemma PrefixedIsBare(body: string, prefix: string, text: string, bs: seq<Byte>)
    requires PrefixedBytes(body, prefix, text) && SpellsBytes(text, bs)
    ensures Bare(body) == text
  {
    NoPrefixInBytes(text, bs);
    if prefix == "0x0X" {
      assert body[2..] == "0X" + text && body[2..][2..] == text;
    } else if prefix != "" {
      assert body[2..] == text;
    } else {
      assert body == text;
    }
  }

  lemma PrefixedIsTight(body: string, prefix: string, text: string, bs: seq<Byte>)
    requires PrefixedBytes(body, prefix, text) && SpellsBytes(text, bs)
    ensures Tight(body)
  {
    if bs != [] {
      var k := |bs| - 1;
      assert SpellsByte(text[2 * 0], text[2 * 0 + 1], bs[0]) && SpellsByte(text[2 * k], text[2 * k + 1], bs[k]);
      assert body[|body| - 1] == text[|text| - 1];
      assert body[0] == if prefix == "" then text[0] else prefix[0];
    } else {
      assert body == prefix;
    }
  }

  lemma TextBytes(s: string, bs: seq<Byte>)
    ensures DecodeJsonBytes(JString(s)) == Some(bs) <==> CarriesBytes(JString(s), bs)
  {
    hide Trim, Unhex, SpellsBytes, WithoutPrefix, PrefixedBytes, Padded;
    if DecodeJsonBytes(JString(s)) == Some(bs) {
      var before, after := TrimIsTight(s);
      var prefix := BareIsSuffix(Trim(s));
      UnhexSpells(Bare(Trim(s)));
      assert Padded(s, before, Trim(s), after) && PrefixedBytes(Trim(s), prefix, Bare(Trim(s))) && SpellsBytes(Bare(Trim(s)), bs);
    }
    if CarriesBytes(JString(s), bs) {
      var before, body, after, prefix, text :|
        Padded(s, before, body, after) && PrefixedBytes(body, prefix, text) && SpellsBytes(text, bs);
      PrefixedIsTight(body, prefix, text, bs);
      TightIsTrim(s, before, body, after);
      PrefixedIsBare(body, prefix, text, bs);
      SpelledIsUnhexed(text, bs);
    }
  }

  lemma {:induction false} NumberBytes(items: seq<Json>, bs: seq<Byte>)
    ensures DecodeItems(items) == Some(bs) <==> CarriesBytes(JArray(items), bs)
  {
    hide InputUint64, CarriesNatural;
    if items != [] {
      if bs != [] {
        NaturalIsInput(items[0], bs[0]);
        NumberBytes(items[1..], bs[1..]);
        assert CarriesBytes(JArray(items), bs) <==> CarriesNatural(items[0], bs[0]) && CarriesBytes(JArray(items[1..]), bs[1..]) by {
          CarriedOneByOne(items, bs);
        }
        assert bs == [bs[0]] + bs[1..];
      }
    }
  }

  lemma CarriedOneByOne(items: seq<Json>, bs: seq<Byte>)
    requires items != [] && bs != []
    ensures CarriesBytes(JArray(items), bs) <==> CarriesNatural(items[0], bs[0]) && CarriesBytes(JArray(items[1..]), bs[1..])
  {
    hide CarriesNatural;
    if CarriesNatural(items[0], bs[0]) && CarriesBytes(JArray(items[1..]), bs[1..]) {
      forall i | 0 <= i < |bs|
        ensures CarriesNatural(items[i], bs[i])
      {
        if i > 0 {
          assert items[1..][i - 1] == items[i] && bs[1..][i - 1] == bs[i];
        }
      }
    }
  }

  /** The bytes that are decoded are those the document carries. */
  lemma BytesAreDecoded(j: Json, bs: seq<Byte>)
    ensures DecodeJsonBytes(j) == Some(bs) <==> CarriesBytes(j, bs)
  {
    hide DecodeItems;
    match j
    case JString(s) => TextBytes(s, bs);
    case JArray(items) => NumberBytes(items, bs);
    case _ =>
  }
}
