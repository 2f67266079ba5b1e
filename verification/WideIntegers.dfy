/** 128- and 256-bit integers packed into limbs of 64 bits, and read back. */
module WideIntegers {
  import opened Text

  const TWO_63: nat := 0x8000_0000_0000_0000
  const TWO_64: nat := 0x1_0000_0000_0000_0000
  const TWO_127: nat := 0x8000_0000_0000_0000_0000_0000_0000_0000
  const TWO_128: nat := 0x1_0000_0000_0000_0000_0000_0000_0000_0000

  /** The limbs of a wide integer, the most significant first; that of a signed type carries the sign. */
  datatype Wide =
    | U128(hi: int, lo: int)
    | I128(hi: int, lo: int)
    | U256(hiHi: int, hiLo: int, loHi: int, loLo: int)
    | I256(hiHi: int, hiLo: int, loHi: int, loLo: int)

  predicate IsUint64(n: int) { 0 <= n < TWO_64 }

  predicate IsInt64(n: int) { 0 - TWO_63 <= n < TWO_63 }

  predicate Valid(w: Wide) {
    match w
    case U128(hi, lo) => IsUint64(hi) && IsUint64(lo)
    case I128(hi, lo) => IsInt64(hi) && IsUint64(lo)
    case U256(a, b, c, d) => IsUint64(a) && IsUint64(b) && IsUint64(c) && IsUint64(d)
    case I256(a, b, c, d) => IsInt64(a) && IsUint64(b) && IsUint64(c) && IsUint64(d)
  }

  function Abs(n: int): nat {
    if n < 0 then 0 - n else n
  }

  // ---------------------------------------------------------------- reading

  /** The number with the given leading part and the limbs after it. */
  function Joined(high: int, limbs: seq<int>): int {
    if limbs == [] then high else Joined(high, limbs[..|limbs| - 1]) * TWO_64 + limbs[|limbs| - 1]
  }

  function Reading(w: Wide): int {
    match w
    case U128(hi, lo) => Joined(0, [hi, lo])
    case I128(hi, lo) => Joined(hi, [lo])
    case U256(a, b, c, d) => Joined(0, [a, b, c, d])
    case I256(a, b, c, d) => Joined(a, [b, c, d])
  }

  /** Joining a limb to 64 cleared bits is adding it. */
  method UnsignedLimbs(limbs: seq<int>) returns (value: int)
    ensures value == Joined(0, limbs)
  {
    value := 0;
    for i := 0 to |limbs|
      invariant value == Joined(0, limbs[..i])
    {
      assert limbs[..i + 1][..i] == limbs[..i];
      value := value * TWO_64;
      value := value + limbs[i];
    }
    assert limbs[..|limbs|] == limbs;
  }

  method SignedLimbs(high: int, remaining: seq<int>) returns (value: int)
    ensures value == Joined(high, remaining)
  {
    value := high;
    for i := 0 to |remaining|
      invariant value == Joined(high, remaining[..i])
    {
      assert remaining[..i + 1][..i] == remaining[..i];
      value := value * TWO_64;
      value := value + remaining[i];
    }
    assert remaining[..|remaining|] == remaining;
  }

  predicate AllUint64(limbs: seq<int>) {
    forall i :: 0 <= i < |limbs| ==> IsUint64(limbs[i])
  }

  /** Different limbs make different numbers. */
  lemma {:induction false} JoinedIsInjective(high: int, limbs: seq<int>, other: int, others: seq<int>)
    requires |limbs| == |others| && AllUint64(limbs) && AllUint64(others)
    ensures Joined(high, limbs) == Joined(other, others) <==> high == other && limbs == others
  {
    if limbs != [] {
      var n := |limbs| - 1;
      JoinedIsInjective(high, limbs[..n], other, others[..n]);
      DigitsAreUnique(Joined(high, limbs[..n]), limbs[n], Joined(other, others[..n]), others[n]);
      assert limbs == limbs[..n] + [limbs[n]] && others == others[..n] + [others[n]];
    }
  }

  lemma DigitsAreUnique(a: int, x: int, b: int, y: int)
    requires IsUint64(x) && IsUint64(y)
    ensures a * TWO_64 + x == b * TWO_64 + y <==> a == b && x == y
  {
  }

  predicate SameType(v: Wide, w: Wide) {
    v.U128? == w.U128? && v.I128? == w.I128? && v.U256? == w.U256? && v.I256? == w.I256?
  }

  /** Two integers of one type read as the same number only if all their limbs agree. */
  lemma ReadingIsInjective(v: Wide, w: Wide)
    requires Valid(v) && Valid(w) && SameType(v, w)
    ensures Reading(v) == Reading(w) <==> v == w
  {
    hide Joined;
    match v
    case U128(hi, lo) => JoinedIsInjective(0, [hi, lo], 0, [w.hi, w.lo]);
    case I128(hi, lo) => JoinedIsInjective(hi, [lo], w.hi, [w.lo]);
    case U256(a, b, c, d) => JoinedIsInjective(0, [a, b, c, d], 0, [w.hiHi, w.hiLo, w.loHi, w.loLo]);
    case I256(a, b, c, d) => JoinedIsInjective(a, [b, c, d], w.hiHi, [w.hiLo, w.loHi, w.loLo]);
  }

  /** The decimal text that the semantic comparison looks at. */
  function Decimal(n: int): string {
    if n < 0 then "-" + Itoa(0 - n) else Itoa(n)
  }

  lemma DecimalSign(n: int)
    ensures Decimal(n) != "" && (Decimal(n)[0] == '-' <==> n < 0)
  {
    hide Itoa;
    var digits := Itoa(Abs(n));
    assert IsDigit(digits[0]);
  }

  lemma DecimalIsInjective(m: int, n: int)
    requires Decimal(m) == Decimal(n)
    ensures m == n
  {
    hide ScanInt, Itoa;
    ScanIntItoa(Abs(m));
    ScanIntItoa(Abs(n));
    DecimalSign(m);
    DecimalSign(n);
    if m < 0 {
      assert Decimal(m)[1..] == Itoa(Abs(m)) && Decimal(n)[1..] == Itoa(Abs(n));
    }
  }

  /** The semantic comparison of wide integers of one type is equality of their limbs. */
  lemma SemanticTextIsExact(v: Wide, w: Wide)
    requires Valid(v) && Valid(w) && SameType(v, w)
    ensures Decimal(Reading(v)) == Decimal(Reading(w)) <==> v == w
  {
    hide Decimal, Reading;
    ReadingIsInjective(v, w);
    if Decimal(Reading(v)) == Decimal(Reading(w)) {
      DecimalIsInjective(Reading(v), Reading(w));
    }
  }

  // ---------------------------------------------------------------- packing 128 bits

  /** The low 64 bits of the magnitude. */
  function LowUint64(n: int): int {
    Abs(n) % TWO_64
  }

  function Wrapped(n: int): int
    requires IsUint64(n)
  {
    if n < TWO_63 then n else n - TWO_64
  }

  /** The low 64 bits as a signed integer, negated in 64 bits if the number is negative. */
  function LowInt64(n: int): int {
    var low := Wrapped(LowUint64(n));
    if n < 0 && low != 0 - TWO_63 then 0 - low else low
  }

  /** Limbs given one by one are taken as they are; a single number is cut into limbs. */
  function ParseU128(n: int, limbs: Option<(int, int)>): Option<Wide> {
    match limbs
    case Some((hi, lo)) => Some(U128(hi, lo))
    case None => if n < 0 then None else Some(U128(LowUint64(n / TWO_64), LowUint64(n % TWO_64)))
  }

  function ParseI128(n: int, limbs: Option<(int, int)>): Option<Wide> {
    match limbs
    case Some((hi, lo)) => Some(I128(hi, lo))
    case None => Some(I128(LowInt64(n / TWO_64), LowUint64(n % TWO_64)))
  }

  /** A number packed into 128 unsigned bits is read back modulo 2^128; negative numbers are refused. */
  lemma U128RoundTrip(n: int)
    ensures ParseU128(n, None).None? <==> n < 0
    ensures n >= 0 ==> Valid(ParseU128(n, None).value) && Reading(ParseU128(n, None).value) == n % TWO_128
    ensures ParseU128(n, None).Some? ==> (Reading(ParseU128(n, None).value) == n <==> n < TWO_128)
  {
    if n >= 0 {
      TwoLimbs(0, n / TWO_64 % TWO_64, n % TWO_64);
      assert n / TWO_64 % TWO_64 * TWO_64 + n % TWO_64 == n % TWO_128;
    }
  }

  lemma OneMoreLimb(high: int, limbs: seq<int>, x: int)
    ensures Joined(high, limbs + [x]) == Joined(high, limbs) * TWO_64 + x
  {
    assert (limbs + [x])[..|limbs|] == limbs;
  }

  lemma TwoLimbs(high: int, hi: int, lo: int)
    ensures Joined(high, [hi, lo]) == (high * TWO_64 + hi) * TWO_64 + lo
    ensures Joined(hi, [lo]) == hi * TWO_64 + lo
  {
    assert [] + [hi] == [hi] && [hi] + [lo] == [hi, lo] && [] + [lo] == [lo];
    OneMoreLimb(high, [], hi);
    OneMoreLimb(high, [hi], lo);
    OneMoreLimb(hi, [], lo);
  }

  /** A number packed into 128 signed bits is read back exactly when it has that many. */
  lemma I128RoundTrip(n: int)
    ensures ParseI128(n, None).Some? && Valid(ParseI128(n, None).value)
    ensures Reading(ParseI128(n, None).value) == n <==> 0 - TWO_127 <= n < TWO_127
  {
    TwoLimbs(0, LowInt64(n / TWO_64), n % TWO_64);
    assert n == n / TWO_64 * TWO_64 + n % TWO_64;
    LowInt64IsExactIff(n / TWO_64);
    DigitsAreUnique(LowInt64(n / TWO_64), n % TWO_64, n / TWO_64, n % TWO_64);
  }

  lemma LowInt64IsExactIff(n: int)
    ensures IsInt64(LowInt64(n)) && (LowInt64(n) == n <==> IsInt64(n))
  {
  }

  /** What the limbs of each type spell, and that limbs given one by one are taken as they are. */
  lemma LimbsAreWeighted(a: int, b: int, c: int, d: int)
    ensures Reading(U128(a, b)) == a * TWO_64 + b && Reading(I128(a, b)) == a * TWO_64 + b
    ensures Reading(U256(a, b, c, d)) == ((a * TWO_64 + b) * TWO_64 + c) * TWO_64 + d
    ensures Reading(I256(a, b, c, d)) == ((a * TWO_64 + b) * TWO_64 + c) * TWO_64 + d
    ensures forall n :: ParseU128(n, Some((a, b))) == Some(U128(a, b)) && ParseI128(n, Some((a, b))) == Some(I128(a, b))
  {
    hide Joined;
    assert [a, b] + [c] == [a, b, c] && [a, b, c] + [d] == [a, b, c, d] && [b] + [c] == [b, c] && [b, c] + [d] == [b, c, d];
    TwoLimbs(0, a, b);
    OneMoreLimb(0, [a, b], c);
    OneMoreLimb(0, [a, b, c], d);
    TwoLimbs(a, b, c);
    OneMoreLimb(a, [b, c], d);
  }

  // ---------------------------------------------------------------- packing 256 bits

  function BigEndian(bs: seq<Byte>): nat {
    if bs == [] then 0 else BigEndian(bs[..|bs| - 1]) * 256 + bs[|bs| - 1]
  }

  /** The bytes of a number without leading zeros, the most significant first. */
  function Bytes(n: nat): seq<Byte> {
    if n == 0 then [] else Bytes(n / 256) + [n % 256]
  }

  function Pow256(k: nat): (p: nat)
    ensures p >= 1
  {
    if k == 0 then 1 else 256 * Pow256(k - 1)
  }

  lemma {:induction false} BytesRead(n: nat)
    ensures BigEndian(Bytes(n)) == n
  {
    if n > 0 {
      BytesRead(n / 256);
      assert Bytes(n)[..|Bytes(n)| - 1] == Bytes(n / 256);
    }
  }

  lemma {:induction false} BytesFit(n: nat, k: nat)
    ensures |Bytes(n)| <= k <==> n < Pow256(k)
  {
    if k > 0 && n > 0 {
      BytesFit(n / 256, k - 1);
    }
  }

  lemma {:induction false} BigEndianSplits(a: seq<Byte>, b: seq<Byte>)
    ensures BigEndian(a + b) == BigEndian(a) * Pow256(|b|) + BigEndian(b)
  {
    if b == [] {
      assert a + b == a;
    } else {
      var n := |b| - 1;
      BigEndianSplits(a, b[..n]);
      assert (a + b)[..|a + b| - 1] == a + b[..n];
      assert BigEndian(a) * Pow256(n) * 256 == BigEndian(a) * Pow256(n + 1);
    }
  }

  lemma {:induction false} BigEndianIsBounded(bs: seq<Byte>)
    ensures BigEndian(bs) < Pow256(|bs|)
  {
    if bs != [] {
      BigEndianIsBounded(bs[..|bs| - 1]);
    }
  }

  lemma Powers()
    ensures Pow256(8) == TWO_64 && Pow256(32) == TWO_128 * TWO_128
  {
    assert Pow256(4) == 0x1_0000_0000;
    assert Pow256(8) == 0x1_0000_0000 * Pow256(4);
    assert Pow256(12) == 0x1_0000_0000 * Pow256(8);
    assert Pow256(16) == 0x1_0000_0000 * Pow256(12);
    assert Pow256(20) == 0x1_0000_0000 * Pow256(16);
    assert Pow256(24) == 0x1_0000_0000 * Pow256(20);
    assert Pow256(28) == 0x1_0000_0000 * Pow256(24);
    assert Pow256(32) == 0x1_0000_0000 * Pow256(28);
  }

  /** Eight bytes more are one limb more. */
  lemma OneLimbMore(bs: seq<Byte>, k: nat, limbs: seq<int>)
    requires k + 8 <= |bs| && BigEndian(bs[..k]) == Joined(0, limbs)
    ensures BigEndian(bs[..k + 8]) == Joined(0, limbs + [BigEndian(bs[k..k + 8])])
    ensures IsUint64(BigEndian(bs[k..k + 8]))
  {
    hide BigEndian, Pow256;
    var limb := bs[k..k + 8];
    assert bs[..k + 8] == bs[..k] + limb;
    BigEndianSplits(bs[..k], limb);
    BigEndianIsBounded(limb);
    Powers();
    assert (limbs + [BigEndian(limb)])[..|limbs|] == limbs;
  }

  /** The i-th limb of eight bytes. */
  function LimbOf(bs: seq<Byte>, i: nat): int
    requires 8 * i + 8 <= |bs|
  {
    BigEndian(bs[8 * i..8 * i + 8])
  }

  function LimbsOf(bs: seq<Byte>, n: nat): (limbs: seq<int>)
    requires 8 * n <= |bs|
    ensures |limbs| == n
  {
    if n == 0 then [] else LimbsOf(bs, n - 1) + [LimbOf(bs, n - 1)]
  }

  /** Limbs of eight bytes each hold the number that all the bytes spell. */
  lemma {:induction false} LimbsSpell(bs: seq<Byte>, n: nat)
    requires 8 * n <= |bs|
    ensures AllUint64(LimbsOf(bs, n)) && Joined(0, LimbsOf(bs, n)) == BigEndian(bs[..8 * n])
  {
    if n > 0 {
      hide BigEndian, Joined, Pow256;
      LimbsSpell(bs, n - 1);
      OneLimbMore(bs, 8 * (n - 1), LimbsOf(bs, n - 1));
    }
  }

  lemma FourLimbs(bs: seq<Byte>)
    requires |bs| == 32
    ensures LimbsOf(bs, 4) == [LimbOf(bs, 0), LimbOf(bs, 1), LimbOf(bs, 2), LimbOf(bs, 3)]
    ensures AllUint64(LimbsOf(bs, 4)) && Joined(0, LimbsOf(bs, 4)) == BigEndian(bs)
  {
    hide BigEndian, Joined, LimbOf;
    LimbsSpell(bs, 4);
    assert bs[..32] == bs;
    assert LimbsOf(bs, 1) == [LimbOf(bs, 0)];
    assert LimbsOf(bs, 2) == LimbsOf(bs, 1) + [LimbOf(bs, 1)];
    assert LimbsOf(bs, 3) == LimbsOf(bs, 2) + [LimbOf(bs, 2)];
  }

  lemma {:induction false} LeadingZeros(zeros: seq<Byte>, bs: seq<Byte>)
    requires forall i :: 0 <= i < |zeros| ==> zeros[i] == 0
    ensures BigEndian(zeros + bs) == BigEndian(bs)
  {
    BigEndianSplits(zeros, bs);
    AllZeros(zeros);
  }

  lemma {:induction false} AllZeros(zeros: seq<Byte>)
    requires forall i :: 0 <= i < |zeros| ==> zeros[i] == 0
    ensures BigEndian(zeros) == 0
  {
    if zeros != [] {
      AllZeros(zeros[..|zeros| - 1]);
    }
  }

  /** The magnitude of a number in 32 bytes, padded on the left, if it fits. */
  method Magnitude(n: int) returns (hash: array<Byte>, ok: bool)
    ensures hash.Length == 32 && fresh(hash)
    ensures ok <==> Abs(n) < TWO_128 * TWO_128
    ensures ok ==> BigEndian(hash[..]) == Abs(n)
  {
    hide Bytes, BigEndian, Pow256;
    hash := new Byte[32](_ => 0);
    var b := Bytes(Abs(n));
    BytesFit(Abs(n), 32);
    Powers();
    if |b| > 32 {
      return hash, false;
    }
    var start := 32 - |b|;
    for i := 0 to |b|
      invariant forall k :: 0 <= k < start ==> hash[k] == 0
      invariant forall k :: 0 <= k < i ==> hash[start + k] == b[k]
    {
      hash[start + i] := b[i];
    }
    assert hash[..] == hash[..start] + b;
    LeadingZeros(hash[..start], b);
    BytesRead(Abs(n));
    return hash, true;
  }

  /** An unsigned 256-bit integer reads back as the magnitude of the number it was made from. */
  method ParseU256(n: int) returns (r: Option<Wide>)
    ensures r.None? <==> Abs(n) >= TWO_128 * TWO_128
    ensures r.Some? ==> r.value.U256? && Valid(r.value) && Reading(r.value) == Abs(n)
    ensures r.Some? ==> (Reading(r.value) == n <==> n >= 0)
  {
    hide BigEndian, Joined, LimbOf, LimbsOf, AllUint64, LowInt64;
    var hash, ok := Magnitude(n);
    if !ok {
      return None;
    }
    FourLimbs(hash[..]);
    var a, b, c, d := LimbOf(hash[..], 0), LimbOf(hash[..], 1), LimbOf(hash[..], 2), LimbOf(hash[..], 3);
    FourAre(a, b, c, d);
    return Some(U256(a, b, c, d));
  }

  lemma FourAre(a: int, b: int, c: int, d: int)
    requires AllUint64([a, b, c, d])
    ensures IsUint64(a) && IsUint64(b) && IsUint64(c) && IsUint64(d)
  {
    var limbs := [a, b, c, d];
    assert limbs[0] == a && limbs[1] == b && limbs[2] == c && limbs[3] == d;
  }

  /**
   * A signed one is made from the magnitude too, its top bit taken for the sign: it reads back
   * exactly for numbers from zero up to 2^255, and for -2^255 alone below zero.
   */
  method ParseI256(n: int) returns (r: Option<Wide>)
    ensures r.None? <==> Abs(n) >= TWO_128 * TWO_128
    ensures r.Some? ==> r.value.I256? && Valid(r.value)
    ensures r.Some? ==> Reading(r.value) == if Abs(n) < TWO_127 * TWO_128 then Abs(n) else Abs(n) - TWO_128 * TWO_128
    ensures r.Some? ==> (Reading(r.value) == n <==> 0 <= n < TWO_127 * TWO_128 || n == 0 - TWO_127 * TWO_128)
  {
    hide BigEndian, Joined, LimbOf, LimbsOf, AllUint64, LowInt64;
    var hash, ok := Magnitude(n);
    if !ok {
      return None;
    }
    FourLimbs(hash[..]);
    var a, b, c, d := LimbOf(hash[..], 0), LimbOf(hash[..], 1), LimbOf(hash[..], 2), LimbOf(hash[..], 3);
    FourAre(a, b, c, d);
    TopBitIsSign(Abs(n), a, b, c, d);
    return Some(I256(LowInt64(a), b, c, d));
  }

  /** Taking the first of four limbs for a signed one subtracts 2^256 from the upper half. */
  lemma TopBitIsSign(n: nat, a: int, b: int, c: int, d: int)
    requires IsUint64(a) && IsUint64(b) && IsUint64(c) && IsUint64(d) && n == Joined(0, [a, b, c, d])
    ensures IsInt64(LowInt64(a)) && Joined(LowInt64(a), [b, c, d]) == if n < TWO_127 * TWO_128 then n else n - TWO_128 * TWO_128
  {
    hide Joined;
    var s := LowInt64(a);
    assert [a, b, c] + [d] == [a, b, c, d] && [a, b] + [c] == [a, b, c] && [b, c] + [d] == [b, c, d] && [b] + [c] == [b, c];
    TwoLimbs(0, a, b);
    TwoLimbs(0, s, b);
    OneMoreLimb(0, [a, b], c);
    OneMoreLimb(0, [a, b, c], d);
    OneMoreLimb(s, [b], c);
    OneMoreLimb(s, [b, c], d);
    var rest := (b * TWO_64 + c) * TWO_64 + d;
    var unit := TWO_64 * TWO_128;
    assert 0 <= rest < unit;
    assert n == a * unit + rest;
    assert s == if a < TWO_63 then a else a - TWO_64;
  }
}
