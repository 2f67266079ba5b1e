/** The two readers of LEB128 integers, against the encoding the WebAssembly Core Specification defines. */
module Leb128 {
  import opened Text

  /** A decoded integer and the number of bytes it took. */
  datatype Reading = Reading(value: nat, size: nat)

  const TWO_TO_THE_32: nat := 0x1_0000_0000

  function Pow2(n: nat): nat {
    if n == 0 then 1 else 2 * Pow2(n - 1)
  }

  /** Section 5.2.2 of the WebAssembly Core Specification: an unsigned integer of n bits. */
  function ReadU(n: nat, b: seq<Byte>): Option<Reading> {
    if b == [] then None
    else if b[0] < 128 then if b[0] < Pow2(n) then Some(Reading(b[0], 1)) else None
    else if n <= 7 then None
    else
      match ReadU(n - 7, b[1..])
      case None => None
      case Some(r) => Some(Reading(128 * r.value + (b[0] - 128), r.size + 1))
  }

  /** The same encoding without any bound. */
  function Leb(b: seq<Byte>): Option<Reading> {
    if b == [] then None
    else if b[0] < 128 then Some(Reading(b[0], 1))
    else
      match Leb(b[1..])
      case None => None
      case Some(r) => Some(Reading(128 * r.value + (b[0] - 128), r.size + 1))
  }

  lemma PowSteps(n: nat)
    requires n >= 7
    ensures Pow2(n) == 128 * Pow2(n - 7)
  {
    assert Pow2(n) == 2 * Pow2(n - 1) == 4 * Pow2(n - 2);
    assert Pow2(n - 2) == 2 * Pow2(n - 3) == 4 * Pow2(n - 4);
    assert Pow2(n - 4) == 2 * Pow2(n - 5) == 4 * Pow2(n - 6);
  }

  /** The bounded encoding is the unbounded one with a small enough value in few enough bytes. */
  lemma {:induction false} ReadUIsBoundedLeb(n: nat, b: seq<Byte>)
    requires n >= 1
    ensures ReadU(n, b) == (if Leb(b).Some? && Leb(b).value.size <= (n + 6) / 7 && Leb(b).value.value < Pow2(n) then Leb(b) else None)
  {
    if b != [] && b[0] >= 128 {
      if Leb(b[1..]).Some? {
        assert Leb(b[1..]).value.size >= 1;
      }
      if n > 7 {
        PowSteps(n);
        ReadUIsBoundedLeb(n - 7, b[1..]);
      }
    }
  }

  lemma {:induction false} LebFits(b: seq<Byte>)
    ensures Leb(b).Some? ==> 1 <= Leb(b).value.size <= |b|
  {
    if b != [] && b[0] >= 128 {
      LebFits(b[1..]);
    }
  }

  // ---------------------------------------------------------------- reading byte by byte

  /** The bytes read so far contribute x, and the next one counts for the given weight. */
  function Continued(x: nat, weight: nat, i: nat, r: Option<Reading>): Option<Reading> {
    match r
    case None => None
    case Some(r) => Some(Reading(x + weight * r.value, i + r.size))
  }

  lemma Regroup(weight: nat, v: nat, c: nat)
    ensures weight * (128 * v + c) == (128 * weight) * v + weight * c
  {
    assert weight * (128 * v + c) == weight * (128 * v) + weight * c;
    assert weight * (128 * v) == (weight * 128) * v;
  }

  /** A byte with its high bit set adds its low seven bits and leaves the rest a greater weight. */
  lemma ContinueOneMore(x: nat, weight: nat, i: nat, b: seq<Byte>, c: nat)
    requires b != [] && b[0] == 128 + c
    ensures Continued(x, weight, i, Leb(b)) == Continued(x + weight * c, 128 * weight, i + 1, Leb(b[1..]))
  {
    var rest := Leb(b[1..]);
    if rest.Some? {
      Regroup(weight, rest.value.value, c);
    }
  }

  lemma ContinueLast(x: nat, weight: nat, i: nat, b: seq<Byte>)
    requires b != [] && b[0] < 128
    ensures Continued(x, weight, i, Leb(b)) == Some(Reading(x + weight * b[0], i + 1))
  {
  }

  lemma ContinueTooLong(x: nat, weight: nat, i: nat, b: seq<Byte>)
    ensures Continued(x, weight, i, Leb(b)).None? || Continued(x, weight, i, Leb(b)).value.size > i
  {
    LebFits(b);
  }

  lemma Powers()
    ensures Pow2(7) == 128 && Pow2(32) == TWO_TO_THE_32
    ensures Pow2(63) == 0x8000_0000_0000_0000 && Pow2(64) == 0x1_0000_0000_0000_0000
  {
    assert Pow2(4) == 16;
    PowSteps(7);
    PowSteps(11);
    PowSteps(18);
    PowSteps(25);
    PowSteps(32);
    PowSteps(14);
    PowSteps(21);
    PowSteps(28);
    PowSteps(35);
    PowSteps(42);
    PowSteps(49);
    PowSteps(56);
    PowSteps(63);
  }

  lemma NextByteFits(x: nat, weight: nat, c: nat)
    requires x < weight && c < 128
    ensures x + weight * c < 128 * weight
  {
    assert weight * c <= weight * 127;
  }

  /** The Go library's reader of 64-bit integers: the value and its size, or a size of at most zero. */
  method Uvarint(buf: seq<Byte>) returns (value: nat, n: int)
    ensures n > 0 ==> ReadU(64, buf) == Some(Reading(value, n))
    ensures n <= 0 ==> ReadU(64, buf) == None
  {
    hide ReadU, Leb, Continued, Pow2;
    ReadUIsBoundedLeb(64, buf);
    var x: nat, weight: nat := 0, 1;
    FromTheStart(buf);
    for i := 0 to |buf|
      invariant i <= 10 && weight == Pow2(7 * i) && x < weight
      invariant Leb(buf) == Continued(x, weight, i, Leb(buf[i..]))
    {
      var b: int := buf[i];
      ghost var rest := buf[i..];
      assert rest[0] == b && rest[1..] == buf[i + 1..];
      if i == 10 {
        ContinueTooLong(x, weight, i, rest);
        return 0, -(i + 1);
      }
      if b < 128 {
        ContinueLast(x, weight, i, rest);
        TenBytes(x, weight, b, i);
        if i == 9 && b > 1 {
          return 0, -(i + 1);
        }
        return x + weight * b, i + 1;
      }
      var c: nat := b - 128;
      ContinueOneMore(x, weight, i, rest, c);
      NextByteFits(x, weight, c);
      PowSteps(7 * (i + 1));
      x, weight := x + weight * c, 128 * weight;
    }
    ContinueNone(x, weight, |buf|, buf[|buf|..]);
    return 0, 0;
  }

  lemma FromTheStart(b: seq<Byte>)
    ensures Leb(b) == Continued(0, 1, 0, Leb(b[0..])) && Pow2(0) == 1
  {
    assert b[0..] == b;
  }

  lemma ContinueNone(x: nat, weight: nat, i: nat, b: seq<Byte>)
    requires b == []
    ensures Continued(x, weight, i, Leb(b)) == None
  {
  }

  /** Ten groups of seven bits fit in 64 bits as long as the last one is 0 or 1. */
  lemma TenBytes(x: nat, weight: nat, b: nat, i: nat)
    requires i <= 9 && weight == Pow2(7 * i) && x < weight && b < 128
    ensures x + weight * b < Pow2(64) <==> !(i == 9 && b > 1)
  {
    hide Pow2;
    Powers();
    if i < 9 {
      NextByteFits(x, weight, b);
      PowSteps(7 * (i + 1));
      PowGrows(7 * (i + 1), 63);
    }
  }

  lemma {:induction false} PowGrows(m: nat, n: nat)
    requires m <= n
    ensures Pow2(m) <= Pow2(n)
  {
    if m < n {
      PowGrows(m, n - 1);
    }
  }

  /** The strict reader accepts exactly the 32-bit integers of the specification. */
  method ReadU32(b: seq<Byte>) returns (r: Option<Reading>)
    ensures r == ReadU(32, b)
  {
    hide ReadU, Leb, Pow2;
    ReadUIsBoundedLeb(64, b);
    ReadUIsBoundedLeb(32, b);
    Powers();
    var v, n := Uvarint(b);
    if n <= 0 {
      return None;
    }
    if n > 5 {
      return None;
    }
    if v > 0xffff_ffff {
      return None;
    }
    return Some(Reading(v, n));
  }

  // ---------------------------------------------------------------- the lenient reader

  /** A stream of bytes read from a position; the position may be moved past the end. */
  class ByteReader {
    const data: seq<Byte>
    var pos: nat

    function Rest(): (rest: seq<Byte>)
      reads this
    {
      if pos <= |data| then data[pos..] else []
    }

    constructor (bytes: seq<Byte>)
      ensures data == bytes && pos == 0 && Rest() == bytes
    {
      data, pos := bytes, 0;
    }

    method ReadByte() returns (b: Option<Byte>)
      modifies this
      ensures if old(Rest()) == [] then b == None && pos == old(pos) else b == Some(old(Rest())[0]) && pos == old(pos) + 1 && Rest() == old(Rest())[1..]
    {
      if pos >= |data| {
        return None;
      }
      b := Some(data[pos]);
      pos := pos + 1;
    }

    /** All of n bytes, or nothing if fewer remain. */
    method ReadFull(n: nat) returns (bytes: Option<seq<Byte>>)
      modifies this
      ensures if n > |old(Rest())| then bytes == None else bytes == Some(old(Rest())[..n]) && pos == old(pos) + n && Rest() == old(Rest())[n..]
    {
      assert Rest()[..0] == [] && Rest()[0..] == Rest();
      if n == 0 {
        return Some([]);
      }
      if pos > |data| || n > |data| - pos {
        return None;
      }
      bytes := Some(data[pos..pos + n]);
      assert data[pos..pos + n] == data[pos..][..n] && data[pos + n..] == data[pos..][n..];
      pos := pos + n;
    }

    method SkipForward(n: nat)
      modifies this
      ensures pos == old(pos) + n && Rest() == if n <= |old(Rest())| then old(Rest())[n..] else []
    {
      pos := pos + n;
    }

    /**
     * The lenient reader: it drops the bits beyond 32 and allows a sixth byte. Its groups of
     * seven bits never overlap, so joining them is addition.
     */
    method ReadVarUint32() returns (r: Option<nat>)
      modifies this
      ensures match ReadVar(old(Rest()))
              case None => r == None
              case Some(x) => r == Some(x.value) && pos == old(pos) + x.size && x.size <= |old(Rest())| && Rest() == old(Rest())[x.size..]
    {
      hide Leb, Continued, Pow2, Rest;
      ghost var start: seq<Byte>, x: nat, i: nat := Rest(), 0, 0;
      var result: nat, shift: nat := 0, 0;
      FromTheStart(start);
      while true
        invariant shift == 7 * i <= 35 && i <= |start| && pos == old(pos) + i && Rest() == start[i..]
        invariant result == x % TWO_TO_THE_32
        invariant Leb(start) == Continued(x, Pow2(shift), i, Leb(start[i..]))
        decreases 35 - shift
      {
        ghost var rest := start[i..];
        var read := ReadByte();
        if read.None? {
          ContinueNone(x, Pow2(shift), i, rest);
          return None;
        }
        var b: int := read.value;
        assert rest[1..] == start[i + 1..];
        ghost var c: nat, weight := b % 128, Pow2(shift);
        Truncate(x, weight * c);
        result := (result + Pow2(shift) * (b % 128)) % TWO_TO_THE_32;
        if b < 128 {
          ContinueLast(x, weight, i, rest);
          return Some(result);
        }
        ContinueOneMore(x, weight, i, rest, c);
        PowSteps(shift + 7);
        shift := shift + 7;
        x, i := x + weight * c, i + 1;
        if shift > 35 {
          ContinueTooLong(x, Pow2(shift), i, start[i..]);
          return None;
        }
      }
    }
  }

  lemma Truncate(x: nat, y: nat)
    ensures (x % TWO_TO_THE_32 + y) % TWO_TO_THE_32 == (x + y) % TWO_TO_THE_32
  {
  }

  /** What the lenient reader makes of a sequence of bytes. */
  function ReadVar(b: seq<Byte>): Option<Reading> {
    match Leb(b)
    case None => None
    case Some(r) => if r.size <= 6 then Some(Reading(r.value % TWO_TO_THE_32, r.size)) else None
  }

  /** Wherever the strict reader succeeds the lenient one reads the same value from the same bytes. */
  lemma StrictImpliesLenient(b: seq<Byte>)
    requires ReadU(32, b).Some?
    ensures ReadVar(b) == ReadU(32, b)
  {
    hide ReadU, Leb, Pow2;
    ReadUIsBoundedLeb(32, b);
    Powers();
  }

  /** The readers differ exactly on integers that end within six bytes but are too long or too large. */
  lemma ReadersDifferIff(b: seq<Byte>)
    ensures ReadVar(b) != ReadU(32, b) <==> Leb(b).Some? && Leb(b).value.size <= 6 && (Leb(b).value.size == 6 || Leb(b).value.value >= TWO_TO_THE_32)
  {
    hide ReadU, Leb, Pow2;
    ReadUIsBoundedLeb(32, b);
    Powers();
  }

  // ---------------------------------------------------------------- encoding

  /** The shortest encoding of an integer. */
  function EncodeU(n: nat): (b: seq<Byte>)
    ensures b != []
  {
    if n < 128 then [n] else [n % 128 + 128] + EncodeU(n / 128)
  }

  /** Reading an encoded integer gives it back and consumes its bytes, whatever follows. */
  lemma {:induction false} EncodedIsRead(bits: nat, n: nat, rest: seq<Byte>)
    requires n < Pow2(bits) && bits >= 1
    ensures ReadU(bits, EncodeU(n) + rest) == Some(Reading(n, |EncodeU(n)|))
    decreases n
  {
    var b := EncodeU(n) + rest;
    if n >= 128 {
      if bits <= 7 {
        PowGrows(bits, 7);
        Powers();
        assert false;
      } else {
        PowSteps(bits);
        EncodedIsRead(bits - 7, n / 128, rest);
        assert b[1..] == EncodeU(n / 128) + rest;
      }
    }
  }
}
