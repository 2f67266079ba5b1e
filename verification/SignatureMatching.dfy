/** Matching signatures with signers by hint, and the weight they carry together. */
module SignatureMatching {
  import opened Text

  const TWO_32: nat := 0x1_0000_0000

  type Key = k: seq<Byte> | |k| == 32 witness seq(32, _ => 0)

  type Hint = seq<Byte>

  /** A signer's key; `Malformed` lacks the arm of its type or has an unknown type. */
  datatype SignerKey = Ed25519(key: Key) | HashX(hash: Key) | PreAuthTx(hash: Key) | SignedPayload(key: Key, payload: seq<Byte>) | Malformed

  datatype Signer = Signer(key: SignerKey, weight: nat)

  /** The last four bytes of the key; a signed payload goes by its own key, and a malformed key has no hint. */
  function SignerHint(key: SignerKey): (h: Option<Hint>)
    ensures h.Some? ==> |h.value| == 4
  {
    match key
    case Ed25519(k) => Some(k[28..])
    case HashX(h) => Some(h[28..])
    case PreAuthTx(h) => Some(h[28..])
    case SignedPayload(k, _) => Some(k[28..])
    case Malformed => None
  }

  function HintOf(s: Signer): Option<Hint> {
    SignerHint(s.key)
  }

  /** The master key comes first, if it has any weight. */
  function KnownSigners(master: Signer, configured: seq<Signer>): seq<Signer> {
    if master.weight > 0 then [master] + configured else configured
  }

  datatype Diagnosis = Diagnosis(signed: seq<bool>, weight: nat, unknown: nat, sufficient: bool, missing: nat)

  // ---------------------------------------------------------------- counting

  /** How many signatures carry a hint. */
  function CountOf(hints: seq<Hint>, h: Hint): nat {
    if hints == [] then 0 else (if hints[0] == h then 1 else 0) + CountOf(hints[1..], h)
  }

  /** How many of the first n signers carry a hint. */
  function RankOf(signers: seq<Signer>, h: Hint, n: nat): nat
    requires n <= |signers|
  {
    if n == 0 then 0 else RankOf(signers, h, n - 1) + if HintOf(signers[n - 1]) == Some(h) then 1 else 0
  }

  /** The i-th signer is among as many lowest ones of its hint as there are signatures for it. */
  predicate ShouldSign(signers: seq<Signer>, hints: seq<Hint>, i: nat)
    requires i < |signers|
  {
    HintOf(signers[i]).Some? && RankOf(signers, HintOf(signers[i]).value, i) < CountOf(hints, HintOf(signers[i]).value)
  }

  /** The signers that signed, decided from the counts alone. */
  ghost predicate SignedExactly(signers: seq<Signer>, hints: seq<Hint>, signed: seq<bool>) {
    |signed| == |signers| && forall i :: 0 <= i < |signers| ==> (signed[i] <==> ShouldSign(signers, hints, i))
  }

  function Total(signers: seq<Signer>, signed: seq<bool>): nat
    requires |signed| == |signers|
  {
    if signers == [] then 0 else (if signed[0] then signers[0].weight else 0) + Total(signers[1..], signed[1..])
  }

  function Signatures(signed: seq<bool>): nat {
    if signed == [] then 0 else (if signed[0] then 1 else 0) + Signatures(signed[1..])
  }

  lemma {:induction false} MarkOne(signers: seq<Signer>, signed: seq<bool>, i: nat)
    requires |signed| == |signers| && i < |signers| && !signed[i]
    ensures Total(signers, signed[i := true]) == Total(signers, signed) + signers[i].weight
    ensures Signatures(signed[i := true]) == Signatures(signed) + 1
  {
    if i == 0 {
      assert signed[0 := true][1..] == signed[1..];
    } else {
      assert signed[i := true][1..] == signed[1..][i - 1 := true];
      MarkOne(signers[1..], signed[1..], i - 1);
    }
  }

  lemma {:induction false} CountOneMore(hints: seq<Hint>, h: Hint, x: Hint)
    ensures CountOf(hints + [x], h) == CountOf(hints, h) + if x == h then 1 else 0
  {
    if hints == [] {
      assert hints + [x] == [x];
    } else {
      assert (hints + [x])[1..] == hints[1..] + [x];
      CountOneMore(hints[1..], h, x);
    }
  }

  lemma {:induction false} RankGrows(signers: seq<Signer>, h: Hint, m: nat, n: nat)
    requires m <= n <= |signers|
    ensures RankOf(signers, h, m) <= RankOf(signers, h, n)
    ensures m < n && HintOf(signers[m]) == Some(h) ==> RankOf(signers, h, m) < RankOf(signers, h, n)
  {
    if m < n {
      RankGrows(signers, h, m, n - 1);
    }
  }

  // ---------------------------------------------------------------- the diagnosis

  /** The signers of each hint, in order. */
  ghost predicate Indexes(byHint: map<Hint, seq<nat>>, signers: seq<Signer>, n: nat)
    requires n <= |signers|
  {
    (forall h :: h in byHint ==> forall k :: 0 <= k < |byHint[h]| ==>
       byHint[h][k] < n && HintOf(signers[byHint[h][k]]) == Some(h) && RankOf(signers, h, byHint[h][k]) == k)
    && forall h :: (if h in byHint then |byHint[h]| else 0) == RankOf(signers, h, n)
  }

  /** The key of the i-th known signer: the master key stands before the configured ones. */
  function KeyAt(master: Signer, configured: seq<Signer>, i: nat): SignerKey
    requires i < |KnownSigners(master, configured)|
  {
    if i == 0 && master.weight > 0 then master.key
    else configured[if master.weight > 0 then i - 1 else i].key
  }

  lemma KeyAtIsKey(master: Signer, configured: seq<Signer>, i: nat)
    requires i < |KnownSigners(master, configured)|
    ensures SignerHint(KeyAt(master, configured, i)) == HintOf(KnownSigners(master, configured)[i])
  {
  }

  lemma NothingIndexed(signers: seq<Signer>)
    ensures Indexes(map[], signers, 0)
  {
  }

  lemma IndexOneMore(byHint: map<Hint, seq<nat>>, signers: seq<Signer>, i: nat)
    requires i < |signers| && Indexes(byHint, signers, i)
    ensures HintOf(signers[i]).None? ==> Indexes(byHint, signers, i + 1)
    ensures HintOf(signers[i]).Some? ==>
              var h := HintOf(signers[i]).value;
              Indexes(byHint[h := (if h in byHint then byHint[h] else []) + [i]], signers, i + 1)
  {
    hide HintOf;
  }

  method IndexByHint(master: Signer, configured: seq<Signer>) returns (byHint: map<Hint, seq<nat>>)
    ensures Indexes(byHint, KnownSigners(master, configured), |KnownSigners(master, configured)|)
  {
    hide SignerHint, RankOf, Indexes, HintOf;
    byHint := map[];
    ghost var signers := KnownSigners(master, configured);
    NothingIndexed(signers);
    for i := 0 to |KnownSigners(master, configured)|
      invariant Indexes(byHint, signers, i)
    {
      var hint := SignerHint(KeyAt(master, configured, i));
      KeyAtIsKey(master, configured, i);
      IndexOneMore(byHint, signers, i);
      if hint.Some? {
        var h := hint.value;
        byHint := byHint[h := (if h in byHint then byHint[h] else []) + [i]];
      }
    }
  }

  /**
   * Each signature satisfies at most one signer, and those of one hint satisfy its signers
   * from the first on; the rest are unknown. Weights are added in 32 bits.
   */
  method DiagnoseSignatures(master: Signer, configured: seq<Signer>, hints: seq<Hint>, threshold: nat) returns (d: Diagnosis)
    ensures SignedExactly(KnownSigners(master, configured), hints, d.signed)
    ensures d.weight == Total(KnownSigners(master, configured), d.signed) % TWO_32
    ensures Signatures(d.signed) + d.unknown == |hints|
    ensures d.sufficient <==> d.weight >= threshold
    ensures d.missing == if d.sufficient then 0 else threshold - d.weight
  {
    hide CountOf, RankOf, Total, Signatures, KnownSigners, SignerHint;
    var signers := KnownSigners(master, configured);
    var byHint := IndexByHint(master, configured);
    var accumulated, unknown := 0, 0;
    var signed := new bool[|signers|](_ => false);
    NothingSigned(signers, signed[..]);
    for s := 0 to |hints|
      invariant SignedExactly(signers, hints[..s], signed[..])
      invariant accumulated == Total(signers, signed[..]) % TWO_32
      invariant Signatures(signed[..]) + unknown == s
    {
      var h := hints[s];
      var matched := false;
      ghost var before := signed[..];
      assert hints[..s + 1] == hints[..s] + [h];
      forall g
        ensures CountOf(hints[..s + 1], g) == CountOf(hints[..s], g) + if g == h then 1 else 0
      {
        CountOneMore(hints[..s], g, h);
      }
      var indexes := if h in byHint then byHint[h] else [];
      var k := 0;
      while k < |indexes|
        invariant k <= |indexes| && !matched && signed[..] == before
        invariant k <= CountOf(hints[..s], h)
      {
        var idx := indexes[k];
        if !signed[idx] {
          MarkOne(signers, signed[..], idx);
          signed[idx] := true;
          assert signed[..] == before[idx := true];
          accumulated := (accumulated + signers[idx].weight) % TWO_32;
          matched := true;
          NextSigns(signers, hints[..s], h, before, idx);
          break;
        }
        k := k + 1;
      }
      if !matched {
        NoneLeft(signers, hints[..s], h, before);
        unknown := unknown + 1;
      }
    }
    assert hints[..|hints|] == hints;
    d := Diagnosis(signed[..], accumulated, unknown, accumulated >= threshold, if accumulated >= threshold then 0 else threshold - accumulated);
  }

  lemma NothingSigned(signers: seq<Signer>, signed: seq<bool>)
    requires |signed| == |signers| && forall i :: 0 <= i < |signed| ==> !signed[i]
    ensures SignedExactly(signers, [], signed) && Total(signers, signed) == 0 && Signatures(signed) == 0
  {
    NoTotal(signers, signed);
  }

  lemma {:induction false} NoTotal(signers: seq<Signer>, signed: seq<bool>)
    requires |signed| == |signers| && forall i :: 0 <= i < |signed| ==> !signed[i]
    ensures Total(signers, signed) == 0 && Signatures(signed) == 0
  {
    if signers != [] {
      NoTotal(signers[1..], signed[1..]);
    }
  }

  /** One more signature of a hint makes its first unsigned signer sign. */
  lemma NextSigns(signers: seq<Signer>, hints: seq<Hint>, h: Hint, signed: seq<bool>, idx: nat)
    requires SignedExactly(signers, hints, signed) && idx < |signers| && HintOf(signers[idx]) == Some(h)
    requires RankOf(signers, h, idx) == CountOf(hints, h)
    ensures SignedExactly(signers, hints + [h], signed[idx := true])
  {
    hide CountOf, RankOf;
    forall i | 0 <= i < |signers|
      ensures signed[idx := true][i] <==> ShouldSign(signers, hints + [h], i)
    {
      if HintOf(signers[i]).Some? {
        CountOneMore(hints, HintOf(signers[i]).value, h);
        if i < idx {
          RankGrows(signers, h, i, idx);
        } else {
          RankGrows(signers, h, idx, i);
        }
      }
    }
  }

  /** Once all signers of a hint have signed, another signature of it changes nothing. */
  lemma NoneLeft(signers: seq<Signer>, hints: seq<Hint>, h: Hint, signed: seq<bool>)
    requires SignedExactly(signers, hints, signed) && RankOf(signers, h, |signers|) <= CountOf(hints, h)
    ensures SignedExactly(signers, hints + [h], signed)
  {
    hide CountOf, RankOf;
    forall i | 0 <= i < |signers|
      ensures signed[i] <==> ShouldSign(signers, hints + [h], i)
    {
      if HintOf(signers[i]).Some? {
        CountOneMore(hints, HintOf(signers[i]).value, h);
        RankGrows(signers, h, i, |signers|);
      }
    }
  }

  // ---------------------------------------------------------------- what the diagnosis means

  /** Exactly the smaller of the numbers of signatures and of signers of a hint have signed. */
  function SignedOf(signers: seq<Signer>, signed: seq<bool>, h: Hint, n: nat): nat
    requires n <= |signers| == |signed|
  {
    if n == 0 then 0 else SignedOf(signers, signed, h, n - 1) + if signed[n - 1] && HintOf(signers[n - 1]) == Some(h) then 1 else 0
  }

  lemma {:induction false} SmallerCountSigns(signers: seq<Signer>, hints: seq<Hint>, signed: seq<bool>, h: Hint, n: nat)
    requires SignedExactly(signers, hints, signed) && n <= |signers|
    ensures var rank, count := RankOf(signers, h, n), CountOf(hints, h);
            SignedOf(signers, signed, h, n) == if rank < count then rank else count
  {
    if n > 0 {
      SmallerCountSigns(signers, hints, signed, h, n - 1);
    }
  }

  lemma {:induction false} CountIsMultiplicity(hints: seq<Hint>, h: Hint)
    ensures CountOf(hints, h) == multiset(hints)[h]
  {
    if hints != [] {
      assert hints == [hints[0]] + hints[1..];
      CountIsMultiplicity(hints[1..], h);
    }
  }

  /** The order in which signatures are supplied decides nothing. */
  lemma OrderIsIrrelevant(signers: seq<Signer>, hints: seq<Hint>, others: seq<Hint>, signed: seq<bool>, alsoSigned: seq<bool>)
    requires multiset(hints) == multiset(others)
    requires SignedExactly(signers, hints, signed) && SignedExactly(signers, others, alsoSigned)
    ensures signed == alsoSigned && |hints| == |others|
  {
    hide CountOf, RankOf;
    assert |hints| == |multiset(hints)| == |multiset(others)| == |others|;
    forall i | 0 <= i < |signers|
      ensures signed[i] == alsoSigned[i]
    {
      if HintOf(signers[i]).Some? {
        CountIsMultiplicity(hints, HintOf(signers[i]).value);
        CountIsMultiplicity(others, HintOf(signers[i]).value);
      }
    }
  }

  // ---------------------------------------------------------------- the diagnosis spelled out

  /** The hint of a key is its last four bytes, whatever its type; that of a signed payload ignores the payload. */
  lemma HintIsTail(key: SignerKey, i: nat)
    requires !key.Malformed? && i < 4
    ensures SignerHint(key).Some? && |SignerHint(key).value| == 4
    ensures SignerHint(key).value[i] == (if key.Ed25519? || key.SignedPayload? then key.key else key.hash)[28 + i]
  {
  }

  lemma {:induction false} TotalAppend(signers: seq<Signer>, signed: seq<bool>, s: Signer, b: bool)
    requires |signed| == |signers|
    ensures Total(signers + [s], signed + [b]) == Total(signers, signed) + if b then s.weight else 0
    ensures Signatures(signed + [b]) == Signatures(signed) + if b then 1 else 0
  {
    if signers == [] {
      assert [s][1..] == [] && [b][1..] == [];
    } else {
      assert (signers + [s])[1..] == signers[1..] + [s] && (signed + [b])[1..] == signed[1..] + [b];
      TotalAppend(signers[1..], signed[1..], s, b);
    }
  }

  lemma {:induction false} TotalIsFromTheEnd(signers: seq<Signer>, signed: seq<bool>)
    requires |signed| == |signers| > 0
    ensures var n := |signers| - 1;
            Total(signers, signed) == Total(signers[..n], signed[..n]) + (if signed[n] then signers[n].weight else 0)
            && Signatures(signed) == Signatures(signed[..n]) + if signed[n] then 1 else 0
  {
    var n := |signers| - 1;
    assert signers == signers[..n] + [signers[n]] && signed == signed[..n] + [signed[n]];
    TotalAppend(signers[..n], signed[..n], signers[n], signed[n]);
  }

  /** How many of the first n configured signers have a hint. */
  function Rivals(configured: seq<Signer>, h: Hint, n: nat): nat
    requires n <= |configured|
  {
    |set i | 0 <= i < n && HintOf(configured[i]) == Some(h)|
  }

  lemma {:induction false} RankCounts(signers: seq<Signer>, h: Hint, n: nat)
    requires n <= |signers|
    ensures RankOf(signers, h, n) == Rivals(signers, h, n)
  {
    var all := set i | 0 <= i < n && HintOf(signers[i]) == Some(h);
    if n > 0 {
      RankCounts(signers, h, n - 1);
      var fewer := set i | 0 <= i < n - 1 && HintOf(signers[i]) == Some(h);
      assert all == fewer + if HintOf(signers[n - 1]) == Some(h) then {n - 1} else {};
    }
  }

  lemma {:induction false} RankBehindMaster(master: Signer, configured: seq<Signer>, h: Hint, n: nat)
    requires n <= |configured|
    ensures RankOf([master] + configured, h, n + 1) == (if HintOf(master) == Some(h) then 1 else 0) + RankOf(configured, h, n)
  {
    if n > 0 {
      RankBehindMaster(master, configured, h, n - 1);
    }
  }

  /**
   The master key, if it has any weight, signs first: with the first signature of its hint. A configured signer
   signs once there are more signatures of its hint than there are signers of it before, the master key among them.
   */
  lemma MasterSignsFirst(master: Signer, configured: seq<Signer>, hints: seq<Hint>, signed: seq<bool>, i: nat, h: Hint)
    requires SignedExactly(KnownSigners(master, configured), hints, signed) && i < |configured|
    ensures |signed| == |configured| + if master.weight > 0 then 1 else 0
    ensures master.weight > 0 && HintOf(master) == Some(h) ==> (signed[0] <==> h in hints)
    ensures HintOf(configured[i]) == Some(h) ==>
              var before := Rivals(configured, h, i) + if master.weight > 0 && HintOf(master) == Some(h) then 1 else 0;
              (signed[if master.weight > 0 then i + 1 else i] <==> multiset(hints)[h] > before)
  {
    hide CountOf, HintOf;
    CountIsMultiplicity(hints, h);
    RankCounts(configured, h, i);
    RankBehindMaster(master, configured, h, i);
  }
}
