/** Converting a KMS signature into an EVM one. */
module KmsSigner {
  import opened Prelude

  newtype Byte = b: int | 0 <= b < 256
  type Bytes = seq<Byte>

  /** The order of secp256k1 and half of it, rounded down. */
  const N: nat := 0xFFFF_FFFF_FFFF_FFFF_FFFF_FFFF_FFFF_FFFE_BAAE_DCE6_AF48_A03B_BFD2_5E8C_D036_4141
  const HALF_N: nat := N / 2

  // ----- Big-endian numbers -----

  function BigEndian(bs: Bytes): nat {
    if bs == [] then 0 else BigEndian(bs[..|bs| - 1]) * 256 + bs[|bs| - 1] as nat
  }

  /** The shortest big-endian form; zero is the empty string. */
  function ToBytes(n: nat): Bytes {
    if n == 0 then [] else ToBytes(n / 256) + [(n % 256) as Byte]
  }

  function Pow256(k: nat): nat {
    if k == 0 then 1 else 256 * Pow256(k - 1)
  }

  function Abs(i: int): nat { if i < 0 then -i else i }

  lemma {:induction false} ToBytesValue(n: nat)
    ensures BigEndian(ToBytes(n)) == n
  {
    if n > 0 {
      ToBytesValue(n / 256);
      assert ToBytes(n)[..|ToBytes(n)| - 1] == ToBytes(n / 256);
    }
  }

  lemma {:induction false} LeadingZero(bs: Bytes)
    ensures BigEndian([0] + bs) == BigEndian(bs)
  {
    if bs == [] {
      assert [0 as Byte][..0] == [];
      assert [0 as Byte] + bs == [0];
    } else {
      LeadingZero(bs[..|bs| - 1]);
      assert ([0] + bs)[..|bs|] == [0] + bs[..|bs| - 1];
    }
  }

  lemma {:induction false} Bounds(bs: Bytes)
    ensures BigEndian(bs) < Pow256(|bs|)
    ensures bs != [] && bs[0] != 0 ==> BigEndian(bs) >= Pow256(|bs| - 1)
  {
    if |bs| == 1 {
      assert bs[..0] == [];
    } else if bs != [] {
      Bounds(bs[..|bs| - 1]);
    }
  }

  /** A number has one form of each length. */
  lemma {:induction false} OneFormPerLength(a: Bytes, b: Bytes)
    requires |a| == |b| && BigEndian(a) == BigEndian(b)
    ensures a == b
  {
    if a != [] {
      var n := |a| - 1;
      OneFormPerLength(a[..n], b[..n]);
      assert a == a[..n] + [a[n]] && b == b[..n] + [b[n]];
    }
  }

  // ----- Padding -----

  function TrimLeft(bs: Bytes): Bytes {
    if bs != [] && bs[0] == 0 then TrimLeft(bs[1..]) else bs
  }

  lemma {:induction false} TrimLeftKeepsValue(bs: Bytes)
    ensures BigEndian(TrimLeft(bs)) == BigEndian(bs)
    ensures TrimLeft(bs) == [] || TrimLeft(bs)[0] != 0
  {
    if bs != [] && bs[0] == 0 {
      TrimLeftKeepsValue(bs[1..]);
      LeadingZero(bs[1..]);
      assert bs == [0] + bs[1..];
    }
  }

  lemma {:induction false} PowGrows(i: nat, j: nat)
    requires i <= j
    ensures Pow256(i) <= Pow256(j)
  {
    if i < j { PowGrows(i, j - 1); }
  }

  lemma ShortIffSmall(bs: Bytes)
    requires bs == [] || bs[0] != 0
    ensures |bs| <= 32 <==> BigEndian(bs) < Pow256(32)
  {
    Bounds(bs);
    if |bs| <= 32 { PowGrows(|bs|, 32); } else { PowGrows(32, |bs| - 1); }
  }

  /** The value in 32 bytes if it fits, and otherwise in as many as it needs. */
  predicate Padded(value: nat, padded: Bytes) {
    && BigEndian(padded) == value
    && if value < Pow256(32) then |padded| == 32 else |padded| > 32 && padded[0] != 0
  }

  method PadTo32Bytes(buffer: Bytes) returns (padded: Bytes)
    ensures Padded(BigEndian(buffer), padded)
  {
    var trimmed := TrimLeft(buffer);
    TrimLeftKeepsValue(buffer);
    ShortIffSmall(trimmed);
    if |trimmed| >= 32 { return trimmed; }
    padded := CopyRight(trimmed);
    ZerosKeepValue(32 - |trimmed|, trimmed);
  }

  /** A short number at the right end of 32 zero bytes. */
  method CopyRight(trimmed: Bytes) returns (padded: Bytes)
    requires |trimmed| < 32
    ensures padded == Zeros(32 - |trimmed|) + trimmed
  {
    var out := new Byte[32](_ => 0);
    var shift := 32 - |trimmed|;
    for i := 0 to |trimmed|
      invariant forall j | 0 <= j < shift :: out[j] == 0
      invariant forall j | 0 <= j < i :: out[shift + j] == trimmed[j]
    {
      out[shift + i] := trimmed[i];
    }
    assert forall j | 0 <= j < 32 :: out[j] == (Zeros(shift) + trimmed)[j];
    return out[..];
  }

  function Zeros(n: nat): (zs: Bytes)
    ensures |zs| == n && forall i | 0 <= i < n :: zs[i] == 0
  {
    if n == 0 then [] else [0] + Zeros(n - 1)
  }

  lemma {:induction false} ZerosKeepValue(n: nat, bs: Bytes)
    ensures BigEndian(Zeros(n) + bs) == BigEndian(bs)
  {
    if n == 0 {
      assert Zeros(0) + bs == bs;
    } else {
      ZerosKeepValue(n - 1, bs);
      LeadingZero(Zeros(n - 1) + bs);
      assert Zeros(n) + bs == [0] + (Zeros(n - 1) + bs);
    }
  }

  // ----- Signatures -----

  datatype SigError = BadEncoding | RecoveryFailed(v: nat) | WrongKey

  /** Public key recovery, which fails on some inputs. */
  type Recovery = (Bytes, Bytes) -> Option<Bytes>

  /**
    What is answered for 64 bytes of r and s, case by case: the signature with id 0 if that
    gives the key, else with id 1 if id 0 gives another key and id 1 the key; otherwise which
    recovery failed, or that both gave other keys.
  */
  ghost predicate Answers(ecrecover: Recovery, key: Bytes, hash: Bytes, rs: Bytes, sig: Result<Bytes, SigError>) {
    var first, second := ecrecover(hash, rs + [0]), ecrecover(hash, rs + [1]);
    && (first == Some(key) ==> sig == Ok(rs + [0]))
    && (first.None? ==> sig == Err(RecoveryFailed(0)))
    && (first.Some? && first != Some(key) && second == Some(key) ==> sig == Ok(rs + [1]))
    && (first.Some? && first != Some(key) && second.None? ==> sig == Err(RecoveryFailed(1)))
    && (first.Some? && first != Some(key) && second.Some? && second != Some(key) ==> sig == Err(WrongKey))
  }

  method RecoverEVMSignature(
      ecrecover: Recovery, key: Bytes, hash: Bytes, r: Bytes, s: Bytes) returns (sig: Result<Bytes, SigError>)
    ensures exists pr: Bytes, ps: Bytes :: Padded(BigEndian(r), pr) && Padded(BigEndian(s), ps)
                                           && Answers(ecrecover, key, hash, pr + ps, sig)
  {
    var paddedR := PadTo32Bytes(r);
    var paddedS := PadTo32Bytes(s);
    sig := TryBoth(ecrecover, key, hash, paddedR + paddedS);
  }

  method TryBoth(ecrecover: Recovery, key: Bytes, hash: Bytes, rsSig: Bytes) returns (sig: Result<Bytes, SigError>)
    ensures Answers(ecrecover, key, hash, rsSig, sig)
  {
    var evmSig := rsSig + [0];
    var recovered := ecrecover(hash, evmSig);
    if recovered.None? { return Err(RecoveryFailed(0)); }
    if recovered.value != key {
      evmSig := rsSig + [1];
      recovered := ecrecover(hash, evmSig);
      if recovered.None? { return Err(RecoveryFailed(1)); }
      if recovered.value != key { return Err(WrongKey); }
    }
    return Ok(evmSig);
  }

  /** The value of s on the low side of the order. */
  function LowS(s: nat): nat {
    if s > HALF_N then Abs(N - s) else s
  }

  /** The 64 bytes of r and of s or its negation, whichever is at most half the order. */
  predicate HoldsLow(rs: Bytes, r: nat, s: nat) {
    && |rs| == 64 && BigEndian(rs[..32]) == r
    && (BigEndian(rs[32..]) == s || BigEndian(rs[32..]) == N - s)
    && 0 < BigEndian(rs[32..]) <= HALF_N
  }

  /**
    `decode` splits a DER signature into the contents of its two integers.  The answer is
    that of trying both recovery ids on r and the low form of s.  For r and s in range those
    are 64 bytes, the answer is given case by case, and a success is a low signature under
    which the expected key is recovered.
  */
  method KmsToEVMSig(
      decode: Bytes -> Option<(Bytes, Bytes)>, ecrecover: Recovery, kmsSig: Bytes, key: Bytes, hash: Bytes)
    returns (sig: Result<Bytes, SigError>)
    ensures decode(kmsSig).None? ==> sig == Err(BadEncoding)
    ensures decode(kmsSig).Some? ==>
              var r, s := BigEndian(decode(kmsSig).value.0), BigEndian(decode(kmsSig).value.1);
              && (exists pr: Bytes, ps: Bytes :: Padded(r, pr) && Padded(LowS(s), ps)
                                                 && Answers(ecrecover, key, hash, pr + ps, sig))
              && (0 < r < N && 0 < s < N ==>
                    && (exists rs: Bytes {:trigger HoldsLow(rs, r, s)} ::
                          && HoldsLow(rs, r, s)
                          && match ecrecover(hash, rs + [0])
                             case None => sig == Err(RecoveryFailed(0))
                             case Some(k0) =>
                               if k0 == key then sig == Ok(rs + [0])
                               else
                                 match ecrecover(hash, rs + [1])
                                 case None => sig == Err(RecoveryFailed(1))
                                 case Some(k1) => sig == if k1 == key then Ok(rs + [1]) else Err(WrongKey))
                    && (sig.Ok? ==> IsLowSignature(sig.value, r, s) && ecrecover(hash, sig.value) == Some(key)))
  {
    match decode(kmsSig)
    case None => return Err(BadEncoding);
    case Some(ecdsaSig) =>
      var (rBytes, sBytes) := ecdsaSig;
      var sBigInt := BigEndian(sBytes);
      if sBigInt > HALF_N {
        sBytes := ToBytes(Abs(N - sBigInt));
        ToBytesValue(Abs(N - sBigInt));
      }
      sig := RecoverEVMSignature(ecrecover, key, hash, rBytes, sBytes);
      ghost var pr: Bytes, ps: Bytes :| Padded(BigEndian(rBytes), pr) && Padded(LowS(sBigInt), ps)
                                        && Answers(ecrecover, key, hash, pr + ps, sig);
      if 0 < BigEndian(rBytes) < N && 0 < sBigInt < N {
        PaddedHoldsLow(pr, ps, BigEndian(rBytes), sBigInt);
        assert HoldsLow(pr + ps, BigEndian(rBytes), sBigInt);
        if sig.Ok? { SuccessIsLowSignature(ecrecover, key, hash, pr + ps, BigEndian(rBytes), sBigInt, sig); }
      }
  }

  /** A signature of r and of s or its negation, whichever is at most half the order. */
  predicate IsLowSignature(sig: Bytes, r: nat, s: nat) {
    |sig| == 65 && HoldsLow(sig[..64], r, s) && sig[64] <= 1
  }

  lemma OrderFits()
    ensures N < Pow256(32) && N % 2 == 1 && HALF_N * 2 + 1 == N
  {
    PowerOf32();
  }

  lemma PowerOf8()
    ensures Pow256(8) == 0x1_0000_0000_0000_0000
  {
    assert Pow256(2) == 0x1_0000;
    PowSum(2, 2);
    PowSum(4, 4);
  }

  lemma PowerOf16()
    ensures Pow256(16) == 0x1_0000_0000_0000_0000_0000_0000_0000_0000
  {
    PowerOf8();
    PowSum(8, 8);
  }

  lemma PowerOf32()
    ensures Pow256(32) == 0x1_0000_0000_0000_0000_0000_0000_0000_0000_0000_0000_0000_0000_0000_0000_0000_0000
  {
    PowerOf16();
    PowSum(16, 16);
  }

  lemma {:induction false} PowSum(i: nat, j: nat)
    ensures Pow256(i + j) == Pow256(i) * Pow256(j)
  {
    if i > 0 {
      PowSum(i - 1, j);
      assert 256 * (Pow256(i - 1) * Pow256(j)) == (256 * Pow256(i - 1)) * Pow256(j);
    }
  }

  lemma PaddedHoldsLow(pr: Bytes, ps: Bytes, r: nat, s: nat)
    requires 0 < r < N && 0 < s < N && Padded(r, pr) && Padded(LowS(s), ps)
    ensures HoldsLow(pr + ps, r, s)
  {
    OrderFits();
    assert (pr + ps)[..32] == pr && (pr + ps)[32..] == ps;
  }

  /** There is one such 64 bytes, so the answer is determined. */
  lemma LowBytesAreUnique(a: Bytes, b: Bytes, r: nat, s: nat)
    requires 0 < s < N && HoldsLow(a, r, s) && HoldsLow(b, r, s)
    ensures a == b
  {
    OneFormPerLength(a[..32], b[..32]);
    OneFormPerLength(a[32..], b[32..]);
    assert a == a[..32] + a[32..] && b == b[..32] + b[32..];
  }

  /**
    Every success is a signature of r and of s or its negation, whichever is at most half
    the order, with a recovery id of 0 or 1 under which the expected key is recovered.
  */
  lemma SuccessIsLowSignature(
      ecrecover: Recovery, key: Bytes, hash: Bytes, rs: Bytes, r: nat, s: nat, sig: Result<Bytes, SigError>)
    requires HoldsLow(rs, r, s) && Answers(ecrecover, key, hash, rs, sig) && sig.Ok?
    ensures IsLowSignature(sig.value, r, s) && ecrecover(hash, sig.value) == Some(key)
  {
    forall v: Byte ensures (rs + [v])[..64] == rs {}
  }

  lemma PaddedIsUnique(value: nat, a: Bytes, b: Bytes)
    requires value < Pow256(32) && Padded(value, a) && Padded(value, b)
    ensures a == b
  {
    OneFormPerLength(a, b);
  }

  /** Which of s and N - s the key service signed with makes no difference to the bytes tried. */
  lemma NegatedSMakesNoDifference(pr: Bytes, ps: Bytes, pr': Bytes, ps': Bytes, r: nat, s: nat)
    requires 0 < r < N && 0 < s < N
    requires Padded(r, pr) && Padded(LowS(s), ps) && Padded(r, pr') && Padded(LowS(N - s), ps')
    ensures pr + ps == pr' + ps'
  {
    OrderFits();
    PaddedIsUnique(r, pr, pr');
    PaddedIsUnique(LowS(s), ps, ps');
  }
}
