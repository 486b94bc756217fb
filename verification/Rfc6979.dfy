/** lib/trezor-crypto/rfc6979.c: deterministic nonces, section 3.2 of RFC 6979, for a curve order. */
module Rfc6979 {
  import opened Words
  import opened Bytes
  import opened Limbs
  import opened Bignum
  import opened BignumCodec
  import opened BignumMod
  import S = Sha2Spec
  import opened HmacDrbg

  function ToBits(s: seq<uint8>): (t: seq<bv8>)
    ensures |t| == |s| && forall i :: 0 <= i < |s| ==> t[i] == s[i] as bv8
  {
    seq(|s|, i requires 0 <= i < |s| => s[i] as bv8)
  }

  function ToInts(s: seq<bv8>): (t: seq<uint8>)
    ensures |t| == |s| && forall i :: 0 <= i < |s| ==> t[i] == s[i] as int
  {
    seq(|s|, i requires 0 <= i < |s| => s[i] as int)
  }

  /** bits2octets: the hash reduced by the order, in as many bytes. */
  function Reduced(hash: seq<uint8>, order: int): seq<uint8>
    requires order > 0
  {
    BeBytes(Be(hash) % order, 32)
  }

  method ConvertIn(s: array<uint8>) returns (t: array<bv8>)
    ensures fresh(t) && t[..] == ToBits(s[..])
  {
    t := new bv8[s.Length];
    for i := 0 to s.Length
      invariant forall j :: 0 <= j < i ==> t[j] == s[j] as bv8
    {
      t[i] := s[i] as bv8;
    }
  }

  method ConvertOut(s: array<bv8>) returns (t: array<uint8>)
    ensures fresh(t) && t[..] == ToInts(s[..])
  {
    t := new uint8[s.Length];
    for i := 0 to s.Length
      invariant forall j :: 0 <= j < i ==> t[j] == s[j] as int
    {
      t[i] := s[i] as int;
    }
  }

  /** init_rfc6979 for a curve of the given order. */
  method Init(privKey: array<uint8>, hash: array<uint8>, order: array<uint32>, drbg: Drbg)
    requires drbg.Shape() && privKey.Length == hash.Length == 32 && GoodPrime(order) && Value(order) > 0
    modifies drbg`key, drbg.odig, drbg.idig, drbg.v
    ensures drbg.In(Stage(drbg.alg, ToBits(old(privKey[..])), ToBits(Reduced(old(hash[..]), old(Value(order)))), 0))
  {
    hide Low, Normal, Seeded, Stage, Drbg.In, BeBytes, Be, Reduced, ToBits;
    ghost var key, seed := privKey[..], Reduced(hash[..], Value(order));
    var reduced := ReduceHash(hash, order);
    var entropy := ConvertIn(privKey);
    var nonce := ConvertIn(reduced);
    FirstStage(drbg.alg, ToBits(key), ToBits(seed));
    drbg.Init(entropy, nonce);
  }

  lemma FirstStage(a: S.Algorithm, key: S.Bytes, hash: S.Bytes)
    requires S.Proper(a)
    ensures Stage(a, key, hash, 0) == Seeded(a, Start(a), key, hash)
  {}

  method ReduceHash(hash: array<uint8>, order: array<uint32>) returns (reduced: array<uint8>)
    requires hash.Length == 32 && GoodPrime(order)
    ensures fresh(reduced) && Value(order) > 0 && reduced[..] == Reduced(hash[..], Value(order))
  {
    hide Low, Normal, BeBytes;
    var bn := new uint32[LIMBS];
    ReadBe(hash, 0, bn);
    assert hash[0..32] == hash[..];
    Mod(bn, order);
    reduced := new uint8[32];
    ModBelow(Be(hash[..]), Value(order));
    WriteBe(bn, reduced, 0);
    assert reduced[0..32] == reduced[..];
    BytesOfBe(reduced[..]);
  }

  lemma ModBelow(v: nat, m: nat)
    requires 0 < m <= TWO256
    ensures v % m < TWO256
  {}

  /** generate_k_rfc6979: the next candidate as a number. */
  method GenerateK(k: array<uint32>, drbg: Drbg, ghost key: S.Bytes, ghost hash: S.Bytes, ghost n: nat)
    requires drbg.Shape() && drbg.alg.DigestLen() == 32 && drbg.In(Stage(drbg.alg, key, hash, n)) && k.Length == LIMBS
    modifies drbg`key, drbg.odig, drbg.idig, drbg.v, k
    ensures Normalized(k) && Value(k) == Be(ToInts(Candidate(drbg.alg, key, hash, n)))
    ensures drbg.In(Stage(drbg.alg, key, hash, n + 1))
  {
    hide Low, Normal, Stage, Candidate, Drbg.In, Be;
    var buf := new bv8[32];
    GenerateCandidate(drbg, buf, key, hash, n);
    var bytes := ConvertOut(buf);
    assert bytes[0..32] == bytes[..];
    ReadBe(bytes, 0, k);
  }
}
