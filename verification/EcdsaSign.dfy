/** lib/trezor-crypto/ecdsa.c: the signing loop over the candidates of lib/trezor-crypto/rfc6979.c. */
module EcdsaSign {
  import opened Words
  import opened Bytes
  import opened Limbs
  import opened Bignum
  import opened BignumCodec
  import opened BignumMod
  import opened CurveGroup
  import opened ModArith
  import opened AffinePoint
  import opened EcdsaLaw
  import opened PublicKey
  import opened Ecdsa
  import S = Sha2Spec
  import D = HmacDrbg
  import R = Rfc6979

  const TRIES: nat := 10000

  /** SHA-256 as far as the nonces are concerned. */
  ghost predicate Hash32(alg: S.Algorithm) {
    S.Proper(alg) && alg.DigestLen() == 32
  }

  /** Candidate i of section 3.2 of RFC 6979 for the key and the digest, as a number. */
  ghost function Nonce(alg: S.Algorithm, g: Group, priv: seq<uint8>, digest: seq<uint8>, i: nat): nat
    requires Hash32(alg) && g.n > 0
  {
    Be(R.ToInts(D.Candidate(alg, R.ToBits(priv), R.ToBits(R.Reduced(digest, g.n)), i)))
  }

  /** A candidate that is passed over. */
  ghost predicate PassedOver(g: Group, d: int, z: int, k: nat, canonical: Rule)
    requires g.n > 0
  {
    !Usable(g, k) || (0 < d < g.n && !Accepted(g, d, z, k, canonical))
  }

  /** The candidates before i are passed over. */
  ghost predicate Fruitless(alg: S.Algorithm, g: Group, priv: seq<uint8>, digest: seq<uint8>, canonical: Rule, i: nat)
    requires Hash32(alg) && g.n > 0
  {
    forall j: nat :: j < i ==> PassedOver(g, Be(priv), Be(digest), Nonce(alg, g, priv, digest, j), canonical)
  }

  lemma FruitlessNext(alg: S.Algorithm, g: Group, priv: seq<uint8>, digest: seq<uint8>, canonical: Rule, i: nat)
    requires Hash32(alg) && g.n > 0 && Fruitless(alg, g, priv, digest, canonical, i)
    requires PassedOver(g, Be(priv), Be(digest), Nonce(alg, g, priv, digest, i), canonical)
    ensures Fruitless(alg, g, priv, digest, canonical, i + 1)
  {
    hide PassedOver, Nonce, Be;
  }

  lemma FruitlessNone(alg: S.Algorithm, g: Group, priv: seq<uint8>, digest: seq<uint8>, canonical: Rule)
    requires Hash32(alg) && g.n > 0
    ensures Fruitless(alg, g, priv, digest, canonical, 0)
  {}

  ghost predicate AllProper(g: Group, draws: nat -> Draws) {
    forall i: nat :: Proper(g, draws(i))
  }

  /** What a call comes back with. */
  datatype Outcome = Produced(at: nat, recid: nat, sig: seq<uint8>) | ZeroDigest | BadPrivateKey(at: nat) | NoSignature

  /** The first candidate that is not passed over decides. */
  ghost predicate Signed(alg: S.Algorithm, g: Group, priv: seq<uint8>, digest: seq<uint8>, canonical: Rule, o: Outcome)
    requires Hash32(alg) && g.n > 0
  {
    match o
    case ZeroDigest => Be(digest) == 0
    case NoSignature => Be(digest) != 0 && Fruitless(alg, g, priv, digest, canonical, TRIES)
    case BadPrivateKey(at) =>
      Be(digest) != 0 && at < TRIES && Fruitless(alg, g, priv, digest, canonical, at)
      && Usable(g, Nonce(alg, g, priv, digest, at)) && !(0 < Be(priv) < g.n)
    case Produced(at, recid, sig) =>
      Be(digest) != 0 && at < TRIES && Fruitless(alg, g, priv, digest, canonical, at)
      && 0 < Be(priv) < g.n && Issued(g, Be(priv), Be(digest), Nonce(alg, g, priv, digest, at), canonical, recid, sig)
  }

  /** The generator stands before candidate i. */
  ghost predicate Before(drbg: D.Drbg, alg: S.Algorithm, g: Group, priv: seq<uint8>, digest: seq<uint8>, i: nat)
    requires Hash32(alg) && g.n > 0
    reads drbg, drbg.odig, drbg.idig, drbg.v
  {
    drbg.Shape() && drbg.alg == alg && drbg.In(D.Stage(alg, R.ToBits(priv), R.ToBits(R.Reduced(digest, g.n)), i))
  }

  /** The next candidate, and what becomes of it. */
  method Turn(curve: Curve, k: array<uint32>, drbg: D.Drbg, alg: S.Algorithm, draws: Draws, priv: array<uint8>, z: array<uint32>,
              sig: array<uint8>, canonical: Rule, ghost g: Group, ghost digest: seq<uint8>, ghost i: nat) returns (step: Step, recid: nat)
    requires curve.Describes(g) && Hash32(alg) && Proper(g, draws) && g.n > 0 && Before(drbg, alg, g, priv[..], digest, i)
    requires Normalized(z) && Value(z) == Be(digest) < TWO256 && z !in curve.Cells()
    requires priv.Length == 32 && sig.Length == 64 && sig != priv && k.Length == LIMBS && k !in curve.Cells() + {z}
    requires {drbg.odig, drbg.idig, drbg.v} !! {priv as object, z, sig, k} + curve.Cells()
    modifies drbg`key, drbg.odig, drbg.idig, drbg.v, k, sig
    ensures Before(drbg, alg, g, priv[..], digest, i + 1)
    ensures var n := Nonce(alg, g, priv[..], digest, i);
      && (step == Retry ==> PassedOver(g, Be(priv[..]), Be(digest), n, canonical))
      && (step == BadKey ==> Usable(g, n) && !(0 < Be(priv[..]) < g.n))
      && (step == Done ==> 0 < Be(priv[..]) < g.n && Issued(g, Be(priv[..]), Be(digest), n, canonical, recid, sig[..]))
  {
    hide Low, Normal, CurveLaw, Issued, Accepted, Usable, Proper, D.Drbg.In, D.Stage, D.Candidate, Be, Nonce;
    ghost var p := priv[..];
    R.GenerateK(k, drbg, R.ToBits(p), R.ToBits(R.Reduced(digest, g.n)), i);
    NonceIs(alg, g, p, digest, i);
    step, recid := Attempt(curve, k, draws, priv, z, sig, canonical, g);
  }

  /** init_rfc6979 on a state of its own */
  method Start(curve: Curve, alg: S.Algorithm, priv: array<uint8>, digest: array<uint8>, ghost g: Group) returns (drbg: D.Drbg)
    requires curve.Describes(g) && Hash32(alg) && priv.Length == digest.Length == 32
    ensures g.n > 0 && fresh(drbg) && fresh(drbg.odig) && fresh(drbg.idig) && fresh(drbg.v)
    ensures Before(drbg, alg, g, priv[..], digest[..], 0)
  {
    hide Low, Normal, CurveLaw, D.Drbg.In, D.Stage, Be;
    drbg := new D.Drbg(alg);
    OrderGood(curve, g);
    R.Init(priv, digest, curve.order, drbg);
  }

  /** The loop over the candidates. */
  method TryCandidates(curve: Curve, drbg: D.Drbg, alg: S.Algorithm, priv: array<uint8>, z: array<uint32>, sig: array<uint8>,
                       canonical: Rule, draws: nat -> Draws, ghost g: Group, ghost digest: seq<uint8>)
    returns (ret: int, recid: nat, ghost o: Outcome)
    requires curve.Describes(g) && Hash32(alg) && AllProper(g, draws) && g.n > 0 && Before(drbg, alg, g, priv[..], digest, 0)
    requires Normalized(z) && 0 != Value(z) == Be(digest) < TWO256 && z !in curve.Cells()
    requires priv.Length == 32 && sig.Length == 64 && sig != priv
    requires {drbg.odig, drbg.idig, drbg.v} !! {priv as object, z, sig} + curve.Cells()
    modifies drbg`key, drbg.odig, drbg.idig, drbg.v, sig
    ensures Signed(alg, g, priv[..], digest, canonical, o) && o != ZeroDigest
    ensures ret == match o { case Produced(_, _, _) => 0 case ZeroDigest => 1 case BadPrivateKey(_) => 2 case NoSignature => -1 }
    ensures o.Produced? ==> o.recid == recid && o.sig == sig[..]
  {
    hide Low, Normal, Issued, PassedOver, Usable, Fruitless, Before, Proper, Be, Nonce, Curve.Describes;
    ghost var p := priv[..];
    var k := new uint32[LIMBS];
    FruitlessNone(alg, g, p, digest, canonical);
    for i := 0 to TRIES
      invariant Fruitless(alg, g, p, digest, canonical, i) && Before(drbg, alg, g, p, digest, i) && curve.Describes(g)
      invariant Normalized(z) && Value(z) == Be(digest) && priv[..] == p
    {
      var step, chosen := Turn(curve, k, drbg, alg, draws(i), priv, z, sig, canonical, g, digest, i);
      match step {
        case Retry =>
          FruitlessNext(alg, g, p, digest, canonical, i);
        case BadKey =>
          return 2, 0, BadPrivateKey(i);
        case Done =>
          return 0, chosen, Produced(i, chosen, sig[..]);
      }
    }
    return -1, 0, NoSignature;
  }

  /** tc_ecdsa_sign_digest */
  method SignDigest(curve: Curve, alg: S.Algorithm, priv: array<uint8>, digest: array<uint8>, sig: array<uint8>,
                    canonical: Rule, draws: nat -> Draws, ghost g: Group) returns (ret: int, recid: nat, ghost o: Outcome)
    requires curve.Describes(g) && Hash32(alg) && AllProper(g, draws)
    requires priv.Length == digest.Length == 32 && sig.Length == 64 && sig !in {priv, digest}
    modifies sig
    ensures g.n > 0 && Signed(alg, g, priv[..], digest[..], canonical, o)
    ensures ret == match o { case Produced(_, _, _) => 0 case ZeroDigest => 1 case BadPrivateKey(_) => 2 case NoSignature => -1 }
    ensures o.Produced? ==> o.recid == recid && o.sig == sig[..]
  {
    hide Low, Normal, Issued, PassedOver, Usable, Fruitless, Before, Proper, Be, Nonce, Curve.Describes;
    var drbg := Start(curve, alg, priv, digest, g);
    ghost var p, m := priv[..], digest[..];
    var z := new uint32[LIMBS];
    ReadBe(digest, 0, z);
    assert digest[0..32] == digest[..];
    var zeroDigest := IsZero(z);
    if zeroDigest {
      return 1, 0, ZeroDigest;
    }
    ret, recid, o := TryCandidates(curve, drbg, alg, priv, z, sig, canonical, draws, g, m);
  }

  lemma OrderGood(curve: Curve, g: Group)
    requires curve.Describes(g)
    ensures g.n > 0 && GoodPrime(curve.order) && Value(curve.order) == g.n
  {}

  lemma NonceIs(alg: S.Algorithm, g: Group, priv: seq<uint8>, digest: seq<uint8>, i: nat)
    requires Hash32(alg) && g.n > 0
    ensures Nonce(alg, g, priv, digest, i) == Be(R.ToInts(D.Candidate(alg, R.ToBits(priv), R.ToBits(R.Reduced(digest, g.n)), i)))
  {}

  /** Blinding factors and masks do not show: key, digest and rule determine status, signature and
      recovery byte. */
  lemma Deterministic(alg: S.Algorithm, g: Group, priv: seq<uint8>, digest: seq<uint8>, canonical: Rule, o: Outcome, o': Outcome)
    requires Hash32(alg) && g.n > 0
    requires Signed(alg, g, priv, digest, canonical, o) && Signed(alg, g, priv, digest, canonical, o')
    ensures o == o'
  {
    hide Usable, Nonce, Be, SignatureOf, Encoded;
    Stops(alg, g, priv, digest, canonical, o);
    Stops(alg, g, priv, digest, canonical, o');
  }

  /** The candidate at which the loop stops is not one that is passed over. */
  lemma Stops(alg: S.Algorithm, g: Group, priv: seq<uint8>, digest: seq<uint8>, canonical: Rule, o: Outcome)
    requires Hash32(alg) && g.n > 0 && Signed(alg, g, priv, digest, canonical, o)
    ensures o.Produced? || o.BadPrivateKey? ==>
      !PassedOver(g, Be(priv), Be(digest), Nonce(alg, g, priv, digest, o.at), canonical)
  {
    hide Nonce, Be, SignatureOf, Encoded, RawS;
  }

  /** A signature handed out is good: verification accepts it under the signer's key, and recovery
      with its byte succeeds, with that key and with no other. */
  lemma SignedIsGood(alg: S.Algorithm, g: Group, priv: seq<uint8>, digest: seq<uint8>, canonical: Rule, o: Outcome)
    requires CurveLaw(g) && Hash32(alg) && |digest| == 32 && o.Produced? && Signed(alg, g, priv, digest, canonical, o)
    ensures |o.sig| == 64 && Verdict(g, Be(priv), Be(o.sig[..32]), Be(o.sig[32..]), Be(digest)) == 0
    ensures exists m: int :: Recovers(g, Be(o.sig[..32]), Be(o.sig[32..]), Be(digest), o.recid, m, Be(priv))
    ensures forall m: int, t: int :: Recovers(g, Be(o.sig[..32]), Be(o.sig[32..]), Be(digest), o.recid, m, t) ==> Cong(t, Be(priv), g.n)
  {
    hide Fruitless, Nonce, CurveLaw, Be, Issued, Verdict, Recovers;
    IssuedIsGood(g, Be(priv), Be(digest), Nonce(alg, g, priv, digest, o.at), canonical, o.recid, o.sig);
  }

  /** The code of verification for the encoding of a key. */
  lemma CodeUnder(g: Group, key: seq<uint8>, d: int, d': int, r: int, s: int, z: int)
    requires CurveLaw(g) && g.n > 0 && 0 < d < g.n && EncodesKey(g, key, d)
    ensures !NoKey(g, key)
    ensures !AtInfinity(g, d') && EncodesKey(g, key, d') ==> Verdict(g, d', r, s, z) == Verdict(g, d, r, s, z)
  {
    NonzeroN(g, d);
    hide EncodesKey, CurveLaw, Verdict;
    if !AtInfinity(g, d') && EncodesKey(g, key, d') {
      KeyIsUnique(g, key, d, d');
      VerdictSameKey(g, d, d', r, s, z);
    }
  }

  lemma SameEncoding(g: Group, key: seq<uint8>, t: int, d: int)
    requires CurveLaw(g) && Cong(t, d, g.n) && EncodesKey(g, key, t)
    ensures EncodesKey(g, key, d)
  {
    SameMultiples(g, t, d);
    hide CurveLaw;
  }

  /** The random choices of the three calls after signing. */
  datatype Masks = Masks(pub: seq<uint32>, verify: (seq<uint32>, seq<uint32>), recover: (seq<uint32>, seq<uint32>))

  ghost predicate ProperMasks(g: Group, m: Masks) {
    Drawn(m.pub, g.p) && Drawn(m.verify.0, g.p) && Drawn(m.verify.1, g.p) && Drawn(m.recover.0, g.p) && Drawn(m.recover.1, g.p)
  }

  /** On bytes and return codes: once signing returns 0, the key can be encoded, verification under
      it returns 0, and recovery returns 0 and an encoding of that key. */
  method SignVerifyRecover(curve: Curve, alg: S.Algorithm, priv: array<uint8>, digest: array<uint8>, sig: array<uint8>, pub: array<uint8>,
                           key: array<uint8>, canonical: Rule, draws: nat -> Draws, masks: Masks, ghost g: Group)
    returns (signed: int, encoded: int, verified: int, recovered: int)
    requires curve.Describes(g) && Hash32(alg) && AllProper(g, draws) && ProperMasks(g, masks)
    requires Value(curve.prime) % 4 == 3 && curve.b != curve.prime
    requires priv.Length == digest.Length == 32 && sig.Length == 64 && pub.Length == 33 && key.Length == 65
    requires sig !in {priv, digest} && pub !in {priv, digest, sig} && key !in {priv, digest, sig, pub}
    modifies sig, pub, key
    ensures signed == 0 ==> encoded == verified == recovered == 0 && EncodesKey(g, key[..], Be(priv[..]))
  {
    hide Low, Normal, Issued, Usable, Fruitless, Proper, Be, Nonce, EncodesKey, NoKey, Verdict, Recovers, CurveLaw, AtInfinity, Signed, Drawn;
    ghost var o;
    ghost var p, z := priv[..], digest[..];
    encoded, verified, recovered := 0, 0, 0;
    var recid: nat;
    signed, recid, o := SignDigest(curve, alg, priv, digest, sig, canonical, draws, g);
    if signed != 0 {
      return;
    }
    ghost var d, r, s := Be(p), Be(sig[..32]), Be(sig[32..]);
    Halves(sig[..]);
    Describing(curve, g);
    SignedIsGood(alg, g, p, z, canonical, o);
    InRange(alg, g, p, z, canonical, o);
    encoded := GetPublicKey33(curve, priv, pub, masks.pub, g);
    Compressed(g, pub[..], d);
    ghost var d', m, t;
    verified, d' := VerifyDigest(curve, pub, sig, digest, masks.verify, g);
    CodeUnder(g, pub[..], d, d', r, s, Be(z));
    recovered, m, t := RecoverPubFromSig(curve, key, sig, digest, recid, masks.recover, g);
    if recovered == 0 {
      SameEncoding(g, key[..], t, d);
    }
  }

  lemma Halves(s: seq<uint8>)
    requires |s| == 64
    ensures |s[..32]| == |s[32..]| == 32
  {}

  lemma Describing(curve: Curve, g: Group)
    requires curve.Describes(g)
    ensures CurveLaw(g) && g.n > 0
  {
    Moduli(g);
  }

  lemma InRange(alg: S.Algorithm, g: Group, priv: seq<uint8>, digest: seq<uint8>, canonical: Rule, o: Outcome)
    requires Hash32(alg) && g.n > 0 && Signed(alg, g, priv, digest, canonical, o) && o.Produced?
    ensures 0 < Be(priv) < g.n
  {
    hide Fruitless, Nonce, Be, Issued;
  }

  lemma Compressed(g: Group, key: seq<uint8>, d: int)
    requires |key| == 33 && EncodesKey(g, key, d)
    ensures key[0] != 4
  {}
}
