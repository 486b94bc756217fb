/** lib/trezor-crypto/ecdsa.c: signing, verification and key recovery, over the point operations. */
module Ecdsa {
  import opened Words
  import opened ModArith
  import opened Bytes
  import opened Limbs
  import opened Bignum
  import opened BignumMul
  import opened EuclidRounds
  import opened BignumInverse
  import opened BignumCodec
  import opened Jacobian
  import opened CurveGroup
  import opened AffinePoint
  import opened PointMultiply
  import opened PublicKey
  import opened EcdsaLaw

  // ---------------------------------------------------------------- randomness

  /** The limbs of a number in [1, bound), as generate_k_random draws them. */
  ghost predicate Drawn(s: seq<uint32>, bound: int) {
    |s| == LIMBS && Normal(s) && 0 < Low(s, LIMBS) < bound
  }

  method Draw(s: seq<uint32>) returns (x: array<uint32>)
    requires |s| == LIMBS && Normal(s)
    ensures fresh(x) && Normalized(x) && Value(x) == Low(s, LIMBS)
  {
    x := new uint32[LIMBS];
    for i := 0 to LIMBS
      invariant x[..i] == s[..i]
    {
      x[i] := s[i];
    }
    assert x[..] == s;
  }

  /** The random choices of one signing attempt: the blinding factor and the projective mask. */
  datatype Draws = Draws(blind: seq<uint32>, mask: seq<uint32>)

  ghost predicate Proper(g: Group, draws: Draws) {
    Drawn(draws.blind, g.n) && Drawn(draws.mask, g.p)
  }

  lemma TimesOne(k: int)
    ensures Times(k, 1) == k
  {}

  lemma BaseFinite(g: Group)
    requires CurveLaw(g)
    ensures !AtInfinity(g, 1)
  {
    Moduli(g);
    NonzeroN(g, 1);
  }

  /** res = k * G; 0 on success, 1 when k is 0. */
  method ScalarMultiply(curve: Curve, k: array<uint32>, res: CurvePoint, mask: seq<uint32>, ghost g: Group) returns (status: int)
    requires curve.Describes(g) && Normalized(k) && Value(k) < g.n && res.Separate() && Drawn(mask, g.p)
    requires {res.x, res.y} !! curve.Cells() + {k}
    modifies res.x, res.y
    ensures Affine(g, res, Value(k)) && status == if Value(k) == 0 then 1 else 0
  {
    hide Low, Normal, Cong, CurveLaw, AtInfinity, Times;
    BaseFinite(g);
    TimesOne(Value(k));
    var noise := Draw(mask);
    status := PointMultiply.PointMultiply(curve, k, curve.G, res, noise, g, 1);
  }

  // ---------------------------------------------------------------- signing

  /** s is k^-1 (z + x d). */
  ghost predicate Quotiented(g: Group, k: int, z: int, x: int, d: int, s: int) {
    g.n > 0 && s == g.invN(k) * (z + x * d) % g.n
  }

  /** s = (randk * k)^-1 * (x * s + z) * randk mod n */
  method Blinded(curve: Curve, k: array<uint32>, x: array<uint32>, s: array<uint32>, z: array<uint32>, randk: array<uint32>,
                 ghost g: Group)
    requires curve.Describes(g) && Normalized(k) && Normalized(x) && Normalized(s) && Normalized(z) && Normalized(randk)
    requires 0 < Value(k) < g.n && Value(x) < g.n && Value(s) < g.n && Value(z) < TWO256 && 0 < Value(randk) < g.n
    requires k != s && {k, s} !! {x, z, randk} + curve.Cells()
    modifies k, s
    ensures Normalized(s)
    ensures Quotiented(g, old(Value(k)), Value(z), Value(x), old(Value(s)), Value(s))
  {
    hide Low, Normal, Cong, CongProduct, Multipliable, CurveLaw, Coprime;
    PrimeOk(curve, g);
    Moduli(g);
    ghost var n, k0, d, b := g.n, Value(k), Value(s), Value(randk);
    Fits(b, k0);
    Multiply(randk, k, curve.order);
    ghost var k1 := Value(k);
    BlindedCoprime(g, k1, b, k0);
    InverseFast(k, curve.order);
    ghost var k2 := Value(k);
    Fits(Value(x), Value(s));
    Multiply(x, s, curve.order);
    ghost var s1 := Value(s);
    Add(s, z);
    ghost var s2 := Value(s);
    Fits(Value(k), Value(s));
    Multiply(k, s, curve.order);
    ghost var s3 := Value(s);
    Fits(Value(randk), Value(s));
    Multiply(randk, s, curve.order);
    ghost var s4 := Value(s);
    Mod(s, curve.order);
    BlindSound(n, b, k0, g.invN(k0), k1, k2, Value(x), d, Value(z), s1, s2, s3, s4);
  }

  lemma BlindedCoprime(g: Group, k1: int, b: int, k: int)
    requires CurveLaw(g) && CongProduct(k1, b, k, g.n) && 0 < b < g.n && 0 < k < g.n
    ensures Coprime(k1, g.n) && !Cong(k1, 0, g.n) && Cong(k * g.invN(k), 1, g.n)
  {
    Fields(g);
    InverseN(g, b);
    InverseN(g, k);
    hide CurveLaw;
    NoZeroDivisors(g.n, g.invN, b, k);
    NonzeroCoprime(g.n, g.invN, k1);
  }

  lemma BlindSound(n: int, b: int, k: int, i: int, k1: int, k2: int, x: int, d: int, z: int, s1: int, s2: int, s3: int, s4: int)
    requires n > 0 && Cong(k * i, 1, n) && CongProduct(k1, b, k, n) && Cong(k1 * k2, 1, n)
    requires CongProduct(s1, x, d, n) && s2 == s1 + z && CongProduct(s3, k2, s2, n) && CongProduct(s4, b, s3, n)
    ensures s4 % n == i * (z + x * d) % n
  {
    CongRefl(z, n);
    hide Cong;
    var a := z + x * d;
    CongAdd(z, z, s1, x * d, n);
    CongMul2(s2, a, k2, n);
    CongTrans(s3, k2 * s2, k2 * a, n);
    CongMul2(s3, k2 * a, b, n);
    CongTrans(s4, b * s3, b * (k2 * a), n);
    Unblinded(n, b, k, k1, k2);
    Quotient(b * k2, k, i, 1, n);
    CongMul2(b * k2, i * 1, a, n);
    MulAssoc(b, k2, a);
    CongTrans(s4, b * k2 * a, i * a, n);
    SameResidue(s4, i * a, n);
  }

  lemma SameResidue(u: int, v: int, n: int)
    requires Cong(u, v, n)
    ensures u % n == v % n
  {}

  lemma Unblinded(n: int, b: int, k: int, k1: int, k2: int)
    requires n > 0 && CongProduct(k1, b, k, n) && Cong(k1 * k2, 1, n)
    ensures Cong(b * k2 * k, 1, n)
  {
    hide Cong;
    CongMul2(k1, b * k, k2, n);
    MulAssoc(b, k, k2);
    MulAssoc(b, k2, k);
    CongSymm(k1 * k2, b * k * k2, n);
    CongTrans(b * k * k2, k1 * k2, 1, n);
  }

  /** The coin's rule on top of ECDSA; without one every signature is acceptable. */
  type Rule = (nat, seq<uint8>) -> bool

  predicate Passes(canonical: Rule, recid: nat, sig: seq<uint8>) {
    canonical(recid, sig)
  }

  ghost function Encoded(sig: Signature): seq<uint8> {
    BeBytes(sig.r, 32) + BeBytes(sig.s, 32)
  }

  /** The nonce gives a signature that is handed out. */
  ghost predicate Accepted(g: Group, d: int, z: int, k: int, canonical: Rule)
    requires g.n > 0
  {
    Usable(g, k) && RawS(g, d, z, k) != 0
    && var sig := SignatureOf(g, d, z, k); Passes(canonical, sig.recid, Encoded(sig))
  }

  /** The bytes and the recovery byte are the signature for nonce k. */
  ghost predicate Issued(g: Group, d: int, z: int, k: int, canonical: Rule, recid: nat, sig: seq<uint8>)
    requires g.n > 0
  {
    Accepted(g, d, z, k, canonical) && SignatureOf(g, d, z, k).recid == recid && sig == Encoded(SignatureOf(g, d, z, k))
  }

  datatype Step = Retry | BadKey | Done

  /** One turn of the signing loop, with the candidate for the nonce in k. */
  method Attempt(curve: Curve, k: array<uint32>, draws: Draws, priv: array<uint8>, z: array<uint32>, sig: array<uint8>,
                 canonical: Rule, ghost g: Group) returns (step: Step, recid: nat)
    requires curve.Describes(g) && Proper(g, draws) && Normalized(z) && Value(z) < TWO256 && z !in curve.Cells()
    requires Normalized(k) && k !in curve.Cells() + {z}
    requires priv.Length == 32 && sig.Length == 64 && sig != priv
    modifies k, sig
    ensures var d, k0 := Be(priv[..]), old(Value(k));
      && (step == Retry ==> !Usable(g, k0) || (0 < d < g.n && !Accepted(g, d, Value(z), k0, canonical)))
      && (step == BadKey ==> Usable(g, k0) && !(0 < d < g.n))
      && (step == Done ==> 0 < d < g.n && Issued(g, d, Value(z), k0, canonical, recid, sig[..]))
  {
    hide Low, Normal, Cong, CurveLaw, AtInfinity, RawS, Encoded, Times;
    recid := 0;
    Moduli(g);
    var zero := IsZero(k);
    var less := IsLess(k, curve.order);
    if zero || !less {
      return Retry, 0;
    }
    var R := new CurvePoint();
    var over := NoncePoint(curve, k, R, draws.mask, g);
    var zeroR := IsZero(R.x);
    if zeroR {
      return Retry, 0;
    }
    ghost var k0 := Value(k);
    step, recid := SignWith(curve, k, R, over, priv, z, sig, draws.blind, canonical, g);
    hide Accepted, Issued;
    assert Usable(g, k0);
  }

  /** A private key: in [1, order). */
  method ReadScalar(curve: Curve, priv: array<uint8>, s: array<uint32>, ghost g: Group) returns (valid: bool)
    requires curve.Describes(g) && priv.Length == 32 && s.Length == LIMBS && s !in curve.Cells()
    modifies s
    ensures Normalized(s) && Value(s) == Be(priv[..])
    ensures valid <==> 0 < Be(priv[..]) < g.n
  {
    hide Low, Normal, Cong, CurveLaw;
    ReadBe(priv, 0, s);
    assert priv[0..32] == priv[..];
    var zero := IsZero(s);
    var less := IsLess(s, curve.order);
    valid := !zero && less;
  }

  /** The rest of the turn, once the nonce is found usable. */
  method SignWith(curve: Curve, k: array<uint32>, R: CurvePoint, over: bool, priv: array<uint8>, z: array<uint32>, sig: array<uint8>,
                  blind: seq<uint32>, canonical: Rule, ghost g: Group) returns (step: Step, recid: nat)
    requires curve.Describes(g) && Drawn(blind, g.n) && Normalized(z) && Value(z) < TWO256 && z !in curve.Cells()
    requires priv.Length == 32 && sig.Length == 64 && sig != priv
    requires Normalized(k) && 0 < Value(k) < g.n && k !in curve.Cells() + {z, R.x, R.y}
    requires Normalized(R.x) && Normalized(R.y) && {R.x, R.y} !! curve.Cells() + {z}
    requires 0 < Value(R.x) == g.X(Value(k)) % g.n && Value(R.y) == g.Y(Value(k)) && (over <==> g.X(Value(k)) >= g.n)
    modifies k, sig
    ensures step == Retry ==> 0 < Be(priv[..]) < g.n && !Accepted(g, Be(priv[..]), Value(z), old(Value(k)), canonical)
    ensures step == BadKey ==> !(0 < Be(priv[..]) < g.n)
    ensures step == Done ==> 0 < Be(priv[..]) < g.n && Issued(g, Be(priv[..]), Value(z), old(Value(k)), canonical, recid, sig[..])
  {
    hide Low, Normal, Cong, CurveLaw, RawS, Encoded, SignatureOf, Issued, Quotiented;
    Moduli(g);
    var s := new uint32[LIMBS];
    var valid := ReadScalar(curve, priv, s, g);
    if !valid {
      return BadKey, 0;
    }
    var randk := Draw(blind);
    ghost var k0, d := Value(k), Value(s);
    Blinded(curve, k, R.x, s, z, randk, g);
    RawIs(g, d, Value(z), k0, Value(R.x), Value(s));
    var rawZero := IsZero(s);
    if rawZero {
      return Retry, 0;
    }
    hide Accepted;
    step, recid := Finish(curve, R, over, s, sig, canonical, g, d, Value(z), k0);
  }

  lemma RawIs(g: Group, d: int, z: int, k: int, x: int, s: int)
    requires Quotiented(g, k, z, x, d, s) && x == g.X(k) % g.n
    ensures s == RawS(g, d, z, k)
  {}

  /** R = k * G, with x reduced by the order; whether it had to be. */
  method NoncePoint(curve: Curve, k: array<uint32>, R: CurvePoint, mask: seq<uint32>, ghost g: Group) returns (over: bool)
    requires curve.Describes(g) && Normalized(k) && 0 < Value(k) < g.n && R.Separate() && Drawn(mask, g.p)
    requires {R.x, R.y} !! curve.Cells() + {k}
    modifies R.x, R.y
    ensures Normalized(R.x) && Normalized(R.y) && Value(R.x) == g.X(Value(k)) % g.n && Value(R.y) == g.Y(Value(k))
    ensures over <==> g.X(Value(k)) >= g.n
  {
    hide Low, Normal, Cong, CurveLaw, AtInfinity, Times;
    Moduli(g);
    var status := ScalarMultiply(curve, k, R, mask, g);
    ReducedX(g, Value(k));
    var less := IsLess(R.x, curve.order);
    over := !less;
    if over {
      Subtract(R.x, curve.order, R.x);
    }
  }

  /** The smaller of s and n - s; taking the other one toggles the parity bit. */
  method LowS(curve: Curve, s: array<uint32>, by0: nat, ghost g: Group) returns (recid: nat)
    requires curve.Describes(g) && Normalized(s) && 0 < Value(s) < g.n && s !in curve.Cells()
    modifies s
    ensures Normalized(s)
    ensures if old(Value(s)) > g.n / 2 then Value(s) == g.n - old(Value(s)) && recid == by0 / 2 * 2 + 1 - by0 % 2
            else Value(s) == old(Value(s)) && recid == by0
  {
    hide Low, Normal, CurveLaw;
    recid := by0;
    var high := IsLess(curve.orderHalf, s);
    if high {
      Subtract(curve.order, s, s);
      recid := if recid % 2 == 0 then recid + 1 else recid - 1;
    }
  }

  /** The low-s choice, the encoding and the coin's rule. */
  method Finish(curve: Curve, R: CurvePoint, over: bool, s: array<uint32>, sig: array<uint8>, canonical: Rule,
                ghost g: Group, ghost d: int, ghost z: int, ghost k: int) returns (step: Step, recid: nat)
    requires curve.Describes(g) && Normalized(R.x) && Normalized(R.y) && Normalized(s) && sig.Length == 64
    requires 0 < k < g.n && 0 < Value(R.x) == g.X(k) % g.n && Value(R.y) == g.Y(k) && (over <==> g.X(k) >= g.n)
    requires 0 < Value(s) == RawS(g, d, z, k) && s !in curve.Cells() + {R.x, R.y}
    modifies s, sig
    ensures step != BadKey
    ensures step == Retry ==> !Accepted(g, d, z, k, canonical)
    ensures step == Done ==> Issued(g, d, z, k, canonical, recid, sig[..])
  {
    hide Low, Normal, Cong, CurveLaw, AtInfinity, RawS, Encoded, SignatureOf;
    Moduli(g);
    NumbersFit(g);
    LowParity(R.y[..], LIMBS);
    recid := R.y[0] % 2;
    if over {
      recid := recid + 2;
    }
    recid := LowS(curve, s, recid, g);
    ghost var signature := Signature(Value(R.x), Value(s), recid);
    SignatureIs(g, d, z, k, over, Value(s), recid);
    WriteBe(R.x, sig, 0);
    ghost var first := sig[0..32];
    WriteBe(s, sig, 32);
    assert sig[0..32] == first;
    EncodedIs(signature, sig[..]);
    var ok := Passes(canonical, recid, sig[..]);
    step := if ok then Done else Retry;
  }

  lemma SignatureIs(g: Group, d: int, z: int, k: int, over: bool, s: nat, recid: nat)
    requires g.n > 0 && (over <==> g.X(k) >= g.n)
    requires var raw, by0 := RawS(g, d, z, k), g.Y(k) % 2 + (if over then 2 else 0);
      if raw > g.n / 2 then s == g.n - raw && recid == by0 / 2 * 2 + 1 - by0 % 2 else s == raw && recid == by0
    ensures SignatureOf(g, d, z, k) == Signature(g.X(k) % g.n, s, recid)
  {
    hide RawS;
  }

  lemma NumbersFit(g: Group)
    requires CurveLaw(g)
    ensures g.n < TWO256 && g.p < TWO256
  {}

  lemma EncodedIs(signature: Signature, sig: seq<uint8>)
    requires |sig| == 64 && Be(sig[0..32]) == signature.r && Be(sig[32..64]) == signature.s
    ensures sig == Encoded(signature)
  {
    BytesOfBe(sig[0..32]);
    BytesOfBe(sig[32..64]);
  }

  // ---------------------------------------------------------------- public keys

  /** The 33-byte public key of a private key; 0 on success. */
  method GetPublicKey33(curve: Curve, priv: array<uint8>, key: array<uint8>, mask: seq<uint32>, ghost g: Group) returns (ret: int)
    requires curve.Describes(g) && Drawn(mask, g.p) && priv.Length == 32 && key.Length == 33 && priv != key
    modifies key
    ensures ret == if 0 < Be(priv[..]) < g.n then 0 else -1
    ensures ret == 0 ==> EncodesKey(g, key[..], Be(priv[..]))
    ensures ret == 0 ==> var d := Be(priv[..]); key[0] == (if g.Y(d) % 2 == 0 then 2 else 3) && Be(key[1..33]) == g.X(d)
    ensures ret != 0 ==> forall i :: 0 <= i < 33 ==> key[i] == 0
  {
    hide Low, Normal, Cong, CurveLaw, AtInfinity, Times, EncodesKey;
    Moduli(g);
    NumbersFit(g);
    var k := new uint32[LIMBS];
    var valid := ReadScalar(curve, priv, k, g);
    if !valid {
      for i := 0 to 33
        invariant forall j :: 0 <= j < i ==> key[j] == 0
      {
        key[i] := 0;
      }
      return -1;
    }
    var R := new CurvePoint();
    ghost var d := Value(k);
    var status := ScalarMultiply(curve, k, R, mask, g);
    Coordinates(g, d);
    WriteCompressed(R, key, g, d);
    ret := 0;
  }

  /** The parity of y, then x. */
  method WriteCompressed(R: CurvePoint, key: array<uint8>, ghost g: Group, ghost d: int)
    requires Affine(g, R, d) && g.X(d) < TWO256 && key.Length == 33
    modifies key
    ensures EncodesKey(g, key[..], d)
    ensures key[0] == (if g.Y(d) % 2 == 0 then 2 else 3) && Be(key[1..33]) == g.X(d)
  {
    hide Low, Normal;
    LowParity(R.y[..], LIMBS);
    key[0] := 2 + R.y[0] % 2;
    WriteBe(R.x, key, 1);
    assert key[..][1..33] == key[1..33];
  }

  // ---------------------------------------------------------------- verification

  /** q is a / v modulo the order. */
  ghost predicate Divided(g: Group, q: int, a: int, v: int) {
    Cong(q, g.invN(v) * a, g.n)
  }

  /** q is -z / v modulo the order. */
  ghost predicate NegDivided(g: Group, q: int, z: int, v: int) {
    Cong(q, g.invN(v) * -z, g.n)
  }

  /** u = z / s and v = r / s modulo the order. */
  method Quotients(curve: Curve, r: array<uint32>, s: array<uint32>, z: array<uint32>, ghost g: Group)
    requires curve.Describes(g) && Normalized(r) && Normalized(s) && Normalized(z)
    requires Value(r) < g.n && 0 < Value(s) < g.n && Value(z) < TWO256
    requires s != z && {s, z} !! {r} + curve.Cells()
    modifies s, z
    ensures Normalized(s) && Normalized(z) && Value(s) < g.n && Value(z) < g.n
    ensures Divided(g, Value(z), old(Value(z)), old(Value(s))) && Divided(g, Value(s), Value(r), old(Value(s)))
  {
    hide Low, Normal, Cong, CongProduct, Multipliable, CurveLaw, Coprime;
    PrimeOk(curve, g);
    Moduli(g);
    ghost var n, s0, z0, rv := g.n, Value(s), Value(z), Value(r);
    ScalarCoprime(g, s0);
    InverseFast(s, curve.order);
    ghost var i := Value(s);
    Fits(Value(s), Value(z));
    Multiply(s, z, curve.order);
    ghost var z1 := Value(z);
    Mod(z, curve.order);
    Fits(Value(r), Value(s));
    Multiply(r, s, curve.order);
    ghost var s1 := Value(s);
    Mod(s, curve.order);
    DivideSound(n, s0, i, g.invN(s0), z0, z1, z1 % n);
    ProductSwaps(s1, rv, i, n);
    DivideSound(n, s0, i, g.invN(s0), rv, s1, s1 % n);
  }

  lemma ProductSwaps(s: int, r: int, i: int, n: int)
    requires CongProduct(s, r, i, n)
    ensures CongProduct(s, i, r, n)
  {
    assert r * i == i * r;
  }

  lemma ScalarCoprime(g: Group, v: int)
    requires CurveLaw(g) && 0 < v < g.n
    ensures Coprime(v, g.n) && !Cong(v, 0, g.n) && Cong(v * g.invN(v), 1, g.n)
  {
    Fields(g);
    InverseN(g, v);
    hide CurveLaw;
    NonzeroCoprime(g.n, g.invN, v);
  }

  /** The inverse that was computed may replace the one the group names. */
  lemma DivideSound(n: int, s: int, i: int, inv: int, a: int, q: int, q': int)
    requires n > 0 && Cong(s * i, 1, n) && Cong(s * inv, 1, n) && CongProduct(q, i, a, n) && q' == q % n
    ensures Cong(q', inv * a, n)
  {
    CongMod(q, n);
    hide Cong;
    Quotient(i, s, inv, 1, n);
    CongMul2(i, inv * 1, a, n);
    CongTrans(q, i * a, inv * a, n);
    CongTrans(q', q, inv * a, n);
  }

  /** res = z * G + s * pub, for the scalars u1 = z and u2 = s. */
  method TwoPoints(curve: Curve, u1: array<uint32>, u2: array<uint32>, pub: CurvePoint, res: CurvePoint,
                   masks: (seq<uint32>, seq<uint32>), ghost g: Group, ghost d: int)
    requires curve.Describes(g) && Normalized(u1) && Normalized(u2) && Value(u1) < g.n && 0 < Value(u2) < g.n
    requires Affine(g, pub, d) && !AtInfinity(g, d) && res.Separate() && Drawn(masks.0, g.p) && Drawn(masks.1, g.p)
    requires {pub.x, pub.y} !! {res.x, res.y} && {pub.x, pub.y, res.x, res.y} !! curve.Cells() + {u1, u2}
    modifies pub.x, pub.y, res.x, res.y
    ensures Affine(g, res, Value(u1) + Times(Value(u2), d))
  {
    hide Low, Normal, Cong, CurveLaw, AtInfinity, Times;
    var status := ScalarMultiply(curve, u1, res, masks.0, g);
    var noise := Draw(masks.1);
    status := PointMultiply.PointMultiply(curve, u2, pub, pub, noise, g, d);
    PointAdd(curve, pub, res, g, Times(Value(u2), d), Value(u1));
    assert Times(Value(u2), d) + Value(u1) == Value(u1) + Times(Value(u2), d);
  }

  /** The checks on the numbers alone; a zero digest outweighs an r or s out of range. */
  method CheckRange(curve: Curve, r: array<uint32>, s: array<uint32>, z: array<uint32>, ghost g: Group) returns (result: int)
    requires curve.Describes(g) && Normalized(r) && Normalized(s) && Normalized(z)
    ensures result == if Value(z) == 0 then 3 else if 0 < Value(r) < g.n && 0 < Value(s) < g.n then 0 else 2
  {
    hide Low, Normal, CurveLaw;
    var zeroR := IsZero(r);
    var zeroS := IsZero(s);
    var zeroZ := IsZero(z);
    var lessR := IsLess(r, curve.order);
    var lessS := IsLess(s, curve.order);
    result := if zeroR || zeroS || !lessR || !lessS then 2 else 0;
    if zeroZ {
      result := 3;
    }
  }

  lemma VerdictEarly(g: Group, d: int, r: int, s: int, z: int)
    requires g.n > 0
    ensures z == 0 ==> Verdict(g, d, r, s, z) == 3
    ensures z != 0 && !(0 < r < g.n && 0 < s < g.n) ==> Verdict(g, d, r, s, z) == 2
  {}

  /** The check on the point. */
  method CheckPoint(curve: Curve, pub: CurvePoint, r: array<uint32>, s: array<uint32>, z: array<uint32>,
                    masks: (seq<uint32>, seq<uint32>), ghost g: Group, ghost d: int) returns (result: int)
    requires curve.Describes(g) && Affine(g, pub, d) && !AtInfinity(g, d) && Normalized(r) && Normalized(s) && Normalized(z)
    requires Drawn(masks.0, g.p) && Drawn(masks.1, g.p) && 0 < Value(z) < TWO256
    requires 0 < Value(r) < g.n && 0 < Value(s) < g.n && r != s && s != z && z != r
    requires {pub.x, pub.y, r, s, z} !! curve.Cells() && {pub.x, pub.y} !! {r, s, z}
    modifies pub.x, pub.y, s, z
    ensures result == Verdict(g, d, Value(r), old(Value(s)), old(Value(z)))
  {
    hide Low, Normal, Cong, CurveLaw, AtInfinity, Times, Verdict;
    Moduli(g);
    ghost var rv, s0, z0 := Value(r), Value(s), Value(z);
    Quotients(curve, r, s, z, g);
    ghost var u1, u2 := Value(z), Value(s);
    NonzeroQuotient(g, s0, rv, u2);
    var res := new CurvePoint();
    TwoPoints(curve, z, s, pub, res, masks, g, d);
    ghost var m := u1 + Times(u2, d);
    AffineBounds(g, res, m);
    var infinite := IsInfinity(res);
    if infinite {
      result := 4;
    } else {
      Mod(res.x, curve.order);
      var same := IsEqual(res.x, r);
      result := if same then 0 else 5;
    }
    VerdictIs(g, d, rv, s0, z0, u1, u2, m, result);
  }

  lemma NonzeroQuotient(g: Group, s: int, r: int, u: nat)
    requires CurveLaw(g) && 0 < s < g.n && 0 < r < g.n && Cong(u, g.invN(s) * r, g.n)
    ensures 0 < u
  {
    Moduli(g);
    NonzeroN(g, r);
    hide CurveLaw, Cong;
    if u == 0 {
      UndoN(g, s, r);
      CongMul2(u, g.invN(s) * r, s, g.n);
      CongSymm(s * (g.invN(s) * r), r, g.n);
      CongSymm(s * u, s * (g.invN(s) * r), g.n);
      CongTrans(r, s * (g.invN(s) * r), s * u, g.n);
    }
  }

  /** The point that was computed is the one the verdict asks about. */
  lemma VerdictIs(g: Group, d: int, r: int, s: int, z: int, u1: int, u2: int, m: int, result: int)
    requires CurveLaw(g) && z != 0 && 0 < r < g.n && 0 < s < g.n
    requires Cong(u1, g.invN(s) * z, g.n) && Cong(u2, g.invN(s) * r, g.n) && m == u1 + Times(u2, d)
    requires result == if AtInfinity(g, m) then 4 else if g.X(m) % g.n == r then 0 else 5
    ensures result == Verdict(g, d, r, s, z)
  {
    Moduli(g);
    hide CurveLaw;
    CombinedScalar(g.n, g.invN(s), z, r, d, u1, u2);
    var t := g.invN(s) * (z + r * d);
    SameMultiples(g, m, t);
  }

  lemma CombinedScalar(n: int, i: int, z: int, r: int, d: int, u1: int, u2: int)
    requires Cong(u1, i * z, n) && Cong(u2, i * r, n)
    ensures Cong(u1 + Times(u2, d), i * (z + r * d), n)
  {
    CongMul2(u2, i * r, d, n);
    CongAdd(u1, i * z, u2 * d, i * r * d, n);
    MulAssoc(i, r, d);
    assert i * (z + r * d) == i * z + i * (r * d);
  }

  /** The verdict under a key already read. */
  method VerifyUnder(curve: Curve, pub: CurvePoint, sig: array<uint8>, digest: array<uint8>,
                     masks: (seq<uint32>, seq<uint32>), ghost g: Group, ghost d: int) returns (result: int)
    requires curve.Describes(g) && Affine(g, pub, d) && !AtInfinity(g, d) && sig.Length == 64 && digest.Length == 32
    requires Drawn(masks.0, g.p) && Drawn(masks.1, g.p) && {pub.x, pub.y} !! curve.Cells()
    modifies pub.x, pub.y
    ensures result == Verdict(g, d, Be(sig[..32]), Be(sig[32..]), Be(digest[..]))
  {
    hide Low, Normal, Cong, CurveLaw, AtInfinity, Times, Verdict, Affine, Be, Curve.Describes;
    PrimeOk(curve, g);
    Moduli(g);
    assert sig[0..32] == sig[..32] && sig[32..64] == sig[32..] && digest[0..32] == digest[..];
    ghost var r0, s0, z0 := Be(sig[..32]), Be(sig[32..]), Be(digest[..]);
    var r, s, z := new uint32[LIMBS], new uint32[LIMBS], new uint32[LIMBS];
    ReadBe(sig, 0, r);
    ReadBe(sig, 32, s);
    ReadBe(digest, 0, z);
    result := CheckRange(curve, r, s, z, g);
    if result == 0 {
      result := CheckPoint(curve, pub, r, s, z, masks, g, d);
    }
    VerdictEarly(g, d, r0, s0, z0);
  }

  /** 1 for a key that is none, otherwise the verdict on the signature under that key. */
  method VerifyDigest(curve: Curve, key: array<uint8>, sig: array<uint8>, digest: array<uint8>,
                      masks: (seq<uint32>, seq<uint32>), ghost g: Group) returns (result: int, ghost d: int)
    requires curve.Describes(g) && Value(curve.prime) % 4 == 3 && curve.b != curve.prime
    requires (key.Length == 65 || (key.Length == 33 && key[0] != 4)) && sig.Length == 64 && digest.Length == 32
    requires Drawn(masks.0, g.p) && Drawn(masks.1, g.p)
    ensures result == 1 ==> NoKey(g, key[..])
    ensures result != 1 ==> !AtInfinity(g, d) && EncodesKey(g, key[..], d)
    ensures result != 1 ==> result == Verdict(g, d, Be(sig[..32]), Be(sig[32..]), Be(digest[..]))
  {
    hide Low, Normal, Cong, CurveLaw, AtInfinity, Times, EncodesKey, NoKey, Verdict;
    Moduli(g);
    var pub := new CurvePoint();
    var ok;
    ok, d := ReadPubkey(curve, key, pub, g);
    if !ok {
      return 1, 0;
    }
    result := VerifyUnder(curve, pub, sig, digest, masks, g, d);
  }

  // ---------------------------------------------------------------- recovery

  ghost predicate Unrecoverable(g: Group, r: int, s: int, z: int, recid: int) {
    forall m: int, t: int :: !Recovers(g, r, s, z, recid, m, t)
  }

  /** The point with x coordinate r, or r + order, and the parity asked for. */
  method NonceFromR(curve: Curve, r: array<uint32>, recid: nat, cp: CurvePoint, ghost g: Group) returns (ok: bool, ghost m: int)
    requires curve.Describes(g) && Value(curve.prime) % 4 == 3 && curve.b != curve.prime && Normalized(r) && Value(r) < g.n
    requires cp.Separate() && {cp.x, cp.y} !! curve.Cells() + {r}
    modifies cp.x, cp.y
    ensures ok ==> !AtInfinity(g, m) && Affine(g, cp, m) && g.Y(m) % 2 == recid % 2
    ensures ok ==> g.X(m) == Value(r) + if recid / 2 % 2 == 1 then g.n else 0
    ensures !ok ==> NoPoint(g, Value(r) + if recid / 2 % 2 == 1 then g.n else 0)
  {
    hide Low, Normal, CurveLaw, AtInfinity, NoPoint;
    Copy(r, cp.x);
    if recid / 2 % 2 == 1 {
      NumbersFit(g);
      Add(cp.x, curve.order);
    }
    ok, m := UncompressCoords(curve, recid % 2, cp.x, cp.y, g);
  }

  ghost predicate NegResidue(n: int, z: int, e: int) {
    n > 0 && e == n - z % n
  }

  /** e = order - (e mod order): the order itself for a multiple of it. */
  method NegateResidue(curve: Curve, e: array<uint32>, ghost g: Group)
    requires curve.Describes(g) && Normalized(e) && Value(e) < TWO256 && e !in curve.Cells()
    modifies e
    ensures Normalized(e) && Value(e) <= g.n && NegResidue(g.n, old(Value(e)), Value(e))
  {
    hide Low, Normal, Cong, CurveLaw, Curve.Describes;
    PrimeOk(curve, g);
    Moduli(g);
    TwiceOrder(g);
    ghost var z := Value(e);
    Mod(e, curve.order);
    ModBound(z, g.n);
    Subtract(curve.order, e, e);
  }

  /** e = -z / r and s = s / r modulo the order. */
  method RecoveryScalars(curve: Curve, r: array<uint32>, s: array<uint32>, e: array<uint32>, ghost g: Group)
    requires curve.Describes(g) && Normalized(r) && Normalized(s) && Normalized(e)
    requires 0 < Value(r) < g.n && Value(s) < g.n && Value(e) < TWO256
    requires r != s && s != e && e != r && {r, s, e} !! curve.Cells()
    modifies r, s, e
    ensures Normalized(s) && Normalized(e) && Value(s) < g.n && Value(e) < g.n
    ensures NegDivided(g, Value(e), old(Value(e)), old(Value(r))) && Divided(g, Value(s), old(Value(s)), old(Value(r)))
  {
    hide Low, Normal, Cong, CongProduct, Multipliable, CurveLaw, Coprime, Curve.Describes, NegResidue;
    PrimeOk(curve, g);
    Moduli(g);
    NumbersFit(g);
    ghost var n, r0, s0, z := g.n, Value(r), Value(s), Value(e);
    NegateResidue(curve, e, g);
    ghost var e1 := Value(e);
    ScalarCoprime(g, r0);
    InverseFast(r, curve.order);
    ghost var i := Value(r);
    Fits(Value(r), Value(e));
    Multiply(r, e, curve.order);
    ghost var e2 := Value(e);
    Mod(e, curve.order);
    Fits(Value(r), Value(s));
    Multiply(r, s, curve.order);
    ghost var s1 := Value(s);
    Mod(s, curve.order);
    DivideSound(n, r0, i, g.invN(r0), s0, s1, s1 % n);
    DivideSound(n, r0, i, g.invN(r0), e1, e2, e2 % n);
    NegatedMod(n, g.invN(r0), z, e1, e2 % n);
  }

  lemma TwiceOrder(g: Group)
    requires CurveLaw(g)
    ensures TWO256 < 2 * g.n && g.n < TWO256
  {}

  lemma ModBound(z: int, n: int)
    requires n > 0
    ensures 0 <= z % n < n
  {}

  lemma NegatedMod(n: int, i: int, z: int, e: int, u: int)
    requires NegResidue(n, z, e) && Cong(u, i * e, n)
    ensures Cong(u, i * -z, n)
  {
    assert z == z / n * n + z % n;
    CongBy(e, -z, 1 + z / n, n);
    hide Cong;
    CongMul2(e, -z, i, n);
    CongTrans(u, i * e, i * -z, n);
  }

  /** r and s from the signature; whether both are in [1, order). */
  method ReadPair(curve: Curve, sig: array<uint8>, r: array<uint32>, s: array<uint32>, ghost g: Group) returns (ok: bool)
    requires curve.Describes(g) && sig.Length == 64 && r.Length == s.Length == LIMBS && r != s && {r, s} !! curve.Cells()
    modifies r, s
    ensures Normalized(r) && Normalized(s) && Value(r) == Be(sig[..32]) && Value(s) == Be(sig[32..])
    ensures ok <==> 0 < Value(r) < g.n && 0 < Value(s) < g.n
  {
    hide Low, Normal, CurveLaw, Be;
    assert sig[0..32] == sig[..32] && sig[32..64] == sig[32..];
    ReadBe(sig, 0, r);
    ReadBe(sig, 32, s);
    var less := IsLess(r, curve.order);
    var zero := IsZero(r);
    if !less || zero {
      return false;
    }
    less := IsLess(s, curve.order);
    zero := IsZero(s);
    ok := less && !zero;
  }

  /** cp = s / r * cp - z / r * G; whether that is a finite point. */
  method RecoverKey(curve: Curve, cp: CurvePoint, r: array<uint32>, s: array<uint32>, digest: array<uint8>,
                    masks: (seq<uint32>, seq<uint32>), ghost g: Group, ghost m: int) returns (ok: bool, ghost t: int)
    requires curve.Describes(g) && cp.Separate() && Affine(g, cp, m) && !AtInfinity(g, m) && Normalized(r) && Normalized(s)
    requires 0 < Value(r) < g.n && 0 < Value(s) < g.n && digest.Length == 32 && Drawn(masks.0, g.p) && Drawn(masks.1, g.p)
    requires r != s && {r, s, cp.x, cp.y} !! curve.Cells() && {r, s} !! {cp.x, cp.y}
    modifies r, s, cp.x, cp.y
    ensures Affine(g, cp, t) && (ok <==> !AtInfinity(g, t))
    ensures Cong(t, g.invN(old(Value(r))) * (old(Value(s)) * m - Be(digest[..])), g.n)
  {
    hide Low, Normal, Cong, CurveLaw, AtInfinity, Times, Affine, Be, Curve.Describes;
    PrimeOk(curve, g);
    Moduli(g);
    ghost var r0, s0, z := Value(r), Value(s), Be(digest[..]);
    var e := new uint32[LIMBS];
    assert digest[0..32] == digest[..];
    ReadBe(digest, 0, e);
    RecoveryScalars(curve, r, s, e, g);
    ghost var u1, u2 := Value(e), Value(s);
    NonzeroQuotient(g, r0, s0, u2);
    Shift(curve, e, s, cp, masks, g, m);
    t := u1 + Times(u2, m);
    RecoveredScalar(g.n, g.invN(r0), s0, z, m, u1, u2);
    var infinite := InfinityOf(cp, g, t);
    ok := !infinite;
  }

  /** cp = s * cp + e * G */
  method Shift(curve: Curve, e: array<uint32>, s: array<uint32>, cp: CurvePoint, masks: (seq<uint32>, seq<uint32>),
               ghost g: Group, ghost m: int)
    requires curve.Describes(g) && cp.Separate() && Affine(g, cp, m) && !AtInfinity(g, m) && Normalized(e) && Normalized(s)
    requires Value(e) < g.n && 0 < Value(s) < g.n && Drawn(masks.0, g.p) && Drawn(masks.1, g.p)
    requires {cp.x, cp.y} !! curve.Cells() + {e, s}
    modifies cp.x, cp.y
    ensures Affine(g, cp, Value(e) + Times(Value(s), m))
  {
    hide Low, Normal, Cong, CurveLaw, AtInfinity, Times, Affine, Curve.Describes;
    PrimeOk(curve, g);
    var noise := Draw(masks.0);
    var status := PointMultiply.PointMultiply(curve, s, cp, cp, noise, g, m);
    var cp2 := new CurvePoint();
    status := ScalarMultiply(curve, e, cp2, masks.1, g);
    PointAdd(curve, cp2, cp, g, Value(e), Times(Value(s), m));
  }

  method InfinityOf(cp: CurvePoint, ghost g: Group, ghost t: int) returns (b: bool)
    requires CurveLaw(g) && Affine(g, cp, t)
    ensures b <==> AtInfinity(g, t)
  {
    AffineBounds(g, cp, t);
    b := IsInfinity(cp);
  }

  lemma RecoveredScalar(n: int, i: int, s: int, z: int, m: int, u1: int, u2: int)
    requires Cong(u1, i * -z, n) && Cong(u2, i * s, n)
    ensures Cong(u1 + Times(u2, m), i * (s * m - z), n)
  {
    CongMul2(u2, i * s, m, n);
    CongAdd(u1, i * -z, u2 * m, i * s * m, n);
    MulAssoc(i, s, m);
    assert i * (s * m - z) == i * -z + i * (s * m);
  }

  /** 04, x, y */
  method WriteKey(curve: Curve, cp: CurvePoint, key: array<uint8>, ghost g: Group, ghost t: int)
    requires CurveLaw(g) && Affine(g, cp, t) && key.Length == 65
    modifies key
    ensures EncodesKey(g, key[..], t)
    ensures key[0] == 4 && Be(key[1..33]) == g.X(t) && Be(key[33..]) == g.Y(t)
  {
    hide Low, Normal, CurveLaw, Be;
    Coordinates(g, t);
    NumbersFit(g);
    key[0] := 4;
    WriteBe(cp.x, key, 1);
    ghost var first := key[1..33];
    WriteBe(cp.y, key, 33);
    assert key[1..33] == first;
    assert key[..][1..33] == key[1..33] && key[..][33..65] == key[33..65] == key[33..];
  }

  lemma OutOfRange(g: Group, r: int, s: int, z: int, recid: int)
    requires !(0 < r < g.n && 0 < s < g.n)
    ensures Unrecoverable(g, r, s, z, recid)
  {}

  lemma NoNonce(g: Group, r: int, s: int, z: int, recid: int)
    requires NoPoint(g, r + if recid / 2 % 2 == 1 then g.n else 0)
    ensures Unrecoverable(g, r, s, z, recid)
  {}

  lemma RecoveryFails(g: Group, r: int, s: int, z: int, recid: int, m: int, t: int)
    requires CurveLaw(g) && 0 < r < g.n && 0 < s < g.n && AtInfinity(g, t) && Cong(t, g.invN(r) * (s * m - z), g.n)
    requires !AtInfinity(g, m) && g.X(m) == r + (if recid / 2 % 2 == 1 then g.n else 0) && g.Y(m) % 2 == recid % 2
    ensures Unrecoverable(g, r, s, z, recid)
  {
    forall m': int, t': int ensures !Recovers(g, r, s, z, recid, m', t') {
      if Recovers(g, r, s, z, recid, m', t') {
        SameNonce(g, m, m');
        SameScaled(g.n, g.invN(r), s, z, m, m');
      }
    }
  }

  lemma RecoveryHolds(g: Group, r: int, s: int, z: int, recid: int, m: int, t: int)
    requires 0 < r < g.n && 0 < s < g.n && !AtInfinity(g, t) && Cong(t, g.invN(r) * (s * m - z), g.n)
    requires !AtInfinity(g, m) && g.X(m) == r + (if recid / 2 % 2 == 1 then g.n else 0) && g.Y(m) % 2 == recid % 2
    ensures Recovers(g, r, s, z, recid, m, t)
  {}

  /** x and parity determine the point. */
  lemma SameNonce(g: Group, m: int, m': int)
    requires CurveLaw(g) && !AtInfinity(g, m) && !AtInfinity(g, m')
    requires g.X(m) == g.X(m') && g.Y(m) % 2 == g.Y(m') % 2
    ensures Cong(m, m', g.n)
  {
    hide CurveLaw;
    MeetX(g, m, m');
    if Cong(m, -m', g.n) {
      OppositeParity(g, m, m');
    }
  }

  lemma SameScaled(n: int, i: int, s: int, z: int, m: int, m': int)
    requires Cong(m, m', n)
    ensures Cong(i * (s * m - z), i * (s * m' - z), n)
  {
    CongRefl(z, n);
    hide Cong;
    CongMul2(m, m', s, n);
    CongSub(s * m, s * m', z, z, n);
    CongMul2(s * m - z, s * m' - z, i, n);
  }

  /** 0 and the key that the signature singles out, or 1 when it singles out none. */
  method RecoverPubFromSig(curve: Curve, key: array<uint8>, sig: array<uint8>, digest: array<uint8>, recid: nat,
                           masks: (seq<uint32>, seq<uint32>), ghost g: Group) returns (ret: int, ghost m: int, ghost t: int)
    requires curve.Describes(g) && Value(curve.prime) % 4 == 3 && curve.b != curve.prime
    requires key.Length == 65 && sig.Length == 64 && digest.Length == 32 && key !in {sig, digest}
    requires Drawn(masks.0, g.p) && Drawn(masks.1, g.p)
    modifies key
    ensures ret in {0, 1}
    ensures ret == 0 ==> Recovers(g, Be(sig[..32]), Be(sig[32..]), Be(digest[..]), recid, m, t) && EncodesKey(g, key[..], t)
    ensures ret == 0 ==> key[0] == 4 && Be(key[1..33]) == g.X(t) && Be(key[33..]) == g.Y(t)
    ensures ret == 1 ==> Unrecoverable(g, Be(sig[..32]), Be(sig[32..]), Be(digest[..]), recid) && key[..] == old(key[..])
  {
    hide Low, Normal, Cong, CurveLaw, AtInfinity, Times, EncodesKey, Unrecoverable, Recovers, NoPoint, Affine, Be, Curve.Describes;
    PrimeOk(curve, g);
    Moduli(g);
    m, t := 0, 0;
    ghost var r0, s0, z0 := Be(sig[..32]), Be(sig[32..]), Be(digest[..]);
    var r, s := new uint32[LIMBS], new uint32[LIMBS];
    var ok := ReadPair(curve, sig, r, s, g);
    if !ok {
      OutOfRange(g, r0, s0, z0, recid);
      return 1, 0, 0;
    }
    var cp := new CurvePoint();
    ok, m := NonceFromR(curve, r, recid, cp, g);
    if !ok {
      NoNonce(g, r0, s0, z0, recid);
      return 1, 0, 0;
    }
    ok, t := RecoverKey(curve, cp, r, s, digest, masks, g, m);
    if !ok {
      RecoveryFails(g, r0, s0, z0, recid, m, t);
      return 1, m, t;
    }
    RecoveryHolds(g, r0, s0, z0, recid, m, t);
    WriteKey(curve, cp, key, g, t);
    ret := 0;
  }

  // ---------------------------------------------------------------- the three together

  lemma Pow256()
    ensures Pow(256, 32) == TWO256
  {
    assert Pow(256, 2) == 0x1_0000;
    hide Pow;
    PowAdd(256, 2, 2);
    PowAdd(256, 4, 4);
    PowAdd(256, 8, 8);
    PowAdd(256, 16, 16);
  }

  lemma EncodedNumbers(sig: Signature)
    requires sig.r < TWO256 && sig.s < TWO256
    ensures var e := Encoded(sig); |e| == 64 && Be(e[..32]) == sig.r && Be(e[32..]) == sig.s
  {
    Pow256();
    BeOfBytes(sig.r, 32);
    BeOfBytes(sig.s, 32);
    var e := Encoded(sig);
    assert e[..32] == BeBytes(sig.r, 32) && e[32..] == BeBytes(sig.s, 32);
  }

  /** What signing hands out, verification accepts under the signer's key, and recovery with the
      byte that came along leads to that key and to no other. */
  lemma IssuedIsGood(g: Group, d: int, z: int, k: int, canonical: Rule, recid: nat, sig: seq<uint8>)
    requires CurveLaw(g) && 0 < d < g.n && z != 0 && Issued(g, d, z, k, canonical, recid, sig)
    ensures |sig| == 64 && Be(sig[32..]) <= g.n / 2
    ensures Verdict(g, d, Be(sig[..32]), Be(sig[32..]), z) == 0
    ensures Recovers(g, Be(sig[..32]), Be(sig[32..]), z, recid, SignedPoint(g, d, z, k), d)
    ensures forall m: int, t: int :: Recovers(g, Be(sig[..32]), Be(sig[32..]), z, recid, m, t) ==> Cong(t, d, g.n)
  {
    hide CurveLaw, Cong, RawS, SignatureOf, SignedPoint, Encoded, Verdict, Recovers, AtInfinity;
    NumbersFit(g);
    var s := SignatureOf(g, d, z, k);
    SignatureRange(g, d, z, k);
    EncodedNumbers(s);
    SignedVerifies(g, d, z, k);
    SignedRecovers(g, d, z, k);
    forall m: int, t: int | Recovers(g, s.r, s.s, z, recid, m, t) ensures Cong(t, d, g.n) {
      RecoveryIsUnique(g, s.r, s.s, z, recid, m, t, SignedPoint(g, d, z, k), d);
    }
  }
}
