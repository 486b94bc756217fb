/** What ECDSA signatures mean over the group of the curve, SEC 1 v2 sections 4.1.3, 4.1.4 and
    4.1.6: signatures verify, and the recovery byte leads back to the signer's key. */
module EcdsaLaw {
  import opened Words
  import opened ModArith
  import opened CurveGroup
  import opened Jacobian
  import opened PublicKey

  datatype Signature = Signature(r: nat, s: nat, recid: nat)

  /** The nonce leads to a nonzero r. */
  ghost predicate Usable(g: Group, k: int)
    requires g.n > 0
  {
    0 < k < g.n && g.X(k) % g.n != 0
  }

  /** k^-1 (z + r d) */
  ghost function RawS(g: Group, d: int, z: int, k: int): (s: nat)
    requires g.n > 0
    ensures s < g.n
  {
    g.invN(k) * (z + g.X(k) % g.n * d) % g.n
  }

  /** Private key d signs z with nonce k; s is the smaller of the two choices, and the byte tells
      which of the points above r is meant. */
  ghost function SignatureOf(g: Group, d: int, z: int, k: int): Signature
    requires g.n > 0
  {
    var raw, odd := RawS(g, d, z, k), g.Y(k) % 2;
    var over := if g.X(k) >= g.n then 2 else 0;
    if raw > g.n / 2 then Signature(g.X(k) % g.n, g.n - raw, 1 - odd + over)
    else Signature(g.X(k) % g.n, raw, odd + over)
  }

  /** What verification makes of (r, s) for the message z and the key d * G; 0 is acceptance. */
  ghost function Verdict(g: Group, d: int, r: int, s: int, z: int): (v: int)
    requires g.n > 0
    ensures v in {0, 2, 3, 4, 5}
  {
    if z == 0 then 3
    else if !(0 < r < g.n && 0 < s < g.n) then 2
    else
      var t := g.invN(s) * (z + r * d);
      if AtInfinity(g, t) then 4
      else if g.X(t) % g.n != r then 5
      else 0
  }

  /** t * G is the key recovered from the point m * G that r and recid single out. */
  ghost predicate Recovers(g: Group, r: int, s: int, z: int, recid: int, m: int, t: int) {
    && 0 < r < g.n && 0 < s < g.n
    && !AtInfinity(g, m) && g.X(m) == r + (if recid / 2 % 2 == 1 then g.n else 0) && g.Y(m) % 2 == recid % 2
    && !AtInfinity(g, t) && Cong(t, g.invN(r) * (s * m - z), g.n)
  }

  // ---------------------------------------------------------------- laws

  lemma InverseN(g: Group, v: int)
    requires CurveLaw(g) && 0 < v < g.n
    ensures Cong(v * g.invN(v), 1, g.n) && !Cong(v, 0, g.n)
  {
    Moduli(g);
    hide CurveLaw;
    ModUnique(v, g.n, 0, v);
  }

  lemma NonzeroN(g: Group, v: int)
    requires CurveLaw(g) && 0 < v < g.n
    ensures !AtInfinity(g, v)
  {
    InverseN(g, v);
  }

  /** Division is unique: t is a / v once t * v is a. */
  lemma QuotientN(g: Group, t: int, v: int, a: int)
    requires CurveLaw(g) && 0 < v < g.n && Cong(t * v, a, g.n)
    ensures Cong(t, g.invN(v) * a, g.n)
  {
    InverseN(g, v);
    Quotient(t, v, g.invN(v), a, g.n);
  }

  lemma Quotient(t: int, v: int, i: int, a: int, n: int)
    requires Cong(v * i, 1, n) && Cong(t * v, a, n)
    ensures Cong(t, i * a, n)
  {
    hide Cong;
    CongMul2(t * v, a, i, n);
    CongMul2(v * i, 1, t, n);
    MulRegroup(i, t, v);
    CongSymm(t * (v * i), t, n);
    CongTrans(t, t * (v * i), i * a, n);
  }

  lemma MulRegroup(i: int, t: int, v: int)
    ensures i * (t * v) == t * (v * i)
  {
    MulAssoc(i, t, v);
    MulAssoc(t, v, i);
  }

  /** What an inverse times a gives back. */
  lemma UndoN(g: Group, v: int, a: int)
    requires CurveLaw(g) && 0 < v < g.n
    ensures Cong(v * (g.invN(v) * a), a, g.n)
  {
    InverseN(g, v);
    Undo(v, g.invN(v), a, g.n);
  }

  lemma Undo(v: int, i: int, a: int, n: int)
    requires Cong(v * i, 1, n)
    ensures Cong(v * (i * a), a, n)
  {
    hide Cong;
    CongMul2(v * i, 1, a, n);
    MulAssoc(v, i, a);
  }

  lemma RawSolves(g: Group, d: int, z: int, k: int)
    requires CurveLaw(g) && 0 < k < g.n
    ensures Cong(RawS(g, d, z, k) * k, z + g.X(k) % g.n * d, g.n)
  {
    Moduli(g);
    hide CurveLaw;
    var a := z + g.X(k) % g.n * d;
    var v := g.invN(k) * a;
    CongMod(v, g.n);
    hide Cong;
    CongMul2(v % g.n, v, k, g.n);
    UndoN(g, k, a);
    CongTrans(k * (v % g.n), k * v, a, g.n);
  }

  /** The point the signature stands for: the nonce's, or its opposite. */
  ghost function SignedPoint(g: Group, d: int, z: int, k: int): int
    requires g.n > 0
  {
    if RawS(g, d, z, k) > g.n / 2 then -k else k
  }

  lemma SignatureRange(g: Group, d: int, z: int, k: int)
    requires CurveLaw(g) && Usable(g, k) && RawS(g, d, z, k) != 0
    ensures var sig := SignatureOf(g, d, z, k); 0 < sig.r < g.n && 0 < sig.s <= g.n / 2 && sig.recid < 4
  {
    Moduli(g);
  }

  /** s * (+-k) = z + r * d */
  lemma SignatureSolves(g: Group, d: int, z: int, k: int)
    requires CurveLaw(g) && 0 < k < g.n
    ensures var sig := SignatureOf(g, d, z, k); Cong(sig.s * SignedPoint(g, d, z, k), z + sig.r * d, g.n)
  {
    RawSolves(g, d, z, k);
    hide RawS;
    FlippedSolves(RawS(g, d, z, k), k, z + g.X(k) % g.n * d, g.n);
  }

  lemma FlippedSolves(raw: int, k: int, a: int, n: int)
    requires n > 0 && Cong(raw * k, a, n)
    ensures Cong((n - raw) * -k, a, n) && Cong(-k * (n - raw), a, n)
  {
    assert (n - raw) * -k == raw * k + -k * n;
    CongBy((n - raw) * -k, raw * k, -k, n);
  }

  lemma ChosenPoint(g: Group, d: int, z: int, k: int)
    requires CurveLaw(g) && 0 < k < g.n
    ensures var m := SignedPoint(g, d, z, k); var sig := SignatureOf(g, d, z, k);
      !AtInfinity(g, m) && g.X(m) == g.X(k) && g.Y(m) % 2 == sig.recid % 2
  {
    NonzeroN(g, k);
    hide CurveLaw, Cong, RawS, AtInfinity;
    OppositeOf(g, k);
  }

  /** Whatever key recovery returns accepts the signature. */
  lemma RecoveredVerifies(g: Group, r: int, s: int, z: int, recid: int, m: int, t: int)
    requires CurveLaw(g) && z != 0 && Recovers(g, r, s, z, recid, m, t)
    ensures Verdict(g, t, r, s, z) == 0
  {
    Moduli(g);
    var n := g.n;
    CongRefl(z, n);
    CongRefl(r, n);
    hide CurveLaw, Cong, AtInfinity;
    var a := s * m - z;
    CongMul2(t, g.invN(r) * a, r, n);
    UndoN(g, r, a);
    CongTrans(r * t, r * (g.invN(r) * a), a, n);
    CongAdd(r * t, a, z, z, n);
    CongSymm(z + r * t, m * s, n);
    QuotientN(g, m, s, z + r * t);
    SamePointAs(g, m, g.invN(s) * (z + r * t));
    OverflowedX(g, r, m);
  }

  lemma SamePointAs(g: Group, m: int, t: int)
    requires CurveLaw(g) && !AtInfinity(g, m) && Cong(m, t, g.n)
    ensures !AtInfinity(g, t) && g.X(t) == g.X(m) && g.Y(t) == g.Y(m)
  {
    hide CurveLaw;
    SameMultiples(g, m, t);
  }

  lemma OverflowedX(g: Group, r: int, m: int)
    requires 0 < r < g.n && (g.X(m) == r || g.X(m) == r + g.n)
    ensures g.X(m) % g.n == r
  {
    ModUnique(g.X(m), g.n, if g.X(m) == r then 0 else 1, r);
  }

  /** The coordinates are below 2n: reducing x loses at most one n. */
  lemma ReducedX(g: Group, k: int)
    requires CurveLaw(g)
    ensures g.X(k) < 2 * g.n && g.X(k) % g.n == if g.X(k) >= g.n then g.X(k) - g.n else g.X(k)
  {
    Moduli(g);
    Coordinates(g, k);
    ModUnique(g.X(k), g.n, if g.X(k) >= g.n then 1 else 0, if g.X(k) >= g.n then g.X(k) - g.n else g.X(k));
  }

  /** Recovery with the signature's own byte gives the signer's key ... */
  lemma SignedRecovers(g: Group, d: int, z: int, k: int)
    requires CurveLaw(g) && 0 < d < g.n && Usable(g, k) && RawS(g, d, z, k) != 0
    ensures var sig := SignatureOf(g, d, z, k); Recovers(g, sig.r, sig.s, z, sig.recid, SignedPoint(g, d, z, k), d)
  {
    hide CurveLaw, Cong, RawS, AtInfinity;
    var sig, m := SignatureOf(g, d, z, k), SignedPoint(g, d, z, k);
    SignatureRange(g, d, z, k);
    ReducedX(g, k);
    ChosenPoint(g, d, z, k);
    NonzeroN(g, d);
    SignatureSolves(g, d, z, k);
    InverseN(g, sig.r);
    hide SignatureOf, SignedPoint;
    IsolateKey(d, sig.r, g.invN(sig.r), sig.s * m, z, g.n);
  }

  lemma IsolateKey(d: int, r: int, i: int, u: int, z: int, n: int)
    requires n > 0 && Cong(u, z + r * d, n) && Cong(r * i, 1, n)
    ensures Cong(d, i * (u - z), n)
  {
    CongRefl(z, n);
    hide Cong;
    CongSub(u, z + r * d, z, z, n);
    CongSymm(u - z, d * r, n);
    Quotient(d, r, i, u - z, n);
  }

  /** ... and nothing else. */
  lemma RecoveryIsUnique(g: Group, r: int, s: int, z: int, recid: int, m: int, t: int, m': int, t': int)
    requires CurveLaw(g) && Recovers(g, r, s, z, recid, m, t) && Recovers(g, r, s, z, recid, m', t')
    ensures Cong(t, t', g.n)
  {
    Moduli(g);
    MeetX(g, m, m');
    if Cong(m, -m', g.n) {
      OppositeParity(g, m, m');
    }
    var n := g.n;
    CongRefl(z, n);
    hide CurveLaw, Cong, AtInfinity;
    CongMul2(m, m', s, n);
    CongSub(s * m, s * m', z, z, n);
    CongMul2(s * m - z, s * m' - z, g.invN(r), n);
    CongSymm(t', g.invN(r) * (s * m' - z), n);
    CongTrans(t, g.invN(r) * (s * m - z), g.invN(r) * (s * m' - z), n);
    CongTrans(t, g.invN(r) * (s * m' - z), t', n);
  }

  /** Every signature is accepted under the signer's key. */
  lemma SignedVerifies(g: Group, d: int, z: int, k: int)
    requires CurveLaw(g) && 0 < d < g.n && z != 0 && Usable(g, k) && RawS(g, d, z, k) != 0
    ensures var sig := SignatureOf(g, d, z, k); Verdict(g, d, sig.r, sig.s, z) == 0
  {
    var sig := SignatureOf(g, d, z, k);
    SignedRecovers(g, d, z, k);
    RecoveredVerifies(g, sig.r, sig.s, z, sig.recid, SignedPoint(g, d, z, k), d);
  }

  /** The other s of the pair is accepted under the same keys: low s is a choice, not a check. */
  lemma NegatedVerifies(g: Group, d: int, r: int, s: int, z: int)
    requires CurveLaw(g) && Verdict(g, d, r, s, z) == 0
    ensures Verdict(g, d, r, g.n - s, z) == 0
  {
    hide CurveLaw, Cong, AtInfinity;
    var n, a, t := g.n, z + r * d, g.invN(s) * (z + r * d);
    OppositeOf(g, t);
    hide Verdict;
    NegatedQuotient(g, t, s, a);
    SamePointAs(g, -t, g.invN(n - s) * a);
    Accepts(g, d, r, n - s, z);
  }

  lemma NegatedQuotient(g: Group, t: int, s: int, a: int)
    requires CurveLaw(g) && 0 < s < g.n && t == g.invN(s) * a
    ensures Cong(-t, g.invN(g.n - s) * a, g.n)
  {
    hide CurveLaw, Cong;
    UndoN(g, s, a);
    FlippedSolves(s, t, a, g.n);
    QuotientN(g, -t, g.n - s, a);
  }

  lemma Accepts(g: Group, d: int, r: int, s: int, z: int)
    requires g.n > 0 && z != 0 && 0 < r < g.n && 0 < s < g.n
    requires var t := g.invN(s) * (z + r * d); !AtInfinity(g, t) && g.X(t) % g.n == r
    ensures Verdict(g, d, r, s, z) == 0
  {}

  /** Multiples of the order do not show in the verdict. */
  lemma VerdictSameKey(g: Group, d: int, d': int, r: int, s: int, z: int)
    requires CurveLaw(g) && g.n > 0 && Cong(d, d', g.n)
    ensures Verdict(g, d, r, s, z) == Verdict(g, d', r, s, z)
  {
    if z != 0 && 0 < r < g.n && 0 < s < g.n {
      var i := g.invN(s);
      hide CurveLaw;
      CongMul(r, r, d, d', g.n);
      CongAdd(z, z, r * d, r * d', g.n);
      CongMul(i, i, z + r * d, z + r * d', g.n);
      SameMultiples(g, i * (z + r * d), i * (z + r * d'));
    }
  }
}
