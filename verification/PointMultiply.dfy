/** lib/trezor-crypto/ecdsa.c, scalar multiplication: sixty-four signed windows, four doublings
    and one addition of a table point each. */
module PointMultiply {
  import opened Words
  import opened ModArith
  import opened Limbs
  import opened Bignum
  import opened BignumMod
  import opened BignumMul
  import opened EuclidRounds
  import opened BignumInverse
  import opened Jacobian
  import opened JacobianLaw
  import opened CurveGroup
  import opened AffinePoint
  import opened Window

  // ---------------------------------------------------------------- making the scalar odd

  /** a = k + 2^256, less order when k is even; whether k is not zero. */
  method MakeOdd(k: array<uint32>, order: array<uint32>, a: array<uint32>) returns (isNonZero: bool)
    requires Normalized(k) && Normalized(order) && Value(k) < Value(order) && Value(order) < TWO256
    requires a.Length == LIMBS && a !in {k, order}
    modifies a
    ensures Normalized(a) && Value(a) == Value(k) + TWO256 - (if Value(k) % 2 == 0 then Value(order) else 0)
    ensures isNonZero <==> Value(k) != 0
  {
    hide Carries, Low;
    ghost var k0, o := k[..], order[..];
    LowParity(k0, LIMBS);
    var even := k[0] % 2 == 0;
    ghost var e: int := if even then 1 else 0;
    var tmp: uint32 := 1;
    isNonZero := false;
    CarriesStart(a[..], 1, k0, -e, o, 0, o);
    NonZeroStart(k0);
    for j := 0 to LIMBS - 1
      invariant tmp <= 7 && k[..] == k0 && order[..] == o
      invariant forall i :: 0 <= i < j ==> a[i] < BASE
      invariant Carries(a[..], j, tmp, 1, k0, -e, o, 0, o)
      invariant isNonZero <==> Low(k0, j) != 0
    {
      ghost var s, tmp0 := a[..], tmp;
      NonZeroStep(k0, j);
      isNonZero := isNonZero || k[j] != 0;
      tmp := tmp + ((BASE - 1) + k[j] - (if even then order[j] else 0));
      ghost var t := tmp;
      a[j] := tmp % BASE;
      tmp := tmp / BASE;
      CarriesStep(s, a[..], j, tmp0, 1, k0, -e, o, 0, o, t);
    }
    NonZeroStep(k0, 8);
    isNonZero := isNonZero || k[8] != 0;
    ghost var s := a[..];
    OddTop(s, tmp, k0, e, o);
    a[8] := tmp as int + 0xff_ffff + k[8] as int - (if even then order[8] as int else 0);
    LowExtend(s, a[..], 8);
  }

  lemma NonZeroStart(k: seq<uint32>)
    ensures Low(k, 0) == 0
  {}

  lemma NonZeroStep(k: seq<uint32>, j: nat)
    requires j < |k|
    ensures Low(k, j + 1) != 0 <==> Low(k, j) != 0 || k[j] != 0
  {
    if k[j] > 0 {
      MulPositive(k[j], Weight(j));
    }
  }

  /** The 2^24 - 1 added to the top limb completes 2^256. */
  lemma OddTop(s: seq<uint32>, tmp: int, k: seq<uint32>, e: int, o: seq<uint32>)
    requires |s| == |k| == |o| == LIMBS && forall i :: 0 <= i < 8 ==> s[i] < BASE
    requires Carries(s, 8, tmp, 1, k, -e, o, 0, o) && 0 <= e <= 1
    requires Low(k, LIMBS) < Low(o, LIMBS) < TWO256
    ensures var top := tmp + 0xff_ffff + k[8] as int - e * o[8] as int;
      0 <= top < BASE && Low(s, 8) + top * Weight(8) == Low(k, LIMBS) + TWO256 - e * Low(o, LIMBS)
  {
    hide Low, Weight, Carries, Comb;
    EightLimbs(s, tmp, k, e, o);
    TopLimb(k);
    TopLimb(o);
    Weights();
    LowBound(s, 8);
    var top := tmp + 0xff_ffff + k[8] as int - e * o[8] as int;
    TopSum(Low(s, 8), tmp, k[8], o[8], Low(k, 8), Low(o, 8), e, TWO232);
    TopFits(Low(s, 8), top, Low(k, LIMBS), e, Low(o, LIMBS));
  }

  lemma EightLimbs(s: seq<uint32>, tmp: int, k: seq<uint32>, e: int, o: seq<uint32>)
    requires |s| == |k| == |o| == LIMBS && Carries(s, 8, tmp, 1, k, -e, o, 0, o)
    ensures Low(s, 8) + tmp * TWO232 == TWO232 + Low(k, 8) - e * Low(o, 8)
  {
    CombLinear(k, -e, o, 0, o, 8);
    Weights();
    MulNegate(e, Low(o, 8));
    hide Low, Weight, Comb;
  }

  lemma TopFits(low: int, top: int, k: int, e: int, o: int)
    requires 0 <= low < TWO232 && 0 <= k < o < TWO256 && 0 <= e <= 1
    requires low + top * TWO232 == k + TWO256 - e * o
    ensures 0 <= top < BASE
  {
    if top < 0 {
      MulLe(1, TWO232, -top, TWO232);
    }
    if top >= BASE {
      MulLe(BASE, TWO232, top, TWO232);
    }
  }

  lemma TopLimb(s: seq<uint32>)
    requires |s| == LIMBS
    ensures Low(s, LIMBS) == Low(s, 8) + s[8] * TWO232
  {
    Weights();
  }

  lemma TopSum(low: int, tmp: int, k8: int, o8: int, kl: int, ol: int, e: int, w: int)
    requires low + tmp * w == w + kl - e * ol && 0 <= e <= 1
    ensures low + (tmp + 0xff_ffff + k8 - e * o8) * w == kl + k8 * w + 0x100_0000 * w - e * (ol + o8 * w)
  {
    if e == 0 {
      assert (tmp + 0xff_ffff + k8) * w == tmp * w + 0xff_ffff * w + k8 * w;
    } else {
      assert (tmp + 0xff_ffff + k8 - o8) * w == tmp * w + 0xff_ffff * w + k8 * w - o8 * w;
    }
  }

  // ---------------------------------------------------------------- coordinate changes

  /** jp represents m * G. */
  ghost predicate JacobianOf(g: Group, jp: JacobianPoint, m: int)
    reads jp.x, jp.y, jp.z
  {
    jp.Separate() && jp.Reduced(Nat(g.p)) && Represents(g, Value(jp.x), Value(jp.y), Value(jp.z), m)
  }

  ghost function Nat(v: int): nat {
    if v >= 0 then v else 0
  }

  /** curve_to_jacobian, with the random z already drawn: jp = (x z^2, y z^3, z) */
  method CurveToJacobian(curve: Curve, p: CurvePoint, jp: JacobianPoint, ghost g: Group, ghost m: int)
    requires curve.Describes(g) && Affine(g, p, m) && !AtInfinity(g, m) && jp.Separate()
    requires Normalized(jp.z) && 0 < Value(jp.z) < Value(curve.prime)
    requires {jp.x, jp.y, jp.z} !! {p.x, p.y} + curve.Cells()
    modifies jp.x, jp.y
    ensures JacobianOf(g, jp, m)
  {
    hide Low, Normal, Cong, CongProduct, Multipliable, CurveLaw, AtInfinity, Represents;
    PrimeOk(curve, g);
    AffineBounds(g, p, m);
    ghost var z := Value(jp.z);
    Copy(jp.z, jp.x);
    Fits(Value(jp.z), Value(jp.x));
    Multiply(jp.z, jp.x, curve.prime);
    ghost var zz := Value(jp.x);
    Copy(jp.x, jp.y);
    Fits(Value(jp.z), Value(jp.y));
    Multiply(jp.z, jp.y, curve.prime);
    ghost var zzz := Value(jp.y);
    Fits(Value(p.x), Value(jp.x));
    Multiply(p.x, jp.x, curve.prime);
    Fits(Value(p.y), Value(jp.y));
    Multiply(p.y, jp.y, curve.prime);
    ToJacobian(g, m, z, zz, zzz, Value(jp.x), Value(jp.y));
  }

  lemma ToJacobian(g: Group, m: int, z: int, zz: int, zzz: int, x: int, y: int)
    requires CurveLaw(g) && !AtInfinity(g, m) && 0 < z < g.p
    requires CongProduct(zz, z, z, g.p) && CongProduct(zzz, z, zz, g.p)
    requires CongProduct(x, g.X(m), zz, g.p) && CongProduct(y, g.Y(m), zzz, g.p)
    ensures Represents(g, x, y, z, m)
  {
    hide CurveLaw, AtInfinity;
    var q := g.p;
    if Cong(z, 0, q) {
      CongEqual(z, 0, q);
    }
    hide Cong;
    CongMul2(zz, z * z, g.X(m), q);
    CongTrans(x, g.X(m) * zz, g.X(m) * (z * z), q);
    CongMul2(zz, z * z, z, q);
    assert z * (z * z) == z * z * z;
    CongTrans(zzz, z * zz, z * z * z, q);
    CongMul2(zzz, z * z * z, g.Y(m), q);
    CongTrans(y, g.Y(m) * zzz, g.Y(m) * (z * z * z), q);
  }

  /** jacobian_to_curve: p = (x / z^2, y / z^3), fully reduced */
  method JacobianToCurve(curve: Curve, jp: JacobianPoint, p: CurvePoint, ghost g: Group, ghost m: int)
    requires curve.Describes(g) && JacobianOf(g, jp, m) && p.Separate()
    requires {p.x, p.y} !! {jp.x, jp.y, jp.z} + curve.Cells()
    modifies p.x, p.y
    ensures Affine(g, p, m)
  {
    hide Low, Normal, Cong, CongProduct, Multipliable, CurveLaw, AtInfinity, Coprime, Represents;
    PrimeOk(curve, g);
    ghost var x, y, z := Value(jp.x), Value(jp.y), Value(jp.z);
    InvertibleZ(g, x, y, z, m);
    Copy(jp.z, p.y);
    InverseFast(p.y, curve.prime);
    ghost var i1 := Value(p.y);
    Copy(p.y, p.x);
    Fits(Value(p.x), Value(p.x));
    Multiply(p.x, p.x, curve.prime);
    ghost var i2 := Value(p.x);
    Fits(Value(p.x), Value(p.y));
    Multiply(p.x, p.y, curve.prime);
    ghost var i3 := Value(p.y);
    Fits(Value(jp.x), Value(p.x));
    Multiply(jp.x, p.x, curve.prime);
    ghost var ax := Value(p.x);
    Fits(Value(jp.y), Value(p.y));
    Multiply(jp.y, p.y, curve.prime);
    ghost var ay := Value(p.y);
    Mod(p.x, curve.prime);
    Mod(p.y, curve.prime);
    ToAffine(g, m, x, y, z, i1, i2, i3, ax, ay);
  }

  lemma InvertibleZ(g: Group, x: int, y: int, z: int, m: int)
    requires CurveLaw(g) && Represents(g, x, y, z, m)
    ensures Coprime(z, g.p) && !Cong(z, 0, g.p)
  {
    Fields(g);
    hide CurveLaw;
    NonzeroCoprime(g.p, g.invP, z);
  }

  lemma ToAffine(g: Group, m: int, x: int, y: int, z: int, i1: int, i2: int, i3: int, ax: int, ay: int)
    requires CurveLaw(g) && Represents(g, x, y, z, m) && Cong(z * i1, 1, g.p)
    requires CongProduct(i2, i1, i1, g.p) && CongProduct(i3, i2, i1, g.p)
    requires CongProduct(ax, x, i2, g.p) && CongProduct(ay, y, i3, g.p)
    ensures ax % g.p == g.X(m) && ay % g.p == g.Y(m)
  {
    hide CurveLaw, AtInfinity, Cong;
    var q := g.p;
    Coordinates(g, m);
    Unscale(q, g.X(m), x, z * z, i1 * i1, i2, ax) by {
      CongMul(z * i1, 1, z * i1, 1, q);
      assert (z * i1) * (z * i1) == z * z * (i1 * i1);
    }
    Unscale(q, g.Y(m), y, z * z * z, i1 * i1 * i1, i3, ay) by {
      CongMul3(z * i1, 1, z * i1, 1, z * i1, 1, q);
      assert (z * i1) * (z * i1) * (z * i1) == z * z * z * (i1 * i1 * i1);
      CongMul2(i2, i1 * i1, i1, q);
      CongTrans(i3, i2 * i1, i1 * i1 * i1, q);
    }
  }

  lemma Unscale(q: int, a: int, x: int, w: int, wi: int, i: int, r: int)
    requires Cong(x, a * w, q) && Cong(w * wi, 1, q) && Cong(i, wi, q) && Cong(r, x * i, q) && 0 <= a < q
    ensures r % q == a
  {
    hide Cong;
    CongMul(x, a * w, i, wi, q);
    MulAssoc(a, w, wi);
    CongMul2(w * wi, 1, a, q);
    CongTrans(r, x * i, a * w * wi, q);
    CongTrans(r, a * (w * wi), a, q);
    Residue(r, a, q);
  }

  lemma Residue(r: int, a: int, q: int)
    requires Cong(r, a, q) && 0 <= a < q
    ensures r % q == a
  {
    ModUnique(a, q, 0, a);
  }

  // ---------------------------------------------------------------- the steps, in the group

  method DoubleStep(curve: Curve, jp: JacobianPoint, ghost g: Group, ghost m: int)
    requires curve.Describes(g) && JacobianOf(g, jp, m) && {jp.x, jp.y, jp.z} !! curve.Cells()
    modifies jp.x, jp.y, jp.z
    ensures JacobianOf(g, jp, 2 * m)
  {
    hide Low, Normal, CurveLaw, Represents, DoubleFormulas;
    PrimeOk(curve, g);
    ghost var x, y, z := Value(jp.x), Value(jp.y), Value(jp.z);
    ghost var s := PointJacobianDouble(jp, curve.prime, curve.a);
    DoubleSum(g, m, s, x, y, z, Value(jp.x), Value(jp.y), Value(jp.z));
  }

  method AddStep(curve: Curve, p1: CurvePoint, jp: JacobianPoint, ghost g: Group, ghost j: int, ghost m: int)
    requires curve.Describes(g) && Affine(g, p1, j) && JacobianOf(g, jp, m)
    requires !AtInfinity(g, j) && !AtInfinity(g, m + j) && {jp.x, jp.y, jp.z} !! {p1.x, p1.y} + curve.Cells()
    modifies jp.x, jp.y, jp.z
    ensures JacobianOf(g, jp, m + j)
  {
    hide Low, Normal, CurveLaw, Represents, AddFormulas, Joined, Chosen, AtInfinity;
    PrimeOk(curve, g);
    AffineBounds(g, p1, j);
    ghost var x, y, z := Value(jp.x), Value(jp.y), Value(jp.z);
    ghost var u, w, r, h := PointJacobianAdd(p1, jp, curve.prime, curve.a);
    AddSum(g, j, m, r, h, u, w, x, y, z, Value(jp.x), Value(jp.y), Value(jp.z));
  }

  method NegateStep(curve: Curve, cond: bool, jp: JacobianPoint, ghost g: Group, ghost m: int)
    requires curve.Describes(g) && JacobianOf(g, jp, m) && {jp.x, jp.y, jp.z} !! curve.Cells()
    modifies jp.z
    ensures JacobianOf(g, jp, if cond then -m else m)
  {
    hide Low, Normal, CurveLaw, Represents;
    PrimeOk(curve, g);
    ghost var x, y, z := Value(jp.x), Value(jp.y), Value(jp.z);
    CNegate(cond, jp.z, curve.prime);
    Renegated(g, cond, x, y, z, Value(jp.z), m);
  }

  lemma Renegated(g: Group, cond: bool, x: int, y: int, z: int, z': int, m: int)
    requires CurveLaw(g) && Represents(g, x, y, z, m)
    requires z' == if cond then 2 * g.p - z % g.p else g.p + z % g.p
    ensures Represents(g, x, y, z', if cond then -m else m) && z' < 2 * g.p
  {
    Fields(g);
    hide CurveLaw, AtInfinity;
    var q := g.p;
    CongMod(z, q);
    var k, r := z / q, z % q;
    assert z == r + k * q;
    if r == 0 {
      CongBy(z, 0, k, q);
    }
    if cond {
      CongBy(z', -(z % q), 2, q);
      CongRefl(0, q);
      CongSub(0, 0, z % q, z, q);
      CongTrans(z', -(z % q), -z, q);
      NegateZ(g, x, y, z, z', m);
    } else {
      CongBy(z', z % q, 1, q);
      CongTrans(z', z % q, z, q);
      Restated(g, x, y, z, z', m);
    }
  }

  lemma Restated(g: Group, x: int, y: int, z: int, z': int, m: int)
    requires CurveLaw(g) && Represents(g, x, y, z, m) && Cong(z', z, g.p)
    ensures Represents(g, x, y, z', m)
  {
    hide CurveLaw, AtInfinity;
    var q := g.p;
    CongSymm(z', z, q);
    CongMul(z, z', z, z', q);
    CongMul3(z, z', z, z', z, z', q);
    CongMul2(z * z, z' * z', g.X(m), q);
    CongMul2(z * z * z, z' * z' * z', g.Y(m), q);
    CongTrans(x, g.X(m) * (z * z), g.X(m) * (z' * z'), q);
    CongTrans(y, g.Y(m) * (z * z * z), g.Y(m) * (z' * z' * z'), q);
  }

  // ---------------------------------------------------------------- the multiplication

  ghost function Times(c: int, b: int): int {
    c * b
  }

  lemma TimesLinear(c: int, d: int, b: int)
    ensures Times(c, b) + Times(d, b) == Times(c + d, b) && -Times(c, b) == Times(-c, b)
    ensures 2 * Times(c, b) == Times(2 * c, b) && Times(1, b) == b
  {
    assert (c + d) * b == c * b + d * b;
  }

  /** A multiple of a finite point by anything that is not 0 modulo the order is finite. */
  lemma FiniteMultiple(g: Group, c: int, b: int)
    requires CurveLaw(g) && !AtInfinity(g, b) && -g.n < c < g.n && c != 0
    ensures !AtInfinity(g, Times(c, b))
  {
    Fields(g);
    hide CurveLaw;
    if Cong(c, 0, g.n) {
      var k := CongDiff(c, 0, g.n);
      SmallMultiple(k, g.n);
    }
    NoZeroDivisors(g.n, g.invN, c, b);
  }

  /** The table P, 3P, 5P, ... as far as it is built. */
  ghost predicate IsTable(g: Group, t: seq<CurvePoint>, b: int)
    reads set i | 0 <= i < |t| :: t[i].x, set i | 0 <= i < |t| :: t[i].y
  {
    forall i :: 0 <= i < |t| ==> Affine(g, t[i], Times(2 * i + 1, b))
  }

  lemma TableExtend(g: Group, t: seq<CurvePoint>, b: int, next: CurvePoint)
    requires IsTable(g, t, b) && Affine(g, next, Times(2 * |t| + 1, b))
    ensures IsTable(g, t + [next], b)
  {}

  method BuildTable(curve: Curve, p: CurvePoint, ghost g: Group, ghost b: int) returns (pmult: seq<CurvePoint>)
    requires curve.Describes(g) && Affine(g, p, b)
    ensures |pmult| == 8 && IsTable(g, pmult, b)
    ensures forall e :: e in pmult ==> fresh(e.x) && fresh(e.y)
  {
    hide Low, Normal, CurveLaw, Times, IsTable, Affine, Curve.Describes;
    TimesLinear(1, 1, b);
    var twice := CopyOf(p, g, b);
    PointDouble(curve, twice, g, b);
    var first := CopyOf(p, g, b);
    TableStart(g, first, b);
    pmult := [first];
    for i := 1 to 8
      invariant |pmult| == i && Affine(g, twice, Times(2, b)) && IsTable(g, pmult, b)
      invariant forall e :: e in pmult ==> fresh(e.x) && fresh(e.y)
    {
      TableLast(g, pmult, b);
      var next := TableEntry(curve, pmult[i - 1], twice, g, b, i);
      TableExtend(g, pmult, b, next);
      pmult := pmult + [next];
    }
  }

  lemma TableStart(g: Group, first: CurvePoint, b: int)
    requires Affine(g, first, b)
    ensures IsTable(g, [first], b)
  {}

  lemma TableLast(g: Group, t: seq<CurvePoint>, b: int)
    requires |t| > 0 && IsTable(g, t, b)
    ensures Affine(g, t[|t| - 1], Times(2 * |t| - 1, b))
  {
    assert 2 * (|t| - 1) + 1 == 2 * |t| - 1;
  }

  method CopyOf(p: CurvePoint, ghost g: Group, ghost b: int) returns (copy: CurvePoint)
    requires Affine(g, p, b)
    ensures fresh(copy.x) && fresh(copy.y) && Affine(g, copy, b)
  {
    copy := new CurvePoint();
    Copy(p.x, copy.x);
    Copy(p.y, copy.y);
  }

  /** (2 i + 1) P from (2 i - 1) P and 2 P */
  method TableEntry(curve: Curve, previous: CurvePoint, twice: CurvePoint, ghost g: Group, ghost b: int, ghost i: nat)
    returns (next: CurvePoint)
    requires curve.Describes(g) && i > 0 && Affine(g, previous, Times(2 * i - 1, b)) && Affine(g, twice, Times(2, b))
    ensures fresh(next.x) && fresh(next.y) && Affine(g, next, Times(2 * i + 1, b))
  {
    hide Low, Normal, CurveLaw, Times;
    next := new CurvePoint();
    Copy(twice.x, next.x);
    Copy(twice.y, next.y);
    TimesLinear(2 * i - 1, 2, b);
    PointAdd(curve, previous, next, g, Times(2 * i - 1, b), Times(2, b));
  }

  /** Four doublings, the sign flip, and the table entry: c becomes +-16 * c + d. */
  method ProcessWindow(curve: Curve, jres: JacobianPoint, entry: CurvePoint, flip: bool,
                       ghost g: Group, ghost b: int, ghost c: int, ghost d: int)
    requires curve.Describes(g) && JacobianOf(g, jres, Times(c, b)) && Affine(g, entry, Times(d, b))
    requires !AtInfinity(g, Times(d, b)) && !AtInfinity(g, Times((if flip then -16 else 16) * c + d, b))
    requires {jres.x, jres.y, jres.z} !! {entry.x, entry.y} + curve.Cells()
    modifies jres.x, jres.y, jres.z
    ensures JacobianOf(g, jres, Times((if flip then -16 else 16) * c + d, b))
  {
    hide Low, Normal, CurveLaw, AtInfinity, Represents, Times;
    TimesLinear(c, c, b);
    DoubleStep(curve, jres, g, Times(c, b));
    TimesLinear(2 * c, c, b);
    DoubleStep(curve, jres, g, Times(2 * c, b));
    TimesLinear(4 * c, c, b);
    DoubleStep(curve, jres, g, Times(4 * c, b));
    TimesLinear(8 * c, c, b);
    DoubleStep(curve, jres, g, Times(8 * c, b));
    TimesLinear(16 * c, d, b);
    TimesLinear(-16 * c, d, b);
    NegateStep(curve, flip, jres, g, Times(16 * c, b));
    AddStep(curve, entry, jres, g, Times(d, b), if flip then Times(-16 * c, b) else Times(16 * c, b));
  }

  /** res = k * p; 0 on success, 1 when k is 0 or not below the order. */
  method PointMultiply(curve: Curve, k: array<uint32>, p: CurvePoint, res: CurvePoint, noise: array<uint32>,
                       ghost g: Group, ghost b: int) returns (status: int)
    requires curve.Describes(g) && Normalized(k) && Affine(g, p, b) && !AtInfinity(g, b) && res.Separate()
    requires Normalized(noise) && 0 < Value(noise) < Value(curve.prime)
    requires {res.x, res.y} !! curve.Cells()
    modifies res.x, res.y
    ensures status == if 0 < old(Value(k)) < g.n then 0 else 1
    ensures status == 0 ==> Affine(g, res, Times(old(Value(k)), b))
    ensures old(Value(k)) == 0 ==> Affine(g, res, 0)
    ensures old(Value(k)) >= g.n ==> Value(res.x) == old(Value(res.x)) && Value(res.y) == old(Value(res.y))
  {
    hide Low, Normal, CurveLaw, AtInfinity, Represents, Times, Cong;
    PrimeOk(curve, g);
    var less := IsLess(k, curve.order);
    if !less {
      return 1;
    }
    var a := new uint32[LIMBS];
    ghost var kv := Value(k);
    var isNonZero := MakeOdd(k, curve.order, a);
    if !isNonZero {
      ZeroAffine(g);
      SetInfinity(res);
      return 1;
    }
    ScalarPoint(g, kv, Value(a), b);
    MultiplyOdd(curve, a, p, res, noise, g, b);
    status := 0;
  }

  /** The multiplication proper: res = (a - 2^256) * p for odd a. */
  method MultiplyOdd(curve: Curve, a: array<uint32>, p: CurvePoint, res: CurvePoint, noise: array<uint32>,
                     ghost g: Group, ghost b: int)
    requires curve.Describes(g) && Affine(g, p, b) && !AtInfinity(g, b) && res.Separate()
    requires Normalized(a) && OddScalar(Value(a), g.n) && a !in {res.x, res.y}
    requires Normalized(noise) && 0 < Value(noise) < Value(curve.prime)
    requires {res.x, res.y} !! curve.Cells()
    modifies res.x, res.y
    ensures Affine(g, res, Times(old(DigitSum(Value(a), 0)), b))
  {
    hide Low, Normal, CurveLaw, AtInfinity, Represents, Times, Cong, IsTable, DigitSum, OddScalar;
    var pmult := BuildTable(curve, p, g, b);
    var jres := new JacobianPoint();
    Copy(noise, jres.z);
    RunWindows(curve, a, pmult, jres, g, b);
    JacobianToCurve(curve, jres, res, g, Times(DigitSum(Value(a), 0), b));
  }

  /** An odd number that misses 2^256 by less than n, and not by 0. */
  ghost predicate OddScalar(a: nat, n: int) {
    a < Window.TWO257 && a % 2 == 1 && 0 < (if a < TWO256 then TWO256 - a else a - TWO256) < n
  }

  lemma ZeroAffine(g: Group)
    requires CurveLaw(g)
    ensures g.X(0) == 0 && g.Y(0) == 0
  {
    Fields(g);
    hide CurveLaw;
    CongRefl(0, g.n);
    Coordinates(g, 0);
  }

  lemma ScalarOdd(k: int, n: int, a: int)
    requires 0 < k < n < TWO256 && n % 2 == 1 && a == k + TWO256 - (if k % 2 == 0 then n else 0)
    ensures a >= 0 && OddScalar(a, n)
  {}

  /** The signed digits sum to k or to k - order: either way the same point. */
  lemma ScalarPoint(g: Group, k: int, a: int, b: int)
    requires CurveLaw(g) && 0 < k < g.n && a == k + TWO256 - (if k % 2 == 0 then g.n else 0)
    ensures a >= 0 && OddScalar(a, g.n)
    ensures g.X(Times(DigitSum(a, 0), b)) == g.X(Times(k, b)) && g.Y(Times(DigitSum(a, 0), b)) == g.Y(Times(k, b))
  {
    Fields(g);
    hide CurveLaw, DigitSum, Times;
    ScalarOdd(k, g.n, a);
    hide PrimeField;
    DigitsAreScalar(a);
    SameMultiple(DigitSum(a, 0), k, b, g.n);
    SameMultiples(g, Times(DigitSum(a, 0), b), Times(k, b));
  }

  lemma SameMultiple(s: int, k: int, b: int, n: int)
    requires n > 0 && (s == k || s == k - n)
    ensures Cong(Times(s, b), Times(k, b), n)
  {
    if s == k - n {
      assert (k - n) * b == k * b + -b * n;
      CongBy(s * b, k * b, -b, n);
    }
  }

  lemma TopBits(a: array<uint32>, n: int)
    requires Normalized(a) && OddScalar(Value(a), n)
    ensures a[8] / Pow(2, 20) < 32 && a[8] / Pow(2, 20) == Bits(Value(a), 63)
  {
    var s := a[..];
    BitsInLimb(s, 8, 20, 63);
    Pow20();
    Weights();
    var top: int := s[8];
    if top >= 0x200_0000 {
      MulLe(0x200_0000, TWO232, top, TWO232);
    }
  }

  lemma Pow20()
    ensures Pow(2, 20) == 0x10_0000
  {
    Pow5();
    PowAdd(2, 5, 5);
    PowAdd(2, 10, 10);
  }

  /** The first digit alone; later, one digit more. */
  lemma NextDigit(a: nat, i: nat, sign: bool, nsign: bool, c: int)
    requires i < 64 && c == Signed(sign, DigitSum(a, i + 1)) && nsign == (Bits(a, i) < 16)
    ensures nsign == (Digit(Bits(a, i)) < 0)
    ensures (if sign != nsign then -16 else 16) * c + (2 * TableIndex(Bits(a, i)) + 1) == Signed(nsign, DigitSum(a, i))
  {
    hide Bits;
  }

  lemma FirstDigit(a: nat)
    ensures (Digit(Bits(a, 63)) < 0) == (Bits(a, 63) < 16)
    ensures 2 * TableIndex(Bits(a, 63)) + 1 == Signed(Bits(a, 63) < 16, DigitSum(a, 63))
  {
    assert DigitSum(a, 64) == 0;
    NextDigit(a, 63, false, Bits(a, 63) < 16, 0);
  }

  /** Neither a partial sum nor a table entry is the point at infinity. */
  lemma FiniteDigits(g: Group, a: nat, i: nat, b: int)
    requires CurveLaw(g) && !AtInfinity(g, b) && i < 64 && OddScalar(a, g.n)
    ensures !AtInfinity(g, Times(Signed(true, DigitSum(a, i)), b))
    ensures !AtInfinity(g, Times(Signed(false, DigitSum(a, i)), b))
    ensures !AtInfinity(g, Times(2 * TableIndex(Bits(a, i)) + 1, b))
  {
    Fields(g);
    hide CurveLaw, DigitSum, Bits, AtInfinity, Times;
    DigitRange(g.n, a, i);
    FiniteMultiple(g, DigitSum(a, i), b);
    FiniteMultiple(g, -DigitSum(a, i), b);
    FiniteMultiple(g, 2 * TableIndex(Bits(a, i)) + 1, b);
  }

  lemma DigitRange(n: int, a: nat, i: nat)
    requires n >= TWO256 - TWO224 && OddScalar(a, n) && i < 64
    ensures -n < DigitSum(a, i) < n && DigitSum(a, i) != 0 && n > 16
  {
    hide DigitSum;
    PartialSum(a, i);
    DigitsAreScalar(a);
  }

  /** Five bits of a from bit 4 * i, by shifting within a limb or across two. */
  method NextBits(a: array<uint32>, l: nat, abits: uint32, ashift: nat, i: nat)
    returns (bits: uint32, l': nat, abits': uint32, ashift': nat)
    requires Normalized(a) && l < LIMBS && abits == a[l] && ashift <= 28 && 29 * l + ashift == 4 * (i + 1)
    ensures bits == Bits(Value(a), i)
    ensures l' < LIMBS && abits' == a[l'] && ashift' <= 28 && 29 * l' + ashift' == 4 * i
  {
    hide Low, Bits, Pow, Wrap32;
    ghost var s := a[..];
    l', abits' := l, abits;
    var shift := ashift - 4;
    if shift < 0 {
      BitsAcross(s, l - 1, -shift, i);
      bits := Wrap32(abits as int * Pow(2, -shift));
      l' := l - 1;
      abits' := a[l'];
      shift := shift + 29;
      bits := bits + abits' / Pow(2, shift);
    } else {
      BitsInLimb(s, l, shift, i);
      bits := abits / Pow(2, shift);
    }
    bits := bits % 32;
    ashift' := shift;
  }

  /** jres = |first digit| * P, and the sign of that digit. */
  method FirstWindow(curve: Curve, bits: uint32, ghost a: array<uint32>, pmult: seq<CurvePoint>, jres: JacobianPoint,
                     ghost g: Group, ghost b: int) returns (sign: bool)
    requires curve.Describes(g) && Normalized(a) && OddScalar(Value(a), g.n) && bits == a[8] / Pow(2, 20)
    requires |pmult| == 8 && IsTable(g, pmult, b) && !AtInfinity(g, b) && jres.Separate()
    requires Normalized(jres.z) && 0 < Value(jres.z) < Value(curve.prime)
    requires a !in {jres.x, jres.y, jres.z} && {jres.x, jres.y, jres.z} !! curve.Cells()
    requires forall e :: e in pmult ==> {jres.x, jres.y, jres.z} !! {e.x, e.y}
    modifies jres.x, jres.y
    ensures sign == (Digit(Bits(Value(a), 63)) < 0)
    ensures JacobianOf(g, jres, Times(Signed(sign, DigitSum(Value(a), 63)), b))
  {
    hide Low, Normal, CurveLaw, AtInfinity, Represents, Times, DigitSum, Bits, JacobianOf, Pow, IsTable, OddScalar, Affine;
    ghost var A := Value(a);
    TopBits(a, g.n);
    sign := bits < 16;
    FirstDigit(A);
    FiniteDigits(g, A, 63, b);
    TableAt(g, pmult, b, TableIndex(bits));
    CurveToJacobian(curve, pmult[TableIndex(bits)], jres, g, Times(2 * TableIndex(bits) + 1, b));
  }

  /** jres = sum of the digits of a, by Horner's rule from the top window. */
  method RunWindows(curve: Curve, a: array<uint32>, pmult: seq<CurvePoint>, jres: JacobianPoint, ghost g: Group, ghost b: int)
    requires curve.Describes(g) && Normalized(a) && OddScalar(Value(a), g.n)
    requires |pmult| == 8 && IsTable(g, pmult, b) && !AtInfinity(g, b) && jres.Separate()
    requires Normalized(jres.z) && 0 < Value(jres.z) < Value(curve.prime)
    requires a !in {jres.x, jres.y, jres.z} && {jres.x, jres.y, jres.z} !! curve.Cells()
    requires forall e :: e in pmult ==> {jres.x, jres.y, jres.z} !! {e.x, e.y}
    modifies jres.x, jres.y, jres.z
    ensures JacobianOf(g, jres, Times(DigitSum(Value(a), 0), b))
  {
    hide Low, Normal, CurveLaw, AtInfinity, Represents, Times, DigitSum, Bits, JacobianOf, Pow, IsTable, OddScalar, Affine;
    ghost var A := Value(a);
    var l: nat, ashift: nat, abits := 8, 20, a[8];
    var bits: uint32 := abits / Pow(2, ashift);
    var sign := FirstWindow(curve, bits, a, pmult, jres, g, b);
    for i := 63 downto 0
      invariant curve.Describes(g) && IsTable(g, pmult, b) && Value(a) == A && Normalized(a)
      invariant 0 <= l < LIMBS && abits == a[l] && ashift <= 28 && 29 * l + ashift == 4 * i
      invariant sign == (Digit(Bits(A, i)) < 0)
      invariant JacobianOf(g, jres, Times(Signed(sign, DigitSum(A, i)), b))
    {
      ghost var c := Signed(sign, DigitSum(A, i + 1));
      bits, l, abits, ashift := NextBits(a, l, abits, ashift, i);
      var nsign := bits < 16;
      FiniteDigits(g, A, i, b);
      NextDigit(A, i, sign, nsign, c);
      TableAt(g, pmult, b, TableIndex(bits));
      ProcessWindow(curve, jres, pmult[TableIndex(bits)], sign != nsign, g, b, c, 2 * TableIndex(bits) + 1);
      sign := nsign;
    }
    NegateStep(curve, sign, jres, g, Times(Signed(sign, DigitSum(A, 0)), b));
    TimesLinear(-DigitSum(A, 0), 0, b);
  }

  lemma TableAt(g: Group, t: seq<CurvePoint>, b: int, i: nat)
    requires i < |t| && IsTable(g, t, b)
    ensures Affine(g, t[i], Times(2 * i + 1, b))
  {}

  ghost function Signed(negative: bool, v: int): int {
    if negative then -v else v
  }
}
