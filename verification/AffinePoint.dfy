/** lib/trezor-crypto/ecdsa.c, affine points: addition, doubling, and the way to Jacobian
    coordinates and back. */
module AffinePoint {
  import opened Words
  import opened ModArith
  import opened Limbs
  import opened Bignum
  import opened BignumMod
  import opened BignumMul
  import opened EuclidRounds
  import opened BignumInverse
  import opened Jacobian
  import opened JacobianLaw
  import opened CurveGroup

  /** The parameters of a curve, ecdsa.h. */
  class Curve {
    const prime: array<uint32>
    const order: array<uint32>
    const orderHalf: array<uint32>
    const G: CurvePoint
    const a: int
    const b: array<uint32>

    constructor (prime: array<uint32>, order: array<uint32>, orderHalf: array<uint32>, G: CurvePoint, a: int, b: array<uint32>)
      ensures this.prime == prime && this.order == order && this.orderHalf == orderHalf
      ensures this.G == G && this.a == a && this.b == b
    {
      this.prime, this.order, this.orderHalf, this.G, this.a, this.b := prime, order, orderHalf, G, a, b;
    }

    ghost function Cells(): set<object> {
      {prime, order, orderHalf, G.x, G.y, b}
    }

    /** The parameters describe the group g. */
    ghost predicate Describes(g: Group)
      reads prime, order, orderHalf, G.x, G.y, b
    {
      && CurveLaw(g) && a == g.a
      && Normalized(prime) && Value(prime) == g.p && prime[0] > 3
      && Normalized(order) && Value(order) == g.n
      && Normalized(orderHalf) && Value(orderHalf) == g.n / 2
      && Normalized(b) && Value(b) == g.b
      && Affine(g, G, 1)
    }
  }

  lemma PrimeOk(curve: Curve, g: Group)
    requires curve.Describes(g)
    ensures CurveLaw(g) && OddPrime(curve.prime) && OddPrime(curve.order) && -3 <= curve.a <= 0
    ensures Value(curve.prime) == g.p && Value(curve.order) == g.n
  {}

  /** P is m * G, fully reduced; infinity is (0, 0). */
  ghost predicate Affine(g: Group, P: CurvePoint, m: int)
    reads P.x, P.y
  {
    P.Separate() && Normalized(P.x) && Normalized(P.y) && Value(P.x) == g.X(m) && Value(P.y) == g.Y(m)
  }

  lemma AffineBounds(g: Group, P: CurvePoint, m: int)
    requires CurveLaw(g) && Affine(g, P, m)
    ensures Value(P.x) < g.p && Value(P.y) < g.p && P.Reduced(g.p)
    ensures AtInfinity(g, m) <==> Value(P.x) == 0 && Value(P.y) == 0
  {
    hide CurveLaw;
    Coordinates(g, m);
  }

  /** Both sides of the line equations determine the same point. */
  lemma ThirdPointUnique(q: int, l: int, l': int, x1: int, y1: int, x2: int, x3: int, y3: int, x3': int, y3': int)
    requires Cong(l, l', q) && ThirdPoint(q, l, x1, y1, x2, x3, y3) && ThirdPoint(q, l', x1, y1, x2, x3', y3')
    requires 0 <= x3 < q && 0 <= y3 < q && 0 <= x3' < q && 0 <= y3' < q
    ensures x3 == x3' && y3 == y3'
  {
    CongRefl(x1 + x2, q);
    CongRefl(y1, q);
    CongRefl(x1 - x3, q);
    hide Cong;
    CongMul(l, l', l, l', q);
    CongSub(l * l, l' * l', x1 + x2, x1 + x2, q);
    CongSymm(x3', l' * l' - x1 - x2, q);
    CongTrans(x3, l * l - x1 - x2, l' * l' - x1 - x2, q);
    CongTrans(x3, l' * l' - x1 - x2, x3', q);
    CongEqual(x3, x3', q);
    CongMul(l, l', x1 - x3, x1 - x3, q);
    CongSub(l * (x1 - x3), l' * (x1 - x3), y1, y1, q);
    CongTrans(y3, l * (x1 - x3) - y1, l' * (x1 - x3) - y1, q);
    CongSymm(y3', l' * (x1 - x3) - y1, q);
    CongTrans(y3, l' * (x1 - x3) - y1, y3', q);
    CongEqual(y3, y3', q);
  }

  ghost predicate QuotientOf(q: int, l: int, num: int, den: int) {
    Cong(l * den, num, q)
  }

  // ---------------------------------------------------------------- addition

  /** lambda = (y2 - y1) / (x2 - x1) */
  method ChordSlope(cp1: CurvePoint, cp2: CurvePoint, lambda: array<uint32>, prime: array<uint32>)
    requires OddPrime(prime) && cp1.Reduced(Value(prime)) && cp2.Reduced(Value(prime)) && lambda.Length == LIMBS
    requires lambda !in {cp1.x, cp1.y, cp2.x, cp2.y, prime}
    requires Coprime(Value(cp2.x) + 2 * Value(prime) - Value(cp1.x), Value(prime))
    requires !Cong(Value(cp2.x), Value(cp1.x), Value(prime))
    modifies lambda
    ensures PartlyReduced(lambda, Value(prime))
    ensures QuotientOf(Value(prime), Value(lambda), Value(cp2.y) - Value(cp1.y), Value(cp2.x) - Value(cp1.x))
  {
    hide Low, Normal, Cong, CongProduct, Multipliable, QuotientOf, Coprime;
    ghost var q := Value(prime);
    var inv := new uint32[LIMBS];
    SubtractMod(cp2.x, cp1.x, inv, prime);
    ghost var dx := Value(inv);
    DifferenceNonzero(q, Value(cp2.x), Value(cp1.x), dx);
    InverseFast(inv, prime);
    ghost var iv := Value(inv);
    SubtractMod(cp2.y, cp1.y, lambda, prime);
    ghost var dy := Value(lambda);
    Fits(Value(inv), Value(lambda));
    Multiply(inv, lambda, prime);
    ChordSlopeSound(q, Value(cp1.x), Value(cp1.y), Value(cp2.x), Value(cp2.y), dx, iv, dy, Value(lambda));
  }

  lemma DifferenceNonzero(q: int, u: int, v: int, d: int)
    requires !Cong(u, v, q) && d == u + 2 * q - v && q > 0
    ensures !Cong(d, 0, q)
  {
    if Cong(d, 0, q) {
      CongBy(d, u - v, 2, q);
      CongAdd(u - v, 0, v, v, q);
    }
  }

  lemma ChordSlopeSound(q: int, x1: int, y1: int, x2: int, y2: int, dx: int, iv: int, dy: int, l: int)
    requires dx == x2 + 2 * q - x1 && Cong(dx * iv, 1, q) && dy == y2 + 2 * q - y1 && CongProduct(l, iv, dy, q)
    ensures QuotientOf(q, l, y2 - y1, x2 - x1)
  {
    CongBy(dx, x2 - x1, 2, q);
    CongBy(dy, y2 - y1, 2, q);
    CongSymm(dx, x2 - x1, q);
    hide Cong;
    CongMul(l, iv * dy, x2 - x1, dx, q);
    assert iv * dy * dx == dy * (dx * iv);
    CongMul2(dx * iv, 1, dy, q);
    CongTrans(l * (x2 - x1), dy * (dx * iv), dy, q);
    CongTrans(l * (x2 - x1), dy, y2 - y1, q);
  }

  /** (xr, yr) is the reflected third point of the line of slope lambda through (x1, y1) and the
      point with x coordinate x2, fully reduced. */
  method LinePoint(x1: array<uint32>, y1: array<uint32>, x2: array<uint32>, lambda: array<uint32>,
                   xr: array<uint32>, yr: array<uint32>, prime: array<uint32>)
    requires OddPrime(prime) && PartlyReduced(lambda, Value(prime))
    requires PartlyReduced(x1, Value(prime)) && PartlyReduced(y1, Value(prime)) && PartlyReduced(x2, Value(prime))
    requires xr.Length == yr.Length == LIMBS && xr != yr && {xr, yr} !! {x1, y1, x2, lambda, prime}
    modifies xr, yr
    ensures Normalized(xr) && Value(xr) < Value(prime) && Normalized(yr) && Value(yr) < Value(prime)
    ensures ThirdPoint(Value(prime), Value(lambda), Value(x1), Value(y1), Value(x2), Value(xr), Value(yr))
  {
    hide Low, Normal, Cong, CongProduct, Multipliable, ThirdPoint, LineX;
    ghost var q := Value(prime);
    Copy(lambda, xr);
    Fits(Value(xr), Value(xr));
    Multiply(xr, xr, prime);
    ghost var ll := Value(xr);
    Copy(x1, yr);
    AddMod(yr, x2, prime);
    ghost var xs := Value(yr);
    SubtractMod(xr, yr, xr, prime);
    ghost var diff := Value(xr);
    FastMod(xr, prime);
    ghost var part := Value(xr);
    Mod(xr, prime);
    LineXSound(q, Value(lambda), Value(x1), Value(x2), ll, xs, diff, part, Value(xr));
    LineY(x1, y1, lambda, xr, yr, prime);
    LineSound(q, Value(lambda), Value(x1), Value(y1), Value(x2), Value(xr), Value(yr));
  }

  ghost predicate LineX(q: int, l: int, x1: int, x2: int, xr: int) {
    Cong(xr, l * l - x1 - x2, q)
  }

  lemma LineXSound(q: int, l: int, x1: int, x2: int, ll: int, xs: int, diff: int, part: int, xr: int)
    requires CongProduct(ll, l, l, q) && Cong(xs, x1 + x2, q) && diff == ll + 2 * q - xs && Cong(part, diff, q)
    requires xr == part % q
    ensures LineX(q, l, x1, x2, xr)
  {
    CongMinus(part, ll, l * l, xs, x1 + x2, q);
    CongMod(part, q);
    CongTrans(xr, part, l * l - x1 - x2, q);
  }

  ghost predicate LineYIs(q: int, l: int, x1: int, y1: int, xr: int, yr: int) {
    Cong(yr, l * (x1 - xr) - y1, q)
  }

  lemma LineSound(q: int, l: int, x1: int, y1: int, x2: int, xr: int, yr: int)
    requires LineX(q, l, x1, x2, xr) && LineYIs(q, l, x1, y1, xr, yr)
    ensures ThirdPoint(q, l, x1, y1, x2, xr, yr)
  {}

  /** yr = lambda * (x1 - xr) - y1 */
  method LineY(x1: array<uint32>, y1: array<uint32>, lambda: array<uint32>, xr: array<uint32>, yr: array<uint32>,
               prime: array<uint32>)
    requires OddPrime(prime) && PartlyReduced(lambda, Value(prime)) && Normalized(xr) && Value(xr) < Value(prime)
    requires PartlyReduced(x1, Value(prime)) && PartlyReduced(y1, Value(prime)) && yr.Length == LIMBS
    requires yr !in {x1, y1, lambda, xr, prime}
    modifies yr
    ensures Normalized(yr) && Value(yr) < Value(prime)
    ensures LineYIs(Value(prime), Value(lambda), Value(x1), Value(y1), Value(xr), Value(yr))
  {
    hide Low, Normal, Cong, CongProduct, Multipliable, LineYIs;
    SubtractMod(x1, xr, yr, prime);
    ghost var dx := Value(yr);
    Fits(Value(lambda), Value(yr));
    Multiply(lambda, yr, prime);
    ghost var ldx := Value(yr);
    SubtractMod(yr, y1, yr, prime);
    ghost var diff := Value(yr);
    FastMod(yr, prime);
    ghost var part := Value(yr);
    Mod(yr, prime);
    LineYSound(Value(prime), Value(lambda), Value(x1), Value(y1), Value(xr), dx, ldx, diff, part, Value(yr));
  }

  lemma LineYSound(q: int, l: int, x1: int, y1: int, xr: int, dx: int, ldx: int, diff: int, part: int, yr: int)
    requires dx == x1 + 2 * q - xr && CongProduct(ldx, l, dx, q) && diff == ldx + 2 * q - y1 && Cong(part, diff, q)
    requires yr == part % q
    ensures LineYIs(q, l, x1, y1, xr, yr)
  {
    CongBy(dx, x1 - xr, 2, q);
    CongMul2(dx, x1 - xr, l, q);
    CongTrans(ldx, l * dx, l * (x1 - xr), q);
    CongRefl(y1, q);
    CongMinus(part, ldx, l * (x1 - xr), y1, y1, q);
    CongMod(part, q);
    CongTrans(yr, part, l * (x1 - xr) - y1, q);
  }

  method SetInfinity(P: CurvePoint)
    requires P.Separate()
    modifies P.x, P.y
    ensures Normalized(P.x) && Normalized(P.y) && Value(P.x) == Value(P.y) == 0
  {
    Zero(P.x);
    Zero(P.y);
  }

  method IsInfinity(P: CurvePoint) returns (b: bool)
    requires P.Separate() && Normalized(P.x) && Normalized(P.y)
    ensures b <==> Value(P.x) == 0 && Value(P.y) == 0
  {
    var b1 := IsZero(P.x);
    var b2 := IsZero(P.y);
    b := b1 && b2;
  }

  /** cp2 = cp1 + cp2.  The multiples j and m of the base point name the operands. */
  method PointAdd(curve: Curve, cp1: CurvePoint, cp2: CurvePoint, ghost g: Group, ghost j: int, ghost m: int)
    requires curve.Describes(g) && Affine(g, cp1, j) && Affine(g, cp2, m)
    requires {cp2.x, cp2.y} !! {cp1.x, cp1.y} + curve.Cells()
    modifies cp2.x, cp2.y
    ensures Affine(g, cp2, j + m)
  {
    hide Low, Normal, Cong, CurveLaw, AtInfinity, Coprime, ThirdPoint, QuotientOf;
    PrimeOk(curve, g);
    assert CurveLaw(g);
    AffineBounds(g, cp1, j);
    AffineBounds(g, cp2, m);
    var infinite1 := IsInfinity(cp1);
    if infinite1 {
      ZeroLeft(g, j, m);
      return;
    }
    var infinite2 := IsInfinity(cp2);
    if infinite2 {
      ZeroLeft(g, m, j);
      Copy(cp1.x, cp2.x);
      Copy(cp1.y, cp2.y);
      return;
    }
    var sameX := IsEqual(cp1.x, cp2.x);
    var sameY := IsEqual(cp1.y, cp2.y);
    if sameX && sameY {
      SameSum(g, j, m);
      PointDouble(curve, cp2, g, m);
      return;
    }
    var negative := IsNegativeOf(cp1, cp2);
    if negative {
      OppositeSum(g, j, m);
      SetInfinity(cp2);
      return;
    }
    OtherX(g, j, m, sameX, sameY);
    AddOnChord(curve, cp1, cp2, g, j, m);
  }

  /** point_is_negative_of */
  method IsNegativeOf(p: CurvePoint, q: CurvePoint) returns (b: bool)
    requires p.Separate() && Normalized(p.x) && Normalized(p.y)
    requires q.Separate() && Normalized(q.x) && Normalized(q.y)
    ensures b <==> Value(p.x) == Value(q.x) && Value(p.y) != 0 && Value(p.y) != Value(q.y)
  {
    var sameX := IsEqual(p.x, q.x);
    if !sameX {
      return false;
    }
    var zeroY := IsZero(p.y);
    if zeroY {
      return false;
    }
    var sameY := IsEqual(p.y, q.y);
    b := !sameY;
  }

  lemma ZeroLeft(g: Group, j: int, m: int)
    requires CurveLaw(g) && AtInfinity(g, j)
    ensures g.X(j + m) == g.X(m) && g.Y(j + m) == g.Y(m)
  {
    hide CurveLaw;
    CongAdd(j, 0, m, m, g.n);
    SameMultiples(g, j + m, m);
  }

  /** Equal coordinates name the same point. */
  lemma SameSum(g: Group, j: int, m: int)
    requires CurveLaw(g) && !AtInfinity(g, j) && !AtInfinity(g, m) && g.X(j) == g.X(m) && g.Y(j) == g.Y(m)
    ensures g.X(j + m) == g.X(2 * m) && g.Y(j + m) == g.Y(2 * m)
  {
    Fields(g);
    hide CurveLaw;
    Opposite(g, j);
    if AtInfinity(g, m + j) {
      CongSub(m + j, 0, j, j, g.n);
      SameMultiples(g, m, -j);
    }
    SamePoint(g, j, m);
    assert j + m == m + j;
  }

  /** Same x, different y: the sum is the point at infinity. */
  lemma OppositeSum(g: Group, j: int, m: int)
    requires CurveLaw(g) && !AtInfinity(g, j) && !AtInfinity(g, m) && g.X(j) == g.X(m) && g.Y(j) != g.Y(m)
    ensures g.X(j + m) == 0 && g.Y(j + m) == 0
  {
    hide CurveLaw;
    MeetX(g, j, m);
    if Cong(j, m, g.n) {
      SameMultiples(g, j, m);
    }
    CongAdd(j, -m, m, m, g.n);
    Coordinates(g, j + m);
  }

  lemma OtherX(g: Group, j: int, m: int, sameX: bool, sameY: bool)
    requires CurveLaw(g) && !AtInfinity(g, j) && !AtInfinity(g, m)
    requires sameX == (g.X(j) == g.X(m)) && sameY == (g.Y(j) == g.Y(m)) && !(sameX && sameY)
    requires !(sameX && g.Y(j) != 0 && g.Y(j) != g.Y(m))
    ensures g.X(j) != g.X(m)
  {
    OrderedY(g, j);
  }

  /** The general case: different x. */
  method AddOnChord(curve: Curve, cp1: CurvePoint, cp2: CurvePoint, ghost g: Group, ghost j: int, ghost m: int)
    requires curve.Describes(g) && Affine(g, cp1, j) && Affine(g, cp2, m)
    requires {cp2.x, cp2.y} !! {cp1.x, cp1.y} + curve.Cells()
    requires !AtInfinity(g, j) && !AtInfinity(g, m) && g.X(j) != g.X(m)
    modifies cp2.x, cp2.y
    ensures Affine(g, cp2, j + m)
  {
    hide Low, Normal, Cong, CurveLaw, AtInfinity, Coprime, ThirdPoint, QuotientOf;
    PrimeOk(curve, g);
    AffineBounds(g, cp1, j);
    AffineBounds(g, cp2, m);
    var lambda, xr, yr := new uint32[LIMBS], new uint32[LIMBS], new uint32[LIMBS];
    DistinctX(g, j, m, Value(cp2.x) + 2 * Value(curve.prime) - Value(cp1.x));
    ChordSlope(cp1, cp2, lambda, curve.prime);
    LinePoint(cp1.x, cp1.y, cp2.x, lambda, xr, yr, curve.prime);
    ChordSum(g, j, m, Value(lambda), Value(xr), Value(yr));
    Copy(xr, cp2.x);
    Copy(yr, cp2.y);
  }

  lemma DistinctX(g: Group, j: int, m: int, d: int)
    requires CurveLaw(g) && g.X(j) != g.X(m) && d == g.X(m) + 2 * g.p - g.X(j)
    ensures !Cong(g.X(m), g.X(j), g.p) && Coprime(d, g.p)
  {
    Fields(g);
    hide CurveLaw;
    DifferentX(g, m, j);
    DifferenceNonzero(g.p, g.X(m), g.X(j), d);
    NonzeroCoprime(g.p, g.invP, d);
  }

  lemma ChordSum(g: Group, j: int, m: int, l: int, xr: int, yr: int)
    requires CurveLaw(g) && !AtInfinity(g, j) && !AtInfinity(g, m) && g.X(j) != g.X(m)
    requires QuotientOf(g.p, l, g.Y(m) - g.Y(j), g.X(m) - g.X(j))
    requires 0 <= xr < g.p && 0 <= yr < g.p && ThirdPoint(g.p, l, g.X(j), g.Y(j), g.X(m), xr, yr)
    ensures xr == g.X(j + m) && yr == g.Y(j + m)
  {
    Fields(g);
    hide CurveLaw;
    var q, c, d := g.p, g.chord(j, m), g.X(j) - g.X(m);
    DifferentX(g, j, m);
    ChordOf(g, j, m);
    Coordinates(g, j + m);
    assert m + j == j + m;
    assert Cong(d * g.invP(d), 1, q);
    SameSlope(q, l, c, g.X(j), g.Y(j), g.X(m), g.Y(m), g.invP(d));
    ThirdPointUnique(q, l, c, g.X(j), g.Y(j), g.X(m), xr, yr, g.X(j + m), g.Y(j + m));
  }

  lemma SameSlope(q: int, l: int, c: int, x1: int, y1: int, x2: int, y2: int, inv: int)
    requires QuotientOf(q, l, y2 - y1, x2 - x1) && Cong(c * (x1 - x2), y1 - y2, q) && Cong((x1 - x2) * inv, 1, q)
    ensures Cong(l, c, q)
  {
    var d := x1 - x2;
    CongSub(0, 0, l * (x2 - x1), y2 - y1, q);
    assert l * d == 0 - l * (x2 - x1);
    CongSymm(c * d, y1 - y2, q);
    CongTrans(l * d, y1 - y2, c * d, q);
    CongCancel(l, c, d, inv, q);
  }

  // ---------------------------------------------------------------- doubling

  /** lambda = (3 x^2 + a) / (2 y) */
  method TangentSlope(cp: CurvePoint, lambda: array<uint32>, prime: array<uint32>, a: int)
    requires OddPrime(prime) && cp.Reduced(Value(prime)) && -3 <= a <= 0 && prime[0] > 3 && lambda.Length == LIMBS
    requires lambda !in {cp.x, cp.y, prime}
    requires forall v: int :: Cong(v, 2 * Value(cp.y), Value(prime)) ==> Coprime(v, Value(prime)) && !Cong(v, 0, Value(prime))
    modifies lambda
    ensures PartlyReduced(lambda, Value(prime))
    ensures QuotientOf(Value(prime), Value(lambda), 3 * (Value(cp.x) * Value(cp.x)) + a, 2 * Value(cp.y))
  {
    hide Low, Normal, Cong, CongProduct, Multipliable, QuotientOf, Coprime;
    ghost var q := Value(prime);
    Copy(cp.y, lambda);
    MultK(lambda, 2, prime);
    ghost var d1 := Value(lambda);
    FastMod(lambda, prime);
    ghost var d2 := Value(lambda);
    Mod(lambda, prime);
    ghost var d3 := Value(lambda);
    DoubledY(q, Value(cp.y), d1, d2, d3);
    InverseFast(lambda, prime);
    ghost var iv := Value(lambda);
    var xr := new uint32[LIMBS];
    Copy(cp.x, xr);
    Fits(Value(xr), Value(xr));
    Multiply(xr, xr, prime);
    ghost var xx := Value(xr);
    MultK(xr, 3, prime);
    ghost var xx3 := Value(xr);
    SubI(xr, -a, prime);
    ghost var num := Value(xr);
    Fits(Value(xr), Value(lambda));
    Multiply(xr, lambda, prime);
    TangentSlopeSound(q, a, Value(cp.x), Value(cp.y), d3, iv, xx, xx3, num, Value(lambda));
  }

  lemma DoubledY(q: int, y: int, d1: int, d2: int, d3: int)
    requires CongProduct(d1, 2, y, q) && Cong(d2, d1, q) && d3 == d2 % q
    ensures Cong(d3, 2 * y, q)
  {
    CongMod(d2, q);
  }

  lemma TangentSlopeSound(q: int, a: int, x: int, y: int, den: int, iv: int, xx: int, xx3: int, num: int, l: int)
    requires Cong(den, 2 * y, q) && Cong(den * iv, 1, q) && CongProduct(xx, x, x, q) && CongProduct(xx3, 3, xx, q)
    requires num == xx3 + q - (-a) && CongProduct(l, num, iv, q)
    ensures QuotientOf(q, l, 3 * (x * x) + a, 2 * y)
  {
    CongMul2(xx, x * x, 3, q);
    CongTrans(xx3, 3 * xx, 3 * (x * x), q);
    CongBy(num, xx3 + a, 1, q);
    CongRefl(a, q);
    CongAdd(xx3, 3 * (x * x), a, a, q);
    CongSymm(den, 2 * y, q);
    hide Cong;
    CongMul(l, num * iv, 2 * y, den, q);
    assert num * iv * den == num * (den * iv);
    CongMul2(den * iv, 1, num, q);
    CongTrans(l * (2 * y), num * (den * iv), num, q);
    CongTrans(num, xx3 + a, 3 * (x * x) + a, q);
    CongTrans(l * (2 * y), num, 3 * (x * x) + a, q);
  }

  /** The tangent's reflected third point: like LinePoint, with 2 * x formed by a shift. */
  method TangentPoint(cp: CurvePoint, lambda: array<uint32>, xr: array<uint32>, yr: array<uint32>, prime: array<uint32>)
    requires OddPrime(prime) && PartlyReduced(lambda, Value(prime)) && cp.Reduced(Value(prime)) && Value(cp.x) < Value(prime)
    requires xr.Length == yr.Length == LIMBS && xr != yr && {xr, yr} !! {cp.x, cp.y, lambda, prime}
    modifies xr, yr
    ensures Normalized(xr) && Value(xr) < Value(prime) && Normalized(yr) && Value(yr) < Value(prime)
    ensures ThirdPoint(Value(prime), Value(lambda), Value(cp.x), Value(cp.y), Value(cp.x), Value(xr), Value(yr))
  {
    hide Low, Normal, Cong, CongProduct, Multipliable, ThirdPoint, LineX, Low261;
    ghost var q := Value(prime);
    Copy(lambda, xr);
    Fits(Value(xr), Value(xr));
    Multiply(xr, xr, prime);
    ghost var ll := Value(xr);
    Copy(cp.x, yr);
    Lshift(yr);
    ghost var xs := Value(yr);
    SubtractMod(xr, yr, xr, prime);
    ghost var diff := Value(xr);
    FastMod(xr, prime);
    ghost var part := Value(xr);
    Mod(xr, prime);
    TwiceX(q, Value(cp.x), xs);
    LineXSound(q, Value(lambda), Value(cp.x), Value(cp.x), ll, xs, diff, part, Value(xr));
    LineY(cp.x, cp.y, lambda, xr, yr, prime);
    LineSound(q, Value(lambda), Value(cp.x), Value(cp.y), Value(cp.x), Value(xr), Value(yr));
  }

  lemma TwiceX(q: int, x: int, xs: int)
    requires q > 0 && xs == 2 * x
    ensures Cong(xs, x + x, q)
  {}

  /** cp = 2 * cp */
  method PointDouble(curve: Curve, cp: CurvePoint, ghost g: Group, ghost m: int)
    requires curve.Describes(g) && Affine(g, cp, m) && {cp.x, cp.y} !! curve.Cells()
    modifies cp.x, cp.y
    ensures Affine(g, cp, 2 * m)
  {
    hide Low, Normal, Cong, CurveLaw, AtInfinity, Coprime, ThirdPoint, QuotientOf;
    PrimeOk(curve, g);
    AffineBounds(g, cp, m);
    var infinite := IsInfinity(cp);
    if infinite {
      ZeroLeft(g, m, m);
      return;
    }
    var zeroY := IsZero(cp.y);
    if zeroY {
      // no point of an odd-order curve comes here
      SetInfinity(cp);
      OrderedY(g, m);
    } else {
      DoubleOnTangent(curve, cp, g, m);
    }
  }

  method DoubleOnTangent(curve: Curve, cp: CurvePoint, ghost g: Group, ghost m: int)
    requires curve.Describes(g) && Affine(g, cp, m) && {cp.x, cp.y} !! curve.Cells() && !AtInfinity(g, m)
    modifies cp.x, cp.y
    ensures Affine(g, cp, 2 * m)
  {
    hide Low, Normal, Cong, CurveLaw, AtInfinity, Coprime, ThirdPoint, QuotientOf;
    PrimeOk(curve, g);
    AffineBounds(g, cp, m);
    var lambda, xr, yr := new uint32[LIMBS], new uint32[LIMBS], new uint32[LIMBS];
    DoubledYCoprime(g, m);
    TangentSlope(cp, lambda, curve.prime, curve.a);
    TangentPoint(cp, lambda, xr, yr, curve.prime);
    TangentSum(g, m, Value(lambda), Value(xr), Value(yr));
    Copy(xr, cp.x);
    Copy(yr, cp.y);
  }

  lemma DoubledYCoprime(g: Group, m: int)
    requires CurveLaw(g) && !AtInfinity(g, m)
    ensures forall v: int :: Cong(v, 2 * g.Y(m), g.p) ==> Coprime(v, g.p) && !Cong(v, 0, g.p)
  {
    Fields(g);
    hide CurveLaw;
    OrderedY(g, m);
    forall v: int | Cong(v, 2 * g.Y(m), g.p) ensures Coprime(v, g.p) && !Cong(v, 0, g.p) {
      NonzeroCoprime(g.p, g.invP, v);
    }
  }

  lemma TangentSum(g: Group, m: int, l: int, xr: int, yr: int)
    requires CurveLaw(g) && !AtInfinity(g, m)
    requires QuotientOf(g.p, l, 3 * (g.X(m) * g.X(m)) + g.a, 2 * g.Y(m))
    requires 0 <= xr < g.p && 0 <= yr < g.p && ThirdPoint(g.p, l, g.X(m), g.Y(m), g.X(m), xr, yr)
    ensures xr == g.X(2 * m) && yr == g.Y(2 * m)
  {
    Fields(g);
    hide CurveLaw;
    var q, c, d := g.p, g.tangent(m), 2 * g.Y(m);
    TangentOf(g, m);
    Coordinates(g, 2 * m);
    OrderedY(g, m);
    assert Cong(d * g.invP(d), 1, q);
    CongSymm(c * d, 3 * (g.X(m) * g.X(m)) + g.a, q);
    CongTrans(l * d, 3 * (g.X(m) * g.X(m)) + g.a, c * d, q);
    CongCancel(l, c, d, g.invP(d), q);
    ThirdPointUnique(q, l, c, g.X(m), g.Y(m), g.X(m), xr, yr, g.X(2 * m), g.Y(2 * m));
  }
}
