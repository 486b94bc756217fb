/** lib/trezor-crypto/ecdsa.c, points in Jacobian coordinates updated in place. */
module Jacobian {
  import opened Words
  import opened ModArith
  import opened Limbs
  import opened Bignum
  import opened BignumMod
  import opened BignumMul

  class CurvePoint {
    const x: array<uint32>
    const y: array<uint32>

    constructor ()
      ensures fresh(x) && fresh(y) && Separate()
    {
      x := new uint32[LIMBS];
      y := new uint32[LIMBS];
    }

    ghost predicate Separate() {
      x.Length == y.Length == LIMBS && x != y
    }

    ghost predicate Reduced(p: nat)
      reads x, y
    {
      Separate() && PartlyReduced(x, p) && PartlyReduced(y, p)
    }
  }

  /** (x, y, z) stands for the affine point (x / z^2, y / z^3). */
  class JacobianPoint {
    const x: array<uint32>
    const y: array<uint32>
    const z: array<uint32>

    constructor ()
      ensures fresh(x) && fresh(y) && fresh(z) && Separate()
    {
      x := new uint32[LIMBS];
      y := new uint32[LIMBS];
      z := new uint32[LIMBS];
    }

    ghost predicate Separate() {
      x.Length == y.Length == z.Length == LIMBS && x != y && x != z && y != z
    }

    ghost predicate Reduced(p: nat)
      reads x, y, z
    {
      Separate() && PartlyReduced(x, p) && PartlyReduced(y, p) && PartlyReduced(z, p)
    }
  }

  ghost predicate OddPrime(prime: array<uint32>)
    reads prime
  {
    GoodPrime(prime) && Value(prime) % 2 == 1
  }

  // ---------------------------------------------------------------- doubling

  /** The new coordinates in terms of the old, where m is half of 3 * x^2 + a * z^4. */
  ghost predicate DoubleFormulas(q: int, a: int, m: int, x: int, y: int, z: int, x3: int, y3: int, z3: int) {
    && Slope(q, a, m, x, z)
    && Cong(z3, y * z, q)
    && Cong(x3, m * m - 2 * (y * y * x), q)
    && Cong(y3, m * (y * y * x - x3) - y * y * (y * y), q)
  }

  /** m is half of 3 * x^2 + a * z^4 */
  ghost predicate Slope(q: int, a: int, m: int, x: int, z: int) {
    Cong(2 * m, 3 * (x * x) + a * (z * z * (z * z)), q)
  }

  /** m = (3 * x^2 + a * z^4) / 2 */
  method DoubleSlope(p: JacobianPoint, m: array<uint32>, prime: array<uint32>, a: int)
    requires OddPrime(prime) && p.Reduced(Value(prime)) && m.Length == LIMBS && -3 <= a <= 0
    requires m !in {p.x, p.y, p.z, prime}
    modifies m
    ensures Normalized(m) && Value(m) < 3 * Value(prime)
    ensures Slope(Value(prime), a, Value(m), Value(p.x), Value(p.z))
  {
    hide Low, Normal, Cong, CongProduct, Multipliable, Slope;
    ghost var q := Value(prime);
    ghost var x, z := Value(p.x), Value(p.z);
    Copy(p.x, m);
    Fits(Value(m), Value(m));
    Multiply(m, m, prime);
    ghost var xx := Value(m);
    MultK(m, 3, prime);
    ghost var xx3 := Value(m);
    var az4 := new uint32[LIMBS];
    Copy(p.z, az4);
    Fits(Value(az4), Value(az4));
    Multiply(az4, az4, prime);
    ghost var zz := Value(az4);
    Fits(Value(az4), Value(az4));
    Multiply(az4, az4, prime);
    ghost var z4 := Value(az4);
    MultK(az4, -a, prime);
    ghost var az := Value(az4);
    SubtractMod(m, az4, m, prime);
    ghost var sum := Value(m);
    MultHalf(m, prime);
    SlopeSound(q, a, x, z, xx, xx3, zz, z4, az, sum, Value(m));
  }

  lemma SlopeSound(q: int, a: int, x: int, z: int, xx: int, xx3: int, zz: int, z4: int, az: int, sum: int, m: int)
    requires CongProduct(xx, x, x, q) && CongProduct(xx3, 3, xx, q)
    requires CongProduct(zz, z, z, q) && CongProduct(z4, zz, zz, q) && CongProduct(az, -a, z4, q)
    requires sum == xx3 + 2 * q - az && 2 * m == sum + (if sum % 2 == 0 then 0 else q)
    ensures Slope(q, a, m, x, z)
  {
    CongMul(3, 3, xx, x * x, q);
    CongTrans(xx3, 3 * xx, 3 * (x * x), q);
    CongMul(zz, z * z, zz, z * z, q);
    CongTrans(z4, zz * zz, z * z * (z * z), q);
    CongMul(-a, -a, z4, z * z * (z * z), q);
    CongTrans(az, -a * z4, -a * (z * z * (z * z)), q);
    CongSub(xx3, 3 * (x * x), az, -a * (z * z * (z * z)), q);
    MulNegate(a, z * z * (z * z));
    CongBy(2 * m, xx3 - az, if sum % 2 == 0 then 2 else 3, q);
    CongTrans(2 * m, xx3 - az, 3 * (x * x) + a * (z * z * (z * z)), q);
  }

  /** x = msq - 2 * xysq */
  method MinusTwice(msq: array<uint32>, xysq: array<uint32>, x: array<uint32>, prime: array<uint32>)
    requires OddPrime(prime) && PartlyReduced(msq, Value(prime)) && PartlyReduced(xysq, Value(prime))
    requires x.Length == LIMBS && x !in {msq, xysq, prime}
    modifies x
    ensures PartlyReduced(x, Value(prime)) && MinusTwo(Value(prime), Value(x), Value(msq), Value(xysq))
  {
    hide Low, Normal, Cong, Low261, MinusTwo;
    Copy(xysq, x);
    Lshift(x);
    ghost var shifted := Value(x);
    FastMod(x, prime);
    ghost var twice := Value(x);
    SubtractMod(msq, x, x, prime);
    ghost var diff := Value(x);
    FastMod(x, prime);
    MinusTwiceSound(Value(prime), Value(msq), Value(xysq), shifted, twice, diff, Value(x));
  }

  ghost predicate MinusTwo(q: int, r: int, u: int, v: int) {
    Cong(r, u - 2 * v, q)
  }

  lemma MinusTwiceSound(q: int, mm: int, xyy: int, shifted: int, twice: int, diff: int, x3: int)
    requires shifted == 2 * xyy && Cong(twice, shifted, q) && diff == mm + 2 * q - twice && Cong(x3, diff, q)
    ensures MinusTwo(q, x3, mm, xyy)
  {
    CongRefl(mm, q);
    CongMinus(x3, mm, mm, twice, 2 * xyy, q);
  }

  method PointJacobianDouble(p: JacobianPoint, prime: array<uint32>, a: int) returns (ghost slope: int)
    requires OddPrime(prime) && p.Reduced(Value(prime)) && prime !in {p.x, p.y, p.z} && -3 <= a <= 0
    modifies p.x, p.y, p.z
    ensures p.Reduced(Value(prime))
    ensures DoubleFormulas(Value(prime), a, slope, old(Value(p.x)), old(Value(p.y)), old(Value(p.z)),
                           Value(p.x), Value(p.y), Value(p.z))
  {
    hide Low, Normal, Cong, DoubleFormulas, CongProduct, Multipliable, MinusTwo, Slope;
    ghost var q := Value(prime);
    ghost var x, y, z := Value(p.x), Value(p.y), Value(p.z);
    var m, msq, ysq, xysq := new uint32[LIMBS], new uint32[LIMBS], new uint32[LIMBS], new uint32[LIMBS];
    DoubleSlope(p, m, prime, a);
    slope := Value(m);
    Copy(m, msq);
    Fits(Value(msq), Value(msq));
    Multiply(msq, msq, prime);
    ghost var mm := Value(msq);
    Copy(p.y, ysq);
    Fits(Value(ysq), Value(ysq));
    Multiply(ysq, ysq, prime);
    ghost var yy := Value(ysq);
    Copy(p.x, xysq);
    Fits(Value(ysq), Value(xysq));
    Multiply(ysq, xysq, prime);
    ghost var xyy := Value(xysq);
    Fits(Value(p.y), Value(p.z));
    Multiply(p.y, p.z, prime);
    ghost var z3 := Value(p.z);
    MinusTwice(msq, xysq, p.x, prime);
    ghost var x3 := Value(p.x);
    SubtractMod(xysq, p.x, p.y, prime);
    ghost var dx := Value(p.y);
    Fits(Value(m), Value(p.y));
    Multiply(m, p.y, prime);
    ghost var mdx := Value(p.y);
    Fits(Value(ysq), Value(ysq));
    Multiply(ysq, ysq, prime);
    ghost var y4 := Value(ysq);
    SubtractMod(p.y, ysq, p.y, prime);
    ghost var sum := Value(p.y);
    FastMod(p.y, prime);
    DoubleSound(q, a, slope, x, y, z, mm, yy, xyy, x3, dx, mdx, y4, sum, Value(p.y), z3);
  }

  lemma DoubleSound(q: int, a: int, m: int, x: int, y: int, z: int, mm: int, yy: int, xyy: int,
                    x3: int, dx: int, mdx: int, y4: int, sum: int, y3: int, z3: int)
    requires Slope(q, a, m, x, z) && CongProduct(z3, y, z, q)
    requires CongProduct(mm, m, m, q) && CongProduct(yy, y, y, q) && CongProduct(xyy, yy, x, q) && MinusTwo(q, x3, mm, xyy)
    requires dx == xyy + 2 * q - x3 && CongProduct(mdx, m, dx, q)
    requires CongProduct(y4, yy, yy, q) && sum == mdx + 2 * q - y4 && Cong(y3, sum, q)
    ensures DoubleFormulas(q, a, m, x, y, z, x3, y3, z3)
  {
    hide Cong;
    var yyx := y * y * x;
    CongMul2(yy, y * y, x, q);
    CongTrans(xyy, yy * x, yyx, q);
    CongMul2(xyy, yyx, 2, q);
    CongSub(mm, m * m, 2 * xyy, 2 * yyx, q);
    CongTrans(x3, mm - 2 * xyy, m * m - 2 * yyx, q);
    CongBy2(dx, xyy - x3, q);
    CongRefl(x3, q);
    CongSub(xyy, yyx, x3, x3, q);
    CongTrans(dx, xyy - x3, yyx - x3, q);
    CongMul2(dx, yyx - x3, m, q);
    CongTrans(mdx, m * dx, m * (yyx - x3), q);
    CongMul(yy, y * y, yy, y * y, q);
    CongTrans(y4, yy * yy, y * y * (y * y), q);
    CongMinus(y3, mdx, m * (yyx - x3), y4, y * y * (y * y), q);
  }

  lemma CongMul2(a: int, b: int, k: int, q: int)
    requires Cong(a, b, q)
    ensures Cong(k * a, k * b, q) && Cong(a * k, b * k, q)
  {
    CongMul(a, b, k, k, q);
  }

  lemma CongBy2(r: int, d: int, q: int)
    requires q > 0 && r == d + 2 * q
    ensures Cong(r, d, q)
  {
    CongBy(r, d, 2, q);
  }

  /** What bn_subtractmod and a reduction leave: the difference of whatever the operands were
      congruent to. */
  lemma CongMinus(r: int, u: int, u': int, v: int, v': int, q: int)
    requires Cong(r, u + 2 * q - v, q) && Cong(u, u', q) && Cong(v, v', q)
    ensures Cong(r, u' - v', q)
  {
    CongSub(u, u', v, v', q);
    CongBy(u + 2 * q - v, u - v, 2, q);
  }

  // ---------------------------------------------------------------- addition of an affine point

  /** u / z^2 and w / z^3 are the affine coordinates x1 and y1. */
  ghost predicate Joined(q: int, u: int, w: int, x1: int, y1: int, z: int) {
    Cong(u, x1 * (z * z), q) && Cong(w, y1 * (z * z * z), q)
  }

  ghost predicate Tangent(q: int, a: int, r: int, x: int, z: int) {
    Cong(r, 3 * (x * x) + a * (z * z * (z * z)), q)
  }

  /** The slope is r / (h * z): the tangent's when the x coordinates agree, else the chord's. */
  ghost predicate Chosen(q: int, a: int, r: int, h: int, u: int, w: int, x: int, y: int, z: int) {
    if Cong(u, x, q) then Tangent(q, a, r, x, z) && Cong(h, w + y, q)
    else Cong(r, w - y, q) && Cong(h, u - x, q)
  }

  ghost predicate AddFormulas(q: int, r: int, h: int, u: int, w: int, x: int, y: int, z: int, x3: int, y3: int, z3: int) {
    && Cong(z3, h * z, q)
    && Cong(x3, r * r - h * h * (u + x), q)
    && Cong(2 * y3, r * (h * h * (u + x) - 2 * x3) - h * h * h * (w + y), q)
  }

  /** Bring p1 to the denominators of p2: xz = x1 * z^2, yz = y1 * z^3, and az = -a * z^4. */
  method AddJoin(p1: CurvePoint, p2: JacobianPoint, xz: array<uint32>, yz: array<uint32>, az: array<uint32>,
                 prime: array<uint32>, a: int)
    requires OddPrime(prime) && p1.Reduced(Value(prime)) && p2.Reduced(Value(prime)) && -3 <= a <= 0
    requires xz.Length == yz.Length == az.Length == LIMBS && xz != yz && xz != az && yz != az
    requires {xz, yz, az} !! {prime, p1.x, p1.y, p2.x, p2.y, p2.z}
    modifies xz, yz, az
    ensures PartlyReduced(xz, Value(prime)) && PartlyReduced(yz, Value(prime))
    ensures Joined(Value(prime), Value(xz), Value(yz), Value(p1.x), Value(p1.y), Value(p2.z))
    ensures a != 0 ==> PartlyReduced(az, Value(prime)) && Scaled4(Value(prime), a, Value(az), Value(p2.z))
  {
    hide Low, Normal, Cong, CongProduct, Multipliable, Joined, Scaled4;
    ghost var q, z := Value(prime), Value(p2.z);
    Copy(p2.z, xz);
    Fits(Value(xz), Value(xz));
    Multiply(xz, xz, prime);
    ghost var zz := Value(xz);
    Copy(p2.z, yz);
    Fits(Value(xz), Value(yz));
    Multiply(xz, yz, prime);
    ghost var zzz := Value(yz);
    if a != 0 {
      Copy(xz, az);
      Fits(Value(az), Value(az));
      Multiply(az, az, prime);
      ghost var z4 := Value(az);
      MultK(az, -a, prime);
      Scaled4Sound(q, a, z, zz, z4, Value(az));
    }
    Fits(Value(p1.x), Value(xz));
    Multiply(p1.x, xz, prime);
    Fits(Value(p1.y), Value(yz));
    Multiply(p1.y, yz, prime);
    JoinSound(q, Value(p1.x), Value(p1.y), z, zz, zzz, Value(xz), Value(yz));
  }

  ghost predicate Scaled4(q: int, a: int, az: int, z: int) {
    Cong(az, -a * (z * z * (z * z)), q)
  }

  lemma Scaled4Sound(q: int, a: int, z: int, zz: int, z4: int, az: int)
    requires CongProduct(zz, z, z, q) && CongProduct(z4, zz, zz, q) && CongProduct(az, -a, z4, q)
    ensures Scaled4(q, a, az, z)
  {
    CongMul(zz, z * z, zz, z * z, q);
    CongTrans(z4, zz * zz, z * z * (z * z), q);
    CongMul2(z4, z * z * (z * z), -a, q);
    CongTrans(az, -a * z4, -a * (z * z * (z * z)), q);
  }

  lemma JoinSound(q: int, x1: int, y1: int, z: int, zz: int, zzz: int, u: int, w: int)
    requires CongProduct(zz, z, z, q) && CongProduct(zzz, zz, z, q)
    requires CongProduct(u, x1, zz, q) && CongProduct(w, y1, zzz, q)
    ensures Joined(q, u, w, x1, y1, z)
  {
    hide Cong;
    CongMul2(zz, z * z, x1, q);
    CongTrans(u, x1 * zz, x1 * (z * z), q);
    CongMul2(zz, z * z, z, q);
    CongTrans(zzz, zz * z, z * z * z, q);
    CongMul2(zzz, z * z * z, y1, q);
    CongTrans(w, y1 * zzz, y1 * (z * z * z), q);
  }

  /** r2 = 3 * x^2 + a * z^4 */
  method TangentNumerator(p2: JacobianPoint, az: array<uint32>, r2: array<uint32>, prime: array<uint32>, a: int)
    requires OddPrime(prime) && p2.Reduced(Value(prime)) && r2.Length == az.Length == LIMBS
    requires r2 !in {p2.x, p2.y, p2.z, prime, az}
    requires a != 0 ==> PartlyReduced(az, Value(prime)) && Scaled4(Value(prime), a, Value(az), Value(p2.z))
    modifies r2
    ensures Normalized(r2) && Value(r2) < 4 * Value(prime) && Tangent(Value(prime), a, Value(r2), Value(p2.x), Value(p2.z))
  {
    hide Low, Normal, Cong, CongProduct, Multipliable, Scaled4, Tangent;
    Copy(p2.x, r2);
    Fits(Value(r2), Value(r2));
    Multiply(r2, r2, prime);
    ghost var xx := Value(r2);
    MultK(r2, 3, prime);
    ghost var xx3 := Value(r2);
    if a != 0 {
      SubtractMod(r2, az, r2, prime);
    }
    TangentSound(Value(prime), a, Value(p2.x), Value(p2.z), xx, xx3, Value(az), Value(r2));
  }

  /** r and h, and the sums xz + x2 and yz + y2. */
  method AddSlope(p2: JacobianPoint, xz: array<uint32>, yz: array<uint32>, az: array<uint32>,
                  r: array<uint32>, h: array<uint32>, prime: array<uint32>, a: int)
    requires OddPrime(prime) && p2.Reduced(Value(prime)) && -3 <= a <= 0
    requires PartlyReduced(xz, Value(prime)) && PartlyReduced(yz, Value(prime)) && r.Length == h.Length == az.Length == LIMBS
    requires a != 0 ==> PartlyReduced(az, Value(prime)) && Scaled4(Value(prime), a, Value(az), Value(p2.z))
    requires xz != yz && r != h && {xz, yz, r, h} !! {prime, p2.x, p2.y, p2.z, az} && {xz, yz} !! {r, h}
    modifies xz, yz, r, h
    ensures Normalized(r) && Value(r) < 4 * Value(prime) && Normalized(h) && Value(h) < 4 * Value(prime)
    ensures Normalized(xz) && Value(xz) == old(Value(xz)) + Value(p2.x)
    ensures Normalized(yz) && Value(yz) == old(Value(yz)) + Value(p2.y)
    ensures Chosen(Value(prime), a, Value(r), Value(h), old(Value(xz)), old(Value(yz)), Value(p2.x), Value(p2.y), Value(p2.z))
  {
    hide Low, Normal, Cong, CongProduct, Multipliable, Chosen, Scaled4, Tangent, Difference;
    ghost var q, u, w := Value(prime), Value(xz), Value(yz);
    ghost var x, y, z := Value(p2.x), Value(p2.y), Value(p2.z);
    var isDoubling := AddDifferences(p2, xz, yz, r, h, prime);
    ghost var r1, h1 := Value(r), Value(h);
    var r2 := new uint32[LIMBS];
    TangentNumerator(p2, az, r2, prime, a);
    ChosenSound(q, a, r1, Value(r2), h1, u, w, x, y, z);
    Cmov(r, isDoubling, r2, r);
    Cmov(h, isDoubling, yz, h);
  }

  /** h = xz - x2 and r = yz - y2, then xz and yz become the sums; the test for doubling. */
  method AddDifferences(p2: JacobianPoint, xz: array<uint32>, yz: array<uint32>, r: array<uint32>, h: array<uint32>,
                        prime: array<uint32>) returns (isDoubling: bool)
    requires OddPrime(prime) && p2.Reduced(Value(prime))
    requires PartlyReduced(xz, Value(prime)) && PartlyReduced(yz, Value(prime)) && r.Length == h.Length == LIMBS
    requires xz != yz && r != h && {xz, yz, r, h} !! {prime, p2.x, p2.y, p2.z} && {xz, yz} !! {r, h}
    modifies xz, yz, r, h
    ensures Normalized(r) && Value(r) == old(Value(yz)) + 2 * Value(prime) - Value(p2.y)
    ensures PartlyReduced(h, Value(prime)) && Difference(Value(prime), Value(h), old(Value(xz)), Value(p2.x))
    ensures Normalized(xz) && Value(xz) == old(Value(xz)) + Value(p2.x)
    ensures Normalized(yz) && Value(yz) == old(Value(yz)) + Value(p2.y)
    ensures isDoubling <==> Cong(old(Value(xz)), Value(p2.x), Value(prime))
  {
    hide Low, Normal, Cong, Difference;
    ghost var q, u := Value(prime), Value(xz);
    Copy(xz, h);
    SubtractMod(h, p2.x, h, prime);
    ghost var dx := Value(h);
    FastMod(h, prime);
    Add(xz, p2.x);
    isDoubling := IsEqual(h, prime);
    DoublingTest(q, u, Value(p2.x), dx, Value(h));
    SubtractMod(yz, p2.y, r, prime);
    Add(yz, p2.y);
  }

  ghost predicate Difference(q: int, h: int, u: int, x: int) {
    Cong(h, u - x, q)
  }

  /** The reduced difference is prime, not 0, exactly when the x coordinates agree. */
  lemma DoublingTest(q: int, u: int, x: int, dx: int, h: int)
    requires q > 0 && dx == u + 2 * q - x && dx > 0 && Cong(h, dx, q) && 0 < h < 2 * q
    ensures h == q <==> Cong(u, x, q)
    ensures Difference(q, h, u, x)
  {
    CongBy(dx, u - x, 2, q);
    CongTrans(h, dx, u - x, q);
    if Cong(u, x, q) {
      CongSub(u, x, x, x, q);
      ModUnique(0, q, 0, 0);
      ModUnique(h, q, if h < q then 0 else 1, if h < q then h else h - q);
    }
    if h == q {
      ModUnique(q, q, 1, 0);
      CongBy(q, 0, 1, q);
      CongAdd(u - x, 0, x, x, q);
    }
  }

  lemma TangentSound(q: int, a: int, x: int, z: int, xx: int, xx3: int, az: int, r2: int)
    requires CongProduct(xx, x, x, q) && CongProduct(xx3, 3, xx, q)
    requires if a == 0 then r2 == xx3 else r2 == xx3 + 2 * q - az && Scaled4(q, a, az, z)
    ensures Tangent(q, a, r2, x, z)
  {
    CongMul2(xx, x * x, 3, q);
    CongTrans(xx3, 3 * xx, 3 * (x * x), q);
    if a != 0 {
      CongRefl(r2, q);
      CongMinus(r2, xx3, 3 * (x * x), az, -a * (z * z * (z * z)), q);
      MulNegate(a, z * z * (z * z));
    }
  }

  lemma ChosenSound(q: int, a: int, r1: int, r2: int, h1: int, u: int, w: int, x: int, y: int, z: int)
    requires q > 0 && r1 == w + 2 * q - y && Difference(q, h1, u, x)
    requires Tangent(q, a, r2, x, z)
    ensures if Cong(u, x, q) then Chosen(q, a, r2, w + y, u, w, x, y, z) else Chosen(q, a, r1, h1, u, w, x, y, z)
  {
    CongBy(r1, w - y, 2, q);
    CongRefl(w + y, q);
  }

  method PointJacobianAdd(p1: CurvePoint, p2: JacobianPoint, prime: array<uint32>, a: int)
    returns (ghost u: int, ghost w: int, ghost slopeNum: int, ghost slopeDen: int)
    requires OddPrime(prime) && p1.Reduced(Value(prime)) && p2.Reduced(Value(prime)) && -3 <= a <= 0
    requires {p1.x, p1.y, prime} !! {p2.x, p2.y, p2.z}
    modifies p2.x, p2.y, p2.z
    ensures p2.Reduced(Value(prime))
    ensures Joined(Value(prime), u, w, Value(p1.x), Value(p1.y), old(Value(p2.z)))
    ensures Chosen(Value(prime), a, slopeNum, slopeDen, u, w, old(Value(p2.x)), old(Value(p2.y)), old(Value(p2.z)))
    ensures AddFormulas(Value(prime), slopeNum, slopeDen, u, w, old(Value(p2.x)), old(Value(p2.y)), old(Value(p2.z)),
                        Value(p2.x), Value(p2.y), Value(p2.z))
  {
    hide Low, Normal, Cong, CongProduct, Multipliable, Joined, Chosen, AddFormulas, Scaled4;
    ghost var q := Value(prime);
    ghost var x, y, z := Value(p2.x), Value(p2.y), Value(p2.z);
    var xz, yz, az := new uint32[LIMBS], new uint32[LIMBS], new uint32[LIMBS];
    var r, h := new uint32[LIMBS], new uint32[LIMBS];
    AddJoin(p1, p2, xz, yz, az, prime, a);
    u, w := Value(xz), Value(yz);
    AddSlope(p2, xz, yz, az, r, h, prime, a);
    slopeNum, slopeDen := Value(r), Value(h);
    AddFinish(p2, xz, yz, r, h, u, w, prime);
  }

  /** z3 = h * z, x3 = r^2 - h^2 * xsum, y3 = (r * (h^2 * xsum - 2 * x3) - h^3 * ysum) / 2 */
  method AddFinish(p2: JacobianPoint, xz: array<uint32>, yz: array<uint32>, r: array<uint32>, h: array<uint32>,
                   ghost u: int, ghost w: int, prime: array<uint32>)
    requires OddPrime(prime) && p2.Reduced(Value(prime)) && {xz, yz, r, h, prime} !! {p2.x, p2.y, p2.z}
    requires Normalized(r) && Value(r) < 4 * Value(prime) && Normalized(h) && Value(h) < 4 * Value(prime)
    requires Normalized(xz) && Value(xz) < 4 * Value(prime) && Value(xz) == u + Value(p2.x)
    requires Normalized(yz) && Value(yz) < 4 * Value(prime) && Value(yz) == w + Value(p2.y)
    modifies p2.x, p2.y, p2.z
    ensures p2.Reduced(Value(prime))
    ensures AddFormulas(Value(prime), Value(r), Value(h), u, w, old(Value(p2.x)), old(Value(p2.y)), old(Value(p2.z)),
                        Value(p2.x), Value(p2.y), Value(p2.z))
  {
    hide Low, Normal, Cong, CongProduct, Multipliable, AddFormulas;
    ghost var q, rv, hv := Value(prime), Value(r), Value(h);
    ghost var x, y, z := Value(p2.x), Value(p2.y), Value(p2.z);
    var hsqx, hcby := new uint32[LIMBS], new uint32[LIMBS];
    AddProducts(xz, yz, h, hsqx, hcby, prime);
    ghost var hx, hy := Value(hsqx), Value(hcby);
    Fits(Value(h), Value(p2.z));
    Multiply(h, p2.z, prime);
    ghost var z3 := Value(p2.z);
    SquareMinus(r, hsqx, p2.x, prime);
    ghost var x3 := Value(p2.x);
    HalfTurn(r, hsqx, hcby, p2.x, p2.y, prime);
    FinishSound(q, rv, hv, u, w, x, y, z, hx, hy, z3, x3, Value(p2.y));
  }

  /** x = r^2 - hsqx */
  method SquareMinus(r: array<uint32>, hsqx: array<uint32>, x: array<uint32>, prime: array<uint32>)
    requires OddPrime(prime) && Normalized(r) && Value(r) < 4 * Value(prime) && PartlyReduced(hsqx, Value(prime))
    requires x.Length == LIMBS && x !in {r, hsqx, prime}
    modifies x
    ensures PartlyReduced(x, Value(prime)) && SquareDiff(Value(prime), Value(x), Value(r), Value(hsqx))
  {
    hide Low, Normal, Cong, CongProduct, Multipliable, SquareDiff;
    Copy(r, x);
    Fits(Value(x), Value(x));
    Multiply(x, x, prime);
    ghost var rr := Value(x);
    SubtractMod(x, hsqx, x, prime);
    ghost var diff := Value(x);
    FastMod(x, prime);
    SquareDiffSound(Value(prime), Value(x), Value(r), Value(hsqx), rr, diff);
  }

  ghost predicate SquareDiff(q: int, x3: int, r: int, hx: int) {
    Cong(x3, r * r - hx, q)
  }

  lemma SquareDiffSound(q: int, x3: int, r: int, hx: int, rr: int, diff: int)
    requires CongProduct(rr, r, r, q) && diff == rr + 2 * q - hx && Cong(x3, diff, q)
    ensures SquareDiff(q, x3, r, hx)
  {
    CongRefl(hx, q);
    CongMinus(x3, rr, r * r, hx, hx, q);
  }

  /** y = (r * (hsqx - 2 * x) - hcby) / 2 */
  method HalfTurn(r: array<uint32>, hsqx: array<uint32>, hcby: array<uint32>, x: array<uint32>, y: array<uint32>,
                  prime: array<uint32>)
    requires OddPrime(prime) && Normalized(r) && Value(r) < 4 * Value(prime) && y.Length == LIMBS
    requires PartlyReduced(hsqx, Value(prime)) && PartlyReduced(hcby, Value(prime)) && PartlyReduced(x, Value(prime))
    requires y !in {r, hsqx, hcby, x, prime}
    modifies y
    ensures PartlyReduced(y, Value(prime))
    ensures HalfTurned(Value(prime), Value(y), Value(r), Value(hsqx), Value(hcby), Value(x))
  {
    hide Low, Normal, Cong, CongProduct, Multipliable, HalfTurned;
    SubtractMod(hsqx, x, y, prime);
    SubtractMod(y, x, y, prime);
    ghost var dx := Value(y);
    Fits(Value(r), Value(y));
    Multiply(r, y, prime);
    ghost var rdx := Value(y);
    SubtractMod(y, hcby, y, prime);
    ghost var sum := Value(y);
    MultHalf(y, prime);
    ghost var half := Value(y);
    FastMod(y, prime);
    HalfTurnSound(Value(prime), Value(y), Value(r), Value(hsqx), Value(hcby), Value(x), dx, rdx, sum, half);
  }

  ghost predicate HalfTurned(q: int, y3: int, r: int, hx: int, hy: int, x3: int) {
    Cong(2 * y3, r * (hx - 2 * x3) - hy, q)
  }

  lemma HalfTurnSound(q: int, y3: int, r: int, hx: int, hy: int, x3: int, dx: int, rdx: int, sum: int, half: int)
    requires dx == hx + 2 * q - x3 + 2 * q - x3 && CongProduct(rdx, r, dx, q) && sum == rdx + 2 * q - hy
    requires 2 * half == sum + (if sum % 2 == 0 then 0 else q) && Cong(y3, half, q)
    ensures HalfTurned(q, y3, r, hx, hy, x3)
  {
    CongBy(dx, hx - 2 * x3, 4, q);
    hide Cong;
    CongMul2(dx, hx - 2 * x3, r, q);
    CongTrans(rdx, r * dx, r * (hx - 2 * x3), q);
    CongMul2(y3, half, 2, q);
    CongBy(2 * half, rdx - hy, if sum % 2 == 0 then 2 else 3, q);
    CongRefl(hy, q);
    CongSub(rdx, r * (hx - 2 * x3), hy, hy, q);
    CongTrans(2 * half, rdx - hy, r * (hx - 2 * x3) - hy, q);
    CongTrans(2 * y3, 2 * half, r * (hx - 2 * x3) - hy, q);
  }

  ghost predicate Cubed(q: int, h: int, xsum: int, ysum: int, hx: int, hy: int) {
    Cong(hx, h * h * xsum, q) && Cong(hy, h * h * h * ysum, q)
  }

  /** hsqx = h^2 * xz and hcby = h^3 * yz */
  method AddProducts(xz: array<uint32>, yz: array<uint32>, h: array<uint32>, hsqx: array<uint32>, hcby: array<uint32>,
                     prime: array<uint32>)
    requires OddPrime(prime) && Normalized(h) && Value(h) < 4 * Value(prime)
    requires Normalized(xz) && Value(xz) < 4 * Value(prime) && Normalized(yz) && Value(yz) < 4 * Value(prime)
    requires hsqx.Length == hcby.Length == LIMBS && hsqx != hcby && {hsqx, hcby} !! {xz, yz, h, prime}
    modifies hsqx, hcby
    ensures PartlyReduced(hsqx, Value(prime)) && PartlyReduced(hcby, Value(prime))
    ensures Cubed(Value(prime), Value(h), Value(xz), Value(yz), Value(hsqx), Value(hcby))
  {
    hide Low, Normal, Cong, CongProduct, Multipliable, Cubed;
    Copy(h, hsqx);
    Fits(Value(hsqx), Value(hsqx));
    Multiply(hsqx, hsqx, prime);
    ghost var hh := Value(hsqx);
    Copy(h, hcby);
    Fits(Value(hsqx), Value(hcby));
    Multiply(hsqx, hcby, prime);
    ghost var hhh := Value(hcby);
    Fits(Value(xz), Value(hsqx));
    Multiply(xz, hsqx, prime);
    Fits(Value(yz), Value(hcby));
    Multiply(yz, hcby, prime);
    CubedSound(Value(prime), Value(h), Value(xz), Value(yz), hh, hhh, Value(hsqx), Value(hcby));
  }

  lemma CubedSound(q: int, h: int, xsum: int, ysum: int, hh: int, hhh: int, hx: int, hy: int)
    requires CongProduct(hh, h, h, q) && CongProduct(hhh, hh, h, q)
    requires CongProduct(hx, xsum, hh, q) && CongProduct(hy, ysum, hhh, q)
    ensures Cubed(q, h, xsum, ysum, hx, hy)
  {
    hide Cong;
    CongMul2(hh, h * h, xsum, q);
    CongTrans(hx, xsum * hh, h * h * xsum, q);
    CongMul2(hh, h * h, h, q);
    CongTrans(hhh, hh * h, h * h * h, q);
    CongMul2(hhh, h * h * h, ysum, q);
    CongTrans(hy, ysum * hhh, h * h * h * ysum, q);
  }

  lemma FinishSound(q: int, r: int, h: int, u: int, w: int, x: int, y: int, z: int, hx: int, hy: int,
                    z3: int, x3: int, y3: int)
    requires Cubed(q, h, u + x, w + y, hx, hy) && CongProduct(z3, h, z, q)
    requires SquareDiff(q, x3, r, hx) && HalfTurned(q, y3, r, hx, hy, x3)
    ensures AddFormulas(q, r, h, u, w, x, y, z, x3, y3, z3)
  {
    var hx', hy' := h * h * (u + x), h * h * h * (w + y);
    CongRefl(r * r, q);
    CongRefl(2 * x3, q);
    hide Cong;
    CongSub(r * r, r * r, hx, hx', q);
    CongTrans(x3, r * r - hx, r * r - hx', q);
    CongSub(hx, hx', 2 * x3, 2 * x3, q);
    CongMul2(hx - 2 * x3, hx' - 2 * x3, r, q);
    CongSub(r * (hx - 2 * x3), r * (hx' - 2 * x3), hy, hy', q);
    CongTrans(2 * y3, r * (hx - 2 * x3) - hy, r * (hx' - 2 * x3) - hy', q);
  }
}
