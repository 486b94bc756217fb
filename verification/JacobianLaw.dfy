/** The formulas of the Jacobian routines are the chord-and-tangent law: whatever affine point a
    triple stands for, the new triple stands for the affine sum. */
module JacobianLaw {
  import opened Words
  import opened ModArith
  import opened Jacobian

  /** (x, y, z) stands for the affine point (ax, ay). */
  ghost predicate StandsFor(q: int, x: int, y: int, z: int, ax: int, ay: int) {
    Cong(x, ax * (z * z), q) && Cong(y, ay * (z * z * z), q)
  }

  /** (ax3, ay3) is the third point of the line of slope l through (ax1, ay1), reflected. */
  ghost predicate ThirdPoint(q: int, l: int, ax1: int, ay1: int, ax2: int, ax3: int, ay3: int) {
    Cong(ax3, l * l - ax1 - ax2, q) && Cong(ay3, l * (ax1 - ax3) - ay1, q)
  }

  lemma CongMul3(a: int, a': int, b: int, b': int, c: int, c': int, q: int)
    requires Cong(a, a', q) && Cong(b, b', q) && Cong(c, c', q)
    ensures Cong(a * b * c, a' * b' * c', q)
  {
    CongMul(a, a', b, b', q);
    CongMul(a * b, a' * b', c, c', q);
  }

  /** The heart of both additions: a numerator r = l * s over a denominator s = h * z. */
  lemma SharedFormula(q: int, l: int, r: int, h: int, u: int, w: int, x: int, y: int, z: int,
                      ax1: int, ay1: int, ax2: int, ay2: int, x3: int, y3: int, z3: int, ax3: int, ay3: int)
    requires q % 2 == 1 && AddFormulas(q, r, h, u, w, x, y, z, x3, y3, z3)
    requires Joined(q, u, w, ax1, ay1, z) && StandsFor(q, x, y, z, ax2, ay2)
    requires Cong(r, l * (h * z), q) && Cong(l * (ax1 - ax2), ay1 - ay2, q)
    requires ThirdPoint(q, l, ax1, ay1, ax2, ax3, ay3)
    ensures StandsFor(q, x3, y3, z3, ax3, ay3)
  {
    hide Cong;
    var s := h * z;
    SumsOverDenominator(q, h, u, w, x, y, z, ax1, ay1, ax2, ay2);
    NewX(q, l, r, s, h * h * (u + x), ax1, ax2, x3, ax3);
    NewY(q, l, r, s, h * h * (u + x), h * h * h * (w + y), ax1, ay1, ax2, ay2, x3, y3, ax3, ay3);
    CongSymm(z3, s, q);
    CongMul(s, z3, s, z3, q);
    CongMul3(s, z3, s, z3, s, z3, q);
    CongMul2(s * s, z3 * z3, ax3, q);
    CongMul2(s * s * s, z3 * z3 * z3, ay3, q);
    CongTrans(x3, ax3 * (s * s), ax3 * (z3 * z3), q);
    CongTrans(y3, ay3 * (s * s * s), ay3 * (z3 * z3 * z3), q);
  }

  lemma SumsOverDenominator(q: int, h: int, u: int, w: int, x: int, y: int, z: int,
                            ax1: int, ay1: int, ax2: int, ay2: int)
    requires Joined(q, u, w, ax1, ay1, z) && StandsFor(q, x, y, z, ax2, ay2)
    ensures Cong(h * h * (u + x), (h * z) * (h * z) * (ax1 + ax2), q)
    ensures Cong(h * h * h * (w + y), (h * z) * (h * z) * (h * z) * (ay1 + ay2), q)
  {
    hide Cong;
    CongAdd(u, ax1 * (z * z), x, ax2 * (z * z), q);
    CongMul2(u + x, ax1 * (z * z) + ax2 * (z * z), h * h, q);
    SquareIdentity(h, z, ax1, ax2);
    CongAdd(w, ay1 * (z * z * z), y, ay2 * (z * z * z), q);
    CongMul2(w + y, ay1 * (z * z * z) + ay2 * (z * z * z), h * h * h, q);
    CubeIdentity(h, z, ay1, ay2);
  }

  lemma SquareIdentity(h: int, z: int, a: int, b: int)
    ensures h * h * (a * (z * z) + b * (z * z)) == (h * z) * (h * z) * (a + b)
  {
    assert a * (z * z) + b * (z * z) == (a + b) * (z * z);
    assert (h * z) * (h * z) == (h * h) * (z * z);
    MulAssoc(h * h, z * z, a + b);
  }

  lemma CubeIdentity(h: int, z: int, a: int, b: int)
    ensures h * h * h * (a * (z * z * z) + b * (z * z * z)) == (h * z) * (h * z) * (h * z) * (a + b)
  {
    assert a * (z * z * z) + b * (z * z * z) == (a + b) * (z * z * z);
    assert (h * z) * (h * z) * (h * z) == (h * h * h) * (z * z * z);
    MulAssoc(h * h * h, z * z * z, a + b);
  }

  lemma NewX(q: int, l: int, r: int, s: int, hx: int, ax1: int, ax2: int, x3: int, ax3: int)
    requires Cong(r, l * s, q) && Cong(hx, s * s * (ax1 + ax2), q) && Cong(x3, r * r - hx, q)
    requires Cong(ax3, l * l - ax1 - ax2, q)
    ensures Cong(x3, ax3 * (s * s), q)
  {
    hide Cong;
    CongMul(r, l * s, r, l * s, q);
    CongSub(r * r, (l * s) * (l * s), hx, s * s * (ax1 + ax2), q);
    assert (l * s) * (l * s) - s * s * (ax1 + ax2) == (l * l - ax1 - ax2) * (s * s) by {
      assert (l * s) * (l * s) == (l * l) * (s * s);
      Distribute3(l * l, ax1 + ax2, s * s);
    }
    CongSymm(ax3, l * l - ax1 - ax2, q);
    CongMul2(l * l - ax1 - ax2, ax3, s * s, q);
    CongTrans(x3, r * r - hx, (l * l - ax1 - ax2) * (s * s), q);
    CongTrans(x3, (l * l - ax1 - ax2) * (s * s), ax3 * (s * s), q);
  }

  lemma Distribute3(a: int, b: int, c: int)
    ensures a * c - c * b == (a - b) * c
  {}

  lemma NewY(q: int, l: int, r: int, s: int, hx: int, hy: int, ax1: int, ay1: int, ax2: int, ay2: int,
             x3: int, y3: int, ax3: int, ay3: int)
    requires q % 2 == 1 && Cong(r, l * s, q) && Cong(hx, s * s * (ax1 + ax2), q)
    requires Cong(hy, s * s * s * (ay1 + ay2), q) && Cong(x3, ax3 * (s * s), q)
    requires Cong(2 * y3, r * (hx - 2 * x3) - hy, q)
    requires Cong(l * (ax1 - ax2), ay1 - ay2, q) && Cong(ay3, l * (ax1 - ax3) - ay1, q)
    ensures Cong(y3, ay3 * (s * s * s), q)
  {
    hide Cong;
    var cube := s * s * s;
    CongMul2(x3, ax3 * (s * s), 2, q);
    CongSub(hx, s * s * (ax1 + ax2), 2 * x3, 2 * (ax3 * (s * s)), q);
    CongMul(r, l * s, hx - 2 * x3, s * s * (ax1 + ax2) - 2 * (ax3 * (s * s)), q);
    CongSub(r * (hx - 2 * x3), l * s * (s * s * (ax1 + ax2) - 2 * (ax3 * (s * s))), hy, cube * (ay1 + ay2), q);
    YIdentity(l, s, ax1, ax2, ax3, ay1 + ay2);
    var v := l * (ax1 + ax2 - 2 * ax3) - (ay1 + ay2);
    CongTrans(2 * y3, r * (hx - 2 * x3) - hy, v * cube, q);
    MeanSlope(q, l, ax1, ay1, ax2, ay2, ax3, ay3);
    CongMul2(v, 2 * ay3, cube, q);
    CongTrans(2 * y3, v * cube, 2 * ay3 * cube, q);
    MulAssoc(2, ay3, cube);
    CongHalve(y3, ay3 * cube, q);
  }

  lemma YIdentity(l: int, s: int, ax1: int, ax2: int, ax3: int, b: int)
    ensures l * s * (s * s * (ax1 + ax2) - 2 * (ax3 * (s * s))) - s * s * s * b
         == (l * (ax1 + ax2 - 2 * ax3) - b) * (s * s * s)
  {
    var d := ax1 + ax2 - 2 * ax3;
    assert s * s * (ax1 + ax2) - 2 * (ax3 * (s * s)) == (s * s) * d;
    assert l * s * ((s * s) * d) == (l * d) * (s * s * s);
    Distribute3(l * d, b, s * s * s);
  }

  /** Twice ay3, seen from both ends of the chord. */
  lemma MeanSlope(q: int, l: int, ax1: int, ay1: int, ax2: int, ay2: int, ax3: int, ay3: int)
    requires Cong(l * (ax1 - ax2), ay1 - ay2, q) && Cong(ay3, l * (ax1 - ax3) - ay1, q)
    ensures Cong(l * (ax1 + ax2 - 2 * ax3) - (ay1 + ay2), 2 * ay3, q)
  {
    var e := l * (ax1 - ax3) - ay1;
    CongMul2(ay3, e, 2, q);
    CongRefl(2 * e, q);
    CongSub(2 * e, 2 * e, l * (ax1 - ax2), ay1 - ay2, q);
    assert l * (ax1 + ax2 - 2 * ax3) == 2 * (l * (ax1 - ax3)) - l * (ax1 - ax2);
    CongSymm(2 * ay3, 2 * e, q);
    var v := l * (ax1 + ax2 - 2 * ax3) - (ay1 + ay2);
    assert v == 2 * e - l * (ax1 - ax2) + (ay1 - ay2);
    CongRefl(ay1 - ay2, q);
    CongAdd(2 * e - l * (ax1 - ax2), 2 * e - (ay1 - ay2), ay1 - ay2, ay1 - ay2, q);
    CongTrans(v, 2 * e, 2 * ay3, q);
  }

  /** Points with different x: the sum is on the chord, and z stays invertible. */
  lemma AddIsChord(q: int, a: int, l: int, r: int, h: int, u: int, w: int, x: int, y: int, z: int,
                   ax1: int, ay1: int, ax2: int, ay2: int, x3: int, y3: int, z3: int, ax3: int, ay3: int)
    requires q % 2 == 1 && AddFormulas(q, r, h, u, w, x, y, z, x3, y3, z3) && Chosen(q, a, r, h, u, w, x, y, z)
    requires Joined(q, u, w, ax1, ay1, z) && StandsFor(q, x, y, z, ax2, ay2) && !Cong(u, x, q)
    requires Cong(l * (ax1 - ax2), ay1 - ay2, q) && ThirdPoint(q, l, ax1, ay1, ax2, ax3, ay3)
    ensures StandsFor(q, x3, y3, z3, ax3, ay3)
    ensures Cong(z3, (ax1 - ax2) * (z * z * z), q)
  {
    var zz := z * z;
    CongSub(u, ax1 * zz, x, ax2 * zz, q);
    assert ax1 * zz - ax2 * zz == (ax1 - ax2) * zz;
    CongSub(w, ay1 * (zz * z), y, ay2 * (zz * z), q);
    assert ay1 * (zz * z) - ay2 * (zz * z) == (ay1 - ay2) * (zz * z);
    hide Cong;
    CongTrans(h, u - x, (ax1 - ax2) * zz, q);
    CongMul2(h, (ax1 - ax2) * zz, z, q);
    MulAssoc(ax1 - ax2, zz, z);
    CongTrans(z3, h * z, (ax1 - ax2) * (zz * z), q);
    // r = (ay1 - ay2) z^3 = l (ax1 - ax2) z^3 = l (h z)
    CongTrans(r, w - y, (ay1 - ay2) * (zz * z), q);
    CongSymm(l * (ax1 - ax2), ay1 - ay2, q);
    CongMul2(ay1 - ay2, l * (ax1 - ax2), zz * z, q);
    CongSymm(h * z, (ax1 - ax2) * (zz * z), q);
    CongMul2((ax1 - ax2) * (zz * z), h * z, l, q);
    MulAssoc(l, ax1 - ax2, zz * z);
    CongTrans(r, (ay1 - ay2) * (zz * z), l * (ax1 - ax2) * (zz * z), q);
    CongTrans(r, l * (ax1 - ax2) * (zz * z), l * (h * z), q);
    SharedFormula(q, l, r, h, u, w, x, y, z, ax1, ay1, ax2, ay2, x3, y3, z3, ax3, ay3);
  }

  /** The branch taken is decided by the affine x coordinates. */
  lemma SameX(q: int, u: int, w: int, x: int, y: int, z: int, zi: int, ax1: int, ay1: int, ax2: int, ay2: int)
    requires Joined(q, u, w, ax1, ay1, z) && StandsFor(q, x, y, z, ax2, ay2) && Cong(z * zi, 1, q)
    ensures Cong(u, x, q) <==> Cong(ax1, ax2, q)
  {
    var zz := z * z;
    if Cong(ax1, ax2, q) {
      CongMul2(ax1, ax2, zz, q);
      CongTrans(u, ax1 * zz, ax2 * zz, q);
      CongTrans(u, ax2 * zz, x, q);
    }
    if Cong(u, x, q) {
      CongTrans(ax1 * zz, u, x, q);
      CongTrans(ax1 * zz, x, ax2 * zz, q);
      hide Cong;
      MulAssoc(ax1, z, z);
      MulAssoc(ax2, z, z);
      CongCancel(ax1 * z, ax2 * z, z, zi, q);
      CongCancel(ax1, ax2, z, zi, q);
    }
  }

  /** The same point twice: the sum is on the tangent. */
  lemma AddIsTangent(q: int, a: int, l: int, r: int, h: int, u: int, w: int, x: int, y: int, z: int,
                     ax1: int, ay1: int, ax2: int, ay2: int, x3: int, y3: int, z3: int, ax3: int, ay3: int)
    requires q % 2 == 1 && AddFormulas(q, r, h, u, w, x, y, z, x3, y3, z3) && Chosen(q, a, r, h, u, w, x, y, z)
    requires Joined(q, u, w, ax1, ay1, z) && StandsFor(q, x, y, z, ax2, ay2) && Cong(u, x, q)
    requires Cong(ax1, ax2, q) && Cong(ay1, ay2, q)
    requires Cong(l * (2 * ay2), 3 * (ax2 * ax2) + a, q) && ThirdPoint(q, l, ax1, ay1, ax2, ax3, ay3)
    ensures StandsFor(q, x3, y3, z3, ax3, ay3)
    ensures Cong(z3, 2 * ay2 * (z * z * (z * z)), q)
  {
    var cube, z4 := z * z * z, z * z * (z * z);
    TangentNumber(q, a, l, r, x, y, z, ax2, ay2);
    TangentDenominator(q, h, w, y, z, ay1, ay2);
    CongMul2(h, 2 * ay2 * cube, z, q);
    CubeTimes(2 * ay2, z);
    CongTrans(z3, h * z, 2 * ay2 * z4, q);
    CongSymm(h * z, 2 * ay2 * z4, q);
    CongMul2(2 * ay2 * z4, h * z, l, q);
    CongTrans(r, l * (2 * ay2 * z4), l * (h * z), q);
    CongSub(ax1, ax2, ax2, ax2, q);
    CongMul2(ax1 - ax2, 0, l, q);
    CongSub(ay1, ay2, ay2, ay2, q);
    hide Cong;
    CongSymm(ay1 - ay2, 0, q);
    CongTrans(l * (ax1 - ax2), 0, ay1 - ay2, q);
    SharedFormula(q, l, r, h, u, w, x, y, z, ax1, ay1, ax2, ay2, x3, y3, z3, ax3, ay3);
  }

  lemma CubeTimes(c: int, z: int)
    ensures c * (z * z * z) * z == c * (z * z * (z * z))
  {}

  lemma TangentNumber(q: int, a: int, l: int, r: int, x: int, y: int, z: int, ax: int, ay: int)
    requires Tangent(q, a, r, x, z) && StandsFor(q, x, y, z, ax, ay) && Cong(l * (2 * ay), 3 * (ax * ax) + a, q)
    ensures Cong(r, l * (2 * ay * (z * z * (z * z))), q)
  {
    hide Cong;
    var zz := z * z;
    CongMul(x, ax * zz, x, ax * zz, q);
    assert (ax * zz) * (ax * zz) == (ax * ax) * (zz * zz);
    CongMul2(x * x, (ax * ax) * (zz * zz), 3, q);
    CongRefl2(a * (zz * zz), x * x, (ax * ax) * (zz * zz), q);
    CongAdd(3 * (x * x), 3 * ((ax * ax) * (zz * zz)), a * (zz * zz), a * (zz * zz), q);
    assert 3 * ((ax * ax) * (zz * zz)) + a * (zz * zz) == (3 * (ax * ax) + a) * (zz * zz);
    CongSymm(l * (2 * ay), 3 * (ax * ax) + a, q);
    CongMul2(3 * (ax * ax) + a, l * (2 * ay), zz * zz, q);
    MulAssoc(l, 2 * ay, zz * zz);
    CongTrans(r, 3 * (x * x) + a * (zz * zz), (3 * (ax * ax) + a) * (zz * zz), q);
    CongTrans(r, (3 * (ax * ax) + a) * (zz * zz), l * (2 * ay * (zz * zz)), q);
  }

  lemma CongRefl2(a: int, b: int, c: int, q: int)
    requires Cong(b, c, q)
    ensures Cong(a, a, q)
  {}

  lemma TangentDenominator(q: int, h: int, w: int, y: int, z: int, ay1: int, ay2: int)
    requires Cong(h, w + y, q) && Cong(w, ay1 * (z * z * z), q) && Cong(y, ay2 * (z * z * z), q) && Cong(ay1, ay2, q)
    ensures Cong(h, 2 * ay2 * (z * z * z), q)
  {
    hide Cong;
    var cube := z * z * z;
    CongMul2(ay1, ay2, cube, q);
    CongTrans(w, ay1 * cube, ay2 * cube, q);
    CongAdd(w, ay2 * cube, y, ay2 * cube, q);
    assert ay2 * cube + ay2 * cube == 2 * ay2 * cube;
    CongTrans(h, w + y, 2 * ay2 * cube, q);
  }

  /** Opposite points: z becomes 0, the point at infinity. */
  lemma AddIsInfinity(q: int, a: int, r: int, h: int, u: int, w: int, x: int, y: int, z: int,
                      ax1: int, ay1: int, ax2: int, ay2: int, x3: int, y3: int, z3: int)
    requires AddFormulas(q, r, h, u, w, x, y, z, x3, y3, z3) && Chosen(q, a, r, h, u, w, x, y, z)
    requires Joined(q, u, w, ax1, ay1, z) && StandsFor(q, x, y, z, ax2, ay2) && Cong(u, x, q)
    requires Cong(ay1, -ay2, q)
    ensures Cong(z3, 0, q)
  {
    hide Cong;
    var cube := z * z * z;
    CongMul2(ay1, -ay2, cube, q);
    CongTrans(w, ay1 * cube, -ay2 * cube, q);
    CongAdd(w, -ay2 * cube, y, ay2 * cube, q);
    MulNegate(ay2, cube);
    CongTrans(h, w + y, 0, q);
    CongMul2(h, 0, z, q);
    CongTrans(z3, h * z, 0, q);
  }

  /** Doubling: the new point is on the tangent. */
  lemma DoubleIsTangent(q: int, a: int, l: int, m: int, x: int, y: int, z: int,
                        ax: int, ay: int, x3: int, y3: int, z3: int, ax3: int, ay3: int)
    requires q % 2 == 1 && DoubleFormulas(q, a, m, x, y, z, x3, y3, z3) && StandsFor(q, x, y, z, ax, ay)
    requires Cong(l * (2 * ay), 3 * (ax * ax) + a, q) && ThirdPoint(q, l, ax, ay, ax, ax3, ay3)
    ensures StandsFor(q, x3, y3, z3, ax3, ay3)
    ensures Cong(z3, ay * (z * z * (z * z)), q)
  {
    hide Cong;
    var s := ay * (z * z * (z * z));
    CongMul2(y, ay * (z * z * z), z, q);
    CubeTimes(ay, z);
    CongTrans(z3, y * z, s, q);
    HalfSlope(q, a, l, m, x, y, z, ax, ay);
    DoubledSums(q, x, y, z, ax, ay);
    DoubledX(q, l, m, s, y * y * x, ax, x3, ax3);
    DoubledY(q, l, m, s, y * y * x, y * y * (y * y), ax, ay, x3, y3, ax3, ay3);
    CongSymm(z3, s, q);
    CongMul(s, z3, s, z3, q);
    CongMul3(s, z3, s, z3, s, z3, q);
    CongMul2(s * s, z3 * z3, ax3, q);
    CongMul2(s * s * s, z3 * z3 * z3, ay3, q);
    CongTrans(x3, ax3 * (s * s), ax3 * (z3 * z3), q);
    CongTrans(y3, ay3 * (s * s * s), ay3 * (z3 * z3 * z3), q);
  }

  lemma HalfSlope(q: int, a: int, l: int, m: int, x: int, y: int, z: int, ax: int, ay: int)
    requires q % 2 == 1 && Slope(q, a, m, x, z) && StandsFor(q, x, y, z, ax, ay) && Cong(l * (2 * ay), 3 * (ax * ax) + a, q)
    ensures Cong(m, l * (ay * (z * z * (z * z))), q)
  {
    TangentNumber(q, a, l, 2 * m, x, y, z, ax, ay);
    var s := ay * (z * z * (z * z));
    assert l * (2 * ay * (z * z * (z * z))) == 2 * (l * s) by {
      MulAssoc(2, ay, z * z * (z * z));
    }
    CongHalve(m, l * s, q);
  }

  lemma DoubledSums(q: int, x: int, y: int, z: int, ax: int, ay: int)
    requires StandsFor(q, x, y, z, ax, ay)
    ensures var s := ay * (z * z * (z * z));
      Cong(y * y * x, s * s * ax, q) && Cong(y * y * (y * y), s * s * s * ay, q)
  {
    hide Cong;
    var cube, zz := z * z * z, z * z;
    CongMul(y, ay * cube, y, ay * cube, q);
    CongMul(y * y, (ay * cube) * (ay * cube), x, ax * zz, q);
    CongMul(y * y, (ay * cube) * (ay * cube), y * y, (ay * cube) * (ay * cube), q);
    PowersOfS(ax, ay, z);
  }

  lemma PowersOfS(ax: int, ay: int, z: int)
    ensures var s := ay * (z * z * (z * z));
      && (ay * (z * z * z)) * (ay * (z * z * z)) * (ax * (z * z)) == s * s * ax
      && (ay * (z * z * z)) * (ay * (z * z * z)) * ((ay * (z * z * z)) * (ay * (z * z * z))) == s * s * s * ay
  {
    var zz, c, s := z * z, z * z * z, ay * (z * z * (z * z));
    assert c * c * zz == (zz * zz) * (zz * zz);
    assert (ay * c) * (ay * c) == (ay * ay) * (c * c);
    assert s * s == (ay * ay) * ((zz * zz) * (zz * zz));
    assert (ay * ay) * (c * c) * (ax * zz) == (ay * ay) * (c * c * zz) * ax;
    assert (c * c) * (c * c) == ((zz * zz) * (zz * zz)) * (zz * zz);
    var t := (zz * zz) * (zz * zz);
    assert s * s * s == (ay * ay) * t * (ay * (zz * zz));
    FourthPower(ay, c * c, t, zz * zz);
  }

  lemma FourthPower(y: int, cc: int, t: int, f: int)
    requires cc * cc == t * f
    ensures (y * y) * cc * ((y * y) * cc) == (y * y) * t * (y * f) * y
  {
    assert (y * y) * cc * ((y * y) * cc) == (y * y) * (y * y) * (cc * cc);
    assert (y * y) * t * (y * f) * y == (y * y) * (y * y) * (t * f);
  }

  lemma DoubledX(q: int, l: int, m: int, s: int, yyx: int, ax: int, x3: int, ax3: int)
    requires Cong(m, l * s, q) && Cong(yyx, s * s * ax, q) && Cong(x3, m * m - 2 * yyx, q)
    requires Cong(ax3, l * l - ax - ax, q)
    ensures Cong(x3, ax3 * (s * s), q)
  {
    hide Cong;
    CongMul2(yyx, s * s * ax, 2, q);
    assert 2 * (s * s * ax) == s * s * (ax + ax);
    NewX(q, l, m, s, 2 * yyx, ax, ax, x3, ax3);
  }

  lemma DoubledY(q: int, l: int, m: int, s: int, yyx: int, y4: int, ax: int, ay: int, x3: int, y3: int, ax3: int, ay3: int)
    requires Cong(m, l * s, q) && Cong(yyx, s * s * ax, q) && Cong(y4, s * s * s * ay, q)
    requires Cong(x3, ax3 * (s * s), q) && Cong(y3, m * (yyx - x3) - y4, q) && Cong(ay3, l * (ax - ax3) - ay, q)
    ensures Cong(y3, ay3 * (s * s * s), q)
  {
    hide Cong;
    CongSub(yyx, s * s * ax, x3, ax3 * (s * s), q);
    CongMul(m, l * s, yyx - x3, s * s * ax - ax3 * (s * s), q);
    CongSub(m * (yyx - x3), l * s * (s * s * ax - ax3 * (s * s)), y4, s * s * s * ay, q);
    assert l * s * (s * s * ax - ax3 * (s * s)) - s * s * s * ay == (l * (ax - ax3) - ay) * (s * s * s) by {
      assert s * s * ax - ax3 * (s * s) == (s * s) * (ax - ax3);
      assert l * s * ((s * s) * (ax - ax3)) == (l * (ax - ax3)) * (s * s * s);
      Distribute3(l * (ax - ax3), ay, s * s * s);
    }
    CongSymm(ay3, l * (ax - ax3) - ay, q);
    CongMul2(l * (ax - ax3) - ay, ay3, s * s * s, q);
    CongTrans(y3, m * (yyx - x3) - y4, (l * (ax - ax3) - ay) * (s * s * s), q);
    CongTrans(y3, (l * (ax - ax3) - ay) * (s * s * s), ay3 * (s * s * s), q);
  }
}
