/** The points of a short Weierstrass curve of prime order, as multiples of its base point.  That
    chords and tangents add points (the group law) is a hypothesis here; what follows from it for
    the representations used in lib/trezor-crypto/ecdsa.c is proved. */
module CurveGroup {
  import opened Words
  import opened ModArith
  import opened Limbs
  import opened EuclidRounds
  import opened Jacobian
  import opened JacobianLaw

  /** m * G has affine coordinates (X(m), Y(m)) modulo p; the point at infinity is 0 * G, stored
      as (0, 0).  chord and tangent name the slopes, log the multiple of a point of the curve,
      invP and invN the inverses modulo the primes. */
  datatype Group = Group(p: int, n: int, a: int, b: int, X: int -> int, Y: int -> int,
                         chord: (int, int) -> int, tangent: int -> int, log: (int, int) -> int,
                         invP: int -> int, invN: int -> int)

  ghost predicate PrimeField(m: int, inv: int -> int) {
    && m % 2 == 1 && TWO256 - TWO224 <= m < TWO256
    && forall v: int :: !Cong(v, 0, m) ==> Cong(v * inv(v), 1, m)
  }

  /** m * G is the point at infinity. */
  ghost predicate AtInfinity(g: Group, m: int) {
    Cong(m, 0, g.n)
  }

  ghost predicate CurveLaw(g: Group) {
    && PrimeField(g.p, g.invP) && PrimeField(g.n, g.invN) && -3 <= g.a <= 0
    && (forall m: int {:trigger g.X(m)} {:trigger g.Y(m)} :: 0 <= g.X(m) < g.p && 0 <= g.Y(m) < g.p)
    && (forall m: int, k: int {:trigger g.X(m), g.X(k)} {:trigger g.Y(m), g.Y(k)} :: Cong(m, k, g.n) ==> g.X(m) == g.X(k) && g.Y(m) == g.Y(k))
    && (forall m: int {:trigger AtInfinity(g, m)} :: AtInfinity(g, m) <==> g.X(m) == 0 && g.Y(m) == 0)
    && (forall m: int, k: int {:trigger g.X(m), g.X(k)} :: !AtInfinity(g, m) && !AtInfinity(g, k) && g.X(m) == g.X(k) ==>
         Cong(m, k, g.n) || Cong(m, -k, g.n))
    && (forall m: int {:trigger g.X(-m)} :: !AtInfinity(g, m) ==> g.X(-m) == g.X(m) && g.Y(-m) == g.p - g.Y(m))
    && (forall m: int, k: int {:trigger g.chord(m, k)} :: !AtInfinity(g, m) && !AtInfinity(g, k) && g.X(m) != g.X(k) ==>
         OnChord(g, m, k))
    && (forall m: int {:trigger g.tangent(m)} :: !AtInfinity(g, m) ==> OnTangent(g, m))
    && (forall m: int {:trigger AtInfinity(g, m)} :: !AtInfinity(g, m) ==> OnCurve(g, g.X(m), g.Y(m)))
    && (forall x: int, y: int {:trigger g.log(x, y)} :: 0 <= x < g.p && 0 <= y < g.p && OnCurve(g, x, y) ==>
         !AtInfinity(g, g.log(x, y)) && g.X(g.log(x, y)) == x && g.Y(g.log(x, y)) == y)
    && (forall v: nat {:trigger g.invP(v)} :: !Cong(v, 0, g.p) ==> Fermat(g.p, v))
  }

  /** y^2 = x^3 + a * x + b */
  ghost predicate OnCurve(g: Group, x: int, y: int) {
    Cong(y * y, x * (x * x + g.a) + g.b, g.p)
  }

  /** Fermat's little theorem at v. */
  ghost predicate Fermat(q: int, v: nat) {
    q > 0 && Cong(Pow(v, q - 1), 1, q)
  }

  /** (m + k) * G is the reflected third point of the chord through m * G and k * G. */
  ghost predicate OnChord(g: Group, m: int, k: int) {
    var l := g.chord(m, k);
    Cong(l * (g.X(m) - g.X(k)), g.Y(m) - g.Y(k), g.p) && ThirdPoint(g.p, l, g.X(m), g.Y(m), g.X(k), g.X(m + k), g.Y(m + k))
  }

  /** 2 * m * G is the reflected third point of the tangent at m * G. */
  ghost predicate OnTangent(g: Group, m: int) {
    var l := g.tangent(m);
    && Cong(l * (2 * g.Y(m)), 3 * (g.X(m) * g.X(m)) + g.a, g.p)
    && ThirdPoint(g.p, l, g.X(m), g.Y(m), g.X(m), g.X(2 * m), g.Y(2 * m))
  }

  // ---------------------------------------------------------------- what the law says, one clause at a time

  lemma Fields(g: Group)
    requires CurveLaw(g)
    ensures PrimeField(g.p, g.invP) && PrimeField(g.n, g.invN) && -3 <= g.a <= 0
  {}

  /** The bounds on the moduli; coordinates are below twice the order. */
  lemma Moduli(g: Group)
    requires CurveLaw(g)
    ensures g.n > 1 && g.n % 2 == 1 && g.p > 1 && g.p % 2 == 1 && g.p < 2 * g.n
  {}

  lemma Coordinates(g: Group, m: int)
    requires CurveLaw(g)
    ensures 0 <= g.X(m) < g.p && 0 <= g.Y(m) < g.p
    ensures AtInfinity(g, m) <==> g.X(m) == 0 && g.Y(m) == 0
  {}

  lemma SameMultiples(g: Group, m: int, k: int)
    requires CurveLaw(g) && Cong(m, k, g.n)
    ensures g.X(m) == g.X(k) && g.Y(m) == g.Y(k)
  {}

  /** Points with the same x are equal or opposite. */
  lemma MeetX(g: Group, m: int, k: int)
    requires CurveLaw(g) && !AtInfinity(g, m) && !AtInfinity(g, k) && g.X(m) == g.X(k)
    ensures Cong(m, k, g.n) || Cong(m, -k, g.n)
  {}

  lemma Opposite(g: Group, m: int)
    requires CurveLaw(g) && !AtInfinity(g, m)
    ensures !AtInfinity(g, -m) && g.X(-m) == g.X(m) && g.Y(-m) == g.p - g.Y(m)
  {
    assert g.X(-m) == g.X(m) && g.Y(-m) == g.p - g.Y(m);
    if AtInfinity(g, -m) {
      CongSub(0, 0, -m, 0, g.n);
    }
  }

  lemma OppositeOf(g: Group, m: int)
    requires CurveLaw(g) && !AtInfinity(g, m)
    ensures !AtInfinity(g, -m) && g.X(-m) == g.X(m) && g.Y(-m) % 2 == 1 - g.Y(m) % 2
  {
    hide CurveLaw, Cong, AtInfinity;
    Moduli(g);
    Opposite(g, m);
    OddMinus(g.p, g.Y(m));
  }

  lemma OddMinus(p: int, y: int)
    requires p % 2 == 1
    ensures (p - y) % 2 == 1 - y % 2
  {}

  lemma TangentOf(g: Group, m: int)
    requires CurveLaw(g) && !AtInfinity(g, m)
    ensures Cong(g.tangent(m) * (2 * g.Y(m)), 3 * (g.X(m) * g.X(m)) + g.a, g.p)
    ensures ThirdPoint(g.p, g.tangent(m), g.X(m), g.Y(m), g.X(m), g.X(2 * m), g.Y(2 * m))
  {
    var l := g.tangent(m);
    assert OnTangent(g, m);
  }

  lemma ChordOf(g: Group, j: int, m: int)
    requires CurveLaw(g) && !AtInfinity(g, j) && !AtInfinity(g, m) && g.X(j) != g.X(m)
    ensures Cong(g.chord(j, m) * (g.X(j) - g.X(m)), g.Y(j) - g.Y(m), g.p)
    ensures ThirdPoint(g.p, g.chord(j, m), g.X(j), g.Y(j), g.X(m), g.X(m + j), g.Y(m + j))
  {
    var l := g.chord(j, m);
    assert OnChord(g, j, m);
    assert j + m == m + j;
  }

  lemma NoZeroDivisors(m: int, inv: int -> int, u: int, v: int)
    requires PrimeField(m, inv) && !Cong(u, 0, m) && !Cong(v, 0, m)
    ensures !Cong(u * v, 0, m)
  {
    if Cong(u * v, 0, m) {
      assert Cong(v * inv(v), 1, m);
      CongCancel(u, 0, v, inv(v), m);
    }
  }

  /** What has an inverse is coprime to the modulus. */
  lemma InvertibleCoprime(v: int, inv: int, m: int)
    requires Cong(v * inv, 1, m)
    ensures Coprime(v, m)
  {
    var k := CongDiff(v * inv, 1, m);
    forall d: nat | d >= 2 && Divides(d, v) ensures !Divides(d, m) {
      if Divides(d, m) {
        var b, c := v / d, m / d;
        assert v == b * d && m == c * d;
        assert (b * d) * inv == (b * inv) * d && k * (c * d) == (k * c) * d;
        assert 1 == (b * inv - k * c) * d;
        SmallMultiple(b * inv - k * c, d);
      }
    }
  }

  lemma NonzeroCoprime(m: int, inv: int -> int, v: int)
    requires PrimeField(m, inv) && !Cong(v, 0, m)
    ensures Coprime(v, m)
  {
    InvertibleCoprime(v, inv(v), m);
  }

  /** A finite point of an odd-order curve is not its own opposite. */
  lemma OrderedY(g: Group, m: int)
    requires CurveLaw(g) && !AtInfinity(g, m)
    ensures 0 < g.Y(m) < g.p && !Cong(g.Y(m), 0, g.p) && !Cong(2 * g.Y(m), 0, g.p)
  {
    Fields(g);
    hide CurveLaw;
    Coordinates(g, m);
    Coordinates(g, -m);
    Opposite(g, m);
    ModUnique(g.Y(m), g.p, 0, g.Y(m));
    if Cong(2 * g.Y(m), 0, g.p) {
      CongHalve(g.Y(m), 0, g.p);
    }
  }

  /** Residues below the modulus are equal when congruent. */
  lemma CongEqual(u: int, v: int, m: int)
    requires 0 <= u < m && 0 <= v < m && Cong(u, v, m)
    ensures u == v
  {
    ModUnique(u, m, 0, u);
    ModUnique(v, m, 0, v);
  }

  lemma DifferentX(g: Group, j: int, m: int)
    requires CurveLaw(g) && g.X(j) != g.X(m)
    ensures !Cong(g.X(j), g.X(m), g.p) && !Cong(g.X(j) - g.X(m), 0, g.p)
  {
    hide CurveLaw;
    Coordinates(g, j);
    Coordinates(g, m);
    if Cong(g.X(j) - g.X(m), 0, g.p) {
      CongAdd(g.X(j) - g.X(m), 0, g.X(m), g.X(m), g.p);
    }
    if Cong(g.X(j), g.X(m), g.p) {
      CongEqual(g.X(j), g.X(m), g.p);
    }
  }

  lemma DoubleNonzero(g: Group, m: int)
    requires CurveLaw(g) && !AtInfinity(g, m)
    ensures !AtInfinity(g, 2 * m)
  {
    Fields(g);
    hide CurveLaw;
    if AtInfinity(g, 2 * m) {
      CongHalve(m, 0, g.n);
    }
  }

  lemma CurveEquation(g: Group, m: int)
    requires CurveLaw(g) && !AtInfinity(g, m)
    ensures OnCurve(g, g.X(m), g.Y(m))
  {}

  lemma LogOf(g: Group, x: int, y: int)
    requires CurveLaw(g) && 0 <= x < g.p && 0 <= y < g.p && OnCurve(g, x, y)
    ensures !AtInfinity(g, g.log(x, y)) && g.X(g.log(x, y)) == x && g.Y(g.log(x, y)) == y
  {}

  lemma FermatOf(g: Group, v: nat)
    requires CurveLaw(g) && !Cong(v, 0, g.p)
    ensures Cong(Pow(v, g.p - 1), 1, g.p)
  {
    var i := g.invP(v);
    assert Fermat(g.p, v);
  }

  // ---------------------------------------------------------------- Jacobian representation

  /** The triple is a representation of m * G, which is not the point at infinity. */
  ghost predicate Represents(g: Group, x: int, y: int, z: int, m: int) {
    !AtInfinity(g, m) && !Cong(z, 0, g.p) && StandsFor(g.p, x, y, z, g.X(m), g.Y(m))
  }

  lemma FiniteZ(g: Group, x: int, y: int, z: int, m: int)
    requires CurveLaw(g) && Represents(g, x, y, z, m)
    ensures g.p % 2 == 1 && Cong(z * g.invP(z), 1, g.p)
    ensures !Cong(z * z * z, 0, g.p) && !Cong(z * z * (z * z), 0, g.p)
  {
    Fields(g);
    hide CurveLaw;
    assert PrimeField(g.p, g.invP) && Cong(z * g.invP(z), 1, g.p);
    NoZeroDivisors(g.p, g.invP, z, z);
    NoZeroDivisors(g.p, g.invP, z * z, z);
    NoZeroDivisors(g.p, g.invP, z * z, z * z);
  }

  lemma NonzeroProduct(g: Group, z3: int, u: int, v: int)
    requires CurveLaw(g) && Cong(z3, u * v, g.p) && !Cong(u, 0, g.p) && !Cong(v, 0, g.p)
    ensures !Cong(z3, 0, g.p)
  {
    Fields(g);
    hide CurveLaw;
    NoZeroDivisors(g.p, g.invP, u, v);
  }

  lemma DoubleSum(g: Group, m: int, s: int, x: int, y: int, z: int, x3: int, y3: int, z3: int)
    requires CurveLaw(g) && Represents(g, x, y, z, m) && DoubleFormulas(g.p, g.a, s, x, y, z, x3, y3, z3)
    ensures Represents(g, x3, y3, z3, 2 * m)
  {
    hide CurveLaw, Cong, AtInfinity;
    TangentOf(g, m);
    OrderedY(g, m);
    DoubleNonzero(g, m);
    FiniteZ(g, x, y, z, m);
    DoubleIsTangent(g.p, g.a, g.tangent(m), s, x, y, z, g.X(m), g.Y(m), x3, y3, z3, g.X(2 * m), g.Y(2 * m));
    NonzeroProduct(g, z3, g.Y(m), z * z * (z * z));
  }

  lemma AddSum(g: Group, j: int, m: int, r: int, h: int, u: int, w: int, x: int, y: int, z: int, x3: int, y3: int, z3: int)
    requires CurveLaw(g) && !AtInfinity(g, j) && Represents(g, x, y, z, m) && !AtInfinity(g, m + j)
    requires Joined(g.p, u, w, g.X(j), g.Y(j), z) && Chosen(g.p, g.a, r, h, u, w, x, y, z)
    requires AddFormulas(g.p, r, h, u, w, x, y, z, x3, y3, z3)
    ensures Represents(g, x3, y3, z3, m + j)
  {
    hide CurveLaw, AtInfinity, Joined, Chosen, AddFormulas;
    FiniteZ(g, x, y, z, m);
    SameX(g.p, u, w, x, y, z, g.invP(z), g.X(j), g.Y(j), g.X(m), g.Y(m));
    if g.X(j) == g.X(m) {
      AddSame(g, j, m, r, h, u, w, x, y, z, x3, y3, z3);
    } else {
      DifferentX(g, j, m);
      AddDifferent(g, j, m, r, h, u, w, x, y, z, x3, y3, z3);
    }
  }

  lemma AddDifferent(g: Group, j: int, m: int, r: int, h: int, u: int, w: int, x: int, y: int, z: int,
                     x3: int, y3: int, z3: int)
    requires CurveLaw(g) && !AtInfinity(g, j) && Represents(g, x, y, z, m) && !AtInfinity(g, m + j)
    requires Joined(g.p, u, w, g.X(j), g.Y(j), z) && Chosen(g.p, g.a, r, h, u, w, x, y, z)
    requires AddFormulas(g.p, r, h, u, w, x, y, z, x3, y3, z3) && !Cong(u, x, g.p) && g.X(j) != g.X(m)
    ensures Represents(g, x3, y3, z3, m + j)
  {
    hide CurveLaw, Cong, AtInfinity, Joined, Chosen, AddFormulas;
    ChordOf(g, j, m);
    DifferentX(g, j, m);
    FiniteZ(g, x, y, z, m);
    AddIsChord(g.p, g.a, g.chord(j, m), r, h, u, w, x, y, z, g.X(j), g.Y(j), g.X(m), g.Y(m), x3, y3, z3,
               g.X(m + j), g.Y(m + j));
    NonzeroProduct(g, z3, g.X(j) - g.X(m), z * z * z);
  }

  lemma AddSame(g: Group, j: int, m: int, r: int, h: int, u: int, w: int, x: int, y: int, z: int,
                x3: int, y3: int, z3: int)
    requires CurveLaw(g) && !AtInfinity(g, j) && Represents(g, x, y, z, m) && !AtInfinity(g, m + j)
    requires Joined(g.p, u, w, g.X(j), g.Y(j), z) && Chosen(g.p, g.a, r, h, u, w, x, y, z)
    requires AddFormulas(g.p, r, h, u, w, x, y, z, x3, y3, z3) && Cong(u, x, g.p) && g.X(j) == g.X(m)
    ensures Represents(g, x3, y3, z3, m + j)
  {
    FiniteZ(g, x, y, z, m);
    CongRefl(g.X(m), g.p);
    CongRefl(g.Y(m), g.p);
    hide CurveLaw, Cong, AtInfinity, Joined, Chosen, AddFormulas;
    SamePoint(g, j, m);
    TangentOf(g, m);
    OrderedY(g, m);
    AddIsTangent(g.p, g.a, g.tangent(m), r, h, u, w, x, y, z, g.X(j), g.Y(j), g.X(m), g.Y(m), x3, y3, z3,
                 g.X(2 * m), g.Y(2 * m));
    NonzeroProduct(g, z3, 2 * g.Y(m), z * z * (z * z));
  }

  /** Equal x and a sum that is not infinity: the two multiples are the same point. */
  lemma SamePoint(g: Group, j: int, m: int)
    requires CurveLaw(g) && !AtInfinity(g, j) && !AtInfinity(g, m) && !AtInfinity(g, m + j) && g.X(j) == g.X(m)
    ensures g.Y(j) == g.Y(m) && g.X(m + j) == g.X(2 * m) && g.Y(m + j) == g.Y(2 * m)
  {
    hide CurveLaw;
    MeetX(g, j, m);
    CongRefl2(m, j, if Cong(j, -m, g.n) then -m else m, g.n);
    if Cong(j, -m, g.n) {
      CongAdd(j, -m, m, m, g.n);
    }
    CongAdd(j, m, m, m, g.n);
    SameMultiples(g, j, m);
    SameMultiples(g, m + j, 2 * m);
  }

  /** Negating z negates the point. */
  lemma NegateZ(g: Group, x: int, y: int, z: int, z': int, m: int)
    requires CurveLaw(g) && Represents(g, x, y, z, m) && Cong(z', -z, g.p)
    ensures Represents(g, x, y, z', -m)
  {
    hide CurveLaw, AtInfinity;
    var p := g.p;
    Opposite(g, m);
    if Cong(z', 0, p) {
      CongSub(0, 0, z', 0, p);
      CongSub(0, 0, z', -z, p);
    }
    hide Cong;
    CongMul(z', -z, z', -z, p);
    assert -z * -z == z * z;
    CongMul3(z', -z, z', -z, z', -z, p);
    assert -z * -z * -z == -(z * z * z);
    NegatedPoint(p, x, y, z, z', g.X(m), g.Y(m));
  }

  lemma NegatedPoint(p: int, x: int, y: int, z: int, z': int, ax: int, ay: int)
    requires StandsFor(p, x, y, z, ax, ay) && Cong(z' * z', z * z, p) && Cong(z' * z' * z', -(z * z * z), p)
    ensures StandsFor(p, x, y, z', ax, p - ay)
  {
    hide Cong;
    CongSymm(z' * z', z * z, p);
    CongMul2(z * z, z' * z', ax, p);
    CongTrans(x, ax * (z * z), ax * (z' * z'), p);
    var c, c' := z * z * z, z' * z' * z';
    CongSymm(c', -c, p);
    CongMul2(-c, c', -ay, p);
    assert -ay * -c == ay * c;
    CongTrans(y, ay * c, -ay * c', p);
    CongBy((p - ay) * c', -ay * c', c', p);
    CongSymm((p - ay) * c', -ay * c', p);
    CongTrans(y, -ay * c', (p - ay) * c', p);
  }
}
