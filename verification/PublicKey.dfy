/** lib/trezor-crypto/ecdsa.c, reading public keys: the curve equation, and the square root that
    recovers y from x and a parity. */
module PublicKey {
  import opened Words
  import opened ModArith
  import opened Bytes
  import opened Limbs
  import opened Bignum
  import opened BignumMod
  import opened BignumMul
  import opened BignumPower
  import opened BignumCodec
  import opened Jacobian
  import opened CurveGroup
  import opened AffinePoint

  ghost predicate IsRhs(g: Group, v: int, x: int) {
    0 <= v < g.p && Cong(v, x * (x * x + g.a) + g.b, g.p)
  }

  /** rhs = x^3 + a * x + b, fully reduced */
  method RightHandSide(curve: Curve, x: array<uint32>, rhs: array<uint32>, ghost g: Group)
    requires curve.Describes(g) && Normalized(x) && Value(x) < g.p && rhs.Length == LIMBS
    requires rhs !in {x, curve.prime, curve.b} && curve.b != curve.prime
    modifies rhs
    ensures Normalized(rhs) && IsRhs(g, Value(rhs), Value(x))
  {
    hide Low, Normal, Cong, CongProduct, Multipliable, CurveLaw, IsRhs;
    PrimeOk(curve, g);
    Copy(x, rhs);
    Fits(Value(x), Value(rhs));
    Multiply(x, rhs, curve.prime);
    ghost var xx := Value(rhs);
    SubI(rhs, -curve.a, curve.prime);
    ghost var xxa := Value(rhs);
    Fits(Value(x), Value(rhs));
    Multiply(x, rhs, curve.prime);
    ghost var xxx := Value(rhs);
    AddMod(rhs, curve.b, curve.prime);
    ghost var sum := Value(rhs);
    Mod(rhs, curve.prime);
    RhsSound(g, Value(x), xx, xxa, xxx, sum, Value(rhs));
  }

  lemma RhsSound(g: Group, x: int, xx: int, xxa: int, xxx: int, sum: int, v: int)
    requires CongProduct(xx, x, x, g.p) && xxa == xx + g.p - (-g.a) && CongProduct(xxx, x, xxa, g.p)
    requires Cong(sum, xxx + g.b, g.p) && v == sum % g.p
    ensures IsRhs(g, v, x)
  {
    var q := g.p;
    CongBy(xxa, xx + g.a, 1, q);
    CongRefl(g.a, q);
    CongRefl(g.b, q);
    CongAdd(xx, x * x, g.a, g.a, q);
    CongTrans(xxa, xx + g.a, x * x + g.a, q);
    CongMul2(xxa, x * x + g.a, x, q);
    CongTrans(xxx, x * xxa, x * (x * x + g.a), q);
    CongAdd(xxx, x * (x * x + g.a), g.b, g.b, q);
    CongMod(sum, q);
    CongTrans(v, sum, x * (x * x + g.a) + g.b, q);
  }

  /** No finite point has this x coordinate. */
  ghost predicate NoPoint(g: Group, x: int) {
    forall k: int {:trigger g.X(k)} :: !AtInfinity(g, k) ==> x != g.X(k)
  }

  /** Some y above x, if there is one. */
  method AnyRoot(curve: Curve, x: array<uint32>, y: array<uint32>, ghost g: Group) returns (ok: bool)
    requires curve.Describes(g) && Value(curve.prime) % 4 == 3 && Normalized(x) && Value(x) < g.p && y.Length == LIMBS
    requires y !in {x, curve.prime, curve.b} && curve.b != curve.prime
    modifies y
    ensures Normalized(y)
    ensures ok ==> var m := g.log(Value(x), Value(y)); !AtInfinity(g, m) && Value(x) == g.X(m) && Value(y) == g.Y(m)
    ensures !ok ==> NoPoint(g, Value(x))
  {
    hide Low, Normal, Cong, CongProduct, Multipliable, CurveLaw, AtInfinity, IsRhs, Pow, NoPoint;
    PrimeOk(curve, g);
    var y2, check := new uint32[LIMBS], new uint32[LIMBS];
    RightHandSide(curve, x, y2, g);
    Copy(y2, y);
    RhsBound(g, Value(y2), Value(x));
    Sqrt(y, curve.prime);
    Copy(y, check);
    Fits(Value(y), Value(check));
    Multiply(y, check, curve.prime);
    ghost var square := Value(check);
    Mod(check, curve.prime);
    ok := IsEqual(check, y2);
    if ok {
      RootIsPoint(g, Value(x), Value(y2), Value(y), square);
    } else {
      RootExists(g, Value(x), Value(y2), Value(y), square);
    }
  }

  /** The y of the given parity above x; false, and y = 0, when no point has that x. */
  method UncompressCoords(curve: Curve, odd: nat, x: array<uint32>, y: array<uint32>, ghost g: Group)
    returns (ok: bool, ghost m: int)
    requires curve.Describes(g) && Value(curve.prime) % 4 == 3 && Normalized(x) && y.Length == LIMBS
    requires y !in {x} + curve.Cells() && curve.b != curve.prime
    modifies y
    ensures Normalized(y)
    ensures ok ==> !AtInfinity(g, m) && Value(x) == g.X(m) && Value(y) == g.Y(m) && Value(y) % 2 == odd % 2
    ensures !ok ==> NoPoint(g, Value(x)) && Value(y) == 0
  {
    hide Low, Normal, Cong, CurveLaw, AtInfinity, NoPoint, Curve.Describes;
    PrimeOk(curve, g);
    var less := IsLess(x, curve.prime);
    if !less {
      Zero(y);
      NoPointBeyond(g, Value(x));
      return false, 0;
    }
    ok := AnyRoot(curve, x, y, g);
    if !ok {
      Zero(y);
      return false, 0;
    }
    m := g.log(Value(x), Value(y));
    LowParity(y[..], LIMBS);
    OppositeRoot(g, m);
    if odd % 2 != y[0] as int % 2 {
      Subtract(curve.prime, y, y);
      m := -m;
    }
  }

  lemma RhsBound(g: Group, v: int, x: int)
    requires IsRhs(g, v, x)
    ensures 0 <= v < g.p
  {}

  lemma NoPointBeyond(g: Group, x: int)
    requires CurveLaw(g) && x >= g.p
    ensures NoPoint(g, x)
  {}

  lemma RootIsPoint(g: Group, x: int, v: int, root: int, square: int)
    requires CurveLaw(g) && 0 <= x < g.p && 0 <= root < g.p && IsRhs(g, v, x)
    requires CongProduct(square, root, root, g.p) && square % g.p == v
    ensures !AtInfinity(g, g.log(x, root)) && g.X(g.log(x, root)) == x && g.Y(g.log(x, root)) == root
  {
    hide CurveLaw;
    var rhs := x * (x * x + g.a) + g.b;
    CongMod(square, g.p);
    CongTrans(root * root, square, v, g.p);
    CongTrans(root * root, v, rhs, g.p);
    LogOf(g, x, root);
  }

  lemma OppositeRoot(g: Group, m: int)
    requires CurveLaw(g) && !AtInfinity(g, m)
    ensures !AtInfinity(g, -m) && g.X(-m) == g.X(m) && g.Y(-m) == g.p - g.Y(m) && g.p % 2 == 1 && 0 <= g.Y(m) < g.p
  {
    Fields(g);
    hide CurveLaw;
    Coordinates(g, m);
    Opposite(g, m);
  }

  /** If some point has this x, the power is a root: the check cannot fail. */
  lemma RootExists(g: Group, x: int, v: nat, root: int, square: int)
    requires CurveLaw(g) && g.p % 4 == 3 && IsRhs(g, v, x) && Cong(root, Pow(v, (g.p + 1) / 4), g.p)
    requires CongProduct(square, root, root, g.p) && square % g.p != v
    ensures NoPoint(g, x)
  {
    hide CurveLaw;
    forall k: int {:trigger g.X(k)} | !AtInfinity(g, k) ensures x != g.X(k) {
      if x == g.X(k) {
        CurveEquation(g, k);
        OrderedY(g, k);
        var y := g.Y(k);
        CongSymm(y * y, x * (x * x + g.a) + g.b, g.p);
        CongTrans(v, x * (x * x + g.a) + g.b, y * y, g.p);
        SquareRoot(g, v, y, root);
        CongTrans(square, root * root, v, g.p);
        ModUnique(v, g.p, 0, v);
      }
    }
  }

  /** v = y^2 gives (v^((p + 1) / 4))^2 = y^2 * y^(p - 1) = v. */
  lemma SquareRoot(g: Group, v: nat, y: nat, root: int)
    requires CurveLaw(g) && g.p % 4 == 3 && Cong(v, y * y, g.p) && !Cong(y, 0, g.p)
    requires Cong(root, Pow(v, (g.p + 1) / 4), g.p)
    ensures Cong(root * root, v, g.p)
  {
    hide CurveLaw;
    var q, e := g.p, (g.p + 1) / 4;
    FermatOf(g, y);
    CongPow(v, y * y, e, q);
    PowSquare(y, e);
    CongTrans(root, Pow(v, e), Pow(y, 2 * e), q);
    CongMul(root, Pow(y, 2 * e), root, Pow(y, 2 * e), q);
    PowAdd(y, 2 * e, 2 * e);
    assert 4 * e == q - 1 + 2;
    PowAdd(y, q - 1, 2);
    hide Cong;
    PowTwo(y);
    CongMul2(Pow(y, q - 1), 1, y * y, q);
    CongTrans(root * root, Pow(y, q - 1) * (y * y), y * y, q);
    CongSymm(v, y * y, q);
    CongTrans(root * root, y * y, v, q);
  }

  lemma PowTwo(y: nat)
    ensures Pow(y, 2) == y * y
  {
    assert Pow(y, 1) == y * Pow(y, 0);
  }

  // ---------------------------------------------------------------- keys

  /** The bytes are an encoding, compressed or not, of d * G. */
  ghost predicate EncodesKey(g: Group, key: seq<uint8>, d: int) {
    || (|key| >= 65 && key[0] == 4 && Be(key[1..33]) == g.X(d) && Be(key[33..65]) == g.Y(d))
    || (|key| >= 33 && (key[0] == 2 || key[0] == 3) && Be(key[1..33]) == g.X(d) && g.Y(d) % 2 == key[0] as int % 2)
  }

  /** No finite point has these coordinates. */
  ghost predicate NoPointAt(g: Group, x: int, y: int) {
    forall k: int {:trigger g.X(k)} :: !AtInfinity(g, k) ==> !(x == g.X(k) && y == g.Y(k))
  }

  /** On the curve, in range, and not the point at infinity. */
  method ValidatePubkey(curve: Curve, pub: CurvePoint, ghost g: Group) returns (ok: bool, ghost m: int)
    requires curve.Describes(g) && pub.Separate() && Normalized(pub.x) && Normalized(pub.y)
    requires {pub.x, pub.y} !! curve.Cells() && curve.b != curve.prime
    ensures ok ==> !AtInfinity(g, m) && Affine(g, pub, m)
    ensures !ok ==> NoPointAt(g, Value(pub.x), Value(pub.y))
  {
    hide Low, Normal, Cong, CongProduct, Multipliable, CurveLaw, AtInfinity, IsRhs;
    PrimeOk(curve, g);
    ghost var x, y := Value(pub.x), Value(pub.y);
    var infinite := IsInfinity(pub);
    if infinite {
      NotInfinite(g, x, y);
      return false, 0;
    }
    var lessX := IsLess(pub.x, curve.prime);
    var lessY := IsLess(pub.y, curve.prime);
    if !lessX || !lessY {
      NotInfinite(g, x, y);
      return false, 0;
    }
    var y2, rhs := new uint32[LIMBS], new uint32[LIMBS];
    Copy(pub.y, y2);
    Fits(Value(pub.y), Value(y2));
    Multiply(pub.y, y2, curve.prime);
    ghost var square := Value(y2);
    Mod(y2, curve.prime);
    RightHandSide(curve, pub.x, rhs, g);
    var same := IsEqual(rhs, y2);
    if !same {
      OffCurve(g, x, y, Value(rhs), square);
      return false, 0;
    }
    RootIsPoint(g, x, Value(rhs), y, square);
    return true, g.log(x, y);
  }

  lemma NotInfinite(g: Group, x: int, y: int)
    requires CurveLaw(g) && ((x == 0 && y == 0) || x >= g.p || y >= g.p)
    ensures NoPointAt(g, x, y)
  {
    hide CurveLaw;
    forall k: int {:trigger g.X(k)} | !AtInfinity(g, k) ensures !(x == g.X(k) && y == g.Y(k)) {
      Coordinates(g, k);
    }
  }

  lemma OffCurve(g: Group, x: int, y: int, v: int, square: int)
    requires CurveLaw(g) && IsRhs(g, v, x) && CongProduct(square, y, y, g.p) && square % g.p != v
    ensures NoPointAt(g, x, y)
  {
    hide CurveLaw;
    forall k: int {:trigger g.X(k)} | !AtInfinity(g, k) ensures !(x == g.X(k) && y == g.Y(k)) {
      if x == g.X(k) && y == g.Y(k) {
        CurveEquation(g, k);
        CongTrans(square, y * y, x * (x * x + g.a) + g.b, g.p);
        CongSymm(v, x * (x * x + g.a) + g.b, g.p);
        CongTrans(square, x * (x * x + g.a) + g.b, v, g.p);
        ModUnique(v, g.p, 0, v);
      }
    }
  }

  /** The bytes encode no finite point. */
  ghost predicate NoKey(g: Group, key: seq<uint8>) {
    forall d: int :: !AtInfinity(g, d) ==> !EncodesKey(g, key, d)
  }

  /** An encoding names one point. */
  lemma KeyIsUnique(g: Group, key: seq<uint8>, d: int, d': int)
    requires CurveLaw(g) && !AtInfinity(g, d) && !AtInfinity(g, d') && EncodesKey(g, key, d) && EncodesKey(g, key, d')
    ensures Cong(d, d', g.n)
  {
    MeetX(g, d, d');
    hide CurveLaw;
    if Cong(d, -d', g.n) {
      OppositeParity(g, d, d');
    }
  }

  lemma OppositeParity(g: Group, d: int, d': int)
    requires CurveLaw(g) && !AtInfinity(g, d') && Cong(d, -d', g.n)
    ensures g.Y(d) % 2 != g.Y(d') % 2
  {
    hide CurveLaw, Cong, AtInfinity;
    SameMultiples(g, d, -d');
    OppositeOf(g, d');
  }

  lemma NoKeyFull(g: Group, key: seq<uint8>, x: int, y: int)
    requires |key| >= 65 && key[0] == 4 && x == Be(key[1..33]) && y == Be(key[33..65])
    requires NoPointAt(g, x, y)
    ensures NoKey(g, key)
  {}

  lemma NoKeyShort(g: Group, key: seq<uint8>, x: int)
    requires |key| >= 33 && key[0] != 4 && x == Be(key[1..33]) && NoPoint(g, x)
    ensures NoKey(g, key)
  {}

  lemma NoKeyMark(g: Group, key: seq<uint8>)
    requires |key| >= 33 && key[0] !in {2, 3, 4}
    ensures NoKey(g, key)
  {}

  /** Read a key of 33 or 65 bytes; succeeds exactly on the encodings of finite points. */
  method ReadPubkey(curve: Curve, key: array<uint8>, pub: CurvePoint, ghost g: Group) returns (ok: bool, ghost d: int)
    requires curve.Describes(g) && Value(curve.prime) % 4 == 3 && pub.Separate() && (key.Length == 65 || (key.Length == 33 && key[0] != 4))
    requires {pub.x, pub.y} !! curve.Cells() && curve.b != curve.prime
    modifies pub.x, pub.y
    ensures ok ==> !AtInfinity(g, d) && Affine(g, pub, d) && EncodesKey(g, key[..], d)
    ensures ok && key[0] in {2, 3} ==> Value(pub.x) == Be(key[1..33]) && (Value(pub.y) % 2 == 0 <==> key[0] == 2)
    ensures ok && key[0] !in {2, 3} ==> key[0] == 4 && Value(pub.x) == Be(key[1..33]) && Value(pub.y) == Be(key[33..])
    ensures !ok ==> NoKey(g, key[..])
  {
    hide Low, Normal, Cong, CurveLaw, AtInfinity, NoKey;
    if key[0] == 4 {
      ReadBe(key, 1, pub.x);
      ReadBe(key, 33, pub.y);
      ghost var bytes, x, y := key[..], Value(pub.x), Value(pub.y);
      assert bytes[1..33] == key[1..33] && bytes[33..65] == key[33..65] == key[33..];
      ok, d := ValidatePubkey(curve, pub, g);
      if !ok {
        NoKeyFull(g, bytes, x, y);
      }
      return;
    }
    if key[0] == 2 || key[0] == 3 {
      ReadBe(key, 1, pub.x);
      ghost var bytes, x := key[..], Value(pub.x);
      assert bytes[1..33] == key[1..33];
      ok, d := UncompressCoords(curve, key[0], pub.x, pub.y, g);
      if !ok {
        NoKeyShort(g, bytes, x);
      }
      return;
    }
    NoKeyMark(g, key[..]);
    return false, 0;
  }
}
