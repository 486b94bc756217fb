/** Number theory of the almost-Montgomery inverse of lib/trezor-crypto/bignum.c: the extended
    Euclidean rounds, and why 522 of them are enough. */
module EuclidRounds {
  import opened Words
  import opened ModArith
  import opened Limbs

  const ROUNDS: nat := 522
  const TWO257: nat := 2 * TWO256

  ghost predicate Divides(d: int, a: int)
    requires d != 0
  {
    a % d == 0
  }

  ghost predicate Coprime(a: int, b: int) {
    forall d: nat :: d >= 2 && Divides(d, a) ==> !Divides(d, b)
  }

  /** The state of the Euclidean loop after k live rounds on (x, p): u and v still carry the
      greatest common divisor, s and r are the cofactors of p, and x * s = v * 2^k. */
  ghost predicate Euclid(p: int, x: int, u: int, v: int, r: int, s: int, k: nat) {
    && p % 2 == 1 && x >= 0 && r >= 0
    && p == u * s + v * r
    && Cong(x * s, v * Pow(2, k), p)
    && Cong(x * r, -u * Pow(2, k), p)
    && 1 <= u && 1 <= v < p && 1 <= s && (r == 0 ==> u == p && s == 1)
    && (u % 2 == 1 || v % 2 == 1)
    && Coprime(u, v)
    && u * v * Pow(2, k) <= p * x
  }

  datatype Branch = HalveU | HalveV | SubtractFromU | SubtractFromV

  /** The branch a live round takes. */
  ghost function Choose(u: int, v: int): Branch {
    if u % 2 == 0 then HalveU
    else if v % 2 == 0 then HalveV
    else if v < u then SubtractFromU
    else SubtractFromV
  }

  /** v == 1 is not reached while u and v are equal. */
  lemma Distinct(u: nat, v: nat)
    requires Coprime(u, v) && v >= 2
    ensures u != v
  {
    assert Divides(v, v);
  }

  /** What u' and v' share, u and v share too. */
  lemma CoprimeStep(u: nat, v: nat, u': nat, v': nat, a: nat, b: nat, c: nat, e: nat)
    requires Coprime(u, v)
    requires u == a * u' + b * v' && v == c * u' + e * v'
    ensures Coprime(u', v')
  {
    forall d: nat | d >= 2 && Divides(d, u') ensures !Divides(d, v') {
      if Divides(d, v') {
        Combined(u', v', a, b, d);
        Combined(u', v', c, e, d);
      }
    }
  }

  lemma Combined(u: nat, v: nat, a: nat, b: nat, d: nat)
    requires d >= 2 && Divides(d, u) && Divides(d, v)
    ensures Divides(d, a * u + b * v)
  {
    var m, n := u / d, v / d;
    assert u == m * d && v == n * d;
    assert a * (m * d) == (a * m) * d && b * (n * d) == (b * n) * d;
    assert a * u + b * v == (a * m + b * n) * d;
    Multiple(a * m + b * n, d);
  }

  lemma Multiple(m: int, d: int)
    requires d > 0
    ensures Divides(d, m * d)
  {
    ModUnique(m * d, d, m, 0);
  }

  // ---------------------------------------------------------------- one live round

  /** Each branch keeps p = u * s + v * r, keeps x * s = v * 2^k with k one larger, and at
      least halves u * v. */
  lemma EuclidStep(p: int, x: int, u: int, v: int, r: int, s: int, k: nat)
    requires Euclid(p, x, u, v, r, s, k) && v >= 2
    ensures match Choose(u, v)
      case HalveU => Euclid(p, x, u / 2, v, r, 2 * s, k + 1)
      case HalveV => Euclid(p, x, u, v / 2, 2 * r, s, k + 1)
      case SubtractFromU => v < u && Euclid(p, x, (u - v) / 2, v, r + s, 2 * s, k + 1)
      case SubtractFromV => u < v && Euclid(p, x, u, (v - u) / 2, 2 * r, r + s, k + 1)
  {
    hide Euclid, Coprime, Cong, Pow;
    Distinct2(p, x, u, v, r, s, k);
    match Choose(u, v)
    case HalveU => StepU(p, x, u, v, r, s, k, 0);
    case HalveV => StepV(p, x, u, v, r, s, k, 0);
    case SubtractFromU => StepU(p, x, u, v, r, s, k, 1);
    case SubtractFromV => StepV(p, x, u, v, r, s, k, 1);
  }

  lemma Distinct2(p: int, x: int, u: int, v: int, r: int, s: int, k: nat)
    requires Euclid(p, x, u, v, r, s, k) && v >= 2
    ensures u != v
  {
    Distinct(u, v);
  }

  /** u becomes (u - c * v) / 2 */
  lemma StepU(p: int, x: int, u: int, v: int, r: int, s: int, k: nat, c: nat)
    requires Euclid(p, x, u, v, r, s, k) && c <= 1
    requires if c == 0 then u % 2 == 0 else u % 2 == 1 && v % 2 == 1 && v < u
    ensures Euclid(p, x, (u - c * v) / 2, v, r + c * s, 2 * s, k + 1)
  {
    var u' := (u - c * v) / 2;
    var w := Pow(2, k);
    assert Pow(2, k + 1) == 2 * w;
    assert u == 2 * u' + c * v && u' >= 1;
    CoprimeStep(u, v, u', v, 2, c, 0, 1);
    hide Coprime, Cong, Pow;
    Euclid1(u', v, r, s, c);
    assert p == u' * (2 * s) + v * (r + c * s);
    MulLe(0, 0, c, s);
    DoubleCofactor(p, x, s, v, w);
    CofactorSum(p, x, r, s, u, v, w, c, u');
    HalvedProduct(u, v, u', v, w, p * x);
  }

  lemma Euclid1(u': int, v: int, r: int, s: int, c: int)
    ensures (2 * u' + c * v) * s + v * r == u' * (2 * s) + v * (r + c * s)
  {
    assert (2 * u' + c * v) * s == 2 * u' * s + c * v * s;
    assert c * v * s == v * (c * s);
    assert 2 * u' * s == u' * (2 * s);
  }

  lemma DoubleCofactor(p: int, x: int, s: int, v: int, w: int)
    requires Cong(x * s, v * w, p)
    ensures Cong(x * (2 * s), v * (2 * w), p)
  {
    CongMul(2, 2, x * s, v * w, p);
    assert x * (2 * s) == 2 * (x * s) && v * (2 * w) == 2 * (v * w);
  }

  lemma CofactorSum(p: int, x: int, r: int, s: int, u: int, v: int, w: int, c: int, u': int)
    requires Cong(x * r, -u * w, p) && Cong(x * s, v * w, p) && u == 2 * u' + c * v
    ensures Cong(x * (r + c * s), -u' * (2 * w), p)
  {
    CongMul(c, c, x * s, v * w, p);
    CongAdd(x * r, -u * w, c * (x * s), c * (v * w), p);
    assert x * (r + c * s) == x * r + c * (x * s) by {
      assert x * (c * s) == c * (x * s);
    }
    assert -u * w + c * (v * w) == -u' * (2 * w) by {
      assert u * w == 2 * u' * w + c * v * w;
    }
  }

  lemma HalvedProduct(u: int, v: int, u': int, v': int, w: int, bound: int)
    requires 0 <= u' && 0 <= v' && w > 0 && u * v * w <= bound
    requires (v == v' && 2 * u' <= u) || (u == u' && 2 * v' <= v)
    ensures u' * v' * (2 * w) <= bound
  {
    if v == v' && 2 * u' <= u {
      MulLe(2 * u', v', u, v);
    } else {
      MulLe(u', 2 * v', u, v);
    }
    assert u' * v' * (2 * w) == 2 * (u' * v') * w;
    MulLe(2 * (u' * v'), w, u * v, w);
  }

  /** v becomes (v - c * u) / 2 */
  lemma StepV(p: int, x: int, u: int, v: int, r: int, s: int, k: nat, c: nat)
    requires Euclid(p, x, u, v, r, s, k) && c <= 1
    requires if c == 0 then u % 2 == 1 && v % 2 == 0 else u % 2 == 1 && v % 2 == 1 && u < v
    ensures Euclid(p, x, u, (v - c * u) / 2, 2 * r, s + c * r, k + 1)
  {
    var v' := (v - c * u) / 2;
    var w := Pow(2, k);
    assert Pow(2, k + 1) == 2 * w;
    assert v == 2 * v' + c * u && v' >= 1;
    CoprimeStep(u, v, u, v', 1, 0, c, 2);
    hide Coprime, Cong, Pow;
    Euclid1(v', u, s, r, c);
    assert p == u * (s + c * r) + v' * (2 * r);
    MulLe(0, 0, c, r);
    DoubleCofactor(p, x, r, -u, w);
    CofactorSum(p, x, s, r, -v, -u, w, c, -v');
    HalvedProduct(u, v, u, v', w, p * x);
  }

  // ---------------------------------------------------------------- whole runs

  /** The rounds are over once v is 1; s then satisfies x * s = 2^k. */
  ghost predicate Finished(p: int, x: int, s: int, k: nat) {
    1 <= s < p && Cong(x * s, Pow(2, k), p) && Pow(2, k) <= p * x
  }

  /** The loop invariant after i rounds, k of them live. */
  ghost predicate Progress(p: int, x: int, u: int, v: int, r: int, s: int, k: nat, i: nat, finished: bool) {
    if x == 0 then !finished && k == i && u == p && v == 0 && r == 0 && s == 1
    else if finished then k <= i && Finished(p, x, s, k)
    else k == i && Euclid(p, x, u, v, r, s, k)
  }

  lemma EuclidInit(p: nat, x: nat, x0: nat)
    requires p % 2 == 1 && x < p && Cong(x, x0, p)
    requires Coprime(x0, p) || Cong(x0, 0, p)
    ensures Progress(p, x, p, x, 0, 1, 0, 0, false)
    ensures x == 0 <==> Cong(x0, 0, p)
  {
    ModUnique(x, p, 0, x);
    if x > 0 {
      forall d: nat | d >= 2 && Divides(d, p) ensures !Divides(d, x) {
        if Divides(d, x) {
          var k := CongDiff(x0, x, p);
          var a, b := x / d, p / d;
          assert x == a * d && p == b * d;
          assert k * (b * d) == (k * b) * d;
          assert x0 == (a + k * b) * d;
          Multiple(a + k * b, d);
        }
      }
      assert Pow(2, 0) == 1;
      CongBy(x * 0, -(p as int), 1, p);
    }
  }

  lemma EuclidStop(p: int, x: int, u: int, r: int, s: int, k: nat)
    requires Euclid(p, x, u, 1, r, s, k)
    ensures Finished(p, x, s, k)
  {
    hide Coprime, Cong, Pow;
    MulLe(1, s, u, s);
    MulLe(1, Pow(2, k), u, Pow(2, k));
  }

  lemma {:induction false} PowGrows(k: nat, n: nat)
    requires k <= n
    ensures Pow(2, k) <= Pow(2, n)
  {
    if k < n {
      PowGrows(k, n - 1);
    }
  }

  lemma PowLarge(k: nat, bound: int)
    requires Pow(2, k) <= bound < Pow(2, 512)
    ensures k < 512
  {
    if k >= 512 {
      PowGrows(512, k);
    }
  }

  /** u * v at least halves in every live round, so 522 rounds finish, and leave at most
      511 factors of two to divide out. */
  lemma RoundsSuffice(p: int, x: int, u: int, v: int, r: int, s: int, k: nat, finished: bool)
    requires Progress(p, x, u, v, r, s, k, ROUNDS, finished)
    requires 0 < x && p * x < Pow(2, 512)
    ensures finished && k < 512 && Finished(p, x, s, k)
  {
    hide Pow;
    if !finished {
      MulLe(1, 1, u, v);
      MulLe(1, Pow(2, k), u * v, Pow(2, k));
    }
    PowLarge(k, p * x);
  }

  /** The branch flags of a round, as the code computes them. */
  ghost function Flags(u: int, v: int, done: bool): (bool, bool, bool, bool) {
    if done then (false, false, false, false)
    else match Choose(u, v)
      case HalveU => (true, false, false, false)
      case HalveV => (false, true, false, false)
      case SubtractFromU => (false, false, true, false)
      case SubtractFromV => (false, false, false, true)
  }

  /** Before a round: its subtraction stays non-negative and its sums stay below 2 * p. */
  lemma RoundReady(p: int, x: int, u: int, v: int, r: int, s: int, k: nat, i: nat, finished: bool)
    requires Progress(p, x, u, v, r, s, k, i, finished) && p % 2 == 1
    ensures var (b1, b2, b3, b4) := Flags(u, v, finished || v == 1);
      && (b3 ==> v <= u) && (b4 ==> u <= v)
      && (b3 || b4 ==> r + s <= p) && (b1 || b3 ==> 2 * s <= p)
  {
    hide Coprime, Cong, Pow;
    if x != 0 && !finished {
      MulLe(1, s, u, s);
      MulLe(1, r, v, r);
      if u >= 2 {
        MulLe(2, s, u, s);
      }
    }
  }

  /** After a round: the invariant again, one round further. */
  lemma RoundDone(p: int, x: int, u: int, v: int, r: int, s: int, k: nat, i: nat, finished: bool,
                  u': int, v': int, r': int, s': int)
    requires Progress(p, x, u, v, r, s, k, i, finished) && 0 <= p < TWO257 && p % 2 == 1
    requires var (b1, b2, b3, b4) := Flags(u, v, finished || v == 1);
      && u' == (if b1 then u / 2 else if b3 then (u - v) / 2 else u)
      && v' == (if b1 || b3 then v else if b4 then (v - u) / 2 else v / 2)
      && s' == (if b1 || b3 then 2 * s else if b4 then s + r else s)
      && (b1 ==> r' == r) && (b3 ==> r' == r + s)
      && (!b1 && !b3 && 2 * r < TWO261 ==> r' == 2 * r)
    ensures var done := finished || v == 1;
      Progress(p, x, u', v', r', s', if done then k else k + 1, i + 1, done)
  {
    hide Coprime, Cong, Pow, Euclid, Finished;
    if x != 0 && !finished {
      if v == 1 {
        EuclidStop(p, x, u, r, s, k);
      } else {
        assert v >= 2 && 0 <= r && 2 * r <= p by {
          CofactorBound(p, x, u, v, r, s, k);
        }
        EuclidStep(p, x, u, v, r, s, k);
      }
    }
  }

  lemma CofactorBound(p: int, x: int, u: int, v: int, r: int, s: int, k: nat)
    requires Euclid(p, x, u, v, r, s, k) && v != 1
    ensures v >= 2 && 0 <= r && 2 * r <= p
  {
    hide Coprime, Cong, Pow;
    MulLe(0, 0, u, s);
    MulLe(2, r, v, r);
  }

  lemma Pow512()
    ensures Pow(2, 256) == TWO256 && Pow(2, 512) == TWO256 * TWO256
  {
    assert Pow(2, 2) == 4;
    hide Pow;
    PowDouble(2, 4);
    PowDouble(4, 0x10);
    PowDouble(8, 0x100);
    PowDouble(16, 0x1_0000);
    PowDouble(32, 0x1_0000_0000);
    PowDouble(64, 0x1_0000_0000_0000_0000);
    PowDouble(128, 0x1_0000_0000_0000_0000_0000_0000_0000_0000);
    PowDouble(256, TWO256);
  }

  lemma PowDouble(n: nat, v: nat)
    requires Pow(2, n) == v
    ensures Pow(2, 2 * n) == v * v
  {
    PowAdd(2, n, n);
  }

  /** Dividing s by 2^e takes e factors of two off x * s. */
  lemma TwosDivided(p: int, x: int, s: int, s': int, e: nat, n: nat)
    requires p % 2 == 1 && Cong(x * s, Pow(2, n + e), p) && Cong(Pow(2, e) * s', s, p)
    ensures Cong(x * s', Pow(2, n), p)
  {
    CongRefl(x, p);
    hide Pow, Cong;
    CongMul(x, x, Pow(2, e) * s', s, p);
    CongTrans(x * (Pow(2, e) * s'), x * s, Pow(2, n + e), p);
    PowAdd(2, n, e);
    assert x * (Pow(2, e) * s') == x * s' * Pow(2, e);
    CongCancelPow2(x * s', Pow(2, n), e, p);
  }

  /** The final answer, for the number x0 that was reduced to x. */
  lemma InverseFound(p: int, x: int, x0: int, s: int)
    requires Cong(x * s, Pow(2, 0), p) && Cong(x, x0, p)
    ensures Cong(x0 * s, 1, p)
  {
    CongRefl(s, p);
    hide Cong;
    CongMul(x, x0, s, s, p);
    CongSymm(x * s, x0 * s, p);
    CongTrans(x0 * s, x * s, 1, p);
  }
}
