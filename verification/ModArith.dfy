/** Congruence modulo m, with the few rules every later proof uses. */
module ModArith {
  import opened Words

  ghost predicate Cong(a: int, b: int, m: int) {
    m > 0 && a % m == b % m
  }

  /** r = a * b modulo m */
  ghost predicate CongProduct(r: int, a: int, b: int, m: int) {
    Cong(r, a * b, m)
  }

  lemma SmallMultiple(k: int, m: int)
    requires -m < k * m < m
    ensures k == 0
  {
    if k >= 1 {
      MulLe(1, m, k, m);
    }
    if k <= -1 {
      MulLe(1, m, -k, m);
    }
  }

  lemma ModUnique(v: int, m: int, q: int, r: int)
    requires 0 <= r < m && v == q * m + r
    ensures v % m == r && v / m == q
  {
    assert v == v / m * m + v % m;
    assert (v / m - q) * m == v / m * m - q * m;
    SmallMultiple(v / m - q, m);
  }

  /** Adding a multiple of m changes nothing. */
  lemma CongShift(a: int, k: int, m: int)
    requires m > 0
    ensures Cong(a + k * m, a, m)
  {
    assert a == a / m * m + a % m;
    assert (a / m + k) * m == a / m * m + k * m;
    ModUnique(a + k * m, m, a / m + k, a % m);
  }

  /** Congruent numbers differ by a multiple of m. */
  lemma CongDiff(a: int, b: int, m: int) returns (k: int)
    requires Cong(a, b, m)
    ensures a == b + k * m
  {
    k := a / m - b / m;
    assert a == a / m * m + a % m && b == b / m * m + b % m;
    assert k * m == a / m * m - b / m * m;
  }

  lemma CongBy(a: int, b: int, k: int, m: int)
    requires m > 0 && a == b + k * m
    ensures Cong(a, b, m)
  {
    CongShift(b, k, m);
  }

  lemma CongRefl(a: int, m: int)
    requires m > 0
    ensures Cong(a, a, m)
  {}

  lemma CongSymm(a: int, b: int, m: int)
    requires Cong(a, b, m)
    ensures Cong(b, a, m)
  {}

  lemma CongTrans(a: int, b: int, c: int, m: int)
    requires Cong(a, b, m) && Cong(b, c, m)
    ensures Cong(a, c, m)
  {}

  lemma CongMod(v: int, m: int)
    requires m > 0
    ensures Cong(v % m, v, m)
  {
    assert v == v / m * m + v % m;
    CongBy(v, v % m, v / m, m);
  }

  lemma CongAdd(a: int, b: int, c: int, d: int, m: int)
    requires Cong(a, b, m) && Cong(c, d, m)
    ensures Cong(a + c, b + d, m)
  {
    var k := CongDiff(a, b, m);
    var l := CongDiff(c, d, m);
    assert (k + l) * m == k * m + l * m;
    CongBy(a + c, b + d, k + l, m);
  }

  lemma CongSub(a: int, b: int, c: int, d: int, m: int)
    requires Cong(a, b, m) && Cong(c, d, m)
    ensures Cong(a - c, b - d, m)
  {
    var k := CongDiff(a, b, m);
    var l := CongDiff(c, d, m);
    assert (k - l) * m == k * m - l * m;
    CongBy(a - c, b - d, k - l, m);
  }

  lemma CongMul(a: int, b: int, c: int, d: int, m: int)
    requires Cong(a, b, m) && Cong(c, d, m)
    ensures Cong(a * c, b * d, m)
  {
    var k := CongDiff(a, b, m);
    var l := CongDiff(c, d, m);
    assert a * c == b * c + (k * c) * m by {
      assert (k * m) * c == (k * c) * m;
    }
    assert b * c == b * d + (b * l) * m by {
      assert b * (l * m) == (b * l) * m;
    }
    CongBy(a * c, b * c, k * c, m);
    CongBy(b * c, b * d, b * l, m);
  }

  /** A factor that has an inverse can be cancelled. */
  lemma CongCancel(a: int, b: int, c: int, inv: int, m: int)
    requires Cong(c * inv, 1, m) && Cong(a * c, b * c, m)
    ensures Cong(a, b, m)
  {
    CongMul(a * c, b * c, inv, inv, m);
    assert a * c * inv == a * (c * inv) && b * c * inv == b * (c * inv);
    CongMul(a, a, c * inv, 1, m);
    CongMul(b, b, c * inv, 1, m);
  }

  /** Modulo an odd number, 2 is invertible: (m + 1) / 2 is its inverse. */
  lemma CongHalve(a: int, b: int, m: int)
    requires m % 2 == 1 && Cong(2 * a, 2 * b, m)
    ensures Cong(a, b, m)
  {
    CongShift(1, 1, m);
    CongCancel(a, b, 2, (m + 1) / 2, m);
  }

  /** Powers of two can be cancelled modulo an odd number. */
  lemma {:induction false} CongCancelPow2(a: int, b: int, e: nat, m: int)
    requires m % 2 == 1 && Cong(a * Pow(2, e), b * Pow(2, e), m)
    ensures Cong(a, b, m)
  {
    if e > 0 {
      var w := Pow(2, e - 1);
      assert a * (2 * w) == 2 * (a * w) && b * (2 * w) == 2 * (b * w);
      CongHalve(a * w, b * w, m);
      CongCancelPow2(a, b, e - 1, m);
    }
  }

  /** Congruence modulo a product holds modulo each factor. */
  lemma CongFactor(a: int, b: int, m: int, n: int)
    requires m > 0 && n > 0 && Cong(a, b, m * n)
    ensures Cong(a, b, m)
  {
    var k := CongDiff(a, b, m * n);
    assert k * (m * n) == (k * n) * m;
    CongBy(a, b, k * n, m);
  }
}
