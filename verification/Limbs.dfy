/** Little-endian numbers in base 2^29, the representation of lib/trezor-crypto/bignum.h,
    and the one carry-propagation step that every loop of bignum.c performs. */
module Limbs {
  import opened Words
  import opened ModArith

  const LIMBS: nat := 9
  const BASE: nat := 0x2000_0000
  // 2^224, 2^256, the weight 2^232 of the top limb, and BASE^9 = 2^261
  const TWO224: nat := 0x1_00000000_0000000000000000_0000000000000000_0000000000000000
  const TWO232: nat := 0x1_00_00000000_0000000000000000_0000000000000000_0000000000000000
  const TWO256: nat := 0x1_0000000000000000_0000000000000000_0000000000000000_0000000000000000
  const TWO261: nat := 0x20_0000000000000000_0000000000000000_0000000000000000_0000000000000000

  /** BASE^i */
  ghost function Weight(i: nat): (w: nat)
    ensures w > 0
  {
    if i == 0 then 1 else BASE * Weight(i - 1)
  }

  /** The number held by the low n limbs of s. */
  ghost function Low(s: seq<uint32>, n: nat): (v: nat)
    requires n <= |s|
  {
    if n == 0 then 0 else Low(s, n - 1) + s[n - 1] * Weight(n - 1)
  }

  ghost predicate Normal(s: seq<uint32>) {
    forall i :: 0 <= i < |s| ==> s[i] < BASE
  }

  lemma Weights()
    ensures Weight(8) == TWO232 && Weight(9) == TWO261
  {
    assert Weight(2) == BASE * BASE;
    assert Weight(4) == BASE * BASE * BASE * BASE by {
      assert Weight(3) == BASE * Weight(2);
    }
    assert Weight(6) == BASE * BASE * Weight(4) by {
      assert Weight(5) == BASE * Weight(4);
    }
    assert Weight(8) == BASE * BASE * Weight(6) by {
      assert Weight(7) == BASE * Weight(6);
    }
  }

  lemma Base29()
    ensures Pow(2, 29) == BASE
  {
    Pow32();
    PowAdd(2, 29, 3);
    assert Pow(2, 3) == 8;
  }

  lemma {:induction false} WeightAdd(m: nat, n: nat)
    ensures Weight(m + n) == Weight(m) * Weight(n)
  {
    if m > 0 {
      WeightAdd(m - 1, n);
      MulAssoc(BASE, Weight(m - 1), Weight(n));
    }
  }

  lemma {:induction false} LowFrame(s: seq<uint32>, t: seq<uint32>, n: nat)
    requires n <= |s| && n <= |t|
    requires forall i :: 0 <= i < n ==> s[i] == t[i]
    ensures Low(s, n) == Low(t, n)
  {
    if n > 0 {
      LowFrame(s, t, n - 1);
    }
  }

  /** Writing limb n leaves the value below it alone and adds v * BASE^n above it. */
  lemma LowExtend(s: seq<uint32>, t: seq<uint32>, n: nat)
    requires n < |s| == |t|
    requires forall i :: 0 <= i < n ==> s[i] == t[i]
    ensures Low(t, n + 1) == Low(s, n) + t[n] * Weight(n)
  {
    LowFrame(s, t, n);
  }

  lemma {:induction false} LowBound(s: seq<uint32>, n: nat)
    requires n <= |s| && forall i :: 0 <= i < n ==> s[i] < BASE
    ensures Low(s, n) < Weight(n)
  {
    if n > 0 {
      LowBound(s, n - 1);
      MulLe(s[n - 1], Weight(n - 1), BASE - 1, Weight(n - 1));
    }
  }

  /** With arbitrary 32-bit limbs the value is still below 9 * BASE^n. */
  lemma {:induction false} LowBoundAny(s: seq<uint32>, n: nat)
    requires n <= |s|
    ensures Low(s, n) < 9 * Weight(n)
  {
    if n > 0 {
      LowBoundAny(s, n - 1);
      MulLe(s[n - 1], Weight(n - 1), 0xFFFF_FFFF, Weight(n - 1));
    }
  }

  /** sum over the low n limbs of (x_i + a * y_i + b * z_i) * BASE^i, limb by limb */
  ghost function Comb(x: seq<uint32>, a: int, y: seq<uint32>, b: int, z: seq<uint32>, n: nat): int
    requires n <= |x| && n <= |y| && n <= |z|
  {
    if n == 0 then 0
    else Comb(x, a, y, b, z, n - 1) + (x[n - 1] + a * y[n - 1] + b * z[n - 1]) * Weight(n - 1)
  }

  lemma {:induction false} CombLinear(x: seq<uint32>, a: int, y: seq<uint32>, b: int, z: seq<uint32>, n: nat)
    requires n <= |x| && n <= |y| && n <= |z|
    ensures Comb(x, a, y, b, z, n) == Low(x, n) + a * Low(y, n) + b * Low(z, n)
  {
    if n > 0 {
      CombLinear(x, a, y, b, z, n - 1);
      Distribute(x[n - 1], a, y[n - 1], b, z[n - 1], Weight(n - 1));
      MulAdd(a, Low(y, n - 1), y[n - 1] * Weight(n - 1));
      MulAdd(b, Low(z, n - 1), z[n - 1] * Weight(n - 1));
    }
  }

  lemma MulAdd(a: int, u: int, v: int)
    ensures a * (u + v) == a * u + a * v
  {}

  lemma Distribute(x: int, a: int, y: int, b: int, z: int, w: int)
    ensures (x + a * y + b * z) * w == x * w + a * (y * w) + b * (z * w)
  {
    MulAssoc(a, y, w);
    MulAssoc(b, z, w);
  }

  /** What a carry loop has established after n limbs: the limbs written, plus the carry at
      BASE^n, are the offset c (also at BASE^n) plus the total of the digits consumed. */
  ghost predicate Carried(out: seq<uint32>, n: nat, acc: int, c: int, total: int)
    requires n <= |out|
  {
    Low(out, n) + acc * Weight(n) == c * Weight(n) + total
  }

  /** One limb: t = acc + (BASE - 1) * c + d is split into the limb stored and the carry. */
  lemma CarryStep(s: seq<uint32>, out: seq<uint32>, n: nat, acc: int, c: int, total: int, d: int, t: int)
    requires n < |s| == |out| && forall i :: 0 <= i < n ==> s[i] == out[i]
    requires Carried(s, n, acc, c, total)
    requires t == acc + (BASE - 1) * c + d && out[n] == t % BASE
    ensures Carried(out, n + 1, t / BASE, c, total + d * Weight(n))
  {
    LowExtend(s, out, n);
    CarrySplit(acc, c, d, t, Weight(n));
  }

  lemma CarrySplit(acc: int, c: int, d: int, t: int, w: int)
    requires t == acc + (BASE - 1) * c + d
    ensures (t % BASE) * w + t / BASE * (BASE * w) == acc * w + d * w - c * w + c * (BASE * w)
  {
    MulAssoc(t / BASE, BASE, w);
    Distribute(t % BASE, BASE, t / BASE, 0, 0, w);
    assert t == t % BASE + BASE * (t / BASE);
    Distribute(acc - c, BASE, c, 1, d, w);
    assert (acc - c) * w == acc * w - c * w;
    assert BASE * (c * w) == c * (BASE * w);
    assert BASE * (t / BASE * w) == t / BASE * (BASE * w);
  }

  /** The same with the digits of x + a * y + b * z: the state of every linear loop. */
  ghost predicate Carries(out: seq<uint32>, n: nat, acc: int, c: int,
                          x: seq<uint32>, a: int, y: seq<uint32>, b: int, z: seq<uint32>)
    requires n <= |out| && n <= |x| && n <= |y| && n <= |z|
  {
    Carried(out, n, acc, c, Comb(x, a, y, b, z, n))
  }

  lemma CarriesStart(out: seq<uint32>, c: int, x: seq<uint32>, a: int, y: seq<uint32>, b: int, z: seq<uint32>)
    ensures Carries(out, 0, c, c, x, a, y, b, z)
  {}

  lemma CarriesStep(s: seq<uint32>, out: seq<uint32>, n: nat, acc: int, c: int,
                    x: seq<uint32>, a: int, y: seq<uint32>, b: int, z: seq<uint32>, t: int)
    requires n < |s| == |out| && n < |x| && n < |y| && n < |z|
    requires forall i :: 0 <= i < n ==> s[i] == out[i]
    requires Carries(s, n, acc, c, x, a, y, b, z)
    requires t == acc + (BASE - 1) * c + (x[n] + a * y[n] + b * z[n]) && out[n] == t % BASE
    ensures Carries(out, n + 1, t / BASE, c, x, a, y, b, z)
  {
    CarryStep(s, out, n, acc, c, Comb(x, a, y, b, z, n), x[n] + a * y[n] + b * z[n], t);
  }

  /** After all nine limbs: the number stored is x + a * y + b * z modulo 2^261. */
  lemma CarriesDone(out: seq<uint32>, acc: int, c: int,
                    x: seq<uint32>, a: int, y: seq<uint32>, b: int, z: seq<uint32>)
    requires LIMBS == |out| <= |x| && LIMBS <= |y| && LIMBS <= |z|
    requires Normal(out) && Carries(out, LIMBS, acc, c, x, a, y, b, z)
    ensures var v := Low(x, LIMBS) + a * Low(y, LIMBS) + b * Low(z, LIMBS);
      Low(out, LIMBS) == v % TWO261 && (0 <= v < TWO261 ==> acc == c && Low(out, LIMBS) == v)
  {
    CombLinear(x, a, y, b, z, LIMBS);
    LowBound(out, LIMBS);
    Weights();
    Split(Low(out, LIMBS), acc, TWO261, c, Comb(x, a, y, b, z, LIMBS));
  }

  /** A low part and a carry are the remainder and quotient of what they add up to. */
  lemma Split(low: int, acc: int, m: int, c: int, total: int)
    requires 0 <= low < m
    requires low + acc * m == c * m + total
    ensures low == total % m
    ensures 0 <= total < m ==> acc == c && low == total
  {
    var q, r := total / m, total % m;
    assert total == q * m + r;
    assert low - r == (c + q - acc) * m;
    SmallMultiple(c + q - acc, m);
    if 0 <= total < m {
      assert q == 0;
    }
  }

  /** Normal limbs are determined by the number they hold. */
  lemma {:induction false} LowInjective(s: seq<uint32>, t: seq<uint32>, n: nat)
    requires n <= |s| && n <= |t|
    requires forall i :: 0 <= i < n ==> s[i] < BASE && t[i] < BASE
    requires Low(s, n) == Low(t, n)
    ensures s[..n] == t[..n]
  {
    if n > 0 {
      LowBound(s, n - 1);
      LowBound(t, n - 1);
      Split(Low(s, n - 1), s[n - 1], Weight(n - 1), t[n - 1], Low(t, n - 1));
      LowInjective(s, t, n - 1);
    }
  }

  /** Cutting s at limb d. */
  lemma {:induction false} LowSplit(s: seq<uint32>, d: nat, n: nat)
    requires d + n <= |s|
    ensures Low(s, d + n) == Low(s, d) + Weight(d) * Low(s[d..], n)
  {
    if n > 0 {
      LowSplit(s, d, n - 1);
      WeightAdd(d, n - 1);
      Regroup(Weight(d), Low(s[d..], n - 1), s[d + n - 1], Weight(n - 1));
    }
  }

  lemma Regroup(w: int, low: int, v: int, u: int)
    ensures w * (low + v * u) == w * low + v * (w * u)
  {
    MulAdd(w, low, v * u);
    MulAssoc(w, v, u);
    MulAssoc(v, w, u);
  }

  /** A value below BASE^d leaves nothing from limb d upwards. */
  lemma {:induction false} LowTop(s: seq<uint32>, d: nat, n: nat)
    requires d <= n <= |s| && Low(s, n) < Weight(d)
    ensures forall j :: d <= j < n ==> s[j] == 0
    ensures Low(s, n) == Low(s, d)
  {
    if d < n {
      if s[n - 1] > 0 {
        WeightAdd(d, n - 1 - d);
        MulLe(Weight(d), 1, Weight(d), Weight(n - 1 - d));
        MulLe(1, Weight(n - 1), s[n - 1], Weight(n - 1));
      }
      LowTop(s, d, n - 1);
    }
  }
}
