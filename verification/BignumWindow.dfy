/** One step of the reduction of an eighteen-limb number: ten limbs from limb d upwards lose
    the multiple of the prime that their top 31 bits name. */
module BignumWindow {
  import opened Words
  import opened ModArith
  import opened Limbs

  const TWO287: nat := 0x8000_0000 * TWO256

  /** Below 2^287 * BASE^d nothing is stored above limb d + 9, and limb d + 9 is below 2^26. */
  lemma WindowTop(r: seq<uint32>, d: nat)
    requires d < LIMBS && |r| == 2 * LIMBS && Normal(r) && Low(r, 2 * LIMBS) < TWO287 * Weight(d)
    ensures forall j :: d + 10 <= j < 2 * LIMBS ==> r[j] == 0
    ensures Low(r, 2 * LIMBS) == Low(r, d) + Weight(d) * Low(r[d..], 10)
    ensures r[d + 9] < 0x400_0000
    ensures Low(r[d..], 10) < TWO287
  {
    WeightAdd(10, d);
    Weights();
    MulLe(TWO287, Weight(d), Weight(10), Weight(d));
    if d + 10 < 2 * LIMBS {
      LowTop(r, d + 10, 2 * LIMBS);
    }
    LowSplit(r, d, 10);
    if Low(r[d..], 10) >= TWO287 {
      MulLe(TWO287, Weight(d), Low(r[d..], 10), Weight(d));
    }
  }

  /** The window of ten limbs, cleared above the quotient guess. */
  lemma WindowGuess(w: seq<uint32>, p: nat, m: int)
    requires |w| >= 10 && w[8] < BASE && Low(w, 10) < TWO287
    requires forall j :: 0 <= j < 8 ==> w[j] < BASE
    requires m == w[8] as int / 0x100_0000 + w[9] as int * 32 && TWO256 - TWO224 <= p <= TWO256
    ensures 0 <= Low(w, 10) - m * p < 2 * p
    ensures Low(w, 10) == Low(w, 9) + w[9] * TWO261
  {
    Weights();
    LowBound(w, 8);
    var rest := w[8] % 0x100_0000;
    assert Low(w, 10) == Low(w, 8) + w[8] * TWO232 + w[9] * TWO261;
    assert w[8] * TWO232 == w[8] / 0x100_0000 * TWO256 + rest * TWO232;
    assert Low(w, 10) == Low(w, 8) + rest * TWO232 + m * TWO256;
    assert m * TWO256 - m * p == m * (TWO256 - p);
    MulLe(m, TWO256 - p, 0x7FFF_FFFF, TWO224);
  }

  lemma WindowReduced(w: seq<uint32>, p: seq<uint32>, m: int, acc: int, out: seq<uint32>)
    requires |w| >= 10 && |p| == LIMBS && |out| == LIMBS && Normal(out) && Low(w, 10) < TWO287
    requires forall j :: 0 <= j <= 8 ==> w[j] < BASE
    requires m == w[8] as int / 0x100_0000 + w[9] as int * 32 && TWO256 - TWO224 <= Low(p, LIMBS) <= TWO256
    requires Carries(out, LIMBS, acc, 0x8000_0000, w, -m, p, 0, p)
    ensures Low(out, LIMBS) == Low(w, 10) - m * Low(p, LIMBS)
  {
    hide Low, Carries;
    CarriesDone(out, acc, 0x8000_0000, w, -m, p, 0, p);
    WindowGuess(w, Low(p, LIMBS), m);
    MulNegate(m, Low(p, LIMBS));
    ModUnique(Low(w, LIMBS) - m * Low(p, LIMBS), TWO261, -(w[9] as int), Low(w, 10) - m * Low(p, LIMBS));
  }

  lemma CarriesCut(out: seq<uint32>, n: nat, acc: int, c: int,
                   x: seq<uint32>, a: int, y: seq<uint32>, b: int, z: seq<uint32>)
    requires n <= |out| && n <= |x| && n <= |y| && n <= |z|
    requires Carries(out, n, acc, c, x, a, y, b, z)
    ensures Carries(out[..n], n, acc, c, x, a, y, b, z)
  {
    LowFrame(out, out[..n], n);
  }

  lemma {:induction false} LowZeros(s: seq<uint32>, d: nat, n: nat)
    requires d <= n <= |s| && forall j :: d <= j < n ==> s[j] == 0
    ensures Low(s, n) == Low(s, d)
  {
    if d < n {
      LowZeros(s, d, n - 1);
    }
  }

  lemma WindowShrunk(r: seq<uint32>, p: seq<uint32>, d: nat, m: int, acc: int, s: seq<uint32>, out: seq<uint32>)
    requires d < LIMBS && |r| == |s| == |out| == 2 * LIMBS && |p| == LIMBS && Normal(r) && Normal(s)
    requires Low(r[d..], 10) < TWO287 && TWO256 - TWO224 <= Low(p, LIMBS) <= TWO256
    requires m == r[d + 8] as int / 0x100_0000 + r[d + 9] as int * 32
    requires Carries(s[d..], LIMBS, acc, 0x8000_0000, r[d..], -m, p, 0, p)
    requires out == s[d + LIMBS := 0]
    ensures Low(out[d..], 10) == Low(r[d..], 10) - m * Low(p, LIMBS)
    ensures 0 <= Low(r[d..], 10) - m * Low(p, LIMBS) < 2 * Low(p, LIMBS)
  {
    hide Carries;
    CarriesCut(s[d..], LIMBS, acc, 0x8000_0000, r[d..], -m, p, 0, p);
    var w := s[d..][..LIMBS];
    WindowReduced(r[d..], p, m, acc, w);
    WindowGuess(r[d..], Low(p, LIMBS), m);
    LowFrame(out[d..], w, LIMBS);
    assert out[d..][9] == 0;
  }

  lemma WindowDone(r: seq<uint32>, p: seq<uint32>, d: nat, m: int, acc: int, s: seq<uint32>, out: seq<uint32>)
    requires d < LIMBS && |r| == |s| == |out| == 2 * LIMBS && |p| == LIMBS && Normal(r) && Normal(s)
    requires Low(r, 2 * LIMBS) < TWO287 * Weight(d) && TWO256 - TWO224 <= Low(p, LIMBS) <= TWO256
    requires m == r[d + 8] as int / 0x100_0000 + r[d + 9] as int * 32
    requires Carries(s[d..], LIMBS, acc, 0x8000_0000, r[d..], -m, p, 0, p)
    requires forall j :: 0 <= j < 2 * LIMBS && !(d <= j < d + LIMBS) ==> s[j] == r[j]
    requires out == s[d + LIMBS := 0]
    ensures Low(out, 2 * LIMBS) < 2 * Low(p, LIMBS) * Weight(d)
    ensures Cong(Low(out, 2 * LIMBS), Low(r, 2 * LIMBS), Low(p, LIMBS))
  {
    hide Carries, Low, Weight, Cong;
    WindowTop(r, d);
    WindowShrunk(r, p, d, m, acc, s, out);
    LowZeros(out, d + 10, 2 * LIMBS);
    LowSplit(out, d, 10);
    LowFrame(out, r, d);
    LowBound(r, d);
    WindowValue(Low(out, 2 * LIMBS), Low(r, 2 * LIMBS), Low(r, d), Weight(d), Low(r[d..], 10), m, Low(p, LIMBS));
  }

  lemma WindowValue(out: int, r: int, low: int, w: int, s: int, m: int, p: int)
    requires 0 <= low < w && 0 < p && 0 <= s - m * p < 2 * p
    requires r == low + w * s && out == low + w * (s - m * p)
    ensures out < 2 * p * w
    ensures Cong(out, r, p)
  {
    MulAdd(w, s - m * p, m * p);
    assert w * (m * p) == (w * m) * p;
    CongBy(r, out, w * m, p);
    MulLe(w, s - m * p + 1, w, 2 * p);
    MulAdd(w, s - m * p, 1);
  }
}
