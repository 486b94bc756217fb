/** The signed-window recoding of lib/trezor-crypto/ecdsa.c point_multiply: an odd number
    below 2^257 as 2^256 plus sixty-four odd digits of absolute value below 16. */
module Window {
  import opened Words
  import opened ModArith
  import opened Limbs

  const TWO257: nat := 2 * TWO256

  function OddUp(t: int): int {
    if t % 2 == 0 then t + 1 else t
  }

  /** a without its low i nibbles, made odd */
  ghost function Head(a: nat, i: nat): int {
    OddUp(a / Pow(16, i))
  }

  /** The five bits of a from bit 4 * i. */
  ghost function Bits(a: nat, i: nat): (w: nat)
    ensures w < 32
  {
    a / Pow(16, i) % 32
  }

  /** The index of |digit| in the table P, 3P, ..., 15P: the nibble, complemented when bit 4 is clear. */
  function TableIndex(bits: nat): (j: nat)
    requires bits < 32
    ensures j < 8
  {
    if bits >= 16 then bits % 16 / 2 else (15 - bits) / 2
  }

  /** The signed digit: negative when bit 4, the lowest bit of the part above, is clear. */
  function Digit(bits: nat): (d: int)
    requires bits < 32
    ensures d % 2 == 1 && -16 < d < 16
  {
    if bits >= 16 then 2 * TableIndex(bits) + 1 else -(2 * TableIndex(bits) + 1)
  }

  /** sum of digit_j * 16^(j - i) for i <= j < 64 */
  ghost function DigitSum(a: nat, i: nat): int
    requires i <= 64
    decreases 64 - i
  {
    if i == 64 then 0 else Digit(Bits(a, i)) + 16 * DigitSum(a, i + 1)
  }

  lemma DivDiv(a: nat, b: nat, c: nat)
    requires b > 0 && c > 0
    ensures b * c > 0 && a / (b * c) == a / b / c
  {
    MulPositive(b, c);
    var q, r := a / b, a % b;
    assert a == q * b + r;
    var q2, r2 := q / c, q % c;
    assert q == q2 * c + r2;
    assert (q2 * c + r2) * b + r == q2 * (b * c) + (r2 * b + r) by {
      assert (q2 * c) * b == q2 * (b * c);
    }
    MulLe(r2, b, c - 1, b);
    assert (c - 1) * b == b * c - b;
    ModUnique(a, b * c, q2, r2 * b + r);
  }

  /** One window: sixteen times the odd part above, plus the signed digit, is the odd part. */
  lemma HeadStep(a: nat, i: nat)
    ensures Head(a, i) == 16 * Head(a, i + 1) + Digit(Bits(a, i))
  {
    var t := a / Pow(16, i);
    DivDiv(a, Pow(16, i), 16);
    assert Pow(16, i + 1) == Pow(16, i) * 16;
    OneWindow(t);
  }

  lemma OneWindow(t: nat)
    ensures OddUp(t) == 16 * OddUp(t / 16) + Digit(t % 32)
  {
    var h, nibble := t / 16, t % 16;
    var q, bit := h / 2, h % 2;
    assert t == 32 * q + 16 * bit + nibble;
    ModUnique(t, 32, q, 16 * bit + nibble);
  }

  /** The digits evaluate to the number without the 2^256 on top, scaled down. */
  lemma {:induction false} DigitsEvaluate(a: nat, i: nat)
    requires a < TWO257 && i <= 64
    ensures DigitSum(a, i) == Head(a, i) - Pow(16, 64 - i)
    decreases 64 - i
  {
    if i == 64 {
      Pow16();
      ModUnique(a, TWO256, if a < TWO256 then 0 else 1, if a < TWO256 then a else a - TWO256);
    } else {
      DigitsEvaluate(a, i + 1);
      HeadStep(a, i);
    }
  }

  lemma Pow16()
    ensures Pow(16, 63) == TWO256 / 16 && Pow(16, 64) == TWO256
  {
    assert Pow(16, 1) == 16;
    hide Pow;
    Square16(1, 16);
    Square16(2, 0x100);
    Square16(4, 0x1_0000);
    Square16(8, 0x1_0000_0000);
    Square16(16, 0x1_0000_0000_0000_0000);
    Square16(32, 0x1_0000_0000_0000_0000_0000_0000_0000_0000);
    PowAdd(16, 63, 1);
  }

  lemma Square16(n: nat, v: nat)
    requires Pow(16, n) == v
    ensures Pow(16, 2 * n) == v * v
  {
    PowAdd(16, n, n);
  }

  /** The whole sum: k itself when k is odd, k - order when k is even. */
  lemma DigitsAreScalar(a: nat)
    requires a % 2 == 1 && a < TWO257
    ensures DigitSum(a, 0) == a - TWO256
  {
    DigitsEvaluate(a, 0);
    Pow16();
    assert Pow(16, 0) == 1;
  }

  /** No partial sum vanishes, and all but the last are below 2^252. */
  lemma PartialSum(a: nat, i: nat)
    requires a < TWO257 && i < 64
    ensures DigitSum(a, i) % 2 == 1
    ensures i >= 1 ==> -(TWO256 / 16) < DigitSum(a, i) < TWO256 / 16
  {
    DigitsEvaluate(a, i);
    Pow16();
    EvenPower(64 - i);
    PowAdd(16, i, 64 - i);
    hide Pow, DigitSum, OddUp;
    HeadBound(a, Pow(16, i), Pow(16, 64 - i));
    if i >= 1 {
      PowLe(16, 64 - i, 63);
    }
  }

  lemma EvenPower(n: nat)
    requires n > 0
    ensures Pow(16, n) % 2 == 0
  {
    assert Pow(16, n) == 2 * (8 * Pow(16, n - 1));
  }

  lemma {:induction false} PowLe(b: nat, m: nat, n: nat)
    requires b > 0 && m <= n
    ensures Pow(b, m) <= Pow(b, n)
  {
    if m < n {
      PowLe(b, m, n - 1);
      MulLe(1, Pow(b, n - 1), b, Pow(b, n - 1));
    }
  }

  lemma HeadBound(a: nat, w: nat, v: int)
    requires w > 0 && v > 0 && w * v == TWO256 && a < TWO257 && v % 2 == 0
    ensures -v < OddUp(a / w) - v < v && (OddUp(a / w) - v) % 2 == 1
  {
    var t := a / w;
    assert a == t * w + a % w;
    assert 2 * v * w == 2 * (w * v);
    if t >= 2 * v {
      MulLe(2 * v, w, t, w);
    }
  }

  // ---------------------------------------------------------------- reading the windows from limbs

  /** 16^i as a weight and a shift: bit 4 * i is bit sh of limb l. */
  lemma {:induction false} BitPosition(l: nat, sh: nat, i: nat)
    requires 29 * l + sh == 4 * i
    ensures Pow(16, i) == Weight(l) * Pow(2, sh)
  {
    Pow16Is2(i);
    WeightIs2(l);
    PowAdd(2, 29 * l, sh);
  }

  lemma {:induction false} Pow16Is2(i: nat)
    ensures Pow(16, i) == Pow(2, 4 * i)
  {
    if i > 0 {
      Pow16Is2(i - 1);
      PowAdd(2, 4, 4 * (i - 1));
      assert Pow(2, 2) == 4;
      PowAdd(2, 2, 2);
    }
  }

  lemma {:induction false} WeightIs2(l: nat)
    ensures Weight(l) == Pow(2, 29 * l)
  {
    if l > 0 {
      WeightIs2(l - 1);
      Base29();
      PowAdd(2, 29, 29 * (l - 1));
    }
  }

  /** a / BASE^l is limb l plus BASE times what is above. */
  lemma LimbAt(s: seq<uint32>, l: nat) returns (high: nat)
    requires |s| == LIMBS && Normal(s) && l < LIMBS
    ensures Low(s, LIMBS) / Weight(l) == s[l] + BASE * high
    ensures high == if l == 8 then 0 else Low(s[l + 1..], LIMBS - l - 1)
  {
    LowSplit(s, l, LIMBS - l);
    LowBound(s, l);
    ModUnique(Low(s, LIMBS), Weight(l), Low(s[l..], LIMBS - l), Low(s, l));
    LowSplit(s[l..], 1, LIMBS - l - 1);
    assert Low(s[l..], 1) == s[l] by {
      assert Low(s[l..], 0) == 0 && Weight(0) == 1;
    }
    assert Weight(1) == BASE * Weight(0);
    assert s[l..][1..] == s[l + 1..];
    high := Low(s[l + 1..], LIMBS - l - 1);
  }

  lemma HighStep(s: seq<uint32>, l: nat) returns (higher: nat)
    requires |s| == LIMBS && Normal(s) && l < 8
    ensures Low(s[l + 1..], LIMBS - l - 1) == s[l + 1] + BASE * higher
  {
    LowSplit(s[l + 1..], 1, LIMBS - l - 2);
    assert Low(s[l + 1..], 1) == s[l + 1] by {
      assert Low(s[l + 1..], 0) == 0 && Weight(0) == 1;
    }
    assert Weight(1) == BASE * Weight(0);
    higher := Low(s[l + 1..][1..], LIMBS - l - 2);
  }

  /** A window inside one limb. */
  lemma BitsInLimb(s: seq<uint32>, l: nat, sh: nat, i: nat)
    requires |s| == LIMBS && Normal(s) && l < LIMBS && 29 * l + sh == 4 * i && sh <= 24
    ensures s[l] / Pow(2, sh) % 32 == Bits(Low(s, LIMBS), i)
  {
    var high := LimbAt(s, l);
    BitPosition(l, sh, i);
    DivDiv(Low(s, LIMBS), Weight(l), Pow(2, sh));
    PowAdd(2, sh, 29 - sh);
    PowAdd(2, 5, 24 - sh);
    Base29();
    hide Pow, Low, Weight;
    assert Pow(2, 5) == 32 by { Pow5(); }
    ShiftedPast(s[l], high, Pow(2, sh), Pow(2, 24 - sh));
  }

  lemma Pow5()
    ensures Pow(2, 5) == 32
  {}

  lemma ShiftedPast(v: int, high: int, e: int, f: int)
    requires 0 <= v && 0 <= high && e > 0 && f > 0 && e * (32 * f) == BASE
    ensures v / e % 32 == (v + BASE * high) / e % 32
  {
    var q, r := v / e, v % e;
    assert BASE * high == (32 * (f * high)) * e;
    assert v + BASE * high == (q + 32 * (f * high)) * e + r;
    ModUnique(v + BASE * high, e, q + 32 * (f * high), r);
  }

  /** A window across two limbs: s bits from the top of limb l under the bottom of limb l + 1. */
  lemma BitsAcross(s: seq<uint32>, l: nat, n: nat, i: nat)
    requires |s| == LIMBS && Normal(s) && l < 8 && 1 <= n <= 4 && 29 * l + (29 - n) == 4 * i
    ensures Wrap32(s[l + 1] as int * Pow(2, n)) as int + s[l] / Pow(2, 29 - n) < 0x1_0000_0000
    ensures (Wrap32(s[l + 1] as int * Pow(2, n)) as int + s[l] / Pow(2, 29 - n)) % 32 == Bits(Low(s, LIMBS), i)
  {
    var high := LimbAt(s, l);
    var higher := HighStep(s, l);
    BitPosition(l, 29 - n, i);
    DivDiv(Low(s, LIMBS), Weight(l), Pow(2, 29 - n));
    PowAdd(2, n, 29 - n);
    PowAdd(2, n, 5 - n);
    Base29();
    Pow5();
    hide Pow, Low, Weight, Wrap32;
    AcrossValue(s[l], s[l + 1], higher, Pow(2, 29 - n), Pow(2, n), Pow(2, 5 - n));
  }

  lemma AcrossValue(v: int, u: int, higher: int, e: int, f: int, f': int)
    requires 0 <= v < BASE && 0 <= u < BASE && 0 <= higher && e > 0 && f > 0 && f' > 0
    requires f * e == BASE && f * f' == 32
    ensures Wrap32(u * f) as int + v / e < 0x1_0000_0000
    ensures (Wrap32(u * f) as int + v / e) % 32 == (v + BASE * (u + BASE * higher)) / e % 32
  {
    hide Wrap32;
    var q := v / e;
    var x := u + BASE * higher;
    assert v == q * e + v % e;
    if q >= f {
      MulLe(f, e, q, e);
    }
    WholeShift(v, x, e, f);
    AcrossWrap(u, f, f', q);
    MulAdd(f, u, BASE * higher);
    Drop32(u * f + q, 0x100_0000 * (higher * f));
    assert x * f + q == u * f + q + 32 * (0x100_0000 * (higher * f));
  }

  lemma Drop32(v: int, k: int)
    ensures (v + 32 * k) % 32 == v % 32
  {}

  lemma WholeShift(v: int, x: int, e: int, f: int)
    requires e > 0 && f * e == BASE && 0 <= v
    ensures (v + BASE * x) / e == x * f + v / e
  {
    MulAssoc(x, f, e);
    assert v == v / e * e + v % e;
    assert (x * f + v / e) * e == x * f * e + v / e * e;
    ModUnique(v + BASE * x, e, x * f + v / e, v % e);
  }

  lemma AcrossWrap(u: int, f: int, f': int, q: int)
    requires 0 <= u && f > 0 && f' > 0 && f * f' == 32 && 0 <= q < f
    ensures Wrap32(u * f) as int + q < 0x1_0000_0000
    ensures (Wrap32(u * f) as int + q) % 32 == (u * f + q) % 32
  {
    var k := u * f / 0x1_0000_0000;
    var m := Wrap32(u * f);
    assert u * f == k * 0x1_0000_0000 + m;
    // m is a multiple of f below 2^32 = f * (f' * 2^27), so m <= 2^32 - f
    assert m == (u - k * (f' * 0x800_0000)) * f by {
      assert k * (f' * 0x800_0000) * f == k * 0x800_0000 * (f * f');
    }
    var t := u - k * (f' * 0x800_0000);
    assert f' * 0x800_0000 * f == 0x1_0000_0000;
    if t >= f' * 0x800_0000 {
      MulLe(f' * 0x800_0000, f, t, f);
    }
    assert t + 1 <= f' * 0x800_0000;
    MulLe2(t + 1, f' * 0x800_0000, f);
    assert (t + 1) * f == m + f;
  }

  lemma MulLe2(a: int, b: int, c: int)
    requires a <= b && c > 0
    ensures a * c <= b * c
  {}
}
