/** lib/trezor-crypto/bignum.c, the linear part: nine-limb numbers updated in place.
    Masks that are all ones or all zeros appear as conditionals, shifts as
    multiplication and division by powers of two. */
module Bignum {
  import opened Words
  import opened ModArith
  import opened Limbs

  ghost predicate Normalized(x: array<uint32>)
    reads x
  {
    x.Length == LIMBS && Normal(x[..])
  }

  ghost function Value(x: array<uint32>): (v: nat)
    requires x.Length == LIMBS
    reads x
  {
    Low(x[..], LIMBS)
  }

  /** The low 261 bits, which is what nine limbs keep. */
  function Low261(v: int): int {
    v % TWO261
  }

  lemma ValueBoundSeq(s: seq<uint32>)
    requires |s| == LIMBS && Normal(s)
    ensures Low(s, LIMBS) < TWO261
  {
    LowBound(s, LIMBS);
    Weights();
  }

  lemma ValueBound(x: array<uint32>)
    requires Normalized(x)
    ensures Value(x) < TWO261
  {
    LowBound(x[..], LIMBS);
    Weights();
  }

  method Copy(x: array<uint32>, y: array<uint32>)
    requires x.Length == y.Length == LIMBS
    modifies y
    ensures y[..] == old(x[..])
    ensures Value(y) == old(Value(x)) && (old(Normalized(x)) ==> Normalized(y))
  {
    for i := 0 to LIMBS
      invariant forall j :: 0 <= j < i ==> y[j] == old(x[j])
      invariant forall j :: i <= j < LIMBS ==> x[j] == old(x[j])
    {
      y[i] := x[i];
    }
  }

  method Zero(x: array<uint32>)
    requires x.Length == LIMBS
    modifies x
    ensures Normalized(x) && Value(x) == 0
  {
    for i := 0 to LIMBS
      invariant forall j :: 0 <= j < i ==> x[j] == 0
      invariant Low(x[..], i) == 0
    {
      ghost var s := x[..];
      x[i] := 0;
      LowExtend(s, x[..], i);
    }
  }

  method One(x: array<uint32>)
    requires x.Length == LIMBS
    modifies x
    ensures Normalized(x) && Value(x) == 1
  {
    x[0] := 1;
    assert Low(x[..], 1) == 1 by {
      assert Low(x[..], 0) == 0 && Weight(0) == 1;
    }
    for i := 1 to LIMBS
      invariant x[0] == 1 && forall j :: 1 <= j < i ==> x[j] == 0
      invariant Low(x[..], i) == 1
    {
      ghost var s := x[..];
      x[i] := 0;
      LowExtend(s, x[..], i);
    }
  }

  method IsZero(x: array<uint32>) returns (b: bool)
    requires Normalized(x)
    ensures b <==> Value(x) == 0
  {
    b := true;
    for i := 0 to LIMBS
      invariant b <==> Low(x[..], i) == 0
    {
      b := b && x[i] == 0;
      if x[i] > 0 {
        MulPositive(x[i], Weight(i));
      }
    }
  }

  method IsOne(x: array<uint32>) returns (b: bool)
    requires Normalized(x)
    ensures b <==> Value(x) == 1
  {
    b := x[0] == 1;
    assert Low(x[..], 1) == x[0] by {
      assert Low(x[..], 0) == 0 && Weight(0) == 1;
    }
    for i := 1 to LIMBS
      invariant b <==> Low(x[..], i) == 1
    {
      b := b && x[i] == 0;
      if x[i] > 0 {
        assert Weight(i) >= BASE;
        MulLe(1, BASE, x[i], Weight(i));
      }
    }
  }

  method IsEqual(x: array<uint32>, y: array<uint32>) returns (b: bool)
    requires Normalized(x) && Normalized(y)
    ensures b <==> Value(x) == Value(y)
  {
    b := true;
    for i := 0 to LIMBS
      invariant b <==> x[..i] == y[..i]
    {
      b := b && x[i] == y[i];
      assert x[..i + 1] == x[..i] + [x[i]] && y[..i + 1] == y[..i] + [y[i]];
    }
    assert x[..] == x[..LIMBS] && y[..] == y[..LIMBS];
    if Value(x) == Value(y) {
      LowInjective(x[..], y[..], LIMBS);
    }
  }

  /** x < y, found by comparing two nine-bit masks of limb comparisons. */
  method IsLess(x: array<uint32>, y: array<uint32>) returns (b: bool)
    requires Normalized(x) && Normalized(y)
    ensures b <==> Value(x) < Value(y)
  {
    ghost var caps := [512, 256, 128, 64, 32, 16, 8, 4, 2, 1];
    var res1: uint32, res2: uint32 := 0, 0;
    for i := LIMBS downto 0
      invariant res1 < caps[i] && res2 < caps[i]
      invariant Order(x[..], y[..], i, res1, res2)
    {
      OrderStep(x[..], y[..], i, res1, res2);
      res1 := 2 * res1 + (if x[i] < y[i] then 1 else 0);
      res2 := 2 * res2 + (if x[i] > y[i] then 1 else 0);
    }
    b := res1 > res2;
  }

  /** What the masks say about the limbs from i upwards: whichever is larger decides
      the comparison whatever the limbs below i are. */
  ghost predicate Order(x: seq<uint32>, y: seq<uint32>, i: nat, res1: nat, res2: nat)
    requires i <= LIMBS == |x| == |y|
  {
    && (res1 > res2 ==> Low(x, LIMBS) - Low(x, i) + Weight(i) <= Low(y, LIMBS) - Low(y, i))
    && (res2 > res1 ==> Low(y, LIMBS) - Low(y, i) + Weight(i) <= Low(x, LIMBS) - Low(x, i))
    && (res1 == res2 ==> Low(y, LIMBS) - Low(y, i) == Low(x, LIMBS) - Low(x, i))
  }

  lemma OrderStep(x: seq<uint32>, y: seq<uint32>, i: nat, res1: nat, res2: nat)
    requires i < LIMBS == |x| == |y| && Normal(x) && Normal(y)
    requires Order(x, y, i + 1, res1, res2)
    ensures Order(x, y, i, 2 * res1 + (if x[i] < y[i] then 1 else 0), 2 * res2 + (if x[i] > y[i] then 1 else 0))
  {
    var w := Weight(i);
    assert Weight(i + 1) == BASE * w;
    var u: int, v: int := x[i], y[i];
    Apart(u, v, w);
    Apart(v, u, w);
  }

  lemma Apart(u: int, v: int, w: int)
    requires 0 <= u < BASE && 0 <= v < BASE && w > 0
    ensures 0 <= u * w <= BASE * w - w
    ensures u < v ==> u * w + w <= v * w
  {
    MulLe(u, w, BASE - 1, w);
    if u < v {
      MulLe(u + 1, w, v, w);
    }
  }

  method Cmov(res: array<uint32>, cond: bool, truecase: array<uint32>, falsecase: array<uint32>)
    requires res.Length == truecase.Length == falsecase.Length == LIMBS
    modifies res
    ensures res[..] == old(if cond then truecase[..] else falsecase[..])
    ensures Value(res) == old(if cond then Value(truecase) else Value(falsecase))
    ensures old(if cond then Normalized(truecase) else Normalized(falsecase)) ==> Normalized(res)
  {
    for i := 0 to LIMBS
      invariant forall j :: 0 <= j < i ==> res[j] == old(if cond then truecase[j] else falsecase[j])
      invariant forall j :: i <= j < LIMBS ==> truecase[j] == old(truecase[j]) && falsecase[j] == old(falsecase[j])
    {
      res[i] := if cond then truecase[i] else falsecase[i];
    }
  }

  method Add(x: array<uint32>, y: array<uint32>)
    requires Normalized(x) && Normalized(y)
    requires Value(x) + Value(y) < TWO261
    modifies x
    ensures Normalized(x) && Value(x) == old(Value(x)) + old(Value(y))
  {
    hide Carries, Low;
    ghost var x0, y0 := x[..], y[..];
    var acc: uint32 := 0;
    CarriesStart(x0, 0, x0, 1, y0, 0, y0);
    for i := 0 to LIMBS
      invariant acc <= 7
      invariant forall j :: i <= j < LIMBS ==> x[j] == x0[j] && y[j] == y0[j]
      invariant forall j :: 0 <= j < i ==> x[j] < BASE
      invariant Carries(x[..], i, acc, 0, x0, 1, y0, 0, y0)
    {
      ghost var s, acc0 := x[..], acc;
      acc := acc + (x[i] + y[i]);
      ghost var t := acc;
      x[i] := acc % BASE;
      acc := acc / BASE;
      CarriesStep(s, x[..], i, acc0, 0, x0, 1, y0, 0, y0, t);
    }
    CarriesDone(x[..], acc, 0, x0, 1, y0, 0, y0);
  }

  /** res = x - y modulo 2^261; exact when x >= y.  Any of the three may be the same array. */
  method Subtract(x: array<uint32>, y: array<uint32>, res: array<uint32>)
    requires Normalized(x) && Normalized(y) && res.Length == LIMBS
    modifies res
    ensures Normalized(res) && Value(res) == Low261(old(Value(x)) - old(Value(y)))
    ensures old(Value(x)) >= old(Value(y)) ==> Value(res) == old(Value(x)) - old(Value(y))
  {
    hide Carries, Low;
    ghost var x0, y0 := x[..], y[..];
    var acc: uint32 := 1;
    CarriesStart(res[..], 1, x0, -1, y0, 0, y0);
    for i := 0 to LIMBS
      invariant acc <= 7
      invariant forall j :: i <= j < LIMBS ==> x[j] == x0[j] && y[j] == y0[j]
      invariant forall j :: 0 <= j < i ==> res[j] < BASE
      invariant Carries(res[..], i, acc, 1, x0, -1, y0, 0, y0)
    {
      ghost var s, acc0 := res[..], acc;
      acc := acc + ((BASE - 1) + x[i] - y[i]);
      ghost var t := acc;
      res[i] := acc % BASE;
      acc := acc / BASE;
      CarriesStep(s, res[..], i, acc0, 1, x0, -1, y0, 0, y0, t);
    }
    CarriesDone(res[..], acc, 1, x0, -1, y0, 0, y0);
    ValueBoundSeq(x0);
  }

  /** res = x + 2 * prime - y */
  method SubtractMod(x: array<uint32>, y: array<uint32>, res: array<uint32>, prime: array<uint32>)
    requires Normalized(x) && Normalized(y) && Normalized(prime) && res.Length == LIMBS && res != prime
    requires Value(y) < 2 * Value(prime) && Value(x) + 2 * Value(prime) - Value(y) < TWO261
    modifies res
    ensures Normalized(res) && Value(res) == old(Value(x)) + 2 * Value(prime) - old(Value(y))
  {
    hide Carries, Low;
    ghost var x0, y0, p := x[..], y[..], prime[..];
    var acc: uint32 := 1;
    CarriesStart(res[..], 1, x0, 2, p, -1, y0);
    for i := 0 to LIMBS
      invariant acc <= 7 && prime[..] == p
      invariant forall j :: i <= j < LIMBS ==> x[j] == x0[j] && y[j] == y0[j]
      invariant forall j :: 0 <= j < i ==> res[j] < BASE
      invariant Carries(res[..], i, acc, 1, x0, 2, p, -1, y0)
    {
      ghost var s, acc0 := res[..], acc;
      acc := acc + ((BASE - 1) + x[i] + 2 * prime[i] - y[i]);
      ghost var t := acc;
      res[i] := acc % BASE;
      acc := acc / BASE;
      CarriesStep(s, res[..], i, acc0, 1, x0, 2, p, -1, y0, t);
    }
    CarriesDone(res[..], acc, 1, x0, 2, p, -1, y0);
  }

  /** x = 2 * x; a bit shifted out of the top limb is lost. */
  method Lshift(x: array<uint32>)
    requires Normalized(x)
    modifies x
    ensures Normalized(x) && Value(x) == Low261(2 * old(Value(x)))
    ensures 2 * old(Value(x)) < TWO261 ==> Value(x) == 2 * old(Value(x))
  {
    hide Carries, Low;
    ghost var x0 := x[..];
    for i := LIMBS - 1 downto 0
      invariant forall j :: 0 <= j <= i ==> x[j] == x0[j]
      invariant forall j :: i < j < LIMBS ==> x[j] == (2 * x0[j]) % BASE + x0[j - 1] / 0x1000_0000
    {
      x[i + 1] := (2 * x[i + 1]) % BASE + x[i] / 0x1000_0000;
    }
    x[0] := (2 * x[0]) % BASE;
    DoubledDone(x0, x[..]);
  }

  lemma DoubledDone(x: seq<uint32>, t: seq<uint32>)
    requires |x| == |t| == LIMBS && Normal(x)
    requires t[0] == (2 * x[0]) % BASE
    requires forall j :: 0 < j < |x| ==> t[j] == (2 * x[j]) % BASE + x[j - 1] / 0x1000_0000
    ensures Normal(t) && Low(t, LIMBS) == Low261(2 * Low(x, LIMBS))
    ensures 2 * Low(x, LIMBS) < TWO261 ==> Low(t, LIMBS) == 2 * Low(x, LIMBS)
  {
    hide Low, Carries;
    Doubled(x, t, LIMBS);
    CarriesDone(t, x[8] / 0x1000_0000, 0, x, 1, x, 0, x);
  }

  lemma {:induction false} Doubled(x: seq<uint32>, t: seq<uint32>, n: nat)
    requires 0 < n <= |x| == |t| && Normal(x)
    requires t[0] == (2 * x[0]) % BASE
    requires forall j :: 0 < j < |x| ==> t[j] == (2 * x[j]) % BASE + x[j - 1] / 0x1000_0000
    ensures Carries(t, n, x[n - 1] / 0x1000_0000, 0, x, 1, x, 0, x)
    ensures forall j :: 0 <= j < n ==> t[j] < BASE
  {
    if n == 1 {
      CarriesStart(t, 0, x, 1, x, 0, x);
      CarriesStep(t, t, 0, 0, 0, x, 1, x, 0, x, 2 * x[0]);
    } else {
      Doubled(x, t, n - 1);
      var c := x[n - 2] / 0x1000_0000;
      CarriesStep(t, t, n - 1, c, 0, x, 1, x, 0, x, c + 2 * x[n - 1]);
    }
  }

  /** x = x / 2, rounded down */
  method Rshift(x: array<uint32>)
    requires Normalized(x)
    modifies x
    ensures Normalized(x) && Value(x) == old(Value(x)) / 2
  {
    ghost var x0 := x[..];
    assert Low(x0, 0) == 0 && Weight(0) == 1;
    for i := 0 to LIMBS - 1
      invariant forall j :: i <= j < LIMBS ==> x[j] == x0[j]
      invariant forall j :: 0 <= j < i ==> x[j] < BASE
      invariant 2 * Low(x[..], i) + x0[0] % 2 == Low(x0, i) + (x0[i] % 2) * Weight(i)
    {
      ghost var s := x[..];
      x[i] := x[i] / 2 + (x[i + 1] % 2) * 0x1000_0000;
      LowExtend(s, x[..], i);
      HalfStep(x0[i], x0[i + 1] % 2, x[i], Weight(i));
    }
    ghost var s := x[..];
    x[LIMBS - 1] := x[LIMBS - 1] / 2;
    LowExtend(s, x[..], LIMBS - 1);
    HalfStep(x0[8], 0, x[8], Weight(8));
  }

  lemma HalfStep(v: int, next: int, r: int, w: int)
    requires r == v / 2 + next * 0x1000_0000
    ensures 2 * (r * w) + (v % 2) * w == v * w + next * (BASE * w)
  {
    assert 2 * r + v % 2 == v + next * BASE;
    assert (2 * r + v % 2) * w == 2 * (r * w) + (v % 2) * w;
    assert (v + next * BASE) * w == v * w + next * (BASE * w);
  }

  /** x = x / 2 (mod prime): x / 2 if x is even, (x + prime) / 2 if not. */
  method MultHalf(x: array<uint32>, prime: array<uint32>)
    requires Normalized(x) && Normalized(prime) && x != prime
    requires Value(prime) % 2 == 1 && Value(x) + Value(prime) < TWO261
    modifies x
    ensures Normalized(x)
    ensures 2 * Value(x) == old(Value(x)) + (if old(Value(x)) % 2 == 0 then 0 else Value(prime))
  {
    hide Halved, Low;
    ghost var x0, p := x[..], prime[..];
    LowParity(x0, LIMBS);
    LowParity(p, LIMBS);
    var odd: uint32 := x[0] % 2;
    var acc: uint32 := (x[0] + (if odd == 1 then prime[0] else 0)) / 2;
    HalvedStart(x0, acc, odd, p);
    for i := 0 to LIMBS - 1
      invariant acc < 2 * BASE && prime[..] == p
      invariant forall j :: i < j < LIMBS ==> x[j] == x0[j]
      invariant forall j :: 0 <= j < i ==> x[j] < BASE
      invariant Halved(x[..], i, acc, x0, odd, p)
    {
      ghost var s, acc0 := x[..], acc;
      var temp: uint32 := x[i + 1] + (if odd == 1 then prime[i + 1] else 0);
      acc := acc + (temp % 2) * 0x1000_0000;
      ghost var acc1 := acc;
      x[i] := acc % BASE;
      acc := acc / BASE;
      acc := acc + temp / 2;
      HalvedStep(s, x[..], i, acc0, acc1, temp, x0, odd, p);
    }
    ghost var s := x[..];
    HalvedDone(s, acc, x0, odd, p);
    x[LIMBS - 1] := acc;
    LowExtend(s, x[..], LIMBS - 1);
  }

  /** After n limbs, twice what is stored and carried is the low n + 1 limbs of x + odd * p. */
  ghost predicate Halved(out: seq<uint32>, n: nat, acc: int, x: seq<uint32>, odd: int, p: seq<uint32>)
    requires n <= |out| && n < |x| && n < |p|
  {
    2 * (Low(out, n) + acc * Weight(n)) == Comb(x, odd, p, 0, p, n + 1)
  }

  lemma HalvedStart(x: seq<uint32>, acc: int, odd: int, p: seq<uint32>)
    requires |x| > 0 && |p| > 0 && 2 * acc == x[0] + odd * p[0]
    ensures Halved(x, 0, acc, x, odd, p)
  {
    assert Comb(x, odd, p, 0, p, 0) == 0 && Weight(0) == 1;
  }

  lemma HalvedStep(s: seq<uint32>, out: seq<uint32>, n: nat, acc: int, acc1: int, temp: int,
                   x: seq<uint32>, odd: int, p: seq<uint32>)
    requires n < |s| == |out| && forall i :: 0 <= i < n ==> s[i] == out[i]
    requires n + 1 < |x| && n + 1 < |p| && temp == x[n + 1] + odd * p[n + 1]
    requires Halved(s, n, acc, x, odd, p)
    requires acc1 == acc + (temp % 2) * 0x1000_0000 && out[n] == acc1 % BASE
    ensures Halved(out, n + 1, acc1 / BASE + temp / 2, x, odd, p)
  {
    LowExtend(s, out, n);
    CarrySplit(acc, 0, acc1 - acc, acc1, Weight(n));
    HalfDigit(temp, acc1 - acc, acc1 / BASE, Weight(n));
  }

  lemma HalfDigit(temp: int, d: int, q: int, w: int)
    requires d == (temp % 2) * 0x1000_0000
    ensures 2 * (d * w) + 2 * ((q + temp / 2) * (BASE * w)) == 2 * (q * (BASE * w)) + temp * (BASE * w)
  {
    var v, h := BASE * w, temp / 2;
    Distribute(q, 1, h, 0, 0, v);
    Distribute(temp % 2, 2, h, 0, 0, v);
    assert temp == temp % 2 + 2 * h;
    assert 2 * (d * w) == (temp % 2) * v by {
      MulAssoc(temp % 2, BASE, w);
      assert 2 * d == (temp % 2) * BASE;
    }
  }

  lemma HalvedDone(s: seq<uint32>, acc: int, x: seq<uint32>, odd: int, p: seq<uint32>)
    requires |s| == |x| == |p| == LIMBS && 0 <= acc && 0 <= odd <= 1
    requires Low(x, LIMBS) + Low(p, LIMBS) < TWO261
    requires Halved(s, LIMBS - 1, acc, x, odd, p)
    ensures acc < BASE
    ensures 2 * (Low(s, LIMBS - 1) + acc * Weight(LIMBS - 1)) == Low(x, LIMBS) + odd * Low(p, LIMBS)
  {
    CombLinear(x, odd, p, 0, p, LIMBS);
    Weights();
    if acc >= BASE {
      MulLe(BASE, TWO232, acc, TWO232);
    }
  }

  lemma {:induction false} LowParity(s: seq<uint32>, n: nat)
    requires 0 < n <= |s|
    ensures Low(s, n) % 2 == s[0] % 2
  {
    if n == 1 {
      assert Low(s, 0) == 0 && Weight(0) == 1;
    } else {
      LowParity(s, n - 1);
      EvenDigit(s[n - 1], Weight(n - 2));
    }
  }

  lemma EvenDigit(d: int, w: int)
    ensures (d * (BASE * w)) % 2 == 0
  {
    MulAssoc(d, BASE, w);
    MulAssoc(BASE / 2, d, w);
    assert d * BASE == 2 * (BASE / 2 * d);
    MulAssoc(2, BASE / 2 * d, w);
  }

  /** x = x if x < prime else x - prime */
  method Mod(x: array<uint32>, prime: array<uint32>)
    requires Normalized(x) && Normalized(prime) && x != prime && 0 < Value(prime)
    requires Value(x) < 2 * Value(prime)
    modifies x
    ensures Normalized(x) && Value(x) == old(Value(x)) % Value(prime)
  {
    ghost var v, p := Value(x), Value(prime);
    ValueBound(x);
    var less := IsLess(x, prime);
    var temp := new uint32[LIMBS];
    Subtract(x, prime, temp);
    ghost var t := Value(temp);
    Cmov(x, less, x, temp);
    ModOnce(v, p, t);
    assert Value(x) == if less then v else t;
  }

  lemma ModOnce(v: int, p: int, t: int)
    requires 0 <= v < 2 * p && (v >= p ==> t == v - p)
    ensures v % p == if v < p then v else t
  {
    ModUnique(v, p, if v < p then 0 else 1, if v < p then v else v - p);
  }
}
