/** lib/trezor-crypto/bignum.c, multiplication modulo the prime. */
module BignumMul {
  import opened Words
  import opened ModArith
  import opened Limbs
  import opened Bignum
  import opened BignumMod
  import opened LongMultiplication
  import opened BignumWindow

  /** res = k * x, eighteen limbs */
  method MultiplyLong(k: array<uint32>, x: array<uint32>, res: array<uint32>)
    requires Normalized(k) && Normalized(x) && res.Length == 2 * LIMBS && res != k && res != x
    modifies res
    ensures Normal(res[..]) && Low(res[..], 2 * LIMBS) == Value(k) * Value(x)
  {
    hide Carried, Low, Column, Columns;
    ghost var k0, x0 := k[..], x[..];
    var acc: uint64 := 0;
    ColumnsStart(res[..], k0, x0);
    for i := 0 to LIMBS
      invariant acc < 0x8_0000_0000 && k[..] == k0 && x[..] == x0
      invariant forall j :: 0 <= j < i ==> res[j] < BASE
      invariant Carried(res[..], i, acc, 0, Columns(k0, x0, LIMBS, i))
    {
      ghost var s, acc0 := res[..], acc;
      ColumnEmpty(k0, x0, i);
      for j := 0 to i + 1
        invariant acc == acc0 + Column(k0, x0, j, i) && res[..] == s && k[..] == k0 && x[..] == x0
      {
        ColumnNext(k0, x0, j, i);
        ColumnBound(k0, x0, j + 1, i);
        var a: uint64, b: uint64 := k[j], x[i - j];
        acc := acc + a * b;
      }
      ColumnSkip(k0, x0, i + 1, LIMBS, i);
      ColumnBound(k0, x0, LIMBS, i);
      ghost var t := acc;
      res[i] := acc % BASE;
      acc := acc / BASE;
      ColumnsStep(s, res[..], k0, x0, i, acc0, t);
    }
    for i := LIMBS to 2 * LIMBS - 1
      invariant acc < 0x8_0000_0000 && k[..] == k0 && x[..] == x0
      invariant forall j :: 0 <= j < i ==> res[j] < BASE
      invariant Carried(res[..], i, acc, 0, Columns(k0, x0, LIMBS, i))
    {
      ghost var s, acc0 := res[..], acc;
      ColumnEmpty(k0, x0, i);
      ColumnSkip(k0, x0, 0, i - LIMBS + 1, i);
      for j := i - LIMBS + 1 to LIMBS
        invariant acc == acc0 + Column(k0, x0, j, i) && res[..] == s && k[..] == k0 && x[..] == x0
      {
        ColumnNext(k0, x0, j, i);
        ColumnBound(k0, x0, j + 1, i);
        var a: uint64, b: uint64 := k[j], x[i - j];
        acc := acc + a * b;
      }
      ColumnBound(k0, x0, LIMBS, i);
      ghost var t := acc;
      res[i] := acc % BASE;
      acc := acc / BASE;
      ColumnsStep(s, res[..], k0, x0, i, acc0, t);
    }
    ghost var s := res[..];
    ColumnsDone(s, k0, x0, acc);
    res[2 * LIMBS - 1] := acc;
    LowExtend(s, res[..], 2 * LIMBS - 1);
  }

  /** res = res - (res / (2^256 * BASE^d)) * prime * BASE^d, which is below 2 * prime * BASE^d */
  method MultiplyReduceStep(res: array<uint32>, prime: array<uint32>, d: nat)
    requires d < LIMBS && res.Length == 2 * LIMBS && Normal(res[..]) && GoodPrime(prime) && res != prime
    requires Low(res[..], 2 * LIMBS) < TWO287 * Weight(d)
    modifies res
    ensures Normal(res[..])
    ensures Low(res[..], 2 * LIMBS) < 2 * Value(prime) * Weight(d)
    ensures Cong(Low(res[..], 2 * LIMBS), old(Low(res[..], 2 * LIMBS)), Value(prime))
  {
    hide Carries, Low;
    ghost var r0, p := res[..], prime[..];
    WindowTop(r0, d);
    var coef: uint32 := res[d + 8] / 0x100_0000 + res[d + 9] * 32;
    ghost var m: int := coef;
    ghost var w := r0[d..];
    var acc: uint64 := 0x8000_0000;
    CarriesStart(w, 0x8000_0000, w, -m, p, 0, p);
    for i := 0 to LIMBS
      invariant acc < 0x8_0000_0000 && prime[..] == p
      invariant forall j :: 0 <= j < 2 * LIMBS && !(d <= j < d + i) ==> res[j] == r0[j]
      invariant Normal(res[..])
      invariant Carries(res[d..], i, acc, 0x8000_0000, w, -m, p, 0, p)
    {
      ghost var s, acc0 := res[d..], acc;
      MulLe(prime[i], coef, BASE - 1, 0x7FFF_FFFF);
      MulNegate(m, p[i]);
      assert w[i] == res[d + i];
      acc := acc + (((BASE - 1) * 0x8000_0000 + res[d + i]) - prime[i] * coef);
      ghost var t := acc;
      res[d + i] := acc % BASE;
      acc := acc / BASE;
      assert res[d..][i] == t % BASE;
      CarriesStep(s, res[d..], i, acc0, 0x8000_0000, w, -m, p, 0, p, t);
    }
    assert Normal(res[d..][..LIMBS]);
    ghost var s := res[..];
    res[d + LIMBS] := 0;
    WindowDone(r0, p, d, m, acc, s, res[..]);
  }

  /** Bring an eighteen-limb number below 2 * prime. */
  method Reduce(x: array<uint32>, prime: array<uint32>)
    requires x.Length == 2 * LIMBS && Normal(x[..]) && GoodPrime(prime) && x != prime
    requires Low(x[..], 2 * LIMBS) < TWO287 * TWO232
    modifies x
    ensures Normal(x[..]) && Low(x[..], 2 * LIMBS) < 2 * Value(prime)
    ensures Cong(Low(x[..], 2 * LIMBS), old(Low(x[..], 2 * LIMBS)), Value(prime))
  {
    hide Low, Cong;
    Weights();
    ghost var p := prime[..];
    CongRefl(Low(x[..], 2 * LIMBS), Value(prime));
    for i := LIMBS downto 0
      invariant prime[..] == p && Normal(x[..])
      invariant i == LIMBS ==> Low(x[..], 2 * LIMBS) < TWO287 * TWO232
      invariant i < LIMBS ==> Low(x[..], 2 * LIMBS) < 2 * Value(prime) * Weight(i)
      invariant Cong(Low(x[..], 2 * LIMBS), old(Low(x[..], 2 * LIMBS)), Value(prime))
    {
      ReduceRoom(Value(prime), Weight(i));
      ghost var v := Low(x[..], 2 * LIMBS);
      MultiplyReduceStep(x, prime, i);
      CongTrans(Low(x[..], 2 * LIMBS), v, old(Low(x[..], 2 * LIMBS)), Value(prime));
    }
  }

  lemma ReduceRoom(p: int, w: int)
    requires 0 <= p <= TWO256 && w > 0
    ensures 2 * p * (BASE * w) <= TWO287 * w
  {
    MulAssoc(2 * p, BASE, w);
    MulLe(2 * p * BASE, w, TWO287, w);
  }

  /** The product is below 2^519. */
  ghost predicate Multipliable(u: nat, v: nat) {
    u * v < TWO287 * TWO232
  }

  lemma Fits(u: int, v: int)
    requires 0 <= u < 8 * TWO256 && 0 <= v < 8 * TWO256
    ensures Multipliable(u, v)
  {
    MulLe(u, v, 8 * TWO256, 8 * TWO256);
  }

  /** x = k * x (mod prime), partly reduced.  k may be the same array as x. */
  method Multiply(k: array<uint32>, x: array<uint32>, prime: array<uint32>)
    requires Normalized(k) && Normalized(x) && GoodPrime(prime) && x != prime
    requires Multipliable(Value(k), Value(x))
    modifies x
    ensures PartlyReduced(x, Value(prime))
    ensures CongProduct(Value(x), old(Value(k)), old(Value(x)), Value(prime))
  {
    hide Low;
    ghost var p := prime[..];
    var res := new uint32[2 * LIMBS];
    MultiplyLong(k, x, res);
    Reduce(res, prime);
    ghost var r := res[..];
    ProductFits(r);
    for i := 0 to LIMBS
      invariant prime[..] == p && res[..] == r
      invariant forall j :: 0 <= j < i ==> x[j] == r[j]
    {
      x[i] := res[i];
    }
    LowFrame(x[..], r, LIMBS);
  }

  lemma ProductFits(r: seq<uint32>)
    requires |r| == 2 * LIMBS && Low(r, 2 * LIMBS) < TWO261
    ensures Low(r, 2 * LIMBS) == Low(r, LIMBS)
  {
    Weights();
    LowTop(r, LIMBS, 2 * LIMBS);
  }
}
