/** lib/trezor-crypto/bignum.c, sums and small multiples whose limbs are not carried, brought
    below 2 * prime by subtracting a guessed multiple of the prime. */
module BignumMod {
  import opened Words
  import opened ModArith
  import opened Limbs
  import opened Bignum

  /** The primes bignum.c is written for. */
  ghost predicate GoodPrime(prime: array<uint32>)
    reads prime
  {
    Normalized(prime) && TWO256 - TWO224 <= Value(prime) <= TWO256
  }

  ghost predicate PartlyReduced(x: array<uint32>, p: nat)
    reads x
  {
    Normalized(x) && Value(x) < 2 * p
  }

  /** Subtract (x / 2^256, guessed from the top limb) * prime.  Works for every nine 32-bit
      words, carried or not: the guess may then be too small, and the result is still below
      2 * prime. */
  method FastMod(x: array<uint32>, prime: array<uint32>)
    requires x.Length == LIMBS && x != prime && GoodPrime(prime)
    modifies x
    ensures PartlyReduced(x, Value(prime))
    ensures Cong(Value(x), old(Value(x)), Value(prime))
    ensures old(Value(x)) > 0 && Value(prime) < TWO256 ==> Value(x) > 0
  {
    hide Carries, Low;
    ghost var x0, p := x[..], prime[..];
    var coef: uint32 := x[8] / 0x100_0000;
    var acc: uint64 := 256;
    ghost var m: int := coef;
    CarriesStart(x0, 256, x0, -m, p, 0, p);
    for i := 0 to LIMBS
      invariant acc < 0x8_0000_0000 && prime[..] == p
      invariant forall j :: i <= j < LIMBS ==> x[j] == x0[j]
      invariant forall j :: 0 <= j < i ==> x[j] < BASE
      invariant Carries(x[..], i, acc, 256, x0, -m, p, 0, p)
    {
      ghost var s, acc0 := x[..], acc;
      MulLe(prime[i], coef, BASE - 1, 255);
      MulNegate(m, p[i]);
      acc := acc + (((BASE - 1) * 256 + x[i]) - prime[i] * coef);
      ghost var t := acc;
      x[i] := acc % BASE;
      acc := acc / BASE;
      CarriesStep(s, x[..], i, acc0, 256, x0, -m, p, 0, p, t);
    }
    CarriesDone(x[..], acc, 256, x0, -m, p, 0, p);
    GuessDone(x0, p, m, x[..]);
  }

  lemma GuessDone(x: seq<uint32>, p: seq<uint32>, m: int, out: seq<uint32>)
    requires |x| == |p| == |out| == LIMBS && m == x[8] / 0x100_0000
    requires TWO256 - TWO224 <= Low(p, LIMBS) <= TWO256
    requires var v := Low(x, LIMBS) + -m * Low(p, LIMBS) + 0 * Low(p, LIMBS);
      0 <= v < TWO261 ==> Low(out, LIMBS) == v
    ensures Low(out, LIMBS) == Low(x, LIMBS) - m * Low(p, LIMBS)
    ensures Low(out, LIMBS) < 2 * Low(p, LIMBS)
    ensures Cong(Low(out, LIMBS), Low(x, LIMBS), Low(p, LIMBS))
    ensures Low(x, LIMBS) > 0 && Low(p, LIMBS) < TWO256 ==> Low(out, LIMBS) > 0
  {
    hide Low;
    GuessBound(x, Low(p, LIMBS));
    MulNegate(m, Low(p, LIMBS));
    CongBy(Low(x, LIMBS), Low(out, LIMBS), m, Low(p, LIMBS));
  }

  lemma GuessBound(x: seq<uint32>, p: nat)
    requires |x| == LIMBS && TWO256 - TWO224 <= p <= TWO256
    ensures 0 <= Low(x, LIMBS) - x[8] / 0x100_0000 * p < 2 * p
    ensures Low(x, LIMBS) > 0 && p < TWO256 ==> Low(x, LIMBS) - x[8] / 0x100_0000 * p > 0
  {
    Weights();
    LowBoundAny(x, 8);
    var coef, rest := x[8] / 0x100_0000, x[8] % 0x100_0000;
    assert x[8] * TWO232 == coef * TWO256 + rest * TWO232;
    assert coef * TWO256 - coef * p == coef * (TWO256 - p);
    MulLe(coef, TWO256 - p, 255, TWO224);
    if coef > 0 && p < TWO256 {
      MulPositive(coef, TWO256 - p);
    }
  }

  /** x = x * k (mod prime) */
  method MultK(x: array<uint32>, k: uint8, prime: array<uint32>)
    requires Normalized(x) && k <= 8 && GoodPrime(prime) && x != prime
    modifies x
    ensures PartlyReduced(x, Value(prime))
    ensures CongProduct(Value(x), k, old(Value(x)), Value(prime))
  {
    ghost var x0 := x[..];
    for i := 0 to LIMBS
      invariant prime[..] == old(prime[..])
      invariant forall j :: i <= j < LIMBS ==> x[j] == x0[j]
      invariant forall j :: 0 <= j < i ==> x[j] == k * x0[j]
    {
      MulLe(k, x[i], 8, BASE - 1);
      x[i] := k * x[i];
    }
    Scaled(x0, k, x[..], LIMBS);
    FastMod(x, prime);
  }

  lemma {:induction false} Scaled(x: seq<uint32>, k: nat, y: seq<uint32>, n: nat)
    requires n <= |x| == |y| && forall j :: 0 <= j < |x| ==> y[j] == k * x[j]
    ensures Low(y, n) == k * Low(x, n)
  {
    if n > 0 {
      Scaled(x, k, y, n - 1);
      MulAdd(k, Low(x, n - 1), x[n - 1] * Weight(n - 1));
      MulAssoc(k, x[n - 1], Weight(n - 1));
    }
  }

  /** x = x + y (mod prime) */
  method AddMod(x: array<uint32>, y: array<uint32>, prime: array<uint32>)
    requires Normalized(x) && Normalized(y) && GoodPrime(prime) && x != prime
    modifies x
    ensures PartlyReduced(x, Value(prime))
    ensures Cong(Value(x), old(Value(x)) + old(Value(y)), Value(prime))
  {
    ghost var x0, y0 := x[..], y[..];
    for i := 0 to LIMBS
      invariant prime[..] == old(prime[..])
      invariant forall j :: i <= j < LIMBS ==> x[j] == x0[j] && y[j] == y0[j]
      invariant forall j :: 0 <= j < i ==> x[j] == x0[j] + y0[j]
    {
      x[i] := x[i] + y[i];
    }
    Summed(x0, y0, x[..], LIMBS);
    FastMod(x, prime);
  }

  lemma {:induction false} Summed(x: seq<uint32>, y: seq<uint32>, z: seq<uint32>, n: nat)
    requires n <= |x| == |y| == |z| && forall j :: 0 <= j < |x| ==> z[j] as int == x[j] as int + y[j] as int
    ensures Low(z, n) == Low(x, n) + Low(y, n)
  {
    if n > 0 {
      Summed(x, y, z, n - 1);
      Distribute(x[n - 1], 1, y[n - 1], 0, 0, Weight(n - 1));
    }
  }

  /** x = x + prime - y.  The accumulator starts at -y, wrapped to 32 bits. */
  method SubI(x: array<uint32>, y: uint32, prime: array<uint32>)
    requires Normalized(x) && Normalized(prime) && x != prime && y < prime[0]
    requires Value(x) + Value(prime) - y < TWO261
    modifies x
    ensures Normalized(x) && Value(x) == old(Value(x)) + Value(prime) - y
  {
    hide Carries, Low, Wrap32;
    WrapIs(-(y as int), if y == 0 then 0 else -1, if y == 0 then 0 else 0x1_0000_0000 - y);
    ghost var x0, p := x[..], prime[..];
    ghost var q: seq<uint32> := p[0 := p[0] - y];
    LowFirst(q, p, LIMBS);
    var acc: uint32 := Wrap32(-(y as int));
    ghost var wrapped: int := if y == 0 then 0 else 1;
    ghost var carry: uint32 := 0;
    CarriesStart(x0, 0, x0, 1, q, 0, q);
    for i := 0 to LIMBS
      invariant if i == 0 then acc == wrapped * 0x1_0000_0000 - y && carry == 0 else acc == carry <= 7
      invariant prime[..] == p
      invariant forall j :: i <= j < LIMBS ==> x[j] == x0[j]
      invariant forall j :: 0 <= j < i ==> x[j] < BASE
      invariant Carries(x[..], i, carry, 0, x0, 1, q, 0, q)
    {
      ghost var s, acc0 := x[..], carry;
      ghost var t := acc0 + x0[i] + q[i];
      WrapIs(acc as int + (x[i] + prime[i]), if i == 0 then wrapped else 0, t);
      acc := Wrap32(acc as int + (x[i] + prime[i]));
      x[i] := acc % BASE;
      acc := acc / BASE;
      carry := acc;
      CarriesStep(s, x[..], i, acc0, 0, x0, 1, q, 0, q, t);
    }
    CarriesDone(x[..], carry, 0, x0, 1, q, 0, q);
  }

  lemma {:induction false} LowFirst(s: seq<uint32>, t: seq<uint32>, n: nat)
    requires 0 < n <= |s| == |t| && forall j :: 0 < j < |s| ==> s[j] == t[j]
    ensures Low(t, n) - Low(s, n) == t[0] as int - s[0] as int
  {
    if n == 1 {
      assert Low(s, 0) == Low(t, 0) == 0 && Weight(0) == 1;
    } else {
      LowFirst(s, t, n - 1);
    }
  }

  /** x = -x (mod prime) if cond, x = x + prime if not. */
  method CNegate(cond: bool, x: array<uint32>, prime: array<uint32>)
    requires GoodPrime(prime) && PartlyReduced(x, Value(prime)) && x != prime
    modifies x
    ensures Normalized(x)
    ensures Value(x) == if cond then 2 * Value(prime) - old(Value(x)) % Value(prime)
                        else Value(prime) + old(Value(x)) % Value(prime)
  {
    hide Carries, Low;
    Mod(x, prime);
    ghost var x0, p := x[..], prime[..];
    var acc1: uint32, acc2: uint32 := 1, 0;
    CarriesStart(x0, 1, p, 1, p, -1, x0);
    CarriesStart(x0, 0, p, 1, x0, 0, p);
    ghost var neg: seq<uint32>, pos: seq<uint32> := x0, x0;
    for i := 0 to LIMBS
      invariant acc1 <= 7 && acc2 <= 7 && prime[..] == p && |neg| == |pos| == LIMBS
      invariant forall j :: i <= j < LIMBS ==> x[j] == x0[j]
      invariant forall j :: 0 <= j < i ==> neg[j] < BASE && pos[j] < BASE && x[j] == if cond then neg[j] else pos[j]
      invariant Carries(neg, i, acc1, 1, p, 1, p, -1, x0)
      invariant Carries(pos, i, acc2, 0, p, 1, x0, 0, p)
    {
      ghost var n0, p0, a1, a2 := neg, pos, acc1, acc2;
      acc1 := acc1 + ((BASE - 1) + 2 * prime[i] - x[i]);
      acc2 := acc2 + (prime[i] + x[i]);
      neg, pos := neg[i := acc1 % BASE], pos[i := acc2 % BASE];
      CarriesStep(n0, neg, i, a1, 1, p, 1, p, -1, x0, acc1);
      CarriesStep(p0, pos, i, a2, 0, p, 1, x0, 0, p, acc2);
      x[i] := (if cond then acc1 else acc2) % BASE;
      acc1 := acc1 / BASE;
      acc2 := acc2 / BASE;
    }
    CarriesDone(neg, acc1, 1, p, 1, p, -1, x0);
    CarriesDone(pos, acc2, 0, p, 1, x0, 0, p);
    assert x[..] == if cond then neg else pos;
  }
}
