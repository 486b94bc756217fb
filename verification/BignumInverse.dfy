/** lib/trezor-crypto/bignum.c, the constant-time almost-Montgomery inverse. */
module BignumInverse {
  import opened Words
  import opened ModArith
  import opened Limbs
  import opened Bignum
  import opened BignumMod
  import opened BignumDivide
  import opened EuclidRounds

  /** One round: which of the four numbers are operands and destinations is chosen by the branch
      flags.  With no flag set (after the finish) the round still halves v and doubles r, and
      leaves u and s alone. */
  method InverseRound(u: array<uint32>, v: array<uint32>, r: array<uint32>, s: array<uint32>, zero: array<uint32>,
                      b1: bool, b3: bool, b4: bool)
    requires Normalized(u) && Normalized(v) && Normalized(r) && Normalized(s) && Normalized(zero)
    requires u != v && u != r && u != s && v != r && v != s && r != s && zero !in {u, v, r, s}
    requires Value(zero) == 0
    requires !(b1 && b3) && !(b1 && b4) && !(b3 && b4)
    requires b3 ==> Value(v) <= Value(u)
    requires b4 ==> Value(u) <= Value(v)
    requires b3 || b4 ==> Value(r) + Value(s) < TWO261
    requires b1 || b3 ==> 2 * Value(s) < TWO261
    modifies u, v, r, s
    ensures Normalized(u) && Normalized(v) && Normalized(r) && Normalized(s)
    ensures Value(u) == old(if b1 then Value(u) / 2 else if b3 then (Value(u) - Value(v)) / 2 else Value(u))
    ensures Value(v) == old(if b1 || b3 then Value(v) else if b4 then (Value(v) - Value(u)) / 2 else Value(v) / 2)
    ensures Value(s) == old(if b1 || b3 then 2 * Value(s) else if b4 then Value(s) + Value(r) else Value(s))
    ensures b1 ==> Value(r) == old(Value(r))
    ensures b3 ==> Value(r) == old(Value(r) + Value(s))
    ensures !b1 && !b3 && 2 * old(Value(r)) < TWO261 ==> Value(r) == 2 * old(Value(r))
  {
    hide Low, Normal;
    ValueBound(u);
    ValueBound(v);
    ValueBound(s);
    hide Value, Low261;
    ghost var u0, v0, r0, s0 := Value(u), Value(v), Value(r), Value(s);
    var dst := if b3 then u else v;
    Subtract(dst, if b3 || b4 then (if b3 then v else u) else zero, dst);
    assert Value(u) == (if b3 then u0 - v0 else u0) && Value(r) == r0 && Value(s) == s0;
    assert Value(v) == if b3 then v0 else if b4 then v0 - u0 else v0;
    dst := if b3 then r else s;
    Add(dst, if b3 || b4 then (if b3 then s else r) else zero);
    assert Value(r) == (if b3 then r0 + s0 else r0) && Value(s) == if b3 then s0 else if b4 then s0 + r0 else s0;
    assert Value(u) == (if b3 then u0 - v0 else u0) && Value(v) == if b3 then v0 else if b4 then v0 - u0 else v0;
    Rshift(if b1 || b3 then u else v);
    assert Value(r) == (if b3 then r0 + s0 else r0) && Value(s) == if b3 then s0 else if b4 then s0 + r0 else s0;
    Lshift(if b1 || b3 then s else r);
  }

  /** The rounds: s and the number k of factors of two still to be divided out of it. */
  method RunRounds(x: array<uint32>, prime: array<uint32>, r: array<uint32>, s: array<uint32>) returns (k: nat)
    requires Normalized(x) && GoodPrime(prime) && Value(prime) % 2 == 1 && Value(x) < Value(prime)
    requires r.Length == s.Length == LIMBS && r != s && r !in {x, prime} && s !in {x, prime}
    requires Progress(Value(prime), Value(x), Value(prime), Value(x), 0, 1, 0, 0, false)
    modifies r, s
    ensures Normalized(s) && Normalized(r) && k <= ROUNDS
    ensures if Value(x) == 0 then Value(s) == 1
            else k < 512 && Finished(Value(prime), Value(x), Value(s), k)
  {
    hide Low, Normal, Progress, Finished, Flags, Choose, Pow;
    ghost var p, xv := Value(prime), Value(x);
    var u, v, zero := new uint32[LIMBS], new uint32[LIMBS], new uint32[LIMBS];
    Copy(prime, u);
    Copy(x, v);
    One(s);
    Zero(r);
    Zero(zero);
    k := 0;
    var finished := false;
    for i := 0 to ROUNDS
      invariant Normalized(u) && Normalized(v) && Normalized(r) && Normalized(s) && Normalized(zero)
      invariant Value(zero) == 0 && Value(prime) == p && Value(x) == xv && k <= i
      invariant Progress(p, xv, Value(u), Value(v), Value(r), Value(s), k, i, finished)
    {
      ghost var u0, v0, r0, s0, f0, k0 := Value(u), Value(v), Value(r), Value(s), finished, k;
      RoundReady(p, xv, u0, v0, r0, s0, k, i, finished);
      var one := IsOne(v);
      finished := finished || one;
      var vLess := IsLess(v, u);
      LowParity(u[..], LIMBS);
      LowParity(v[..], LIMBS);
      var b1 := !finished && u[0] % 2 == 0;
      var b2 := !finished && !b1 && v[0] % 2 == 0;
      var b3 := !finished && !b1 && !b2 && vLess;
      var b4 := !finished && !b1 && !b2 && !b3;
      FlagsAre(u0, v0, finished, b1, b2, b3, b4);
      InverseRound(u, v, r, s, zero, b1, b3, b4);
      k := if finished then k else k + 1;
      RoundDone(p, xv, u0, v0, r0, s0, k0, i, f0, Value(u), Value(v), Value(r), Value(s));
    }
    RunDone(p, xv, Value(u), Value(v), Value(r), Value(s), k, finished);
  }

  lemma FlagsAre(u: int, v: int, done: bool, b1: bool, b2: bool, b3: bool, b4: bool)
    requires b1 == (!done && u % 2 == 0) && b2 == (!done && !b1 && v % 2 == 0)
    requires b3 == (!done && !b1 && !b2 && v < u) && b4 == (!done && !b1 && !b2 && !b3)
    ensures Flags(u, v, done) == (b1, b2, b3, b4)
    ensures !(b1 && b3) && !(b1 && b4) && !(b3 && b4)
  {}

  lemma RunDone(p: int, x: int, u: int, v: int, r: int, s: int, k: nat, finished: bool)
    requires Progress(p, x, u, v, r, s, k, ROUNDS, finished) && 0 <= x < p < TWO256
    ensures if x == 0 then s == 1 else k < 512 && Finished(p, x, s, k)
  {
    hide Pow, Finished, Euclid;
    if x > 0 {
      Pow512();
      MulLe(p, x, TWO256 - 1, TWO256 - 1);
      RoundsSuffice(p, x, u, v, r, s, k, finished);
    }
  }

  /** s = s / 2^k (mod prime) for k <= 522, by eighteen divisions by 2^29 and 29 by 2, of which
      only as many as needed are kept. */
  method DivideByPower(s: array<uint32>, r: array<uint32>, prime: array<uint32>, k: nat, ghost x: nat)
    requires Normalized(s) && Normalized(r) && GoodPrime(prime) && Value(prime) % 2 == 1
    requires s != r && r != prime && s != prime && Value(s) < Value(prime) && k <= ROUNDS
    requires x > 0 ==> k < 512 && Cong(x * Value(s), Pow(2, k), Value(prime))
    modifies s, r
    ensures Normalized(s) && Value(s) < Value(prime)
    ensures x > 0 ==> Cong(x * Value(s), Pow(2, 0), Value(prime))
  {
    hide Low, Normal, Cong, Pow;
    ghost var p := Value(prime);
    var whole, rest := k / 29, k % 29;
    for i := 0 to 2 * LIMBS
      invariant Normalized(s) && Normalized(r) && GoodPrime(prime) && Value(prime) == p && Value(s) < p
      invariant x > 0 ==> Cong(x * Value(s), Pow(2, rest + 29 * (whole - Min(i, whole))), p)
    {
      Copy(s, r);
      DivideBase(r, prime);
      ghost var s0 := Value(s);
      if x > 0 && i < whole {
        Base29();
        TwosDivided(p, x, s0, Value(r), 29, rest + 29 * (whole - i - 1));
      }
      Cmov(s, i < whole, r, s);
    }
    for i := 0 to 29
      invariant Normalized(s) && Normalized(r) && GoodPrime(prime) && Value(prime) == p && Value(s) < p
      invariant x > 0 ==> Cong(x * Value(s), Pow(2, rest - Min(i, rest)), p)
    {
      Copy(s, r);
      MultHalf(r, prime);
      ghost var s0 := Value(s);
      if x > 0 && i < rest {
        HalfCong(s0, Value(r), p);
        TwosDivided(p, x, s0, Value(r), 1, rest - i - 1);
      }
      Cmov(s, i < rest, r, s);
    }
  }

  lemma HalfCong(s: int, r: int, p: int)
    requires p > 0 && 2 * r == s + (if s % 2 == 0 then 0 else p)
    ensures Cong(Pow(2, 1) * r, s, p)
  {
    assert Pow(2, 0) == 1;
    CongBy(2 * r, s, if s % 2 == 0 then 0 else 1, p);
  }

  /** x = 1 / x (mod prime), or 0 when x is 0 (mod prime).  Always fully reduced. */
  method InverseFast(x: array<uint32>, prime: array<uint32>)
    requires x.Length == LIMBS && x != prime && GoodPrime(prime) && Value(prime) % 2 == 1
    requires Coprime(Value(x), Value(prime)) || Cong(Value(x), 0, Value(prime))
    modifies x
    ensures Normalized(x) && Value(x) < Value(prime)
    ensures if Cong(old(Value(x)), 0, Value(prime)) then Value(x) == 0
            else Cong(old(Value(x)) * Value(x), 1, Value(prime))
  {
    hide Low, Normal, Cong, Pow, Coprime, Progress;
    ghost var x0, p := Value(x), Value(prime);
    FastMod(x, prime);
    ghost var x1 := Value(x);
    Mod(x, prime);
    ghost var xv := Value(x);
    Reduced(x0, x1, xv, p);
    EuclidInit(p, xv, x0);
    var r, s := new uint32[LIMBS], new uint32[LIMBS];
    var k := RunRounds(x, prime, r, s);
    DivideByPower(s, r, prime, k, xv);
    if xv > 0 {
      InverseFound(p, xv, x0, Value(s));
    }
    var isZero := IsZero(x);
    Cmov(x, isZero, x, s);
  }

  lemma Reduced(x0: int, x1: int, x: int, p: int)
    requires p > 0 && Cong(x1, x0, p) && x == x1 % p
    ensures 0 <= x < p && Cong(x, x0, p)
  {
    CongMod(x1, p);
    CongTrans(x, x1, x0, p);
  }
}
