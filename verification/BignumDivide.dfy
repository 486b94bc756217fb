/** lib/trezor-crypto/bignum.c, division by 2^29 modulo an odd number. */
module BignumDivide {
  import opened Words
  import opened ModArith
  import opened Limbs
  import opened Bignum

  /** 1 / a modulo 2^n by the product (1 - f)(1 + f^2)(1 + f^4)..., where f = a - 1. */
  method InverseModPowerTwo(a: uint32, n: nat) returns (acc: uint32)
    requires a % 2 == 1 && 1 <= n <= 32
    ensures Cong(a as int * acc, 1, Pow(2, n))
    ensures n > 1 ==> acc < Pow(2, n)
  {
    hide Cong, Pow, Wrap32, Approximates;
    var modulus: int := Pow(2, n);
    acc := Wrap32(2 - a as int);
    var f: uint32 := a - 1;
    InverseStart(a, n, acc);
    var i := 1;
    while i < n
      invariant 1 <= i
      invariant Approximates(a, acc, f, n) && Cong(f, 0, Pow(2, Min(i, n)))
      invariant i > 1 ==> acc < modulus
      decreases n - i
    {
      ghost var f0, acc0 := f, acc;
      f := Wrap32(f as int * f) % modulus;
      acc := Wrap32(acc as int * (1 + f as int)) % modulus;
      InverseStep(a, n, i, f0, acc0, f, acc);
      i := 2 * i;
    }
    InverseEnd(a, n, f, acc);
  }

  /** acc misses 1 / a by f^2 */
  ghost predicate Approximates(a: int, acc: int, f: int, n: nat) {
    Cong(a * acc, 1 - f * f, Pow(2, n))
  }

  lemma Wrapped(v: int, n: nat)
    requires n <= 32
    ensures Cong(Wrap32(v), v, Pow(2, n)) && Cong(Wrap32(v) % Pow(2, n), v, Pow(2, n))
  {
    hide Pow, Wrap32, Cong;
    PowAdd(2, n, 32 - n);
    Pow32();
    WrapCong(v);
    CongFactor(Wrap32(v), v, Pow(2, n), Pow(2, 32 - n));
    CongMod(Wrap32(v), Pow(2, n));
    CongTrans(Wrap32(v) % Pow(2, n), Wrap32(v), v, Pow(2, n));
  }

  lemma WrapCong(v: int)
    ensures Cong(Wrap32(v), v, 0x1_0000_0000)
  {}

  lemma InverseStart(a: uint32, n: nat, acc: uint32)
    requires a % 2 == 1 && 1 <= n <= 32 && acc == Wrap32(2 - a as int)
    ensures Approximates(a, acc, a - 1, n)
    ensures Pow(2, 1) == 2 && Cong(a - 1, 0, Pow(2, 1))
  {
    assert Pow(2, 0) == 1;
    hide Pow;
    var f: int := a as int - 1;
    Halves(f);
    StartProduct(a, n, acc);
  }

  lemma StartProduct(a: int, n: nat, acc: int)
    requires n <= 32 && acc == Wrap32(2 - a)
    ensures Cong(a * acc, 1 - (a - 1) * (a - 1), Pow(2, n))
  {
    hide Pow, Cong, Wrap32;
    Wrapped(2 - a, n);
    CongRefl(a, Pow(2, n));
    CongMul(a, a, acc, 2 - a, Pow(2, n));
    assert a * (2 - a) == 1 - (a - 1) * (a - 1);
  }

  lemma Halves(f: int)
    requires f % 2 == 0
    ensures Cong(f, 0, 2)
  {}

  lemma InverseStep(a: uint32, n: nat, i: nat, f: uint32, acc: uint32, f': uint32, acc': uint32)
    requires 1 <= i < n <= 32
    requires Approximates(a, acc, f, n) && Cong(f, 0, Pow(2, i))
    requires f' == Wrap32(f as int * f) % Pow(2, n)
    requires acc' == Wrap32(acc as int * (1 + f' as int)) % Pow(2, n)
    ensures Approximates(a, acc', f', n)
    ensures Cong(f', 0, Pow(2, Min(2 * i, n)))
    ensures acc' < Pow(2, n)
  {
    hide Wrap32, Cong, Pow;
    InverseProduct(a, n, f, acc, f', acc');
    Squared(n, i, f, f');
  }

  lemma InverseProduct(a: int, n: nat, f: int, acc: int, f': int, acc': int)
    requires n <= 32
    requires Cong(a * acc, 1 - f * f, Pow(2, n))
    requires f' == Wrap32(f * f) % Pow(2, n)
    requires acc' == Wrap32(acc * (1 + f')) % Pow(2, n)
    ensures Cong(a * acc', 1 - f' * f', Pow(2, n))
  {
    hide Wrap32, Pow, Cong;
    var m := Pow(2, n);
    Wrapped(f * f, n);
    Wrapped(acc * (1 + f'), n);
    CongRefl(a, m);
    CongRefl(1, m);
    CongRefl(1 + f', m);
    CongMul(a, a, acc', acc * (1 + f'), m);
    CongSub(1, 1, f', f * f, m);
    CongSymm(1 - f', 1 - f * f, m);
    CongTrans(a * acc, 1 - f * f, 1 - f', m);
    CongMul(a * acc, 1 - f', 1 + f', 1 + f', m);
    MulAssoc(a, acc, 1 + f');
    assert (1 - f') * (1 + f') == 1 - f' * f';
    CongTrans(a * acc', a * acc * (1 + f'), 1 - f' * f', m);
  }

  lemma Squared(n: nat, i: nat, f: int, f': int)
    requires 1 <= i < n <= 32
    requires Cong(f, 0, Pow(2, i)) && f' == Wrap32(f * f) % Pow(2, n)
    ensures Cong(f', 0, Pow(2, Min(2 * i, n)))
  {
    hide Wrap32, Pow, Cong;
    var e := Min(2 * i, n);
    Wrapped(f * f, n);
    PowAdd(2, e, n - e);
    CongFactor(f', f * f, Pow(2, e), Pow(2, n - e));
    var g := CongDiff(f, 0, Pow(2, i));
    PowAdd(2, i, i);
    PowAdd(2, e, 2 * i - e);
    SquareMultiple(f, g, Pow(2, i), Pow(2, 2 * i - e), Pow(2, e));
    CongTrans(f', f * f, 0, Pow(2, e));
  }

  lemma SquareMultiple(f: int, g: int, u: int, v: int, w: int)
    requires w > 0 && f == 0 + g * u && u * u == w * v
    ensures Cong(f * f, 0, w)
  {
    assert f * f == (g * g) * (u * u);
    assert (g * g) * (w * v) == ((g * g) * v) * w;
    CongBy(f * f, 0, (g * g) * v, w);
  }

  lemma InverseEnd(a: int, n: nat, f: int, acc: int)
    requires Approximates(a, acc, f, n) && Cong(f, 0, Pow(2, n))
    ensures Cong(a * acc, 1, Pow(2, n))
  {
    var m := Pow(2, n);
    CongMul(f, 0, f, 0, m);
    CongSub(1, 1, f * f, 0, m);
  }

  /** x = x / 2^29 (mod prime): add the multiple of prime that clears the low limb, then drop it. */
  method DivideBase(x: array<uint32>, prime: array<uint32>)
    requires Normalized(x) && Normalized(prime) && x != prime && Value(prime) % 2 == 1
    modifies x
    ensures Normalized(x)
    ensures Cong(BASE * Value(x), old(Value(x)), Value(prime))
    ensures BASE * Value(x) <= old(Value(x)) + (BASE - 1) * Value(prime)
  {
    hide Low, Divided, Cong, Wrap32, Pow;
    ghost var x0, p := x[..], prime[..];
    LowParity(p, LIMBS);
    var inv := InverseModPowerTwo(prime[0], 29);
    Base29();
    var m: uint32 := Wrap32(x[0] as int * (BASE - inv)) % BASE;
    LowLimbCleared(x[0], prime[0], inv, m);
    MulLe(m, prime[0], BASE - 1, BASE - 1);
    var acc: uint64 := x[0] as int + m as int * prime[0] as int;
    acc := acc / BASE;
    DividedStart(x0, m, p);
    for i := 1 to LIMBS
      invariant acc < 0x8_0000_0000 && prime[..] == p
      invariant forall j :: i <= j < LIMBS ==> x[j] == x0[j]
      invariant forall j :: 0 <= j < i - 1 ==> x[j] < BASE
      invariant Divided(x[..], i - 1, acc, x0, m, p)
    {
      ghost var s, acc0 := x[..], acc;
      MulLe(m, prime[i], BASE - 1, BASE - 1);
      acc := acc + x[i] as int + m as int * prime[i] as int;
      ghost var t := acc;
      x[i - 1] := acc % BASE;
      acc := acc / BASE;
      DividedStep(s, x[..], i - 1, acc0, x0, m, p, t);
    }
    ghost var s := x[..];
    DividedDone(s, acc, x0, m, p);
    x[LIMBS - 1] := acc;
    LowExtend(s, x[..], LIMBS - 1);
    CongBy(BASE * Value(x), Low(x0, LIMBS), m, Value(prime));
    MulLe(m, Value(prime), BASE - 1, Value(prime));
  }

  lemma LowLimbCleared(x: int, p: int, inv: int, m: int)
    requires Cong(p * inv, 1, BASE) && m == Wrap32(x * (BASE - inv)) % BASE
    ensures (x + m * p) % BASE == 0
  {
    hide Wrap32;
    Base29();
    Wrapped(x * (BASE - inv), 29);
    assert Cong(BASE - inv, -inv, BASE) by {
      CongBy(BASE - inv, -inv, 1, BASE);
    }
    CongMul(x, x, BASE - inv, -inv, BASE);
    CongTrans(m, x * (BASE - inv), x * -inv, BASE);
    CongMul(m, x * -inv, p, p, BASE);
    CongMul(-x, -x, p * inv, 1, BASE);
    assert x * -inv * p == -x * (p * inv);
    CongAdd(x, x, m * p, -x * 1, BASE);
  }

  /** BASE times what is stored and carried is the low n + 1 limbs of x + m * p. */
  ghost predicate Divided(out: seq<uint32>, n: nat, acc: int, x: seq<uint32>, m: int, p: seq<uint32>)
    requires n <= |out| && n < |x| && n < |p|
  {
    BASE * (Low(out, n) + acc * Weight(n)) == Comb(x, m, p, 0, p, n + 1)
  }

  lemma DividedStart(x: seq<uint32>, m: int, p: seq<uint32>)
    requires |x| > 0 && |p| > 0 && (x[0] + m * p[0]) % BASE == 0
    ensures Divided(x, 0, (x[0] + m * p[0]) / BASE, x, m, p)
  {
    assert Comb(x, m, p, 0, p, 0) == 0 && Weight(0) == 1;
  }

  lemma DividedStep(s: seq<uint32>, out: seq<uint32>, n: nat, acc: int, x: seq<uint32>, m: int, p: seq<uint32>, t: int)
    requires n < |s| == |out| && forall i :: 0 <= i < n ==> s[i] == out[i]
    requires n + 1 < |x| && n + 1 < |p|
    requires Divided(s, n, acc, x, m, p)
    requires t == acc + x[n + 1] + m * p[n + 1] && out[n] == t % BASE
    ensures Divided(out, n + 1, t / BASE, x, m, p)
  {
    var d := x[n + 1] + m * p[n + 1];
    LowExtend(s, out, n);
    CarrySplit(acc, 0, d, t, Weight(n));
    assert BASE * (d * Weight(n)) == d * Weight(n + 1);
  }

  lemma DividedDone(s: seq<uint32>, acc: int, x: seq<uint32>, m: int, p: seq<uint32>)
    requires |s| == |x| == |p| == LIMBS && Normal(x) && Normal(p) && 0 <= acc && 0 <= m < BASE
    requires Divided(s, LIMBS - 1, acc, x, m, p)
    ensures acc < BASE
    ensures BASE * (Low(s, LIMBS - 1) + acc * Weight(LIMBS - 1)) == Low(x, LIMBS) + m * Low(p, LIMBS)
  {
    CombLinear(x, m, p, 0, p, LIMBS);
    Weights();
    LowBound(x, LIMBS);
    LowBound(p, LIMBS);
    MulLe(m, Low(p, LIMBS), BASE - 1, TWO261 - 1);
    if acc >= BASE {
      MulLe(BASE, TWO232, acc, TWO232);
    }
  }
}
