/** The field GF(2^128) of section 6.3 of NIST SP 800-38D: polynomials over GF(2) as sequences of
    coefficients, lowest first, modulo x^128 + x^7 + x^2 + x + 1. */
module Gf128 {
  type Poly = seq<bool>

  function Zero(n: nat): (z: Poly)
    ensures |z| == n && forall i :: 0 <= i < n ==> !z[i]
  {
    seq(n, i => false)
  }

  function Xor(a: Poly, b: Poly): (c: Poly)
    requires |a| == |b|
    ensures |c| == |a| && forall i :: 0 <= i < |a| ==> c[i] == (a[i] != b[i])
  {
    seq(|a|, i requires 0 <= i < |a| => a[i] != b[i])
  }

  type Elem = a: Poly | |a| == 128 witness Zero(128)

  /** x^128 reduced. */
  function Rest(): (r: Elem)
    ensures forall i :: 0 <= i < 128 ==> r[i] == (i in {0, 1, 2, 7})
  {
    seq(128, i => i in {0, 1, 2, 7})
  }

  function One(): (r: Elem)
    ensures forall i :: 0 <= i < 128 ==> r[i] == (i == 0)
  {
    seq(128, i => i == 0)
  }

  function If(c: bool, a: Elem): Elem {
    if c then a else Zero(128)
  }

  /** Multiplication by x. */
  function MulX(a: Elem): Elem {
    Xor([false] + a[..127], If(a[127], Rest()))
  }

  /** b(x) * a, for b of any degree. */
  function Act(a: Elem, b: Poly): Elem {
    if |b| == 0 then Zero(128) else Xor(If(b[0], a), MulX(Act(a, b[1..])))
  }

  function Mul(a: Elem, b: Elem): Elem {
    Act(a, b)
  }

  /** x^n * a */
  function Shift(a: Elem, n: nat): Elem {
    if n == 0 then a else MulX(Shift(a, n - 1))
  }

  // ---------------------------------------------------------------- linearity

  lemma XorLaws(a: Poly, b: Poly, c: Poly)
    requires |a| == |b| == |c|
    ensures Xor(a, b) == Xor(b, a) && Xor(Xor(a, b), c) == Xor(a, Xor(b, c))
    ensures Xor(a, Zero(|a|)) == a && Xor(Zero(|a|), a) == a && Xor(a, a) == Zero(|a|)
  {}

  lemma XorSwap(a: Elem, b: Elem, c: Elem, d: Elem)
    ensures Xor(Xor(a, b), Xor(c, d)) == Xor(Xor(a, c), Xor(b, d))
  {}

  lemma IfLinear(p: bool, q: bool, a: Elem, b: Elem)
    ensures If(p, Xor(a, b)) == Xor(If(p, a), If(p, b)) && If(p != q, a) == Xor(If(p, a), If(q, a))
    ensures MulX(If(p, a)) == If(p, MulX(a))
  {
    MulXLinear(a, a);
  }

  lemma MulXLinear(a: Elem, b: Elem)
    ensures MulX(Xor(a, b)) == Xor(MulX(a), MulX(b)) && MulX(Zero(128)) == Zero(128)
  {
    assert forall i {:trigger MulX(Xor(a, b))[i]} :: 0 <= i < 128 ==> MulX(Xor(a, b))[i] == Xor(MulX(a), MulX(b))[i];
    assert forall i {:trigger MulX(Zero(128))[i]} :: 0 <= i < 128 ==> !MulX(Zero(128))[i];
  }

  lemma {:induction false} ActLeft(a: Elem, b: Elem, c: Poly)
    ensures Act(Xor(a, b), c) == Xor(Act(a, c), Act(b, c)) && Act(Zero(128), c) == Zero(128)
  {
    if |c| > 0 {
      var d := c[1..];
      ActLeft(a, b, d);
      MulXLinear(Act(a, d), Act(b, d));
      IfLinear(c[0], c[0], a, b);
      hide MulX, If;
      XorSwap(If(c[0], a), If(c[0], b), MulX(Act(a, d)), MulX(Act(b, d)));
      XorLaws(Zero(128), Zero(128), Zero(128));
      assert If(c[0], Zero(128)) == Zero(128) by { ZeroIf(c[0]); }
    }
  }

  lemma ZeroIf(p: bool)
    ensures If(p, Zero(128)) == Zero(128)
  {}

  lemma {:induction false} ActRight(a: Elem, b: Poly, c: Poly)
    requires |b| == |c|
    ensures Act(a, Xor(b, c)) == Xor(Act(a, b), Act(a, c))
  {
    if |b| > 0 {
      var u, v := Act(a, b[1..]), Act(a, c[1..]);
      ActRight(a, b[1..], c[1..]);
      assert Xor(b, c)[1..] == Xor(b[1..], c[1..]);
      MulXLinear(u, v);
      IfLinear(b[0], c[0], a, a);
      hide MulX, If;
      XorSwap(If(b[0], a), If(c[0], a), MulX(u), MulX(v));
    } else {
      XorLaws(Zero(128), Zero(128), Zero(128));
    }
  }

  /** Multiplication by x may be done before or after. */
  lemma {:induction false} ActMulX(a: Elem, b: Poly)
    ensures Act(MulX(a), b) == MulX(Act(a, b))
  {
    if |b| > 0 {
      var u := Act(a, b[1..]);
      ActMulX(a, b[1..]);
      IfLinear(b[0], b[0], a, a);
      MulXLinear(If(b[0], a), MulX(u));
    } else {
      MulXLinear(a, a);
    }
  }

  lemma {:induction false} ActZeros(a: Elem, n: nat)
    ensures Act(a, Zero(n)) == Zero(128)
  {
    if n > 0 {
      ActZeros(a, n - 1);
      assert Zero(n)[1..] == Zero(n - 1);
      MulXLinear(a, a);
      XorLaws(Zero(128), Zero(128), Zero(128));
    }
  }

  lemma {:induction false} ActConcat(a: Elem, b: Poly, c: Poly)
    ensures Act(a, b + c) == Xor(Act(a, b), Shift(Act(a, c), |b|))
  {
    hide MulX, If, Xor;
    if |b| == 0 {
      assert b + c == c;
      XorLaws(Act(a, c), Act(a, c), Act(a, c));
    } else {
      var d := b[1..];
      ActConcat(a, d, c);
      assert (b + c)[1..] == d + c && (b + c)[0] == b[0];
      var s := Shift(Act(a, c), |d|);
      MulXLinear(Act(a, d), s);
      XorLaws(If(b[0], a), MulX(Act(a, d)), MulX(s));
    }
  }

  lemma {:induction false} ShiftAdd(a: Elem, m: nat, n: nat)
    ensures Shift(a, m + n) == Shift(Shift(a, n), m)
  {
    hide MulX;
    if m > 0 {
      ShiftAdd(a, m - 1, n);
    }
  }

  lemma {:induction false} ActShift(a: Elem, b: Poly, n: nat)
    ensures Act(Shift(a, n), b) == Shift(Act(a, b), n)
  {
    hide MulX, Act;
    if n > 0 {
      ActShift(a, b, n - 1);
      ActMulX(Shift(a, n - 1), b);
    }
  }

  // ---------------------------------------------------------------- 1 and x^128

  /** Without overflow, multiplication by x is a shift of the coefficients. */
  lemma MulXShifts(c: Poly)
    requires |c| == 127
    ensures MulX(c + [false]) == [false] + c
  {
    XorLaws([false] + c, [false] + c, [false] + c);
    assert (c + [false])[..127] == c;
  }

  lemma {:induction false} ShiftOne(n: nat)
    requires n < 128
    ensures Shift(One(), n) == Zero(n) + [true] + Zero(127 - n)
  {
    if n == 0 {
      assert One() == Zero(0) + [true] + Zero(127);
    } else {
      ShiftOne(n - 1);
      var c := Zero(n - 1) + [true] + Zero(127 - n);
      assert Zero(n - 1) + [true] + Zero(128 - n) == c + [false];
      MulXShifts(c);
      assert [false] + c == Zero(n) + [true] + Zero(127 - n);
    }
  }

  lemma ShiftOneAll()
    ensures Shift(One(), 128) == Rest()
  {
    ShiftOne(127);
    assert Zero(127) + [true] + Zero(0) == Zero(127) + [true];
    XorLaws(Rest(), Rest(), Rest());
    assert [false] + Zero(127) == Zero(128);
  }

  /** b * 1 is b. */
  lemma {:induction false} ActOne(b: Poly)
    requires |b| <= 128
    ensures Act(One(), b) == b + Zero(128 - |b|)
  {
    if |b| == 0 {
      assert b + Zero(128) == Zero(128);
    } else {
      var d := b[1..];
      ActOne(d);
      var c := d + Zero(128 - |b|);
      assert d + Zero(128 - |d|) == c + [false];
      MulXShifts(c);
      assert Xor(If(b[0], One()), [false] + c) == b + Zero(128 - |b|);
    }
  }

  /** x^128 acts like its remainder. */
  lemma ShiftAll(a: Elem)
    ensures Shift(a, 128) == Act(a, Rest())
  {
    OneLeft(a);
    ShiftOneAll();
    ActShift(One(), a, 128);
    assert Shift(a, 128) == Act(Rest(), a);
    OneLeft(Rest());
    ActCommutes(One(), Rest(), a);
  }

  lemma OneLeft(b: Elem)
    ensures Act(One(), b) == b
  {
    ActOne(b);
    assert b + Zero(0) == b;
  }

  lemma {:induction false} ActCommutes(a: Elem, b: Poly, c: Poly)
    ensures Act(Act(a, b), c) == Act(Act(a, c), b)
  {
    if |b| == 0 {
      ActLeft(a, a, c);
    } else {
      var d := b[1..];
      ActCommutes(a, d, c);
      ActMulX(Act(a, d), c);
      ActLeft(If(b[0], a), MulX(Act(a, d)), c);
      ActIf(a, b[0], c);
    }
  }

  lemma ActIf(a: Elem, p: bool, c: Poly)
    ensures Act(If(p, a), c) == If(p, Act(a, c))
  {
    ActLeft(a, a, c);
  }

  /** Reducing the multiplier does not matter. */
  lemma ActReduced(a: Elem, b: Elem)
    ensures Act(a, MulX(b)) == MulX(Act(a, b))
  {
    hide Act, Shift, Xor, If, Rest;
    var c, top := [false] + b[..127], If(b[127], Rest());
    ActRight(a, c, top);
    ActRestIf(a, b[127]);
    assert [false] + b == c + [b[127]];
    ActConcat(a, c, [b[127]]);
    ActSingle(a, b[127]);
    ShiftIf(a, b[127], 128);
    assert Act(a, [false] + b) == MulX(Act(a, b)) by { ActTimesX(a, b); }
  }

  lemma ActTimesX(a: Elem, b: Poly)
    ensures Act(a, [false] + b) == MulX(Act(a, b))
  {
    assert ([false] + b)[1..] == b;
    XorLaws(MulX(Act(a, b)), MulX(Act(a, b)), MulX(Act(a, b)));
  }

  lemma ActSingle(a: Elem, p: bool)
    ensures Act(a, [p]) == If(p, a)
  {
    MulXLinear(a, a);
    XorLaws(If(p, a), a, a);
  }

  lemma {:induction false} ShiftIf(a: Elem, p: bool, n: nat)
    ensures Shift(If(p, a), n) == If(p, Shift(a, n))
  {
    hide MulX, If;
    if n > 0 {
      ShiftIf(a, p, n - 1);
      IfLinear(p, p, Shift(a, n - 1), a);
    }
  }

  lemma ActRestIf(a: Elem, p: bool)
    ensures Act(a, If(p, Rest())) == If(p, Shift(a, 128))
  {
    ShiftAll(a);
    ActZeros(a, 128);
  }

  // ---------------------------------------------------------------- the field

  /** (a * b) * c == a * (b * c) */
  lemma {:induction false} ActAssoc(a: Elem, b: Elem, c: Poly)
    ensures Act(Act(a, b), c) == Act(a, Act(b, c))
  {
    if |c| == 0 {
      ActZeros(a, 128);
    } else {
      var d := c[1..];
      ActAssoc(a, b, d);
      ActReduced(a, Act(b, d));
      ActRight(a, If(c[0], b), MulX(Act(b, d)));
      ActZeros(a, 128);
    }
  }

  lemma MulAssociative(a: Elem, b: Elem, c: Elem)
    ensures Mul(Mul(a, b), c) == Mul(a, Mul(b, c))
  {
    ActAssoc(a, b, c);
  }

  lemma MulCommutative(a: Elem, b: Elem)
    ensures Mul(a, b) == Mul(b, a)
  {
    OneLeft(a);
    OneLeft(b);
    ActCommutes(One(), a, b);
  }

  lemma MulDistributes(a: Elem, b: Elem, c: Elem)
    ensures Mul(Xor(a, b), c) == Xor(Mul(a, c), Mul(b, c)) && Mul(Zero(128), c) == Zero(128)
    ensures Mul(a, One()) == a && Mul(One(), a) == a
  {
    ActLeft(a, b, c);
    OneLeft(a);
    MulCommutative(a, One());
  }

  // ---------------------------------------------------------------- eight bits at a time

  lemma {:induction false} ShiftLinear(a: Elem, b: Elem, n: nat)
    ensures Shift(Xor(a, b), n) == Xor(Shift(a, n), Shift(b, n))
  {
    hide MulX, Xor;
    if n > 0 {
      ShiftLinear(a, b, n - 1);
      MulXLinear(Shift(a, n - 1), Shift(b, n - 1));
    }
  }

  /** As long as nothing overflows, multiplication by a power of x moves the coefficients. */
  lemma {:induction false} ShiftFree(c: Poly, n: nat)
    requires |c| + n == 128
    ensures Shift(c + Zero(n), n) == Zero(n) + c
    decreases n
  {
    if n == 0 {
      assert c + Zero(0) == c && Zero(0) + c == c;
    } else {
      ZeroSplit(c, n);
      hide Zero, MulX;
      ShiftFree(c + [false], n - 1);
      MulXShifts(Zero(n - 1) + c);
    }
  }

  lemma ZeroSplit(c: Poly, n: nat)
    requires n > 0
    ensures c + Zero(n) == (c + [false]) + Zero(n - 1) && Zero(n) + c == [false] + (Zero(n - 1) + c)
    ensures Zero(n - 1) + (c + [false]) == (Zero(n - 1) + c) + [false]
  {}

  /** The eight coefficients that overflow come back as a multiple of the remainder. */
  lemma ShiftTop(v: Poly)
    requires |v| == 8
    ensures Shift(Zero(120) + v, 8) == Act(Rest(), v)
  {
    var e := v + Zero(120);
    ShiftFree(v, 120);
    ShiftAdd(e, 8, 120);
    ShiftAll(e);
    MulCommutative(e, Rest());
    ActConcat(Rest(), v, Zero(120));
    ActZeros(Rest(), 120);
    ShiftZero(8);
    XorLaws(Act(Rest(), v), Rest(), Rest());
  }

  lemma {:induction false} ShiftZero(n: nat)
    ensures Shift(Zero(128), n) == Zero(128)
  {
    if n > 0 {
      ShiftZero(n - 1);
      MulXLinear(Zero(128), Zero(128));
    }
  }

  predicate Coef(b: Poly, j: int) {
    0 <= j < |b| && b[j]
  }

  /** The coefficient of x^k in b(x) * (1 + x + x^2 + x^7). */
  predicate RestCoef(b: Poly, k: int) {
    (Coef(b, k) != Coef(b, k - 1)) != (Coef(b, k - 2) != Coef(b, k - 7))
  }

  lemma {:induction false} RestAct(b: Poly)
    requires |b| <= 8
    ensures forall k :: 0 <= k < 128 ==> Act(Rest(), b)[k] == RestCoef(b, k)
  {
    if |b| > 0 {
      var d := b[1..];
      RestAct(d);
      var a := Act(Rest(), d);
      forall k | 0 <= k < 128 ensures Act(Rest(), b)[k] == RestCoef(b, k) {
        RestCoefStep(b, k);
        assert !a[127];
        MulXAt(a, k);
      }
    }
  }

  lemma MulXAt(a: Elem, k: nat)
    requires k < 128 && !a[127]
    ensures MulX(a)[k] == (k > 0 && a[k - 1])
  {}

  lemma RestCoefStep(b: Poly, k: nat)
    requires |b| > 0
    ensures RestCoef(b, k) == ((b[0] && k in {0, 1, 2, 7}) != (k > 0 && RestCoef(b[1..], k - 1)))
  {
    var d := b[1..];
    assert Coef(b, k) == if k == 0 then b[0] else Coef(d, k - 1);
    assert Coef(b, k - 1) == if k == 1 then b[0] else Coef(d, k - 2);
    assert Coef(b, k - 2) == if k == 2 then b[0] else Coef(d, k - 3);
    assert Coef(b, k - 7) == if k == 7 then b[0] else Coef(d, k - 8);
  }
}
