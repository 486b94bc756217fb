/** lib/trezor-crypto/bignum.c, powers and square roots modulo the prime. */
module BignumPower {
  import opened Words
  import opened ModArith
  import opened Limbs
  import opened Bignum
  import opened BignumMod
  import opened BignumMul
  import opened Jacobian

  /** What is still to be multiplied in: res * acc^rest = x^e. */
  ghost predicate PowerLeft(q: int, res: nat, acc: nat, rest: nat, x: nat, e: nat) {
    Cong(res * Pow(acc, rest), Pow(x, e), q)
  }

  lemma PowerStart(q: int, x: nat, e: nat)
    requires q > 0
    ensures PowerLeft(q, 1, x, e, x, e)
  {}

  lemma PowerEnd(q: int, res: nat, acc: nat, x: nat, e: nat)
    requires PowerLeft(q, res, acc, 0, x, e)
    ensures Cong(res, Pow(x, e), q)
  {
    assert Pow(acc, 0) == 1;
  }

  /** One bit of the exponent. */
  lemma PowerHalve(q: int, res: nat, acc: nat, rest: nat, x: nat, e: nat, res': nat, acc': nat)
    requires PowerLeft(q, res, acc, rest, x, e) && CongProduct(acc', acc, acc, q)
    requires if rest % 2 == 1 then CongProduct(res', acc, res, q) else res' == res
    ensures PowerLeft(q, res', acc', rest / 2, x, e)
  {
    var h := rest / 2;
    CongPow(acc', acc * acc, h, q);
    PowSquare(acc, h);
    if rest % 2 == 1 {
      assert Pow(acc, rest) == acc * Pow(acc, 2 * h);
      CongMul(res', acc * res, Pow(acc', h), Pow(acc, 2 * h), q);
      assert acc * res * Pow(acc, 2 * h) == res * (acc * Pow(acc, 2 * h));
    } else {
      CongRefl(res, q);
      CongMul(res, res, Pow(acc', h), Pow(acc, 2 * h), q);
    }
    CongTrans(res' * Pow(acc', h), res * Pow(acc, rest), Pow(x, e), q);
  }

  lemma {:induction false} CongPow(a: nat, b: nat, n: nat, q: int)
    requires Cong(a, b, q)
    ensures Cong(Pow(a, n), Pow(b, n), q)
  {
    if n > 0 {
      CongPow(a, b, n - 1, q);
      CongMul(a, b, Pow(a, n - 1), Pow(b, n - 1), q);
    }
  }

  lemma {:induction false} PowSquare(a: nat, n: nat)
    ensures Pow(a * a, n) == Pow(a, 2 * n)
  {
    if n > 0 {
      PowSquare(a, n - 1);
      assert Pow(a, 2 * n) == a * (a * Pow(a, 2 * n - 2));
      MulAssoc(a, a, Pow(a, 2 * n - 2));
    }
  }

  /** The exponent from bit j of limb i upwards, given what is left of limb i. */
  ghost function Rest(e: seq<uint32>, i: nat, limb: nat, j: nat): nat
    requires |e| == LIMBS && i < LIMBS && j <= 29
  {
    limb + Pow(2, 29 - j) * Low(e[i + 1..], LIMBS - i - 1)
  }

  lemma RestStart(e: seq<uint32>, i: nat)
    requires |e| == LIMBS && i < LIMBS
    ensures Rest(e, i, e[i], 0) == Low(e[i..], LIMBS - i)
  {
    Base29();
    LowSplit(e[i..], 1, LIMBS - i - 1);
    assert Low(e[i..], 1) == e[i] by {
      assert Low(e[i..], 0) == 0 && Weight(0) == 1;
    }
    assert Weight(1) == BASE * Weight(0);
    assert e[i..][1..] == e[i + 1..];
  }

  lemma RestBit(e: seq<uint32>, i: nat, limb: nat, j: nat)
    requires |e| == LIMBS && i < LIMBS && j < 29
    ensures Rest(e, i, limb, j) % 2 == limb % 2
    ensures Rest(e, i, limb / 2, j + 1) == Rest(e, i, limb, j) / 2
  {
    var h := Pow(2, 28 - j) * Low(e[i + 1..], LIMBS - i - 1);
    assert Pow(2, 29 - j) == 2 * Pow(2, 28 - j);
    MulAssoc(2, Pow(2, 28 - j), Low(e[i + 1..], LIMBS - i - 1));
    assert Rest(e, i, limb, j) == limb + 2 * h;
  }

  lemma RestDone(e: seq<uint32>, i: nat)
    requires |e| == LIMBS && i < LIMBS
    ensures Rest(e, i, 0, 29) == Low(e[i + 1..], LIMBS - i - 1)
  {
    assert Pow(2, 0) == 1;
  }

  lemma RestTop(e: seq<uint32>, j: nat)
    requires |e| == LIMBS && j <= 29
    ensures Rest(e, 8, 0, j) == 0
  {}

  /** res = x^e (mod prime), square-and-multiply from the low bit of e. */
  method PowerMod(x: array<uint32>, e: array<uint32>, prime: array<uint32>, res: array<uint32>)
    requires OddPrime(prime) && Normalized(x) && Value(x) < 8 * TWO256 && Normalized(e) && res.Length == LIMBS
    requires res !in {e, prime}
    modifies res
    ensures PartlyReduced(res, Value(prime))
    ensures Cong(Value(res), Pow(old(Value(x)), Value(e)), Value(prime))
  {
    hide Low, Normal, Cong, CongProduct, Multipliable, PowerLeft, Rest, Pow;
    ghost var q, xv, ev, es := Value(prime), Value(x), Value(e), e[..];
    var acc := new uint32[LIMBS];
    Copy(x, acc);
    One(res);
    PowerStart(q, xv, ev);
    assert es[0..] == es;
    for i := 0 to LIMBS
      invariant e[..] == es && Value(prime) == q && OddPrime(prime)
      invariant Normalized(acc) && Value(acc) < 8 * TWO256 && PartlyReduced(res, q)
      invariant PowerLeft(q, Value(res), Value(acc), Low(es[i..], LIMBS - i), xv, ev)
    {
      RestStart(es, i);
      PowerLimb(acc, res, e, i, prime, xv, ev);
    }
    PowerFinished(q, Value(res), Value(acc), es, xv, ev);
  }

  lemma PowerFinished(q: int, res: nat, acc: nat, e: seq<uint32>, xv: nat, ev: nat)
    requires |e| == LIMBS && PowerLeft(q, res, acc, Low(e[LIMBS..], 0), xv, ev)
    ensures Cong(res, Pow(xv, ev), q)
  {
    PowerEnd(q, res, acc, xv, ev);
  }

  /** The 29 bits of one limb; in the top limb only as far as there are bits. */
  method PowerLimb(acc: array<uint32>, res: array<uint32>, e: array<uint32>, i: nat, prime: array<uint32>,
                   ghost xv: nat, ghost ev: nat)
    requires OddPrime(prime) && Normalized(e) && i < LIMBS && acc != res && {acc, res} !! {e, prime}
    requires Normalized(acc) && Value(acc) < 8 * TWO256 && PartlyReduced(res, Value(prime))
    requires PowerLeft(Value(prime), Value(res), Value(acc), Rest(e[..], i, e[i], 0), xv, ev)
    modifies acc, res
    ensures Normalized(acc) && Value(acc) < 8 * TWO256 && PartlyReduced(res, Value(prime))
    ensures PowerLeft(Value(prime), Value(res), Value(acc), Low(e[i + 1..], LIMBS - i - 1), xv, ev)
  {
    ghost var es := e[..];
    var limb: nat := e[i];
    assert limb < BASE;
    Base29();
    hide Low, Normal, Cong, CongProduct, Multipliable, PowerLeft, Rest, Pow;
    ghost var q := Value(prime);
    for j := 0 to 29
      invariant e[..] == es && Value(prime) == q && OddPrime(prime) && limb < Pow(2, 29 - j)
      invariant Normalized(acc) && Value(acc) < 8 * TWO256 && PartlyReduced(res, q)
      invariant PowerLeft(q, Value(res), Value(acc), Rest(es, i, limb, j), xv, ev)
    {
      if i == LIMBS - 1 && limb == 0 {
        RestTop(es, j);
        RestTop(es, 29);
        RestDone(es, i);
        return;
      }
      RestBit(es, i, limb, j);
      ghost var res0, acc0, limb0 := Value(res), Value(acc), limb;
      if limb % 2 == 1 {
        Fits(Value(acc), Value(res));
        Multiply(acc, res, prime);
      }
      HalfBelow(limb, 28 - j);
      limb := limb / 2;
      Fits(Value(acc), Value(acc));
      Multiply(acc, acc, prime);
      PowerHalve(q, res0, acc0, Rest(es, i, limb0, j), xv, ev, Value(res), Value(acc));
    }
    RestDone(es, i);
  }

  lemma HalfBelow(limb: nat, n: nat)
    requires limb < Pow(2, n + 1)
    ensures limb / 2 < Pow(2, n)
  {}

  /** x = x^((prime + 1) / 4) (mod prime), fully reduced */
  method Sqrt(x: array<uint32>, prime: array<uint32>)
    requires OddPrime(prime) && Normalized(x) && Value(x) < 8 * TWO256 && Value(prime) % 4 == 3 && x != prime
    modifies x
    ensures Normalized(x) && Value(x) < Value(prime)
    ensures Cong(Value(x), Pow(old(Value(x)), (Value(prime) + 1) / 4), Value(prime))
  {
    hide Low, Normal, Cong, Pow;
    ghost var q, xv := Value(prime), Value(x);
    var e := new uint32[LIMBS];
    Copy(prime, e);
    AddI(e, 1);
    Rshift(e);
    Rshift(e);
    assert Value(e) == (q + 1) / 4;
    PowerMod(x, e, prime, x);
    ghost var part := Value(x);
    Mod(x, prime);
    FullyReduced(part, Pow(xv, (q + 1) / 4), q);
  }

  lemma FullyReduced(part: int, v: int, q: int)
    requires Cong(part, v, q)
    ensures Cong(part % q, v, q)
  {
    CongMod(part, q);
  }

  /** x = x + y */
  method AddI(x: array<uint32>, y: uint32)
    requires Normalized(x) && y <= 0xE000_0000 && Value(x) + y < TWO261
    modifies x
    ensures Normalized(x) && Value(x) == old(Value(x)) + y
  {
    hide Carried, Low;
    ghost var x0 := x[..];
    var acc: uint32 := y;
    AddIStart(x0, y);
    for i := 0 to LIMBS
      invariant i == 0 ==> acc == y
      invariant i > 0 ==> acc <= 7
      invariant forall j :: i <= j < LIMBS ==> x[j] == x0[j]
      invariant forall j :: 0 <= j < i ==> x[j] < BASE
      invariant Carried(x[..], i, acc, 0, y as int + Low(x0, i))
    {
      ghost var s, acc0 := x[..], acc;
      acc := acc + x[i];
      ghost var t := acc;
      x[i] := acc % BASE;
      acc := acc / BASE;
      AddIStep(s, x[..], i, acc0, y, x0, t);
    }
    AddIDone(x[..], acc, y, x0);
  }

  lemma AddIStart(x: seq<uint32>, y: int)
    ensures Carried(x, 0, y, 0, y + Low(x, 0))
  {
    assert Low(x, 0) == 0 && Weight(0) == 1;
  }

  lemma AddIStep(s: seq<uint32>, out: seq<uint32>, n: nat, acc: int, y: int, x: seq<uint32>, t: int)
    requires n < |s| == |out| && n < |x| && forall i :: 0 <= i < n ==> s[i] == out[i]
    requires Carried(s, n, acc, 0, y + Low(x, n)) && t == acc + x[n] && out[n] == t % BASE
    ensures Carried(out, n + 1, t / BASE, 0, y + Low(x, n + 1))
  {
    CarryStep(s, out, n, acc, 0, y + Low(x, n), x[n], t);
  }

  lemma AddIDone(out: seq<uint32>, acc: int, y: int, x: seq<uint32>)
    requires |out| == |x| == LIMBS && Normal(out) && Carried(out, LIMBS, acc, 0, y + Low(x, LIMBS))
    requires 0 <= y && y + Low(x, LIMBS) < TWO261
    ensures Low(out, LIMBS) == Low(x, LIMBS) + y
  {
    LowBound(out, LIMBS);
    Weights();
    Split(Low(out, LIMBS), acc, TWO261, 0, y + Low(x, LIMBS));
  }
}
