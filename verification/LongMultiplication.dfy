/** The schoolbook product of two nine-limb numbers: the terms summed column by column, as
    bn_multiply_long does, or row by row, as multiplication distributes. */
module LongMultiplication {
  import opened Words
  import opened Limbs

  /** The product of limb m of k and limb c - m of x, which lands in column c. */
  ghost function Term(k: seq<uint32>, x: seq<uint32>, m: nat, c: nat): (t: nat)
    requires |k| == |x| == LIMBS && m < LIMBS
  {
    if m <= c < m + LIMBS then k[m] as int * x[c - m] as int else 0
  }

  /** Column c restricted to the low n limbs of k. */
  ghost function Column(k: seq<uint32>, x: seq<uint32>, n: nat, c: nat): (s: nat)
    requires |k| == |x| == LIMBS && n <= LIMBS
  {
    if n == 0 then 0 else Column(k, x, n - 1, c) + Term(k, x, n - 1, c)
  }

  /** The columns below c, weighted. */
  ghost function Columns(k: seq<uint32>, x: seq<uint32>, n: nat, c: nat): (s: nat)
    requires |k| == |x| == LIMBS && n <= LIMBS
  {
    if c == 0 then 0 else Columns(k, x, n, c - 1) + Column(k, x, n, c - 1) * Weight(c - 1)
  }

  lemma {:induction false} ColumnSkip(k: seq<uint32>, x: seq<uint32>, m: nat, n: nat, c: nat)
    requires |k| == |x| == LIMBS && m <= n <= LIMBS
    requires c < m || n + LIMBS <= c + 1
    ensures Column(k, x, n, c) == Column(k, x, m, c)
  {
    if m < n {
      ColumnSkip(k, x, m, n - 1, c);
    }
  }

  /** Summed by column or by row of the multiplication table, the terms are the product. */
  lemma {:induction false} ColumnsProduct(k: seq<uint32>, x: seq<uint32>, n: nat)
    requires |k| == |x| == LIMBS && n <= LIMBS
    ensures Columns(k, x, n, 2 * LIMBS - 1) == Low(k, n) * Low(x, LIMBS)
  {
    if n == 0 {
      ColumnsZero(k, x, 2 * LIMBS - 1);
    } else {
      ColumnsProduct(k, x, n - 1);
      AddRow(k, x, n - 1, 2 * LIMBS - 1);
      RowDistribute(Low(k, n - 1), k[n - 1], Weight(n - 1), Low(x, LIMBS));
    }
  }

  lemma RowDistribute(low: int, d: int, w: int, v: int)
    ensures (low + d * w) * v == low * v + d * (w * v)
  {
    MulAssoc(d, w, v);
    Distribute(low, 1, d * w, 0, 0, v);
  }

  lemma {:induction false} ColumnsZero(k: seq<uint32>, x: seq<uint32>, c: nat)
    requires |k| == |x| == LIMBS
    ensures Columns(k, x, 0, c) == 0
  {
    if c > 0 {
      ColumnsZero(k, x, c - 1);
    }
  }

  /** One more limb of k adds its row: k[m] * BASE^m times the limbs of x already reached. */
  lemma {:induction false} AddRow(k: seq<uint32>, x: seq<uint32>, m: nat, c: nat)
    requires |k| == |x| == LIMBS && m < LIMBS
    ensures Columns(k, x, m + 1, c) == Columns(k, x, m, c) + k[m] * (Weight(m) * Low(x, Reached(m, c)))
  {
    if c > 0 {
      AddRow(k, x, m, c - 1);
      var t: int := Term(k, x, m, c - 1);
      Distribute(Column(k, x, m, c - 1), 1, t, 0, 0, Weight(c - 1));
      if m <= c - 1 < m + LIMBS {
        WeightAdd(m, c - 1 - m);
        RowStep(k[m], Weight(m), Low(x, c - 1 - m), x[c - 1 - m], Weight(c - 1 - m));
      }
    }
  }

  ghost function Reached(m: nat, c: nat): (n: nat)
    ensures n <= LIMBS
  {
    if c <= m then 0 else if c - m >= LIMBS then LIMBS else c - m
  }

  lemma RowStep(k: int, wm: int, low: int, d: int, wd: int)
    ensures k * (wm * (low + d * wd)) == k * (wm * low) + (k * d) * (wm * wd)
  {
    Regroup(wm, low, d, wd);
    MulAdd(k, wm * low, d * (wm * wd));
    MulAssoc(k, d, wm * wd);
  }

  /** An accumulated column fits in 64 bits with room for the carry. */
  lemma {:induction false} ColumnBound(k: seq<uint32>, x: seq<uint32>, n: nat, c: nat)
    requires |k| == |x| == LIMBS && n <= LIMBS && Normal(k) && Normal(x)
    ensures Column(k, x, n, c) <= n * 0x400_0000_0000_0000
  {
    if n > 0 {
      ColumnBound(k, x, n - 1, c);
      if n - 1 <= c < n - 1 + LIMBS {
        MulLe(k[n - 1], x[c - (n - 1)], BASE, BASE);
      }
    }
  }

  lemma ColumnsStart(out: seq<uint32>, k: seq<uint32>, x: seq<uint32>)
    requires |k| == |x| == LIMBS
    ensures Carried(out, 0, 0, 0, Columns(k, x, LIMBS, 0))
  {}

  lemma ColumnEmpty(k: seq<uint32>, x: seq<uint32>, c: nat)
    requires |k| == |x| == LIMBS
    ensures Column(k, x, 0, c) == 0
  {}

  lemma ColumnNext(k: seq<uint32>, x: seq<uint32>, j: nat, c: nat)
    requires |k| == |x| == LIMBS && j < LIMBS && j <= c < j + LIMBS
    ensures Column(k, x, j + 1, c) == Column(k, x, j, c) + k[j] as int * x[c - j] as int
  {}

  lemma ColumnsStep(s: seq<uint32>, out: seq<uint32>, k: seq<uint32>, x: seq<uint32>, c: nat, acc: int, t: int)
    requires |k| == |x| == LIMBS && c < |s| == |out| && forall i :: 0 <= i < c ==> s[i] == out[i]
    requires Carried(s, c, acc, 0, Columns(k, x, LIMBS, c))
    requires t == acc + Column(k, x, LIMBS, c) && out[c] == t % BASE
    ensures Carried(out, c + 1, t / BASE, 0, Columns(k, x, LIMBS, c + 1))
  {
    CarryStep(s, out, c, acc, 0, Columns(k, x, LIMBS, c), Column(k, x, LIMBS, c), t);
  }

  /** The last carry is a normal limb, because the product is below BASE^18. */
  lemma ColumnsDone(s: seq<uint32>, k: seq<uint32>, x: seq<uint32>, acc: int)
    requires |s| == 2 * LIMBS && |k| == |x| == LIMBS && Normal(k) && Normal(x) && 0 <= acc
    requires Carried(s, 2 * LIMBS - 1, acc, 0, Columns(k, x, LIMBS, 2 * LIMBS - 1))
    ensures acc < BASE
    ensures Low(s, 2 * LIMBS - 1) + acc * Weight(2 * LIMBS - 1) == Low(k, LIMBS) * Low(x, LIMBS)
  {
    ColumnsProduct(k, x, LIMBS);
    LowBound(k, LIMBS);
    LowBound(x, LIMBS);
    WeightAdd(LIMBS, LIMBS);
    MulLe(Low(k, LIMBS), Low(x, LIMBS), Weight(LIMBS) - 1, Weight(LIMBS) - 1);
    SquareLess(Weight(LIMBS));
    if acc >= BASE {
      MulLe(BASE, Weight(2 * LIMBS - 1), acc, Weight(2 * LIMBS - 1));
    }
  }

  lemma SquareLess(w: int)
    requires w > 0
    ensures (w - 1) * (w - 1) < w * w
  {}
}
