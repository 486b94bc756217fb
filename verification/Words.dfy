/** Machine words of the C sources.  The words are subset types of int, so every
    assignment to a word-typed variable or array element carries the obligation
    that the value fits: a verified method is one whose accumulators never wrap. */
module Words {
  type uint8 = x: int | 0 <= x < 0x100
  type uint32 = x: int | 0 <= x < 0x1_0000_0000
  type uint64 = x: int | 0 <= x < 0x1_0000_0000_0000_0000

  datatype Option<T> = None | Some(value: T)

  /** Unsigned 32-bit arithmetic that is meant to wrap. */
  function Wrap32(v: int): uint32 {
    v % 0x1_0000_0000
  }

  lemma WrapIs(v: int, k: int, r: int)
    requires 0 <= r < 0x1_0000_0000 && v == r + k * 0x1_0000_0000
    ensures Wrap32(v) == r
  {}

  /** Part of a tail, counted from the whole. */
  lemma TailSlice<T>(s: seq<T>, at: nat, i: nat, j: nat)
    requires i <= j && at + j <= |s|
    ensures s[at..][i..j] == s[at + i..at + j]
  {
    forall k | 0 <= k < j - i ensures s[at..][i..j][k] == s[at + i..at + j][k] {}
  }

  lemma Pieces<T>(s: seq<T>, i: nat, j: nat)
    requires i <= j <= |s|
    ensures s == s[..i] + s[i..j] + s[j..]
  {}

  /** Part of a part. */
  lemma PartSlice<T>(s: seq<T>, lo: nat, hi: nat, i: nat, j: nat)
    requires i <= j && lo + j <= hi <= |s|
    ensures s[lo..hi][i..j] == s[lo + i..lo + j]
  {
    forall k | 0 <= k < j - i ensures s[lo..hi][i..j][k] == s[lo + i..lo + j][k] {}
  }

  /** memcpy */
  method CopyInto<T>(out: array<T>, at: nat, src: array<T>, off: nat, len: nat)
    requires off + len <= src.Length && at + len <= out.Length && out != src
    modifies out
    ensures out[at..at + len] == src[off..off + len]
    ensures out[..at] == old(out[..at]) && out[at + len..] == old(out[at + len..])
    ensures forall i :: 0 <= i < out.Length && !(at <= i < at + len) ==> out[i] == old(out[i])
  {
    for k := 0 to len
      invariant out[at..at + k] == src[off..off + k]
      invariant forall i :: 0 <= i < out.Length && !(at <= i < at + len) ==> out[i] == old(out[i])
    {
      out[at + k] := src[off + k];
      assert out[at..at + (k + 1)] == src[off..off + k] + [src[off + k]];
    }
  }

  function Min(a: int, b: int): int {
    if a <= b then a else b
  }

  function Pow(b: nat, e: nat): (p: nat)
    ensures b > 0 ==> p > 0
  {
    if e == 0 then 1 else b * Pow(b, e - 1)
  }

  lemma {:induction false} PowAdd(b: nat, m: nat, n: nat)
    ensures Pow(b, m + n) == Pow(b, m) * Pow(b, n)
  {
    if m > 0 {
      PowAdd(b, m - 1, n);
      MulAssoc(b, Pow(b, m - 1), Pow(b, n));
    }
  }

  lemma Pow32()
    ensures Pow(2, 32) == 0x1_0000_0000
  {
    assert Pow(2, 2) == 4;
    hide Pow;
    PowAdd(2, 2, 2);
    PowAdd(2, 4, 4);
    PowAdd(2, 8, 8);
    PowAdd(2, 16, 16);
  }

  lemma MulAssoc(a: int, b: int, c: int)
    ensures a * (b * c) == a * b * c
  {}

  lemma MulNegate(a: int, b: int)
    ensures -a * b == -(a * b) && -(a * b) == -(b * a)
  {}

  lemma MulPositive(a: int, b: int)
    requires a > 0 && b > 0
    ensures a * b > 0
  {}

  lemma MulLe(a: int, b: int, c: int, d: int)
    requires 0 <= a <= c && 0 <= b <= d
    ensures 0 <= a * b <= c * d
  {
    assert a * b <= c * b;
    assert c * b <= c * d;
  }
}
