/** Byte strings and the numbers they spell, most significant byte first. */
module Bytes {
  import opened Words

  function Be(s: seq<uint8>): nat {
    if |s| == 0 then 0 else 256 * Be(s[..|s| - 1]) + s[|s| - 1]
  }

  function Zeros(n: nat): (z: seq<uint8>)
    ensures |z| == n && forall i :: 0 <= i < n ==> z[i] == 0
  {
    seq(n, i => 0)
  }

  lemma {:induction false} BeConcat(a: seq<uint8>, b: seq<uint8>)
    ensures Be(a + b) == Be(a) * Pow(256, |b|) + Be(b)
  {
    if |b| == 0 {
      assert a + b == a;
    } else {
      var c := b[..|b| - 1];
      BeConcat(a, c);
      assert (a + b)[..|a + b| - 1] == a + c;
      ShiftByte(Be(a), Pow(256, |c|), Be(c));
    }
  }

  lemma ShiftByte(a: int, w: int, c: int)
    ensures 256 * (a * w + c) == a * (256 * w) + 256 * c
  {}

  lemma {:induction false} BeBound(s: seq<uint8>)
    ensures Be(s) < Pow(256, |s|)
  {
    if |s| > 0 {
      BeBound(s[..|s| - 1]);
    }
  }

  /** Strings of the same length that spell the same number are the same string. */
  lemma {:induction false} BeInjective(s: seq<uint8>, t: seq<uint8>)
    requires |s| == |t| && Be(s) == Be(t)
    ensures s == t
  {
    if |s| > 0 {
      BeInjective(s[..|s| - 1], t[..|t| - 1]);
      assert s == s[..|s| - 1] + [s[|s| - 1]] && t == t[..|t| - 1] + [t[|t| - 1]];
    }
  }

  /** The n lowest bytes of v, most significant first. */
  function BeBytes(v: nat, n: nat): (s: seq<uint8>)
    ensures |s| == n
  {
    if n == 0 then [] else BeBytes(v / 256, n - 1) + [v % 256]
  }

  lemma {:induction false} BeOfBytes(v: nat, n: nat)
    requires v < Pow(256, n)
    ensures Be(BeBytes(v, n)) == v
  {
    if n > 0 {
      BeOfBytes(v / 256, n - 1);
      assert BeBytes(v, n)[..n - 1] == BeBytes(v / 256, n - 1);
    }
  }

  lemma BytesOfBe(s: seq<uint8>)
    ensures BeBytes(Be(s), |s|) == s
  {
    BeBound(s);
    BeOfBytes(Be(s), |s|);
    BeInjective(BeBytes(Be(s), |s|), s);
  }
}
