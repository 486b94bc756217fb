/** lib/trezor-crypto/sha2.c: the transforms as the contexts call them, on words that lie in the memory of
    a little-endian machine.  It makes the rounds of Sha2Compress an instance of the algorithms of Sha2Spec. */
module Sha2Words {
  import opened Words
  import opened ByteStrings
  import opened Sha2Spec
  import opened Sha2
  import opened ModArith
  import C = Sha2Compress

  /** The numbers spelled by words of w bytes each. */
  function ValuesOf(s: Bytes, w: nat): seq<nat>
    requires w > 0
    decreases |s|
  {
    if |s| < w then [] else [ValueOf(s[..w])] + ValuesOf(s[w..], w)
  }

  lemma {:induction false} ValuesLength(s: Bytes, w: nat, n: nat)
    requires w > 0 && |s| == n * w
    ensures |ValuesOf(s, w)| == n
    decreases n
  {
    if n > 0 {
      MinusOne(n, w);
      Below(1, n, w);
      ValuesLength(s[w..], w, n - 1);
    }
  }

  lemma {:induction false} ValuesNext(s: Bytes, word: Bytes, w: nat, n: nat)
    requires w > 0 && |s| == n * w && |word| == w
    ensures ValuesOf(s + word, w) == ValuesOf(s, w) + [ValueOf(word)]
    decreases n
  {
    if n == 0 {
      assert s + word == word && word[..w] == word && word[w..] == [];
    } else {
      MinusOne(n, w);
      Below(1, n, w);
      ValuesNext(s[w..], word, w, n - 1);
      assert (s + word)[..w] == s[..w] && (s + word)[w..] == s[w..] + word;
    }
  }

  /** The numbers as words of w bytes, in the order of the numbers. */
  function Spelled(x: seq<nat>, w: nat): (s: Bytes)
    ensures |s| == |x| * w
  {
    if |x| == 0 then [] else
      MinusOne(|x|, w);
      Spelled(x[..|x| - 1], w) + BeBits(x[|x| - 1], w)
  }

  /** One call of the transform. */
  function Digested(f: C.Rounds, w: nat, s: Bytes, b: Bytes): (o: Bytes)
    requires C.Proper(f) && w > 0 && |s| == 8 * w && |b| == 16 * w
    ensures |o| == 8 * w
  {
    ValuesLength(s, w, 8);
    ValuesLength(b, w, 16);
    Spelled(C.Compress(f, ValuesOf(s, w), ValuesOf(b, w)), w)
  }

  /** Words that fit are read back as the numbers they were spelled from. */
  lemma {:induction false} ValuesSpelled(x: seq<nat>, w: nat)
    requires w > 0 && forall i :: 0 <= i < |x| ==> x[i] < Pow(256, w)
    ensures ValuesOf(Spelled(x, w), w) == x
  {
    hide Pow, BeBits, ValueOf;
    if |x| > 0 {
      var n := |x| - 1;
      ValuesSpelled(x[..n], w);
      ValuesNext(Spelled(x[..n], w), BeBits(x[n], w), w, n);
      ValueOfBits(x[n], w);
      ModUnique(x[n], Pow(256, w), 0, x[n]);
      assert x == x[..n] + [x[n]];
    }
  }

  /** On numbers the transform is the compression function of the standard. */
  lemma DigestedIs(f: C.Rounds, w: nat, s: Bytes, b: Bytes)
    requires C.Proper(f) && f.modulus == Pow(256, w) && w > 0 && |s| == 8 * w && |b| == 16 * w
    ensures |ValuesOf(s, w)| == 8 && |ValuesOf(b, w)| == 16
    ensures ValuesOf(Digested(f, w, s, b), w) == C.Compress(f, ValuesOf(s, w), ValuesOf(b, w))
  {
    ValuesLength(s, w, 8);
    ValuesLength(b, w, 16);
    hide ValuesOf, Spelled, Pow;
    ValuesSpelled(C.Compress(f, ValuesOf(s, w), ValuesOf(b, w)), w);
  }

  /** SHA-256 and SHA-512 with their rounds. */
  ghost function WithRounds(f: C.Rounds, w: nat, iv: Bytes): Algorithm
    requires C.Proper(f) && w > 0
  {
    Algorithm(w, iv, (s: Bytes, b: Bytes) => if |s| == 8 * w && |b| == 16 * w then Digested(f, w, s, b) else Zeros(8 * w))
  }

  /** What is proved of every algorithm holds of these two. */
  lemma RoundsProper(f: C.Rounds, w: nat, iv: Bytes)
    requires C.Proper(f) && w in {4, 8} && |iv| == 8 * w
    ensures Proper(WithRounds(f, w, iv))
  {
    hide Digested;
    var a := WithRounds(f, w, iv);
    forall s: Bytes, b: Bytes ensures |a.compress(s, b)| == 8 * w {
      RoundsCompress(f, w, iv, s, b);
    }
  }

  lemma RoundsCompress(f: C.Rounds, w: nat, iv: Bytes, s: Bytes, b: Bytes)
    requires C.Proper(f) && w > 0
    ensures WithRounds(f, w, iv).compress(s, b) == if |s| == 8 * w && |b| == 16 * w then Digested(f, w, s, b) else Zeros(8 * w)
  {
    hide Digested;
  }

  // ---------------------------------------------------------------- in memory

  /** A word read from memory, the last byte first. */
  method ReadWord(mem: array<bv8>, at: nat, w: nat) returns (v: nat)
    requires at + w <= mem.Length
    ensures v == ValueOf(Reversed(mem[at..at + w]))
  {
    ghost var word := Reversed(mem[at..at + w]);
    v := 0;
    for k := 0 to w
      invariant v == ValueOf(word[..k])
    {
      assert word[..k + 1][..k] == word[..k] && word[k] == mem[at + (w - 1 - k)];
      v := 256 * v + AsInt(mem[at + (w - 1 - k)]);
    }
    assert word[..w] == word;
  }

  method Load(mem: array<bv8>, n: nat, w: nat) returns (x: array<nat>)
    requires w > 0 && n * w <= mem.Length
    ensures fresh(x) && x.Length == n && x[..] == ValuesOf(WordsOf(mem[..n * w], w), w)
  {
    hide WordsOf, Reversed, ValueOf;
    x := new nat[n];
    ghost var s := mem[..];
    var at := 0;
    WordsNone(w);
    assert s[..0] == [];
    for j := 0 to n
      invariant at == j * w <= mem.Length && x[..j] == ValuesOf(WordsOf(s[..at], w), w)
    {
      MinusOne(j, w);
      Below(j + 1, n, w);
      ghost var done := x[..j];
      x[j] := ReadWord(mem, at, w);
      WordsNext(s, at, w, j);
      assert mem[at..at + w] == s[at..at + w];
      ValuesNext(WordsOf(s[..at], w), Reversed(s[at..at + w]), w, j);
      assert x[..j + 1] == done + [x[j]];
      at := at + w;
    }
    assert mem[..n * w] == s[..at] && x[..n] == x[..];
  }

  method StoreNext(mem: array<bv8>, at: nat, word: Bytes, ghost s: Bytes) returns (next: nat)
    requires at + |word| <= mem.Length == |s| && mem[at..] == s[at..]
    modifies mem
    ensures next == at + |word| && mem[..next] == old(mem[..at]) + Reversed(word) && mem[next..] == s[next..]
  {
    hide Reversed;
    TailSlice(s, at, |word|, |s| - at);
    TailSlice(mem[..], at, |word|, |s| - at);
    StoreWord(mem, at, word);
    next := at + |word|;
    assert mem[..next] == mem[..at] + mem[at..next];
  }

  method Store(mem: array<bv8>, x: seq<nat>, w: nat)
    requires w > 0 && |x| * w <= mem.Length
    modifies mem
    ensures mem[..|x| * w] == WordsOf(Spelled(x, w), w) && mem[|x| * w..] == old(mem[|x| * w..])
  {
    hide WordsOf, Reversed, BeBits, Spelled;
    ghost var s := mem[..];
    var at := 0;
    SpelledNone(w);
    for j := 0 to |x|
      invariant at == j * w <= mem.Length && mem[..at] == WordsOf(Spelled(x[..j], w), w) && mem[at..] == s[at..]
    {
      MinusOne(j, w);
      Below(j + 1, |x|, w);
      SpelledNext(x[..j], x[j], w);
      assert x[..j + 1] == x[..j] + [x[j]];
      at := StoreNext(mem, at, BeBits(x[j], w), s);
    }
    assert x[..|x|] == x;
  }

  lemma SpelledNone(w: nat)
    requires w > 0
    ensures WordsOf(Spelled([], w), w) == []
  {}

  lemma SpelledNext(x: seq<nat>, v: nat, w: nat)
    requires w > 0
    ensures WordsOf(Spelled(x + [v], w), w) == WordsOf(Spelled(x, w), w) + Reversed(BeBits(v, w))
  {
    hide WordsOf;
    assert (x + [v])[..|x|] == x;
    ModUnique(|Spelled(x, w)|, w, |x|, 0);
    WordsConcat(Spelled(x, w), BeBits(v, w), w);
    WordOnce(BeBits(v, w), w);
  }

  /** sha256_Transform and sha512_Transform on memory: what Sha2.Transform does for every algorithm. */
  method Transform(f: C.Rounds, ghost a: Algorithm, w: nat, stateIn: array<bv8>, block: array<bv8>, stateOut: array<bv8>)
    requires C.Proper(f) && w in {4, 8} && a == WithRounds(f, w, a.iv)
    requires stateIn.Length >= a.DigestLen() && block.Length == a.BlockLen() && stateOut.Length >= a.DigestLen()
    modifies stateOut
    ensures WordsOf(stateOut[..a.DigestLen()], w) == a.compress(WordsOf(old(stateIn[..a.DigestLen()]), w), WordsOf(old(block[..]), w))
    ensures stateOut[a.DigestLen()..] == old(stateOut[a.DigestLen()..])
  {
    hide WordsOf, Spelled, ValuesOf, C.Compress;
    ghost var s, b := WordsOf(stateIn[..8 * w], w), WordsOf(block[..], w);
    var x := Load(stateIn, 8, w);
    var m := Load(block, 16, w);
    assert block[..16 * w] == block[..];
    var o := new nat[8];
    C.Transform(f, x, m, o);
    assert m[..16] == m[..] && o[..8] == o[..];
    Store(stateOut, o[..], w);
    assert Spelled(o[..], w) == Digested(f, w, s, b);
    WordsTwice(Spelled(o[..], w), w);
  }
}
