/** lib/trezor-crypto/sha2.c: the streaming contexts of SHA-256 and SHA-512 on a little-endian machine.
    Arrays hold memory as it is; Words reads it as words, each by its bytes most significant first. */
module Sha2 {
  import opened Words
  import opened ModArith
  import opened ByteStrings
  import opened Sha2Spec

  // ---------------------------------------------------------------- memory and words

  function Reversed(s: Bytes): (t: Bytes)
    ensures |t| == |s| && forall i :: 0 <= i < |s| ==> t[i] == s[|s| - 1 - i]
  {
    seq(|s|, i requires 0 <= i < |s| => s[|s| - 1 - i])
  }

  /** Memory read as little-endian words of w bytes. */
  function WordsOf(s: Bytes, w: nat): (t: Bytes)
    requires w > 0
    ensures |t| == |s|
    decreases |s|
  {
    if |s| < w then s else Reversed(s[..w]) + WordsOf(s[w..], w)
  }

  lemma {:induction false} WordsConcat(s: Bytes, t: Bytes, w: nat)
    requires w > 0 && |s| % w == 0
    ensures WordsOf(s + t, w) == WordsOf(s, w) + WordsOf(t, w)
    decreases |s|
  {
    if |s| < w {
      ModUnique(|s|, w, 0, |s|);
      assert s + t == t;
    } else {
      ModSkip(w, |s| - w, w) by { ModUnique(w, w, 1, 0); }
      WordsConcat(s[w..], t, w);
      assert (s + t)[..w] == s[..w] && (s + t)[w..] == s[w..] + t;
    }
  }

  lemma {:induction false} WordsTwice(s: Bytes, w: nat)
    requires w > 0
    ensures WordsOf(WordsOf(s, w), w) == s
    decreases |s|
  {
    if |s| >= w {
      WordsTwice(s[w..], w);
      var t := WordsOf(s, w);
      assert t[..w] == Reversed(s[..w]) && t[w..] == WordsOf(s[w..], w);
      assert Reversed(Reversed(s[..w])) == s[..w];
    }
  }

  lemma WordOnce(s: Bytes, w: nat)
    requires w > 0 && |s| == w
    ensures WordsOf(s, w) == Reversed(s)
  {
    assert s[..w] == s && s[w..] == [];
  }

  /** memzero */
  method ClearBits(dst: array<bv8>, from: nat, to: nat)
    requires from <= to <= dst.Length
    modifies dst
    ensures dst[from..to] == Zeros(to - from) && dst[..from] == old(dst[..from]) && dst[to..] == old(dst[to..])
  {
    for k := from to to
      invariant forall i :: from <= i < k ==> dst[i] == 0
      invariant dst[..from] == old(dst[..from]) && dst[to..] == old(dst[to..])
    {
      dst[k] := 0;
    }
  }

  /** REVERSE32 or REVERSE64 of one word. */
  method ReverseWord(a: array<bv8>, at: nat, w: nat)
    requires at + w <= a.Length
    modifies a
    ensures a[at..at + w] == Reversed(old(a[at..at + w])) && a[..at] == old(a[..at]) && a[at + w..] == old(a[at + w..])
  {
    var word := Reversed(a[at..at + w]);
    for k := 0 to w
      invariant a[at..at + k] == word[..k]
      invariant a[..at] == old(a[..at]) && a[at + w..] == old(a[at + w..])
    {
      a[at + k] := word[k];
    }
    assert word[..w] == word;
  }

  /** The byte order of the first n words is turned around. */
  method ReverseWords(a: array<bv8>, n: nat, w: nat)
    requires w > 0 && n * w <= a.Length
    modifies a
    ensures a[..n * w] == WordsOf(old(a[..n * w]), w) && a[n * w..] == old(a[n * w..])
  {
    hide WordsOf, Reversed;
    ghost var s := a[..];
    var at := 0;
    WordsNone(w);
    assert s[..0] == [];
    for j := 0 to n
      invariant at == j * w <= a.Length && a[..at] == WordsOf(s[..at], w) && a[at..] == s[at..]
    {
      MinusOne(j, w);
      Below(j + 1, n, w);
      at := ReverseNext(a, at, w, s, j);
    }
    assert s[..at] == old(a[..n * w]);
  }

  method ReverseNext(a: array<bv8>, at: nat, w: nat, ghost s: Bytes, ghost j: nat) returns (next: nat)
    requires w > 0 && at == j * w && at + w <= a.Length == |s| && a[..at] == WordsOf(s[..at], w) && a[at..] == s[at..]
    modifies a
    ensures next == at + w && a[..next] == WordsOf(s[..next], w) && a[next..] == s[next..]
  {
    hide WordsOf, Reversed;
    assert a[at..at + w] == a[at..][..w] == s[at..at + w];
    ReverseWord(a, at, w);
    WordsNext(s, at, w, j);
    next := at + w;
    assert a[..next] == a[..at] + a[at..next];
  }

  lemma WordsNone(w: nat)
    requires w > 0
    ensures WordsOf([], w) == []
  {}

  lemma Below(j: nat, n: nat, w: nat)
    requires j <= n
    ensures j * w <= n * w
  {}

  lemma WordsNext(s: Bytes, at: nat, w: nat, j: nat)
    requires w > 0 && at == j * w && at + w <= |s|
    ensures WordsOf(s[..at + w], w) == WordsOf(s[..at], w) + Reversed(s[at..at + w])
  {
    ModUnique(at, w, j, 0);
    assert s[..at + w] == s[..at] + s[at..at + w];
    WordsConcat(s[..at], s[at..at + w], w);
    WordOnce(s[at..at + w], w);
  }

  /** The transform works on words: out = compress(in, block). */
  method Transform(a: Algorithm, stateIn: array<bv8>, block: array<bv8>, stateOut: array<bv8>)
    requires Proper(a) && stateIn.Length >= a.DigestLen() && block.Length == a.BlockLen() && stateOut.Length >= a.DigestLen()
    modifies stateOut
    ensures WordsOf(stateOut[..a.DigestLen()], a.w) == a.compress(WordsOf(old(stateIn[..a.DigestLen()]), a.w), WordsOf(old(block[..]), a.w))
    ensures stateOut[a.DigestLen()..] == old(stateOut[a.DigestLen()..])
  {
    ghost var rest := stateOut[a.DigestLen()..];
    var out := a.compress(WordsOf(stateIn[..a.DigestLen()], a.w), WordsOf(block[..], a.w));
    var mem := WordsOf(out, a.w);
    for k := 0 to |mem|
      invariant stateOut[..k] == mem[..k] && stateOut[a.DigestLen()..] == rest
    {
      stateOut[k] := mem[k];
    }
    WordsTwice(out, a.w);
    assert stateOut[..a.DigestLen()] == mem;
  }

  /** ADDINC128: a count in two 64-bit words. */
  method AddInc128(w0: uint64, w1: uint64, n: uint64) returns (v0: uint64, v1: uint64)
    ensures v0 as int + 0x1_0000_0000_0000_0000 * v1 as int ==
      (w0 as int + 0x1_0000_0000_0000_0000 * w1 as int + n as int) % 0x1_0000_0000_0000_0000_0000_0000_0000_0000
  {
    var sum: int := w0 as int + n as int;
    v0 := sum % 0x1_0000_0000_0000_0000;
    v1 := w1;
    if v0 < n {
      v1 := (w1 as int + 1) % 0x1_0000_0000_0000_0000;
    }
  }

  // ---------------------------------------------------------------- the bit count

  const WORD64: nat := 0x1_0000_0000_0000_0000

  /** One 64-bit word for SHA-256, two for SHA-512. */
  function CountLimit(w: nat): nat {
    if w == 8 then WORD64 * WORD64 else WORD64
  }

  /** The bit count after a number of bytes. */
  function Counted(w: nat, bytes: nat): (c: nat)
    ensures c < CountLimit(w)
  {
    8 * bytes % CountLimit(w)
  }

  lemma CountNext(w: nat, bytes: nat, n: nat)
    ensures (Counted(w, bytes) + 8 * n) % CountLimit(w) == Counted(w, bytes + n)
  {
    var l := CountLimit(w);
    var q := 8 * bytes / l;
    Quotient(8 * bytes, l);
    Quotient(Counted(w, bytes) + 8 * n, l);
    var r := (Counted(w, bytes) + 8 * n) / l;
    assert 8 * (bytes + n) == (q + r) * l + (Counted(w, bytes) + 8 * n) % l by {
      assert (q + r) * l == q * l + r * l;
    }
    ModUnique(8 * (bytes + n), l, q + r, (Counted(w, bytes) + 8 * n) % l);
  }

  /** The lower word suffices for the place in the block. */
  lemma CountUsed(w: nat, bytes: nat)
    requires w in {4, 8}
    ensures Counted(w, bytes) % WORD64 / 8 % (16 * w) == bytes % (16 * w)
  {
    var c := Counted(w, bytes);
    var q := 8 * bytes / CountLimit(w);
    var k := if w == 8 then q * WORD64 else q;
    assert 8 * bytes == k * WORD64 + c;
    Quotient(c, WORD64);
    var m := k + c / WORD64;
    assert 8 * bytes == m * WORD64 + c % WORD64;
    var n := bytes - m * (WORD64 / 8);
    assert c % WORD64 == 8 * n;
    var b := 16 * w;
    Quotient(n, b);
    assert bytes == m * (WORD64 / 8 / b) * b + n;
    ModUnique(bytes, b, m * (WORD64 / 8 / b) + n / b, n % b);
  }

  lemma {:induction false} BeBitsWrap(v: nat, n: nat)
    ensures BeBits(v % Pow(256, n), n) == BeBits(v, n)
    decreases n
  {
    if n > 0 {
      var p := Pow(256, n - 1);
      var q, r, t := v / 256 / p, v / 256 % p, v % 256;
      Quotient(v / 256, p);
      assert 256 * (q * p + r) == q * (256 * p) + 256 * r;
      ModUnique(v, 256 * p, q, 256 * r + t);
      assert (256 * r + t) / 256 == r && (256 * r + t) % 256 == t;
      BeBitsWrap(v / 256, n - 1);
    }
  }

  lemma CountBits(w: nat, bytes: nat)
    requires w in {4, 8}
    ensures BeBits(Counted(w, bytes), 2 * w) == BeBits(8 * bytes, 2 * w)
  {
    BeBitsWrap(8 * bytes, 2 * w);
    assert Pow(256, 4) == 0x1_0000_0000;
    hide Pow, BeBits;
    PowAdd(256, 4, 4);
    PowAdd(256, 8, 8);
  }

  /** bitcount += n, or ADDINC128 */
  method AddBits(w: nat, count: nat, n: uint64) returns (c: nat)
    requires w in {4, 8} && count < CountLimit(w)
    ensures c == (count + n) % CountLimit(w)
  {
    if w == 8 {
      var v0, v1 := AddInc128(count % WORD64, count / WORD64, n);
      c := v0 + WORD64 * v1;
    } else {
      c := (count + n) % WORD64;
    }
  }

  // ---------------------------------------------------------------- the context

  /** The chaining value and the pending bytes after a message d that follows the midstate st. */
  ghost predicate Absorbed(a: Algorithm, st: Bytes, d: Bytes, chain: Bytes, pending: Bytes)
    requires a.w > 0
  {
    var n := |d| - |pending|;
    0 <= n && n % a.BlockLen() == 0 && |pending| < a.BlockLen() && chain == Chain(a, st, d[..n]) && pending == d[n..]
  }

  lemma PendingIs(a: Algorithm, st: Bytes, d: Bytes, chain: Bytes, pending: Bytes)
    requires a.w > 0 && Absorbed(a, st, d, chain, pending)
    ensures |d| % a.BlockLen() == |pending|
  {
    hide Chain;
    ModAdd(|d| - |pending|, |pending|, a.BlockLen());
    ModUnique(|pending|, a.BlockLen(), 0, |pending|);
  }

  lemma ModLess(n: nat, b: nat)
    requires b > 0
    ensures n % b < b && n % b <= n
  {
    Quotient(n, b);
    if n < b {
      ModUnique(n, b, 0, n);
    }
  }

  /** Nothing absorbed yet. */
  lemma AbsorbedNone(a: Algorithm, st: Bytes)
    requires a.w > 0
    ensures Absorbed(a, st, [], st, [])
  {
    ModUnique(0, a.BlockLen(), 0, 0);
  }

  /** More bytes that do not fill the block. */
  lemma AbsorbedPart(a: Algorithm, st: Bytes, d: Bytes, chain: Bytes, pending: Bytes, e: Bytes)
    requires a.w > 0 && Absorbed(a, st, d, chain, pending) && |pending| + |e| < a.BlockLen()
    ensures Absorbed(a, st, d + e, chain, pending + e) && |d + e| % a.BlockLen() == |pending| + |e|
  {
    hide Chain;
    var n := |d| - |pending|;
    assert (d + e)[..n] == d[..n] && (d + e)[n..] == d[n..] + e;
    PendingIs(a, st, d + e, chain, pending + e);
  }

  /** Bytes that fill the block: it is compressed, and nothing is pending. */
  lemma AbsorbedFull(a: Algorithm, st: Bytes, d: Bytes, chain: Bytes, pending: Bytes, e: Bytes)
    requires a.w > 0 && Absorbed(a, st, d, chain, pending) && |pending| + |e| == a.BlockLen()
    ensures Absorbed(a, st, d + e, a.compress(chain, pending + e), []) && |d + e| % a.BlockLen() == 0
  {
    hide Chain;
    var b := a.BlockLen();
    var n := |d| - |pending|;
    ModUnique(b, b, 1, 0);
    ModAdd(n, b, b);
    var all := d + e;
    assert all[..n] == d[..n] && all[n..] == pending + e && all[..|all|] == all && all[|all|..] == [];
    ChainLast(a, st, all, n);
  }

  lemma ChainLast(a: Algorithm, st: Bytes, d: Bytes, n: nat)
    requires a.w > 0 && n % a.BlockLen() == 0 && |d| == n + a.BlockLen() && |d| % a.BlockLen() == 0
    ensures Chain(a, st, d) == a.compress(Chain(a, st, d[..n]), d[n..])
  {}

  /** The upper word of the length, and the lower one. */
  lemma {:induction false} BeBitsSplit(v: nat, m: nat, n: nat)
    ensures Pow(256, n) > 0 && BeBits(v, m + n) == BeBits(v / Pow(256, n), m) + BeBits(v, n)
    decreases n
  {
    if n == 0 {
      assert v / 1 == v;
      assert BeBits(v, m) + [] == BeBits(v, m);
    } else {
      BeBitsSplit(v / 256, m, n - 1);
      DivTwice(v, 256, Pow(256, n - 1));
    }
  }

  lemma DivTwice(v: nat, a: nat, b: nat)
    requires a > 0 && b > 0
    ensures a * b > 0 && v / a / b == v / (a * b)
  {
    MulPositive(a, b);
    var q, r := v / a / b, v / a % b;
    Quotient(v, a);
    Quotient(v / a, b);
    assert v == (q * b + r) * a + v % a;
    MulAssoc(q, b, a);
    assert v == q * (a * b) + (r * a + v % a) by {
      assert (q * b + r) * a == q * b * a + r * a;
      assert b * a == a * b;
    }
    assert r * a + v % a < a * b by {
      MulLe(r + 1, a, b, a);
      assert (r + 1) * a == r * a + a;
      assert b * a == a * b;
    }
    assert r * a >= 0;
    ModUnique(v, a * b, q, r * a + v % a);
  }

  /** The pending bytes, the marker, zeros and the length make up the last block ... */
  lemma FinalOne(a: Algorithm, st: Bytes, pre: nat, d: Bytes, chain: Bytes, p: Bytes)
    requires a.w > 0 && pre % a.BlockLen() == 0 && Absorbed(a, st, d, chain, p) && |p| + 1 <= a.ShortLen()
    ensures HashFrom(a, st, pre, d) ==
      a.compress(chain, p + [0x80] + Zeros(a.ShortLen() - |p| - 1) + BeBits(8 * (pre + |d|), 2 * a.w))
  {
    PendingIs(a, st, d, chain, p);
    ModAdd(pre, |d|, a.BlockLen());
    var n := |d| - |p|;
    var all, last := d + Padding(a, pre + |d|), p + [0x80] + Zeros(a.ShortLen() - |p| - 1) + BeBits(8 * (pre + |d|), 2 * a.w);
    hide Chain, BeBits;
    assert all[..n] == d[..n] && all[n..] == last;
    PaddingFills(a, pre + |d|);
    ModSkip(pre, |all|, a.BlockLen());
    ChainLast(a, st, all, n);
  }

  /** ... or the last two. */
  lemma FinalTwo(a: Algorithm, st: Bytes, pre: nat, d: Bytes, chain: Bytes, p: Bytes)
    requires a.w > 0 && pre % a.BlockLen() == 0 && Absorbed(a, st, d, chain, p) && |p| + 1 > a.ShortLen()
    ensures HashFrom(a, st, pre, d) ==
      a.compress(a.compress(chain, p + [0x80] + Zeros(a.BlockLen() - |p| - 1)), Zeros(a.ShortLen()) + BeBits(8 * (pre + |d|), 2 * a.w))
  {
    PendingIs(a, st, d, chain, p);
    ModAdd(pre, |d|, a.BlockLen());
    var b := a.BlockLen();
    var n := |d| - |p|;
    var all := d + Padding(a, pre + |d|);
    var first, last := p + [0x80] + Zeros(b - |p| - 1), Zeros(a.ShortLen()) + BeBits(8 * (pre + |d|), 2 * a.w);
    TwoBlocks(a, pre, d, p, n);
    PaddingFills(a, pre + |d|);
    ModSkip(pre, |all|, b);
    ModUnique(b, b, 1, 0);
    ModAdd(n, b, b);
    hide Chain, BeBits, Padding;
    var mid := all[..n + b];
    assert mid[..n] == d[..n] && mid[n..] == first;
    ChainLast(a, st, mid, n);
    ChainLast(a, st, all, n + b);
  }

  lemma TwoBlocks(a: Algorithm, pre: nat, d: Bytes, p: Bytes, n: nat)
    requires a.w > 0 && a.ShortLen() < |p| + 1 <= a.BlockLen() && n == |d| - |p| && p == d[n..] && (pre + |d|) % a.BlockLen() == |p|
    ensures var b := a.BlockLen(); var all := d + Padding(a, pre + |d|);
      && |all| == n + b + b && all[..n] == d[..n] && all[n..n + b] == p + [0x80] + Zeros(b - |p| - 1)
      && all[n + b..] == Zeros(a.ShortLen()) + BeBits(8 * (pre + |d|), 2 * a.w)
  {
    hide BeBits;
  }

  /** The chaining value and the start of the last block, up to the length. */
  ghost function LastBut(a: Algorithm, chain: Bytes, p: Bytes): (Bytes, Bytes)
    requires |p| < a.BlockLen()
  {
    if |p| + 1 > a.ShortLen() then (a.compress(chain, p + [0x80] + Zeros(a.BlockLen() - |p| - 1)), Zeros(a.ShortLen()))
    else (chain, p + [0x80] + Zeros(a.ShortLen() - |p| - 1))
  }

  lemma FinalIs(a: Algorithm, st: Bytes, pre: nat, d: Bytes, chain: Bytes, p: Bytes)
    requires a.w > 0 && pre % a.BlockLen() == 0 && Absorbed(a, st, d, chain, p)
    ensures |p| < a.BlockLen()
    ensures var (c, q) := LastBut(a, chain, p); HashFrom(a, st, pre, d) == a.compress(c, q + BeBits(8 * (pre + |d|), 2 * a.w))
  {
    assert |p| < a.BlockLen();
    hide HashFrom, BeBits, Zeros, Absorbed, Chain;
    if |p| + 1 > a.ShortLen() {
      FinalTwo(a, st, pre, d, chain, p);
    } else {
      FinalOne(a, st, pre, d, chain, p);
    }
  }

  class Context {
    const alg: Algorithm
    const state: array<bv8>
    const buffer: array<bv8>
    var count: nat
    ghost var st: Bytes
    ghost var pre: nat
    ghost var data: Bytes

    ghost predicate Valid()
      reads this, state, buffer
    {
      && Proper(alg) && state.Length == alg.DigestLen() && buffer.Length == alg.BlockLen() && state != buffer
      && count == Counted(alg.w, pre + |data|) && pre % alg.BlockLen() == 0
      && |data| % alg.BlockLen() < alg.BlockLen()
      && Absorbed(alg, st, data, WordsOf(state[..], alg.w), buffer[..|data| % alg.BlockLen()])
    }

    ghost predicate Ready()
      reads this
    {
      Proper(alg) && state.Length == alg.DigestLen() && buffer.Length == alg.BlockLen() && state != buffer
    }

    /** sha256_Init and sha512_Init, or a context that goes on from a midstate; the words of the state
        are given by their bytes. */
    constructor (alg: Algorithm, start: Bytes, pre: nat)
      requires Proper(alg) && |start| == alg.DigestLen() && pre % alg.BlockLen() == 0
      ensures Valid() && this.alg == alg && st == start && this.pre == pre && data == [] && fresh(state) && fresh(buffer)
    {
      this.alg := alg;
      var mem := WordsOf(start, alg.w);
      state := new bv8[alg.DigestLen()](i requires 0 <= i < |mem| => mem[i]);
      buffer := new bv8[alg.BlockLen()](i => 0);
      count := Counted(alg.w, pre);
      this.st, this.pre, this.data := start, pre, [];
      new;
      hide Chain, WordsOf, Counted, Absorbed;
      WordsTwice(start, alg.w);
      ModUnique(0, alg.BlockLen(), 0, 0);
      assert state[..] == mem && buffer[..0] == [];
      AbsorbedNone(alg, start);
    }

    /** A context set up in the middle of a block. */
    constructor Resume(alg: Algorithm, start: Bytes, pre: nat, pending: Bytes)
      requires Proper(alg) && |start| == alg.DigestLen() && pre % alg.BlockLen() == 0 && |pending| < alg.BlockLen()
      ensures Valid() && this.alg == alg && st == start && this.pre == pre && data == pending && fresh(state) && fresh(buffer)
    {
      this.alg := alg;
      var mem := WordsOf(start, alg.w);
      state := new bv8[alg.DigestLen()](i requires 0 <= i < |mem| => mem[i]);
      buffer := new bv8[alg.BlockLen()](i => if 0 <= i < |pending| then pending[i] else 0);
      count := Counted(alg.w, pre + |pending|);
      this.st, this.pre, this.data := start, pre, pending;
      new;
      WordsTwice(start, alg.w);
      assert state[..] == mem && buffer[..|pending|] == pending;
      AbsorbedNone(alg, start);
      AbsorbedPart(alg, start, [], start, [], pending);
      assert [] + pending == pending;
    }

    /** The block in the buffer, in memory order, goes into the chaining value. */
    method Process()
      requires Ready()
      modifies state, buffer
      ensures WordsOf(state[..], alg.w) == alg.compress(WordsOf(old(state[..]), alg.w), old(buffer[..]))
    {
      hide WordsOf;
      ghost var m, s := buffer[..], state[..];
      ReverseWords(buffer, 16, alg.w);
      assert buffer[..16 * alg.w] == buffer[..] && m[..16 * alg.w] == m;
      WordsTwice(m, alg.w);
      assert state[..alg.DigestLen()] == s;
      Transform(alg, state, buffer, state);
      assert state[..alg.DigestLen()] == state[..];
    }

    /** The bytes in the buffer. */
    method Used() returns (used: nat)
      requires Valid()
      ensures used == |data| % alg.BlockLen()
    {
      ModAdd(pre, |data|, alg.BlockLen());
      CountUsed(alg.w, pre + |data|);
      used := count % WORD64 / 8 % alg.BlockLen();
    }

    /** sha256_Update and sha512_Update */
    method Update(d: array<bv8>)
      requires Valid() && d !in {state, buffer}
      modifies this`count, this`data, state, buffer
      ensures Valid() && data == old(data) + d[..]
    {
      hide Chain, Absorbed, WordsOf;
      var len := d.Length;
      var b := alg.BlockLen();
      if len == 0 {
        assert data + d[..] == data;
        return;
      }
      var used := Used();
      var off := 0;
      assert data + d[..0] == data;
      if used > 0 {
        var free := b - used;
        if len < free {
          Keep(d, 0, used, len);
          assert d[0..len] == d[..];
          return;
        }
        Fill(d, 0, used, free);
        off := free;
      }
      off := WholeBlocks(d, off);
      SplitData(old(data), d[..], off);
      Rest(d, off);
    }

    /** Block after block as long as a whole one is left. */
    method WholeBlocks(d: array<bv8>, from: nat) returns (off: nat)
      requires Valid() && d !in {state, buffer} && from <= d.Length && |data| % alg.BlockLen() == 0
      modifies this`count, this`data, state, buffer
      ensures Valid() && from <= off <= d.Length < off + alg.BlockLen() && |data| % alg.BlockLen() == 0
      ensures forall a :: old(data) == a + d[..from] ==> data == a + d[..off]
    {
      hide Chain, Absorbed, WordsOf;
      var b := alg.BlockLen();
      off := from;
      while d.Length - off >= b
        invariant from <= off <= d.Length && Valid() && data == old(data) + d[from..off] && |data| % b == 0
      {
        Fill(d, off, 0, b);
        assert d[from..off] + d[off..off + b] == d[from..off + b];
        off := off + b;
      }
      assert d[..from] + d[from..off] == d[..off];
    }

    static lemma SplitData(a: Bytes, d: Bytes, off: nat)
      requires off <= |d|
      ensures a + d[..off] + d[off..] == a + d
    {
      assert d == d[..off] + d[off..];
    }

    /** What is left over after the whole blocks. */
    method Rest(d: array<bv8>, off: nat)
      requires Valid() && d !in {state, buffer} && off <= d.Length && d.Length - off < alg.BlockLen() && |data| % alg.BlockLen() == 0
      modifies this`count, this`data, buffer
      ensures Valid() && data == old(data) + d[off..]
    {
      hide Chain, Absorbed, WordsOf;
      if d.Length - off > 0 {
        Keep(d, off, 0, d.Length - off);
        assert d[off..d.Length] == d[off..];
      } else {
        assert data + d[off..] == data;
      }
    }

    /** n bytes that do not fill the buffer. */
    method Keep(d: array<bv8>, off: nat, used: nat, n: nat)
      requires Valid() && d !in {state, buffer} && off + n <= d.Length && used == |data| % alg.BlockLen() && used + n < alg.BlockLen()
      modifies this`count, this`data, buffer
      ensures Valid() && data == old(data) + d[off..off + n]
    {
      ghost var e, p := d[off..off + n], buffer[..used];
      AbsorbedPart(alg, st, data, WordsOf(state[..], alg.w), p, e);
      hide Absorbed, WordsOf;
      CopyInto(buffer, used, d, off, n);
      assert buffer[..used + n] == buffer[..used] + buffer[used..used + n];
      CountNext(alg.w, pre + |data|, n);
      count := AddBits(alg.w, count, 8 * n);
      data := data + e;
    }

    /** n bytes that fill the buffer exactly. */
    method Fill(d: array<bv8>, off: nat, used: nat, n: nat)
      requires Valid() && d !in {state, buffer} && off + n <= d.Length && used == |data| % alg.BlockLen() && used + n == alg.BlockLen()
      modifies this`count, this`data, state, buffer
      ensures Valid() && data == old(data) + d[off..off + n] && |data| % alg.BlockLen() == 0
    {
      ghost var e, p := d[off..off + n], buffer[..used];
      AbsorbedFull(alg, st, data, WordsOf(state[..], alg.w), p, e);
      hide Absorbed, WordsOf;
      CopyInto(buffer, used, d, off, n);
      assert buffer[..] == buffer[..used] + buffer[used..used + n];
      Process();
      CountNext(alg.w, pre + |data|, n);
      count := AddBits(alg.w, count, 8 * n);
      data := data + e;
      assert buffer[..0] == [];
    }

    /** sha256_Final and sha512_Final: the digest goes to the start of the buffer given. */
    method Final(digest: array<bv8>)
      requires Valid() && digest !in {state, buffer} && digest.Length >= alg.DigestLen()
      modifies this`count, state, buffer, digest
      ensures digest[..alg.DigestLen()] == HashFrom(alg, st, pre, data) && digest[alg.DigestLen()..] == old(digest[alg.DigestLen()..])
    {
      CountBits(alg.w, pre + |data|);
      var used := Used();
      FinalIs(alg, st, pre, data, WordsOf(state[..], alg.w), buffer[..used]);
      ghost var hash := HashFrom(alg, st, pre, data);
      assert Ready() && used < alg.BlockLen();
      hide Valid, Absorbed, WordsOf, HashFrom, Chain, BeBits, LastBut, Counted;
      PadOut(used);
      LastTransform();
      assert WordsOf(state[..], alg.w) == hash;
      Output(digest);
    }

    /** All of the last block but the length; it may take a block of its own. */
    method PadOut(used: nat)
      requires Ready() && used < alg.BlockLen()
      modifies state, buffer
      ensures Ready() && (WordsOf(state[..], alg.w), buffer[..alg.ShortLen()]) == LastBut(alg, WordsOf(old(state[..]), alg.w), old(buffer[..used]))
    {
      hide WordsOf, Zeros;
      ghost var s := state[..];
      if used + 1 > alg.ShortLen() {
        MarkAndProcess(used);
      } else {
        Mark(used, alg.ShortLen());
        assert state[..] == s;
      }
    }

    /** No room for the length: the marker ends a block of its own, the next one is zeros so far. */
    method MarkAndProcess(used: nat)
      requires Ready() && used < alg.BlockLen()
      modifies state, buffer
      ensures Ready() && buffer[..alg.ShortLen()] == Zeros(alg.ShortLen())
      ensures WordsOf(state[..], alg.w) ==
        alg.compress(WordsOf(old(state[..]), alg.w), old(buffer[..used]) + [0x80] + Zeros(alg.BlockLen() - used - 1))
    {
      hide WordsOf, Zeros;
      Mark(used, alg.BlockLen());
      assert buffer[..alg.BlockLen()] == buffer[..];
      Process();
      ClearBits(buffer, 0, alg.ShortLen());
      assert buffer[..alg.ShortLen()] == buffer[0..alg.ShortLen()];
    }

    /** The marker, and zeros up to a point. */
    method Mark(used: nat, to: nat)
      requires Ready() && used < to <= alg.BlockLen()
      modifies buffer
      ensures buffer[..to] == old(buffer[..used]) + [0x80] + Zeros(to - used - 1)
    {
      ghost var p := buffer[..used];
      buffer[used] := 0x80;
      assert buffer[..used + 1] == p + [0x80];
      ClearBits(buffer, used + 1, to);
      assert buffer[..to] == buffer[..used + 1] + buffer[used + 1..to];
    }

    /** The last block: all but the length is turned around, the length is put in as words. */
    method LastTransform()
      requires Ready()
      modifies state, buffer
      ensures WordsOf(state[..], alg.w) ==
        alg.compress(WordsOf(old(state[..]), alg.w), old(buffer[..alg.ShortLen()]) + BeBits(count, 2 * alg.w))
    {
      hide WordsOf, BeBits;
      var w := alg.w;
      ghost var head, s := buffer[..14 * w], state[..];
      ReverseWords(buffer, 14, w);
      var hi, lo := BeBits(count / Pow(256, w), w), BeBits(count, w);
      BeBitsSplit(count, w, w);
      StoreWord(buffer, 14 * w, hi);
      StoreWord(buffer, 15 * w, lo);
      assert buffer[..14 * w] == WordsOf(head, w);
      LastWords(buffer[..], head, hi, lo, w);
      assert state[..alg.DigestLen()] == s;
      Transform(alg, state, buffer, state);
      assert state[..alg.DigestLen()] == state[..];
    }

    method Output(digest: array<bv8>)
      requires Ready() && digest !in {state, buffer} && digest.Length >= alg.DigestLen()
      modifies state, digest
      ensures digest[..alg.DigestLen()] == WordsOf(old(state[..]), alg.w) && digest[alg.DigestLen()..] == old(digest[alg.DigestLen()..])
    {
      hide WordsOf;
      ghost var s := state[..];
      ReverseWords(state, 8, alg.w);
      assert state[..8 * alg.w] == state[..] && s[..8 * alg.w] == s;
      CopyInto(digest, 0, state, 0, alg.DigestLen());
      assert digest[..alg.DigestLen()] == digest[0..alg.DigestLen()] && state[0..alg.DigestLen()] == state[..];
      assert digest[alg.DigestLen()..] == digest[0 + alg.DigestLen()..];
    }
  }

  /** A word, given by its bytes, stored in memory order. */
  method StoreWord(a: array<bv8>, at: nat, word: Bytes)
    requires at + |word| <= a.Length
    modifies a
    ensures a[at..at + |word|] == Reversed(word) && a[..at] == old(a[..at]) && a[at + |word|..] == old(a[at + |word|..])
  {
    var m := Reversed(word);
    for k := 0 to |m|
      invariant a[at..at + k] == m[..k]
      invariant a[..at] == old(a[..at]) && a[at + |word|..] == old(a[at + |word|..])
    {
      a[at + k] := m[k];
    }
    assert m[..|m|] == m;
  }

  /** Fourteen words and two more, read back. */
  lemma LastWords(mem: Bytes, head: Bytes, hi: Bytes, lo: Bytes, w: nat)
    requires w > 0 && |mem| == 16 * w && |head| == 14 * w && |hi| == |lo| == w
    requires mem[..14 * w] == WordsOf(head, w) && mem[14 * w..15 * w] == Reversed(hi) && mem[15 * w..] == Reversed(lo)
    ensures WordsOf(mem, w) == head + (hi + lo)
  {
    ModUnique(14 * w, w, 14, 0);
    ModUnique(w, w, 1, 0);
    WordsTwice(head, w);
    WordOnce(Reversed(hi), w);
    WordOnce(Reversed(lo), w);
    ReversedTwice(hi);
    ReversedTwice(lo);
    hide WordsOf, Reversed;
    ThreeParts(mem, WordsOf(head, w), Reversed(hi), Reversed(lo));
    WordsConcat(WordsOf(head, w), Reversed(hi) + Reversed(lo), w);
    WordsConcat(Reversed(hi), Reversed(lo), w);
  }

  lemma ThreeParts(s: Bytes, a: Bytes, b: Bytes, c: Bytes)
    requires |s| == |a| + |b| + |c| && s[..|a|] == a && s[|a|..|a| + |b|] == b && s[|a| + |b|..] == c
    ensures s == a + (b + c)
  {}

  lemma ReversedTwice(s: Bytes)
    ensures Reversed(Reversed(s)) == s
  {}

  // ---------------------------------------------------------------- blocks with their padding in place

  /** The last eight words of a block in memory: a marker, zeros and a length of one word. */
  ghost predicate Tail(g: Bytes, w: nat, marker: Bytes, bits: nat) {
    && |g| == 16 * w && |marker| == w && g[8 * w..9 * w] == Reversed(marker)
    && g[9 * w..15 * w] == Zeros(6 * w) && g[15 * w..] == Reversed(BeBits(bits, w))
  }

  lemma SameHead(s: Bytes, t: Bytes, n: nat, i: nat, j: nat)
    requires i <= j <= n <= |s| && n <= |t| && s[..n] == t[..n]
    ensures s[i..j] == t[i..j]
  {
    PartSlice(s, 0, n, i, j);
    PartSlice(t, 0, n, i, j);
  }

  method PutTail(g: array<bv8>, w: nat, marker: Bytes, bits: nat)
    requires g.Length == 16 * w && |marker| == w && g[9 * w..15 * w] == Zeros(6 * w)
    modifies g
    ensures Tail(g[..], w, marker, bits) && g[..8 * w] == old(g[..8 * w])
  {
    hide BeBits, Reversed;
    ghost var was := g[..];
    StoreWord(g, 8 * w, marker);
    ghost var now := g[..];
    TailSlice(was, 9 * w, 0, 6 * w);
    TailSlice(now, 9 * w, 0, 6 * w);
    assert now[9 * w..] == g[9 * w..] == was[9 * w..];
    StoreWord(g, 15 * w, BeBits(bits, w));
    SameHead(now, g[..], 15 * w, 0, 8 * w);
    SameHead(now, g[..], 15 * w, 8 * w, 9 * w);
    SameHead(now, g[..], 15 * w, 9 * w, 15 * w);
  }

  /** The words of a block whose padding is in place. */
  lemma TailBlock(g: Bytes, w: nat, d: Bytes, marker: Bytes, bits: nat)
    requires w in {4, 8} && Tail(g, w, marker, bits) && bits < 0x1_0000 && WordsOf(g[..8 * w], w) == d
    ensures |d| == 8 * w && WordsOf(g, w) == d + (marker + (Zeros(5 * w) + BeBits(bits, 2 * w)))
  {
    hide WordsOf, BeBits, Reversed;
    var len, t := BeBits(bits, w), g[8 * w..];
    TailSlice(g, 8 * w, 0, w);
    TailSlice(g, 8 * w, w, 7 * w);
    TailSlice(g, 8 * w, 7 * w, 8 * w);
    EightWords(t, marker, len, w);
    LengthHalves(bits, w);
    ModUnique(8 * w, w, 8, 0);
    assert g == g[..8 * w] + t;
    WordsConcat(g[..8 * w], t, w);
    assert Zeros(6 * w) + len == Zeros(5 * w) + (Zeros(w) + len);
  }

  lemma EightWords(t: Bytes, marker: Bytes, len: Bytes, w: nat)
    requires w > 0 && |t| == 8 * w && |marker| == |len| == w
    requires t[..w] == Reversed(marker) && t[w..7 * w] == Zeros(6 * w) && t[7 * w..] == Reversed(len)
    ensures WordsOf(t, w) == marker + (Zeros(6 * w) + len)
  {
    hide *;
    ThreeParts(t, Reversed(marker), Zeros(6 * w), Reversed(len));
    WordIs(marker, w);
    WordIs(len, w);
    ZeroWords(6 * w, w);
    ModUnique(w, w, 1, 0);
    WordsConcat(Reversed(marker), Zeros(6 * w) + Reversed(len), w);
    ModUnique(6 * w, w, 6, 0);
    WordsConcat(Zeros(6 * w), Reversed(len), w);
  }

  lemma WordIs(word: Bytes, w: nat)
    requires w > 0 && |word| == w
    ensures WordsOf(Reversed(word), w) == word
  {
    WordOnce(Reversed(word), w);
    ReversedTwice(word);
  }

  lemma {:induction false} ZeroWords(n: nat, w: nat)
    requires w > 0
    ensures WordsOf(Zeros(n), w) == Zeros(n)
    decreases n
  {
    if n >= w {
      ZeroWords(n - w, w);
      assert Zeros(n)[w..] == Zeros(n - w) && Reversed(Zeros(n)[..w]) == Zeros(w);
      assert Zeros(w) + Zeros(n - w) == Zeros(n);
    }
  }

  /** The upper word of a short length is zero. */
  lemma LengthHalves(v: nat, w: nat)
    requires w in {4, 8} && v < 0x1_0000
    ensures BeBits(v, 2 * w) == Zeros(w) + BeBits(v, w)
  {
    BeBitsSplit(v, w, w);
    SmallLength(v, w);
    BeBitsZeros(w);
    hide BeBits, Pow;
  }

  lemma SmallLength(v: nat, w: nat)
    requires w in {4, 8} && v < 0x1_0000
    ensures Pow(256, w) > 0 && v / Pow(256, w) == 0
  {
    assert Pow(256, 2) == 0x1_0000;
    PowAdd(256, 2, w - 2);
    assert Pow(256, w - 2) >= 1;
    MulLe(0x1_0000, 1, 0x1_0000, Pow(256, w - 2));
    ModUnique(v, Pow(256, w), 0, v);
  }

  lemma {:induction false} BeBitsZeros(n: nat)
    ensures BeBits(0, n) == Zeros(n)
  {
    if n > 0 {
      BeBitsZeros(n - 1);
      assert Zeros(n) == Zeros(n - 1) + [0];
    }
  }
}
