/** lib/trezor-crypto/sha2.c: the transforms of SHA-256 and SHA-512.  The message schedule is kept in
    a ring of sixteen words; the six logical functions and the constants are parameters. */
module Sha2Compress {

  /** modulus is 2^32 and count 64 for SHA-256, 2^64 and 80 for SHA-512. */
  datatype Rounds = Rounds(modulus: nat, count: nat, k: seq<nat>,
                           Sigma0: nat -> nat, Sigma1: nat -> nat, sigma0: nat -> nat, sigma1: nat -> nat,
                           Ch: (nat, nat, nat) -> nat, Maj: (nat, nat, nat) -> nat)

  ghost predicate Proper(f: Rounds) {
    f.modulus > 0 && f.count >= 16 && |f.k| == f.count
  }

  /** The working variables a to h. */
  datatype Regs = Regs(a: nat, b: nat, c: nat, d: nat, e: nat, f: nat, g: nat, h: nat)

  // Sections 6.2.2 and 6.4.2 of FIPS 180-4

  /** W_t */
  function Schedule(f: Rounds, m: seq<nat>, t: nat): nat
    requires Proper(f) && |m| == 16
  {
    if t < 16 then m[t]
    else (f.sigma1(Schedule(f, m, t - 2)) + Schedule(f, m, t - 7) + f.sigma0(Schedule(f, m, t - 15)) + Schedule(f, m, t - 16)) % f.modulus
  }

  function Sum(f: Rounds, x: nat, y: nat): nat
    requires Proper(f)
  {
    (x + y) % f.modulus
  }

  /** T_1 and T_2 */
  function T1(f: Rounds, x: nat, y: nat, z: nat, h: nat, k: nat, w: nat): nat
    requires Proper(f)
  {
    (h + f.Sigma1(x) + f.Ch(x, y, z) + k + w) % f.modulus
  }

  function T2(f: Rounds, x: nat, y: nat, z: nat): nat
    requires Proper(f)
  {
    (f.Sigma0(x) + f.Maj(x, y, z)) % f.modulus
  }

  function Round(f: Rounds, r: Regs, k: nat, w: nat): Regs
    requires Proper(f)
  {
    var t1, t2 := T1(f, r.e, r.f, r.g, r.h, k, w), T2(f, r.a, r.b, r.c);
    Regs(Sum(f, t1, t2), r.a, r.b, r.c, Sum(f, r.d, t1), r.e, r.f, r.g)
  }

  function After(f: Rounds, r: Regs, m: seq<nat>, t: nat): Regs
    requires Proper(f) && |m| == 16 && t <= f.count
  {
    if t == 0 then r else Round(f, After(f, r, m, t - 1), f.k[t - 1], Schedule(f, m, t - 1))
  }

  function Loaded(s: seq<nat>): Regs
    requires |s| == 8
  {
    Regs(s[0], s[1], s[2], s[3], s[4], s[5], s[6], s[7])
  }

  function Compress(f: Rounds, s: seq<nat>, m: seq<nat>): (o: seq<nat>)
    requires Proper(f) && |s| == 8 && |m| == 16
    ensures |o| == 8
  {
    var r := After(f, Loaded(s), m, f.count);
    [Sum(f, s[0], r.a), Sum(f, s[1], r.b), Sum(f, s[2], r.c), Sum(f, s[3], r.d),
     Sum(f, s[4], r.e), Sum(f, s[5], r.f), Sum(f, s[6], r.g), Sum(f, s[7], r.h)]
  }

  // In place

  /** The ring holds the last sixteen words of the schedule before W_j. */
  ghost predicate Ring(f: Rounds, m: seq<nat>, ring: seq<nat>, j: nat)
    requires Proper(f) && |m| == 16
  {
    |ring| == 16 && forall t: nat :: j - 16 <= t < j ==> ring[t % 16] == Schedule(f, m, t)
  }

  lemma RingStart(f: Rounds, m: seq<nat>, ring: seq<nat>, j: nat)
    requires Proper(f) && |m| == 16 && |ring| == 16 && j < 16 && Ring(f, m, ring, j)
    ensures Ring(f, m, ring[j := m[j]], j + 1)
  {}

  /** The word that drops out, sixteen steps back, is where the next one goes. */
  lemma RingStep(f: Rounds, m: seq<nat>, ring: seq<nat>, j: nat)
    requires Proper(f) && |m| == 16 && j >= 16 && Ring(f, m, ring, j)
    ensures var w := (ring[j % 16] + (f.sigma1(ring[(j + 14) % 16]) + ring[(j + 9) % 16] + f.sigma0(ring[(j + 1) % 16]))) % f.modulus;
            w == Schedule(f, m, j) && Ring(f, m, ring[j % 16 := w], j + 1)
  {
    assert (j - 2) % 16 == (j + 14) % 16 && (j - 7) % 16 == (j + 9) % 16;
    assert (j - 15) % 16 == (j + 1) % 16 && (j - 16) % 16 == j % 16;
    assert ring[(j - 2) % 16] == Schedule(f, m, j - 2) && ring[(j - 7) % 16] == Schedule(f, m, j - 7);
    assert ring[(j - 15) % 16] == Schedule(f, m, j - 15) && ring[(j - 16) % 16] == Schedule(f, m, j - 16);
    var w := Schedule(f, m, j);
    hide Schedule;
    forall t: nat | j + 1 - 16 <= t < j + 1 ensures ring[j % 16 := w][t % 16] == Schedule(f, m, t) {
      if t < j {
        OtherSlot(j, t);
      }
    }
  }

  lemma OtherSlot(j: nat, t: nat)
    requires j - 16 < t < j
    ensures t % 16 != j % 16
  {}

  /** The assignments at the end of a round. */
  method Step(f: Rounds, r: Regs, k: nat, w: nat) returns (n: Regs)
    requires Proper(f)
    ensures n == Round(f, r, k, w)
  {
    hide T1, T2, Sum;
    var Regs(a, b, c, d, e, f', g, h) := r;
    var t1 := T1(f, e, f', g, h, k, w);
    var t2 := T2(f, a, b, c);
    h := g;
    g := f';
    f' := e;
    e := Sum(f, d, t1);
    d := c;
    c := b;
    b := a;
    a := Sum(f, t1, t2);
    return Regs(a, b, c, d, e, f', g, h);
  }

  /** The rounds that take their words from the block. */
  method FirstRounds(f: Rounds, start: Regs, m: seq<nat>, ring: array<nat>) returns (r: Regs)
    requires Proper(f) && |m| == 16 && ring.Length == 16
    modifies ring
    ensures r == After(f, start, m, 16) && Ring(f, m, ring[..], 16)
  {
    hide Schedule, Ring, Round;
    r := start;
    RingNone(f, m, ring[..]);
    for j := 0 to 16
      invariant r == After(f, start, m, j) && Ring(f, m, ring[..], j)
    {
      RingStart(f, m, ring[..], j);
      FirstWord(f, m, j);
      ring[j] := m[j];
      r := Step(f, r, f.k[j], ring[j]);
    }
  }

  /** The rounds that expand the block in the ring as they go. */
  method LaterRounds(f: Rounds, ghost start: Regs, m: seq<nat>, ring: array<nat>, r0: Regs) returns (r: Regs)
    requires Proper(f) && |m| == 16 && ring.Length == 16
    requires r0 == After(f, start, m, 16) && Ring(f, m, ring[..], 16)
    modifies ring
    ensures r == After(f, start, m, f.count)
  {
    hide Schedule, Ring, Round;
    r := r0;
    for j := 16 to f.count
      invariant r == After(f, start, m, j) && Ring(f, m, ring[..], j)
    {
      var w := Expand(f, m, ring, j);
      r := Step(f, r, f.k[j], w);
    }
  }

  /** W_j over W_{j-16} */
  method Expand(f: Rounds, ghost m: seq<nat>, ring: array<nat>, j: nat) returns (w: nat)
    requires Proper(f) && |m| == 16 && ring.Length == 16 && j >= 16 && Ring(f, m, ring[..], j)
    modifies ring
    ensures w == Schedule(f, m, j) && Ring(f, m, ring[..], j + 1)
  {
    hide Schedule, Ring;
    RingStep(f, m, ring[..], j);
    var s0 := f.sigma0(ring[(j + 1) % 16]);
    var s1 := f.sigma1(ring[(j + 14) % 16]);
    w := (ring[j % 16] + (s1 + ring[(j + 9) % 16] + s0)) % f.modulus;
    ghost var before := ring[..];
    ring[j % 16] := w;
    assert ring[..] == before[j % 16 := w];
  }

  lemma RingNone(f: Rounds, m: seq<nat>, ring: seq<nat>)
    requires Proper(f) && |m| == 16 && |ring| == 16
    ensures Ring(f, m, ring, 0)
  {}

  lemma FirstWord(f: Rounds, m: seq<nat>, t: nat)
    requires Proper(f) && |m| == 16 && t < 16
    ensures Schedule(f, m, t) == m[t]
  {}

  /** sha256_Transform and sha512_Transform; the output may be the input state or the data. */
  method Transform(f: Rounds, stateIn: array<nat>, data: array<nat>, stateOut: array<nat>)
    requires Proper(f) && stateIn.Length == 8 && data.Length >= 16 && stateOut.Length >= 8
    modifies stateOut
    ensures stateOut[..8] == Compress(f, old(stateIn[..]), old(data[..16]))
    ensures stateOut[8..] == old(stateOut[8..])
  {
    hide After, Sum, Ring;
    var ring := new nat[16](_ => 0);
    ghost var s, m := stateIn[..], data[..16];
    var r := FirstRounds(f, Regs(stateIn[0], stateIn[1], stateIn[2], stateIn[3], stateIn[4], stateIn[5], stateIn[6], stateIn[7]), data[..16], ring);
    r := LaterRounds(f, Loaded(s), data[..16], ring, r);
    Add(f, r, stateIn, stateOut);
  }

  /** The sums of old state and working variables, word by word. */
  method Add(f: Rounds, r: Regs, stateIn: array<nat>, stateOut: array<nat>)
    requires Proper(f) && stateIn.Length == 8 && stateOut.Length >= 8
    modifies stateOut
    ensures stateOut[8..] == old(stateOut[8..])
    ensures stateOut[0] == Sum(f, old(stateIn[0]), r.a) && stateOut[1] == Sum(f, old(stateIn[1]), r.b)
    ensures stateOut[2] == Sum(f, old(stateIn[2]), r.c) && stateOut[3] == Sum(f, old(stateIn[3]), r.d)
    ensures stateOut[4] == Sum(f, old(stateIn[4]), r.e) && stateOut[5] == Sum(f, old(stateIn[5]), r.f)
    ensures stateOut[6] == Sum(f, old(stateIn[6]), r.g) && stateOut[7] == Sum(f, old(stateIn[7]), r.h)
  {
    hide Sum;
    stateOut[0] := Sum(f, stateIn[0], r.a);
    stateOut[1] := Sum(f, stateIn[1], r.b);
    stateOut[2] := Sum(f, stateIn[2], r.c);
    stateOut[3] := Sum(f, stateIn[3], r.d);
    stateOut[4] := Sum(f, stateIn[4], r.e);
    stateOut[5] := Sum(f, stateIn[5], r.f);
    stateOut[6] := Sum(f, stateIn[6], r.g);
    stateOut[7] := Sum(f, stateIn[7], r.h);
  }
}
