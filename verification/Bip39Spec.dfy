/** BIP-39 phrases: entropy and checksum cut into groups of eleven bits, each a word of the list. */
module Bip39Spec {
  import opened ModArith
  import opened Words

  // Bits

  /** Bit k of a byte, the most significant first. */
  function Bit(x: bv8, k: nat): bool
    requires k < 8
  {
    x & (1 << (7 - k)) != 0
  }

  function Bits(s: seq<bv8>): (b: seq<bool>)
    ensures |b| == 8 * |s|
  {
    seq(8 * |s|, k requires 0 <= k < 8 * |s| => Bit(s[k / 8], k % 8))
  }

  lemma BitsAt(s: seq<bv8>, i: nat, k: nat)
    requires i < |s| && k < 8
    ensures Bits(s)[8 * i + k] == Bit(s[i], k)
  {}

  lemma BitsConcat(s: seq<bv8>, t: seq<bv8>)
    ensures Bits(s + t) == Bits(s) + Bits(t)
  {}

  /** A byte is its eight bits. */
  lemma ByteIsBits(x: bv8, y: bv8)
    requires forall k: nat :: k < 8 ==> Bit(x, k) == Bit(y, k)
    ensures x == y
  {
    assert Bit(x, 0) == Bit(y, 0) && Bit(x, 1) == Bit(y, 1) && Bit(x, 2) == Bit(y, 2) && Bit(x, 3) == Bit(y, 3);
    assert Bit(x, 4) == Bit(y, 4) && Bit(x, 5) == Bit(y, 5) && Bit(x, 6) == Bit(y, 6) && Bit(x, 7) == Bit(y, 7);
  }

  lemma BitsInjective(s: seq<bv8>, t: seq<bv8>)
    requires Bits(s) == Bits(t)
    ensures s == t
  {
    assert |s| == |t|;
    forall i | 0 <= i < |s| ensures s[i] == t[i] {
      forall k: nat | k < 8 ensures Bit(s[i], k) == Bit(t[i], k) {
        BitsAt(s, i, k);
        BitsAt(t, i, k);
      }
      ByteIsBits(s[i], t[i]);
    }
  }

  function Value(b: seq<bool>): nat {
    if |b| == 0 then 0 else 2 * Value(b[..|b| - 1]) + if b[|b| - 1] then 1 else 0
  }

  /** The n lowest bits of v, most significant first. */
  function Fixed(v: nat, n: nat): (b: seq<bool>)
    ensures |b| == n
  {
    if n == 0 then [] else Fixed(v / 2, n - 1) + [v % 2 == 1]
  }

  lemma {:induction false} FixedValue(b: seq<bool>)
    ensures Value(b) < Pow(2, |b|) && Fixed(Value(b), |b|) == b
  {
    if |b| > 0 {
      FixedValue(b[..|b| - 1]);
      assert b == b[..|b| - 1] + [b[|b| - 1]];
    }
  }

  lemma {:induction false} ValueFixed(v: nat, n: nat)
    requires v < Pow(2, n)
    ensures Value(Fixed(v, n)) == v
  {
    if n > 0 {
      ValueFixed(v / 2, n - 1);
      assert Fixed(v, n)[..n - 1] == Fixed(v / 2, n - 1);
    }
  }

  lemma {:induction false} FixedAt(v: nat, n: nat, k: nat)
    requires k < n
    ensures Fixed(v, n)[k] == (v / Pow(2, n - 1 - k) % 2 == 1)
  {
    if k < n - 1 {
      FixedAt(v / 2, n - 1, k);
      DivTwo(v, Pow(2, n - 2 - k));
    }
  }

  lemma DivTwo(v: nat, p: nat)
    requires p > 0
    ensures v / 2 / p == v / (2 * p)
  {
    var q, r := v / 2 / p, v / 2 % p;
    assert v / 2 == p * q + r;
    assert v == q * (2 * p) + (2 * r + v % 2);
    ModUnique(v, 2 * p, q, 2 * r + v % 2);
  }

  // Groups of eleven

  lemma ElevenBits()
    ensures Pow(2, 11) == 2048
  {
    assert Pow(2, 3) == 8 && Pow(2, 4) == 16;
    hide Pow;
    PowAdd(2, 4, 4);
    PowAdd(2, 8, 3);
  }

  function Groups(b: seq<bool>): (g: seq<nat>)
    requires |b| % 11 == 0
    ensures |g| == |b| / 11
    decreases |b|
  {
    if |b| == 0 then [] else [Value(b[..11])] + Groups(b[11..])
  }

  function Flat(ws: seq<nat>): (b: seq<bool>)
    ensures |b| == 11 * |ws|
  {
    if |ws| == 0 then [] else Fixed(ws[0], 11) + Flat(ws[1..])
  }

  ghost predicate Indices(ws: seq<nat>) {
    forall k :: 0 <= k < |ws| ==> ws[k] < 2048
  }

  lemma {:induction false} FlatGroups(b: seq<bool>)
    requires |b| % 11 == 0
    ensures Indices(Groups(b)) && Flat(Groups(b)) == b
    decreases |b|
  {
    if |b| > 0 {
      FixedValue(b[..11]);
      ElevenBits();
      FlatGroups(b[11..]);
      assert Groups(b)[1..] == Groups(b[11..]);
      assert b == b[..11] + b[11..];
    }
  }

  lemma {:induction false} GroupsFlat(ws: seq<nat>)
    requires Indices(ws)
    ensures Groups(Flat(ws)) == ws
  {
    if |ws| > 0 {
      ElevenBits();
      ValueFixed(ws[0], 11);
      GroupsFlat(ws[1..]);
      assert Flat(ws)[..11] == Fixed(ws[0], 11) && Flat(ws)[11..] == Flat(ws[1..]);
    }
  }

  lemma {:induction false} GroupsAt(b: seq<bool>, i: nat)
    requires |b| % 11 == 0 && 11 * i < |b|
    ensures Groups(b)[i] == Value(b[11 * i..11 * i + 11])
    decreases |b|
  {
    if i > 0 {
      GroupsAt(b[11..], i - 1);
      var j := 11 * (i - 1);
      TailSlice(b, 11, j, j + 11);
    }
  }

  lemma {:induction false} FlatConcat(us: seq<nat>, ws: seq<nat>)
    ensures Flat(us + ws) == Flat(us) + Flat(ws)
  {
    if |us| == 0 {
      assert us + ws == ws;
    } else {
      assert (us + ws)[1..] == us[1..] + ws;
      FlatConcat(us[1..], ws);
    }
  }

  // Words

  ghost predicate WordList(list: seq<string>) {
    && |list| == 2048
    && (forall k :: 0 <= k < 2048 ==> 1 <= |list[k]| <= 8 && ' ' !in list[k] && '\0' !in list[k])
    && (forall i, k :: 0 <= i < k < 2048 ==> list[i] != list[k])
  }

  function Join(list: seq<string>, ws: seq<nat>): string
    requires |list| == 2048 && Indices(ws)
  {
    if |ws| == 0 then "" else if |ws| == 1 then list[ws[0]] else list[ws[0]] + " " + Join(list, ws[1..])
  }

  /** Every word followed by a space. */
  function Spaced(list: seq<string>, ws: seq<nat>): string
    requires |list| == 2048 && Indices(ws)
  {
    if |ws| == 0 then "" else list[ws[0]] + " " + Spaced(list, ws[1..])
  }

  lemma {:induction false} JoinSpaced(list: seq<string>, ws: seq<nat>)
    requires |list| == 2048 && Indices(ws) && |ws| > 0
    ensures Join(list, ws) + " " == Spaced(list, ws)
  {
    if |ws| == 1 {
      assert Spaced(list, ws[1..]) == "";
    } else {
      JoinSpaced(list, ws[1..]);
    }
  }

  lemma {:induction false} SpacedConcat(list: seq<string>, us: seq<nat>, ws: seq<nat>)
    requires |list| == 2048 && Indices(us) && Indices(ws)
    ensures Indices(us + ws) && Spaced(list, us + ws) == Spaced(list, us) + Spaced(list, ws)
  {
    if |us| == 0 {
      assert us + ws == ws;
    } else {
      assert (us + ws)[1..] == us[1..] + ws;
      SpacedConcat(list, us[1..], ws);
    }
  }

  lemma {:induction false} SpacedLength(list: seq<string>, ws: seq<nat>)
    requires WordList(list) && Indices(ws)
    ensures 2 * |ws| <= |Spaced(list, ws)| <= 9 * |ws|
  {
    if |ws| > 0 {
      SpacedLength(list, ws[1..]);
    }
  }

  function Spaces(s: string): nat {
    if |s| == 0 then 0 else Spaces(s[..|s| - 1]) + if s[|s| - 1] == ' ' then 1 else 0
  }

  lemma {:induction false} SpacesConcat(s: string, t: string)
    ensures Spaces(s + t) == Spaces(s) + Spaces(t)
  {
    if |t| == 0 {
      assert s + t == s;
    } else {
      assert (s + t)[..|s + t| - 1] == s + t[..|t| - 1];
      SpacesConcat(s, t[..|t| - 1]);
    }
  }

  lemma {:induction false} NoSpaces(s: string)
    requires ' ' !in s
    ensures Spaces(s) == 0
  {
    if |s| > 0 {
      NoSpaces(s[..|s| - 1]);
    }
  }

  lemma {:induction false} SpacedSpaces(list: seq<string>, ws: seq<nat>)
    requires WordList(list) && Indices(ws)
    ensures Spaces(Spaced(list, ws)) == |ws|
  {
    if |ws| > 0 {
      SpacedSpaces(list, ws[1..]);
      NoSpaces(list[ws[0]]);
      SpacesConcat(list[ws[0]], " ");
      SpacesConcat(list[ws[0]] + " ", Spaced(list, ws[1..]));
      assert " "[..0] == "";
    }
  }

  lemma NoLonger(a: string, b: string, s: string)
    requires ' ' !in b && a + " " <= s && b + " " <= s
    ensures |b| <= |a|
  {
    assert s[|a|] == (a + " ")[|a|] == ' ';
    assert forall k :: 0 <= k < |b| ==> s[k] == (b + " ")[k] == b[k] && b[k] in b;
  }

  /** Space-free words that both open the same string are one word. */
  lemma SameWord(a: string, b: string, s: string)
    requires ' ' !in a && ' ' !in b && a + " " <= s && b + " " <= s
    ensures a == b
  {
    NoLonger(a, b, s);
    NoLonger(b, a, s);
    assert a == s[..|a|] && b == s[..|b|];
  }

  /** Reading words off the front of a phrase can only find its own words. */
  lemma {:induction false} PrefixParse(list: seq<string>, us: seq<nat>, ws: seq<nat>)
    requires WordList(list) && Indices(us) && Indices(ws) && Spaced(list, us) <= Spaced(list, ws)
    ensures us <= ws
  {
    if |us| > 0 {
      var a, s, t := list[us[0]] + " ", Spaced(list, us), Spaced(list, ws);
      assert |ws| > 0 by {
        SpacedLength(list, us);
      }
      var b := list[ws[0]] + " ";
      assert a <= s && a <= t && b <= t;
      SameWord(list[us[0]], list[ws[0]], t);
      assert us[0] == ws[0];
      assert s[|a|..] == Spaced(list, us[1..]) && t[|a|..] == Spaced(list, ws[1..]);
      PrefixParse(list, us[1..], ws[1..]);
      assert us == [us[0]] + us[1..] && ws == [ws[0]] + ws[1..];
    }
  }

  lemma JoinInjective(list: seq<string>, us: seq<nat>, ws: seq<nat>)
    requires WordList(list) && Indices(us) && Indices(ws) && |us| > 0 && |ws| > 0
    requires Join(list, us) == Join(list, ws)
    ensures us == ws
  {
    JoinSpaced(list, us);
    JoinSpaced(list, ws);
    PrefixParse(list, us, ws);
    PrefixParse(list, ws, us);
  }

  // Phrases

  predicate LegalLength(n: nat) {
    n % 4 == 0 && 16 <= n <= 32
  }

  ghost predicate Hash(h: seq<bv8> -> seq<bv8>) {
    forall d :: |h(d)| == 32
  }

  /** Entropy and the first |d| / 4 bits of its hash. */
  function Checked(h: seq<bv8> -> seq<bv8>, d: seq<bv8>): (b: seq<bool>)
    requires LegalLength(|d|) && |h(d)| == 32
    ensures |b| == 33 * (|d| / 4) && |b| % 11 == 0
  {
    Bits(d) + Bits(h(d))[..|d| / 4]
  }

  function Mnemonic(list: seq<string>, h: seq<bv8> -> seq<bv8>, d: seq<bv8>): string
    requires |list| == 2048 && LegalLength(|d|) && |h(d)| == 32
  {
    FlatGroups(Checked(h, d));
    Join(list, Groups(Checked(h, d)))
  }

  ghost predicate Legal(ws: seq<nat>) {
    Indices(ws) && 12 <= |ws| <= 24 && |ws| % 3 == 0
  }

  /** Different entropy, different phrase. */
  lemma MnemonicInjective(list: seq<string>, h: seq<bv8> -> seq<bv8>, d: seq<bv8>, e: seq<bv8>)
    requires WordList(list) && Hash(h) && LegalLength(|d|) && LegalLength(|e|)
    requires Mnemonic(list, h, d) == Mnemonic(list, h, e)
    ensures d == e
  {
    var b, c := Checked(h, d), Checked(h, e);
    FlatGroups(b);
    FlatGroups(c);
    JoinInjective(list, Groups(b), Groups(c));
    assert b == c;
    assert |d| == |e|;
    assert Bits(d) == b[..8 * |d|] && Bits(e) == c[..8 * |e|];
    BitsInjective(d, e);
  }
}
