/** lib/trezor-crypto/bip39.c: phrases made, read and checked in fixed buffers. */
module Bip39 {
  import opened Bip39Spec
  import opened Words

  // mnemonic_from_data

  const MNEMO: nat := 24 * 10

  /** What the mnemonic buffer holds after i of the words. */
  function Written(list: seq<string>, ws: seq<nat>, i: nat): string
    requires |list| == 2048 && Indices(ws) && i <= |ws|
  {
    if i == |ws| then Join(list, ws) + "\0" else Spaced(list, ws[..i])
  }

  lemma WrittenNext(list: seq<string>, ws: seq<nat>, i: nat)
    requires WordList(list) && Indices(ws) && i < |ws| <= 24
    ensures |Written(list, ws, i)| <= 9 * i
    ensures Written(list, ws, i) + list[ws[i]] + (if i < |ws| - 1 then " " else "\0") == Written(list, ws, i + 1)
  {
    var us := ws[..i];
    SpacedLength(list, us);
    SpacedConcat(list, us, [ws[i]]);
    assert us + [ws[i]] == ws[..i + 1];
    OneWord(list, ws[i]);
    if i == |ws| - 1 {
      assert ws[..i + 1] == ws;
      JoinSpaced(list, ws);
      assert Join(list, ws) + " " == Spaced(list, us) + list[ws[i]] + " ";
      SameTail(Join(list, ws), Spaced(list, us) + list[ws[i]]);
    }
  }

  lemma OneWord(list: seq<string>, w: nat)
    requires |list| == 2048 && w < 2048
    ensures Spaced(list, [w]) == list[w] + " "
  {
    assert [w][1..] == [];
  }

  lemma SameTail(s: string, t: string)
    requires s + " " == t + " "
    ensures s == t
  {
    assert s == (s + " ")[..|s|] && t == (t + " ")[..|t|];
  }

  /** strcpy at p, then the separator in place of the terminator. */
  method PutWord(mnemo: array<char>, p: nat, word: string, last: bool) returns (q: nat)
    requires p + |word| < mnemo.Length
    modifies mnemo
    ensures q == p + |word| + 1
    ensures mnemo[..q] == old(mnemo[..p]) + word + (if last then "\0" else " ")
  {
    ghost var s := mnemo[..p];
    for k := 0 to |word|
      invariant mnemo[..p + k] == s + word[..k]
    {
      mnemo[p + k] := word[k];
      assert mnemo[..p + k + 1] == mnemo[..p + k] + [word[k]];
    }
    q := p + |word|;
    mnemo[q] := '\0';
    mnemo[q] := if last then '\0' else ' ';
    q := q + 1;
    assert mnemo[..q] == mnemo[..q - 1] + [mnemo[q - 1]];
  }

  /** The inner loop: eleven bits as a number. */
  method Gather(bits: array<bv8>, at: nat) returns (idx: nat)
    requires at + 11 <= 8 * bits.Length
    ensures idx == Value(Bits(bits[..])[at..at + 11])
  {
    hide Bit;
    idx := 0;
    ghost var b := Bits(bits[..])[at..at + 11];
    for j := 0 to 11
      invariant idx == Value(b[..j])
    {
      idx := idx * 2;
      idx := idx + if Bit(bits[(at + j) / 8], (at + j) % 8) then 1 else 0;
      assert b[..j + 1][..j] == b[..j];
      assert b[j] == Bit(bits[(at + j) / 8], (at + j) % 8);
    }
    assert b[..11] == b;
  }

  /** Entropy, then the first byte of its hash; the rest of the buffer does not matter. */
  method Fill(h: seq<bv8> -> seq<bv8>, data: seq<bv8>) returns (bits: array<bv8>)
    requires Hash(h) && LegalLength(|data|)
    ensures bits.Length == 33 && bits[..|data| + 1] == data + h(data)[..1] && fresh(bits)
  {
    bits := new bv8[33](_ => 0);
    var digest := h(data);
    bits[|data|] := digest[0];
    for k := 0 to |data|
      invariant bits[|data|] == digest[0] && bits[..k] == data[..k]
    {
      bits[k] := data[k];
    }
  }

  lemma FilledBits(h: seq<bv8> -> seq<bv8>, data: seq<bv8>, s: seq<bv8>)
    requires Hash(h) && LegalLength(|data|) && |s| == 33 && s[..|data| + 1] == data + h(data)[..1]
    ensures Bits(s)[..33 * (|data| / 4)] == Checked(h, data)
  {
    var d := h(data);
    assert s == data + d[..1] + s[|data| + 1..];
    BitsConcat(data + d[..1], s[|data| + 1..]);
    BitsConcat(data, d[..1]);
    assert d == d[..1] + d[1..];
    BitsConcat(d[..1], d[1..]);
  }

  /** The words of the first mlen groups, one after the other. */
  method WritePhrase(list: seq<string>, bits: array<bv8>, mlen: nat, ghost b: seq<bool>, ghost ws: seq<nat>, mnemo: array<char>)
    requires WordList(list) && mnemo.Length == MNEMO && 0 < mlen <= 24
    requires bits.Length == 33 && |b| == 11 * mlen && b == Bits(bits[..])[..|b|] && ws == Groups(b) && Indices(ws)
    modifies mnemo
    ensures |Join(list, ws)| < MNEMO && mnemo[..|Join(list, ws)| + 1] == Join(list, ws) + "\0"
  {
    assert |list| == 2048;
    hide Groups, Bits, Value, Spaced, Join, Written, WordList;
    ghost var s := bits[..];
    var p: nat := 0;
    WrittenEnds(list, ws);
    for i := 0 to mlen
      invariant p == |Written(list, ws, i)| <= MNEMO && mnemo[..p] == Written(list, ws, i)
      invariant bits[..] == s
    {
      p := WriteWord(list, bits, mlen, b, ws, mnemo, i, p);
    }
  }

  /** One word more. */
  method WriteWord(list: seq<string>, bits: array<bv8>, mlen: nat, ghost b: seq<bool>, ghost ws: seq<nat>, mnemo: array<char>,
                   i: nat, p: nat) returns (q: nat)
    requires WordList(list) && mnemo.Length == MNEMO && i < mlen <= 24
    requires bits.Length == 33 && |b| == 11 * mlen && b == Bits(bits[..])[..|b|] && ws == Groups(b) && Indices(ws)
    requires p == |Written(list, ws, i)| <= MNEMO && mnemo[..p] == Written(list, ws, i)
    modifies mnemo
    ensures q == |Written(list, ws, i + 1)| <= MNEMO && mnemo[..q] == Written(list, ws, i + 1)
  {
    assert |list| == 2048;
    hide Groups, Bits, Value, Spaced, Join, Written, WordList;
    var idx := Gather(bits, i * 11);
    NextGroup(list, bits[..], b, ws, i);
    WrittenNext(list, ws, i);
    q := PutWord(mnemo, p, list[idx], i == mlen - 1);
  }

  /** mnemonic_from_data */
  method FromData(list: seq<string>, h: seq<bv8> -> seq<bv8>, data: seq<bv8>, mnemo: array<char>) returns (ok: bool)
    requires WordList(list) && Hash(h) && mnemo.Length == MNEMO
    modifies mnemo
    ensures ok <==> LegalLength(|data|)
    ensures ok ==> |Mnemonic(list, h, data)| < MNEMO
    ensures ok ==> mnemo[..|Mnemonic(list, h, data)| + 1] == Mnemonic(list, h, data) + "\0"
    ensures !ok ==> mnemo[..] == old(mnemo[..])
  {
    hide Groups, Bits, Join;
    if |data| % 4 != 0 || |data| < 16 || |data| > 32 {
      return false;
    }
    var bits := Fill(h, data);
    var mlen: nat := |data| * 3 / 4;
    ghost var b := Checked(h, data);
    FlatGroups(b);
    FilledBits(h, data, bits[..]);
    WritePhrase(list, bits, mlen, b, Groups(b), mnemo);
    return true;
  }

  lemma WrittenEnds(list: seq<string>, ws: seq<nat>)
    requires WordList(list) && Indices(ws) && |ws| > 0
    ensures Written(list, ws, 0) == "" && Written(list, ws, |ws|) == Join(list, ws) + "\0"
  {}

  lemma NextGroup(list: seq<string>, s: seq<bv8>, b: seq<bool>, ws: seq<nat>, i: nat)
    requires WordList(list) && |b| <= 8 * |s| && |b| % 11 == 0 && b == Bits(s)[..|b|] && ws == Groups(b)
    requires Indices(ws) && i < |ws|
    ensures Value(Bits(s)[11 * i..11 * i + 11]) == ws[i] < 2048 && 1 <= |list[ws[i]]| <= 8
  {
    GroupsAt(b, i);
    assert Bits(s)[11 * i..11 * i + 11] == b[11 * i..11 * i + 11];
  }

  // mnemonic_find_word

  const MAX_MNEMONIC: nat := 24 * 8 + 23
  const BUFFER: nat := MAX_MNEMONIC + 8 + 1

  /** A phrase with its spaces turned into terminators, zero up to the end of the buffer. */
  function Spread(m: string): (s: string)
    requires |m| <= MAX_MNEMONIC
    ensures |s| == BUFFER
  {
    seq(BUFFER, k requires 0 <= k < BUFFER => if k < |m| && m[k] != ' ' then m[k] else '\0')
  }

  /** The word stands at this place of the buffer, terminator included. */
  predicate WordAt(s: string, at: nat, word: string) {
    at + |word| + 1 <= |s| && s[at..at + |word| + 1] == word + "\0"
  }

  lemma WordInside(m: string, at: nat, word: string, k: nat)
    requires |m| <= MAX_MNEMONIC && '\0' !in word && k < |word| && WordAt(Spread(m), at, word)
    ensures at + k < |m| && m[at + k] == word[k]
  {
    var s := Spread(m);
    assert s[at + k] == s[at..at + |word| + 1][k] == (word + "\0")[k] == word[k];
    assert word[k] in word;
  }

  lemma WordInPhrase(m: string, at: nat, word: string)
    requires |m| <= MAX_MNEMONIC && '\0' !in m && at < |m| && |word| > 0 && '\0' !in word && WordAt(Spread(m), at, word)
    ensures word + " " <= (m + " ")[at..]
  {
    var s, t, n := Spread(m), (m + " ")[at..], |word|;
    WordInside(m, at, word, n - 1);
    assert s[at + n] == s[at..at + n + 1][n] == (word + "\0")[n] == '\0';
    assert forall k :: 0 <= k < |m| ==> m[k] in m;
    assert t[n] == ' ';
    forall k | 0 <= k < n ensures t[k] == word[k] {
      WordInside(m, at, word, k);
    }
    assert word + " " == t[..n + 1];
  }

  lemma PhraseHasWord(m: string, at: nat, word: string)
    requires |m| <= MAX_MNEMONIC && at < |m| && |word| <= 8 && ' ' !in word && word + " " <= (m + " ")[at..]
    ensures WordAt(Spread(m), at, word)
  {
    var s, t, n := Spread(m), (m + " ")[at..], |word|;
    assert forall k :: 0 <= k <= n ==> t[k] == (word + " ")[k];
    forall k | 0 <= k < n ensures s[at + k] == word[k] {
      assert t[k] == word[k] && word[k] in word;
    }
    assert t[n] == ' ' && s[at + n] == '\0';
    assert s[at..at + n + 1] == word + "\0";
  }

  /** mnemonic_find_word: the whole list is searched, a match replaces what was found before. */
  method FindWord(list: seq<string>, word: array<char>, at: nat) returns (index: int, length: nat)
    requires WordList(list) && at + 9 <= word.Length
    ensures index == -1 || 0 <= index < 2048
    ensures index == -1 ==> length == 0 && forall k :: 0 <= k < 2048 ==> !WordAt(word[..], at, list[k])
    ensures index >= 0 ==> WordAt(word[..], at, list[index]) && length == |list[index]|
  {
    index, length := -1, 0;
    for i := 0 to 2048
      invariant -1 <= index < i
      invariant index == -1 ==> length == 0 && forall k :: 0 <= k < i ==> !WordAt(word[..], at, list[k])
      invariant index >= 0 ==> WordAt(word[..], at, list[index]) && length == |list[index]|
    {
      var n := |list[i]|;
      if word[at..at + n + 1] == list[i] + "\0" {
        index, length := i, n;
      }
    }
  }

  // mnemonic_to_bits

  /** result[k / 8] |= 1 << (7 - k % 8) if the bit is set */
  method OrBit(result: array<bv8>, k: nat, set_: bool)
    requires k < 8 * result.Length && !Bits(result[..])[k]
    modifies result
    ensures Bits(result[..]) == old(Bits(result[..]))[k := set_]
  {
    ghost var s := result[..];
    if set_ {
      result[k / 8] := WithBit(result[k / 8], k % 8);
    }
    forall j | 0 <= j < 8 * |s| ensures Bits(result[..])[j] == Bits(s)[k := set_][j] {
      if j / 8 == k / 8 && set_ {
        WithBitBits(s[k / 8], k % 8, j % 8);
        assert j == k <==> j % 8 == k % 8;
      }
    }
  }

  function WithBit(x: bv8, k: nat): bv8
    requires k < 8
  {
    x | (1 << (7 - k))
  }

  lemma WithBitBits(x: bv8, k: nat, j: nat)
    requires k < 8 && j < 8
    ensures Bit(WithBit(x, k), j) == (j == k || Bit(x, j))
  {
    Shifts(k);
    Shifts(j);
  }

  lemma Shifts(k: nat)
    requires k < 8
    ensures (1 as bv8) << (7 - k) == [128, 64, 32, 16, 8, 4, 2, 1][k]
  {}

  function Falses(n: nat): (b: seq<bool>)
    ensures |b| == n
  {
    seq(n, _ => false)
  }

  lemma ZeroBits(s: seq<bv8>)
    requires forall k :: 0 <= k < |s| ==> s[k] == 0
    ensures Bits(s) == Falses(8 * |s|)
  {
    forall j | 0 <= j < 8 * |s| ensures !Bits(s)[j] {
      Shifts(j % 8);
    }
  }

  /** The inner loop: the eleven bits of one index. */
  method PutIndex(result: array<bv8>, ghost us: seq<nat>, at: nat, index: nat)
    requires result.Length == 33 && at == 11 * |us| && at + 11 <= 264 && index < 2048
    requires Bits(result[..]) == Flat(us) + Falses(264 - at)
    modifies result
    ensures Bits(result[..]) == Flat(us + [index]) + Falses(264 - at - 11)
  {
    hide Bits, Bit, Flat;
    ghost var f := Fixed(index, 11);
    assert Flat(us) + Falses(264 - at) == Flat(us) + f[..0] + Falses(264 - at);
    for b := 0 to 11
      invariant Bits(result[..]) == Flat(us) + f[..b] + Falses(264 - at - b)
    {
      var secretBit := index / Pow(2, 10 - b) % 2;
      FixedAt(index, 11, b);
      ghost var before := Bits(result[..]);
      OrBit(result, at + b, secretBit == 1);
      assert f[..b + 1] == f[..b] + [f[b]];
      assert before[at + b := f[b]] == Flat(us) + f[..b + 1] + Falses(264 - at - b - 1);
    }
    assert f[..11] == f;
    FlatSnoc(us, index);
  }

  lemma FlatSnoc(us: seq<nat>, index: nat)
    ensures Flat(us + [index]) == Flat(us) + Fixed(index, 11)
  {
    FlatConcat(us, [index]);
    assert [index][1..] == [];
    assert Flat([index]) == Fixed(index, 11) + Flat([]);
  }

  /** The words us have been read off the front of m, which is then read up to off. */
  ghost predicate ReadSoFar(list: seq<string>, m: string, us: seq<nat>, off: nat) {
    |list| == 2048 && Indices(us) && off <= |m| + 1 && (m + " ")[..off] == Spaced(list, us)
  }

  ghost predicate NoPhrase(list: seq<string>, m: string) {
    |list| == 2048 && forall ws :: Legal(ws) ==> m != Join(list, ws)
  }

  lemma FoundNext(list: seq<string>, m: string, us: seq<nat>, off: nat, w: nat)
    requires WordList(list) && ReadSoFar(list, m, us, off) && off < |m| <= MAX_MNEMONIC && '\0' !in m && w < 2048
    requires WordAt(Spread(m), off, list[w])
    ensures ReadSoFar(list, m, us + [w], off + |list[w]| + 1)
  {
    WordInPhrase(m, off, list[w]);
    SpacedConcat(list, us, [w]);
    OneWord(list, w);
    var s := m + " ";
    assert s == s[..off] + s[off..];
    assert s[off..][..|list[w]| + 1] == list[w] + " ";
    assert s[..off + |list[w]| + 1] == s[..off] + s[off..][..|list[w]| + 1];
  }

  /** No more words than spaces and one. */
  lemma ReadCount(list: seq<string>, m: string, us: seq<nat>, off: nat)
    requires WordList(list) && ReadSoFar(list, m, us, off)
    ensures |us| <= Spaces(m) + 1
  {
    var s := m + " ";
    SpacedSpaces(list, us);
    SpacesConcat(s[..off], s[off..]);
    assert s == s[..off] + s[off..];
    SpacesConcat(m, " ");
    assert " "[..0] == "";
  }

  lemma PhraseCount(list: seq<string>, ws: seq<nat>)
    requires WordList(list) && Legal(ws)
    ensures Spaces(Join(list, ws)) + 1 == |ws| && |Join(list, ws)| <= MAX_MNEMONIC
  {
    JoinSpaced(list, ws);
    SpacedSpaces(list, ws);
    SpacedLength(list, ws);
    SpacesConcat(Join(list, ws), " ");
    assert " "[..0] == "";
  }

  lemma BadCount(list: seq<string>, m: string)
    requires WordList(list)
    requires |m| > MAX_MNEMONIC || !(12 <= Spaces(m) + 1 <= 24 && (Spaces(m) + 1) % 3 == 0)
    ensures NoPhrase(list, m)
  {
    assert |list| == 2048;
    hide Spaces, Join, WordList;
    forall ws | Legal(ws) ensures m != Join(list, ws) {
      PhraseCount(list, ws);
    }
  }

  /** Before the end of a phrase, there is a word of the list at the place reached. */
  lemma NextWord(list: seq<string>, m: string, us: seq<nat>, off: nat, ws: seq<nat>) returns (w: nat)
    requires WordList(list) && ReadSoFar(list, m, us, off) && off < |m| <= MAX_MNEMONIC && Legal(ws) && m == Join(list, ws)
    ensures w < 2048 && WordAt(Spread(m), off, list[w])
  {
    hide Spread, Join, WordAt;
    JoinSpaced(list, ws);
    PrefixParse(list, us, ws);
    var rest := ws[|us|..];
    assert ws == us + rest;
    SpacedConcat(list, us, rest);
    assert (m + " ")[off..] == Spaced(list, rest);
    assert |rest| > 0;
    w := rest[0];
    PhraseHasWord(m, off, list[w]);
  }

  lemma Unknown(list: seq<string>, m: string, us: seq<nat>, off: nat)
    requires WordList(list) && ReadSoFar(list, m, us, off) && off < |m| <= MAX_MNEMONIC
    requires forall k :: 0 <= k < 2048 ==> !WordAt(Spread(m), off, list[k])
    ensures NoPhrase(list, m)
  {
    hide Spread, Join, WordAt, Spaced, ReadSoFar;
    forall ws | Legal(ws) ensures m != Join(list, ws) {
      if m == Join(list, ws) {
        var w := NextWord(list, m, us, off, ws);
        assert false;
      }
    }
  }

  /** A phrase read to the end and its last terminator is the words read. */
  lemma ReadWhole(list: seq<string>, m: string, us: seq<nat>)
    requires WordList(list) && ReadSoFar(list, m, us, |m| + 1) && |m| > 0
    ensures |us| == Spaces(m) + 1 && m == Join(list, us)
  {
    assert (m + " ")[..|m| + 1] == m + " ";
    SpacedSpaces(list, us);
    SpacesConcat(m, " ");
    assert " "[..0] == "";
    JoinSpaced(list, us);
    SameTail(m, Join(list, us));
  }

  lemma LastWord(list: seq<string>, us: seq<nat>, ws: seq<nat>)
    requires WordList(list) && Indices(ws) && us <= ws && |ws| == |us| + 1
    ensures |Spaced(list, ws)| > |Spaced(list, us)| + 1
  {
    hide Spaced;
    var w := ws[|us|];
    assert ws == us + [w];
    SpacedConcat(list, us, [w]);
    OneWord(list, w);
  }

  /** One that ends in a space is no phrase. */
  lemma TrailingSpace(list: seq<string>, m: string, us: seq<nat>)
    requires WordList(list) && ReadSoFar(list, m, us, |m|)
    ensures |us| == Spaces(m) && NoPhrase(list, m)
  {
    hide Spaces, Spaced, Join;
    assert (m + " ")[..|m|] == m;
    SpacedSpaces(list, us);
    forall ws | Legal(ws) ensures m != Join(list, ws) {
      if m == Join(list, ws) {
        PhraseCount(list, ws);
        JoinSpaced(list, ws);
        PrefixParse(list, us, ws);
        LastWord(list, us, ws);
        assert false;
      }
    }
  }

  /** At the end the count of words decides. */
  lemma AtEnd(list: seq<string>, m: string, us: seq<nat>, off: nat)
    requires WordList(list) && ReadSoFar(list, m, us, off) && |m| <= off
    requires 12 <= Spaces(m) + 1 <= 24 && (Spaces(m) + 1) % 3 == 0
    ensures if |us| == Spaces(m) + 1 then Legal(us) && m == Join(list, us) else NoPhrase(list, m)
  {
    assert |m| > 0;
    hide Spaces, Join, Spaced;
    if off == |m| {
      TrailingSpace(list, m, us);
    } else {
      ReadWhole(list, m, us);
    }
  }

  /** The copy with terminators for spaces, and the number of words. */
  method Terminate(m: string) returns (mnemonic: array<char>, wordCount: nat)
    requires |m| <= MAX_MNEMONIC
    ensures fresh(mnemonic) && mnemonic[..] == Spread(m) && wordCount == Spaces(m) + 1
  {
    mnemonic := new char[BUFFER](_ => '\0');
    wordCount := 0;
    for i := 0 to |m|
      invariant forall k :: 0 <= k < BUFFER ==> mnemonic[k] == if k < i && m[k] != ' ' then m[k] else '\0'
      invariant wordCount == Spaces(m[..i])
    {
      var isSpace := m[i] == ' ';
      mnemonic[i] := if isSpace then '\0' else m[i];
      wordCount := wordCount + if isSpace then 1 else 0;
      assert m[..i + 1][..i] == m[..i];
    }
    assert m[..|m|] == m;
    wordCount := wordCount + 1;
  }

  /** mnemonic_to_bits: the phrase is one of the list's, and bits holds the indices of its words, or
      there is no such phrase and bits is left alone. */
  method ToBits(list: seq<string>, m: string, bits: array<bv8>) returns (n: nat, ghost ws: seq<nat>)
    requires WordList(list) && '\0' !in m && bits.Length == 33
    modifies bits
    ensures n == 0 ==> NoPhrase(list, m) && bits[..] == old(bits[..])
    ensures n != 0 ==> Legal(ws) && m == Join(list, ws) && n == 11 * |ws|
    ensures n != 0 ==> Bits(bits[..]) == Flat(ws) + Falses(264 - n)
    ensures Answer(list, m, n, ws, bits[..])
  {
    hide Bits, Spaces, Spread, Flat;
    ws := [];
    if |m| > MAX_MNEMONIC {
      BadCount(list, m);
      return 0, ws;
    }
    var mnemonic, wordCount := Terminate(m);
    if wordCount < 12 || wordCount > 24 || wordCount % 3 != 0 {
      BadCount(list, m);
      return 0, ws;
    }
    var result := new bv8[33](_ => 0);
    ZeroBits(result[..]);
    Nothing(list, m);
    var bitCount, off: nat := 0, 0;
    while off < |m|
      invariant ReadSoFar(list, m, ws, off) && bitCount == 11 * |ws| <= 264
      invariant Bits(result[..]) == Flat(ws) + Falses(264 - bitCount)
      invariant mnemonic[..] == Spread(m) && bits[..] == old(bits[..])
    {
      var index, length := FindWord(list, mnemonic, off);
      if index < 0 {
        Unknown(list, m, ws, off);
        return 0, ws;
      }
      FoundNext(list, m, ws, off, index);
      ReadCount(list, m, ws + [index], off + length + 1);
      off := off + length + 1;
      PutIndex(result, ws, bitCount, index);
      ws := ws + [index];
      bitCount := bitCount + 11;
    }
    AtEnd(list, m, ws, off);
    if bitCount != wordCount * 11 {
      return 0, ws;
    }
    CopyInto(bits, 0, result, 0, result.Length);
    assert bits[..] == bits[0..result.Length] && result[0..result.Length] == result[..];
    return bitCount, ws;
  }

  lemma Nothing(list: seq<string>, m: string)
    requires |list| == 2048
    ensures ReadSoFar(list, m, [], 0) && Flat([]) + Falses(264) == Falses(264)
  {}

  // mnemonic_check

  /** The checksum bits of words of eleven bits each: 4, 6 or 8 of them. */
  function Masked(x: bv8, words: nat): bv8 {
    if words == 12 then x & 0xF0 else if words == 18 then x & 0xFC else x
  }

  /** The first c bits of a byte. */
  function Head(x: bv8, c: nat): (b: seq<bool>)
    requires c <= 8
    ensures |b| == c
  {
    seq(c, k requires 0 <= k < c => Bit(x, k))
  }

  lemma MaskKeeps(x: bv8, words: nat, k: nat)
    requires words in {12, 18, 24} && k < words / 3
    ensures Bit(Masked(x, words), k) == Bit(x, k)
  {
    Shifts(k);
  }

  lemma MaskedBits(x: bv8, y: bv8, words: nat)
    requires words in {12, 18, 24} && forall k: nat :: k < words / 3 ==> Bit(x, k) == Bit(y, k)
    ensures Masked(x, words) == Masked(y, words)
  {
    assert Bit(x, 0) == Bit(y, 0) && Bit(x, 1) == Bit(y, 1) && Bit(x, 2) == Bit(y, 2) && Bit(x, 3) == Bit(y, 3);
    if words >= 18 {
      assert Bit(x, 4) == Bit(y, 4) && Bit(x, 5) == Bit(y, 5);
    }
    if words == 24 {
      assert Bit(x, 6) == Bit(y, 6) && Bit(x, 7) == Bit(y, 7);
    }
  }

  lemma MaskedIs(x: bv8, y: bv8, words: nat)
    requires words in {12, 18, 24}
    ensures Masked(x, words) == Masked(y, words) <==> Head(x, words / 3) == Head(y, words / 3)
  {
    hide Bit, Masked;
    var f, g := Head(x, words / 3), Head(y, words / 3);
    if f == g {
      forall k: nat | k < words / 3 ensures Bit(x, k) == Bit(y, k) {
        assert f[k] == g[k];
      }
      MaskedBits(x, y, words);
    }
    forall k | 0 <= k < words / 3 && Masked(x, words) == Masked(y, words) ensures f[k] == g[k] {
      MaskKeeps(x, words, k);
      MaskKeeps(y, words, k);
    }
  }

  lemma HeadIs(t: seq<bv8>, c: nat)
    requires |t| > 0 && c <= 8
    ensures Bits(t)[..c] == Head(t[0], c)
  {
    forall k | 0 <= k < c ensures Bits(t)[..c][k] == Head(t[0], c)[k] {
      BitsAt(t, 0, k);
    }
  }

  lemma Cancel<T>(a: seq<T>, b: seq<T>, c: seq<T>)
    ensures a + b == a + c <==> b == c
  {
    assert (a + b)[|a|..] == b && (a + c)[|a|..] == c;
  }

  /** With f the first 8 * |d| + c bits of d + e: the masked comparison of checksum bytes tells
      whether f is what belongs to d. */
  lemma ChecksumAt(h: seq<bv8> -> seq<bv8>, d: seq<bv8>, e: seq<bv8>, words: nat)
    requires Hash(h) && words in {12, 18, 24} && |d| == words * 4 / 3 && |e| > 0
    ensures Masked(h(d)[0], words) == Masked(e[0], words) <==> Bits(d + e)[..11 * words] == Checked(h, d)
  {
    hide Bits, Bit, Head, Masked;
    var c := words / 3;
    assert |d| / 4 == c && 8 * |d| + c == 11 * words;
    BitsConcat(d, e);
    HeadIs(e, c);
    HeadIs(h(d), c);
    MaskedIs(h(d)[0], e[0], words);
    assert Bits(d + e)[..11 * words] == Bits(d) + Bits(e)[..c];
    Cancel(Bits(d), Bits(e)[..c], Bits(h(d))[..c]);
  }

  /** The first |ws| * 4 / 3 bytes of what mnemonic_to_bits leaves are the entropy, and the comparison
      tells whether the phrase has the bits made from that entropy. */
  lemma ChecksumDecides(h: seq<bv8> -> seq<bv8>, ws: seq<nat>, s: seq<bv8>)
    requires Hash(h) && |ws| in {12, 18, 24} && |s| == 33
    requires Bits(s) == Flat(ws) + Falses(264 - 11 * |ws|)
    ensures var n := |ws| * 4 / 3;
            Masked(h(s[..n])[0], |ws|) == Masked(s[n], |ws|) <==> Flat(ws) == Checked(h, s[..n])
  {
    hide Bits, Flat, Masked, Checked, Falses, Hash;
    var n, words := |ws| * 4 / 3, |ws|;
    assert n < 33;
    assert Flat(ws) == Bits(s)[..11 * words];
    var d, e := s[..n], s[n..];
    assert s == d + e && e[0] == s[n];
    ChecksumAt(h, d, e, words);
  }

  /** The phrases whose checksum is right, of the three lengths that are let through. */
  ghost predicate Genuine(list: seq<string>, h: seq<bv8> -> seq<bv8>, m: string)
    requires WordList(list) && Hash(h)
  {
    exists d :: |d| in {16, 24, 32} && m == Mnemonic(list, h, d)
  }

  lemma OnlyPhrases(list: seq<string>, h: seq<bv8> -> seq<bv8>, m: string)
    requires WordList(list) && Hash(h) && NoPhrase(list, m)
    ensures !Genuine(list, h, m)
  {
    hide Bits, Groups, Join, Flat;
    forall d: seq<bv8> | |d| in {16, 24, 32} ensures m != Mnemonic(list, h, d) {
      FlatGroups(Checked(h, d));
      assert Legal(Groups(Checked(h, d)));
    }
  }

  /** A phrase is the one made from some entropy exactly if its bits are that entropy's. */
  lemma GenuineIs(list: seq<string>, h: seq<bv8> -> seq<bv8>, ws: seq<nat>, d: seq<bv8>)
    requires WordList(list) && Hash(h) && Legal(ws) && LegalLength(|d|)
    ensures Join(list, ws) == Mnemonic(list, h, d) <==> Flat(ws) == Checked(h, d)
  {
    FlatGroups(Checked(h, d));
    GroupsFlat(ws);
    if Join(list, ws) == Mnemonic(list, h, d) {
      JoinInjective(list, ws, Groups(Checked(h, d)));
    }
  }

  lemma CheckDecides(list: seq<string>, h: seq<bv8> -> seq<bv8>, ws: seq<nat>, s: seq<bv8>)
    requires WordList(list) && Hash(h) && Legal(ws) && |ws| in {12, 18, 24} && |s| == 33
    requires Bits(s) == Flat(ws) + Falses(264 - 11 * |ws|)
    ensures var n := |ws| * 4 / 3;
            Genuine(list, h, Join(list, ws)) <==> Masked(h(s[..n])[0], |ws|) == Masked(s[n], |ws|)
  {
    hide Bits, Flat, Join, Masked, Groups, Mnemonic;
    var n := |ws| * 4 / 3;
    ChecksumDecides(h, ws, s);
    GenuineIs(list, h, ws, s[..n]);
    forall d: seq<bv8> | |d| in {16, 24, 32} && Join(list, ws) == Mnemonic(list, h, d) ensures d == s[..n] {
      GenuineIs(list, h, ws, d);
      BitsConcat(s[..n], s[n..]);
      assert s == s[..n] + s[n..];
      assert Bits(s)[..8 * n] == Bits(s[..n]) == Checked(h, d)[..8 * n] == Bits(d);
      BitsInjective(s[..n], d);
    }
  }

  /** 15 and 21 words are never let through. */
  lemma OtherCounts(list: seq<string>, h: seq<bv8> -> seq<bv8>, ws: seq<nat>)
    requires WordList(list) && Hash(h) && Legal(ws) && |ws| !in {12, 18, 24}
    ensures !Genuine(list, h, Join(list, ws))
  {
    forall d: seq<bv8> | |d| in {16, 24, 32} ensures Join(list, ws) != Mnemonic(list, h, d) {
      GenuineIs(list, h, ws, d);
    }
  }

  /** mnemonic_check accepts a string exactly if mnemonic_from_data makes it from 16, 24 or 32 bytes. */
  method Check(list: seq<string>, h: seq<bv8> -> seq<bv8>, mnemonic: string) returns (ok: bool)
    requires WordList(list) && Hash(h) && '\0' !in mnemonic
    ensures ok <==> Genuine(list, h, mnemonic)
  {
    hide Genuine, Bits, Flat, Join, Masked, NoPhrase, WordList;
    var bits := new bv8[33](_ => 0);
    var len, ws := ToBits(list, mnemonic, bits);
    if len != 12 * 11 && len != 18 * 11 && len != 24 * 11 {
      if len == 0 {
        OnlyPhrases(list, h, mnemonic);
      } else {
        OtherCounts(list, h, ws);
      }
      return false;
    }
    var words: nat := len / 11;
    CheckDecides(list, h, ws, bits[..]);
    var checksum := bits[words * 4 / 3];
    var digest := h(bits[..words * 4 / 3]);
    if words == 12 {
      ok := digest[0] & 0xF0 == checksum & 0xF0;
    } else if words == 18 {
      ok := digest[0] & 0xFC == checksum & 0xFC;
    } else {
      ok := digest[0] == checksum;
    }
    assert ok <==> Masked(digest[0], words) == Masked(checksum, words) by {
      MaskedValues(digest[0], words);
      MaskedValues(checksum, words);
    }
  }

  lemma MaskedValues(x: bv8, words: nat)
    ensures Masked(x, words) == if words == 12 then x & 0xF0 else if words == 18 then x & 0xFC else x
  {}

  /** What mnemonic_to_bits may answer for m and leave in its buffer, as ToBits promises it. */
  ghost predicate Answer(list: seq<string>, m: string, n: nat, ws: seq<nat>, s: seq<bv8>) {
    if n == 0 then NoPhrase(list, m)
    else |list| == 2048 && Legal(ws) && m == Join(list, ws) && n == 11 * |ws| && Bits(s) == Flat(ws) + Falses(264 - n)
  }

  /** Reading back a phrase just made gives its entropy, the checksum bits and zeros, for every legal
      length. */
  lemma ReadBack(list: seq<string>, h: seq<bv8> -> seq<bv8>, d: seq<bv8>, n: nat, ws: seq<nat>, s: seq<bv8>)
    requires WordList(list) && Hash(h) && LegalLength(|d|) && |s| == 33
    requires Answer(list, Mnemonic(list, h, d), n, ws, s)
    ensures n == 33 * (|d| / 4) && Bits(s) == Checked(h, d) + Falses(264 - n) && s[..|d|] == d
  {
    hide Bits, Flat, Join, Groups;
    FlatGroups(Checked(h, d));
    assert Legal(Groups(Checked(h, d)));
    assert n != 0;
    GenuineIs(list, h, ws, d);
    BitsConcat(s[..|d|], s[|d|..]);
    assert s == s[..|d|] + s[|d|..];
    assert Bits(s)[..8 * |d|] == Bits(d);
    BitsInjective(s[..|d|], d);
  }

  /** Phrases of 15 and 21 words are made and read, but not let through by the check. */
  lemma MadeButRefused(list: seq<string>, h: seq<bv8> -> seq<bv8>, d: seq<bv8>)
    requires WordList(list) && Hash(h) && LegalLength(|d|)
    ensures Genuine(list, h, Mnemonic(list, h, d)) <==> |d| in {16, 24, 32}
  {
    assert |list| == 2048;
    hide WordList, Groups, Checked, Join;
    FlatGroups(Checked(h, d));
    if |d| !in {16, 24, 32} {
      OtherCounts(list, h, Groups(Checked(h, d)));
    }
  }
}
