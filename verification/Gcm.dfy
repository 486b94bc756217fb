/** lib/trezor-crypto/aes/aesgcm.c: AES-GCM with separate accumulators for header and text.  The
    block cipher is a parameter. */
module Gcm {
  import opened ByteStrings
  import opened Words
  import opened Gf128
  import opened GfMul
  import opened GcmSpec
  import opened GcmCounter

  /** BUF_INC for 32-bit units. */
  const UNIT: nat := 4

  // ---------------------------------------------------------------- absorbing

  /** The accumulator part-way through a string: pos bytes into its last block, where 0 means that
      the multiplication after a full block is already done. */
  ghost predicate InFlight(g: Elem, h: Elem, d: seq<bv8>, pos: nat) {
    if pos == 0 then |d| % 16 == 0 && g == Mul(Acc(h, d), h)
    else |d| > 0 && pos == (|d| - 1) % 16 + 1 && g == Acc(h, d)
  }

  lemma FlightStart(h: Elem, d: seq<bv8>)
    ensures |d| % 16 != 0 ==> InFlight(Acc(h, d), h, d, |d| % 16)
    ensures |d| == 0 ==> InFlight(Acc(h, d), h, d, 0)
    ensures |d| > 0 && |d| % 16 == 0 ==> InFlight(Mul(Acc(h, d), h), h, d, 0)
  {
    hide Mul, Xor, ByteAt;
    MulDistributes(Zero(128), Zero(128), h);
    if |d| > 0 {
      hide Acc;
    }
  }

  lemma FlightByte(g: Elem, h: Elem, d: seq<bv8>, pos: nat, b: bv8)
    requires InFlight(g, h, d, pos) && pos < 16
    ensures InFlight(Xor(g, ByteAt(b, pos)), h, d + [b], pos + 1)
  {
    hide Mul, Xor, Acc, ByteAt;
    assert |d| % 16 == pos;
    AccNext(h, d, b);
  }

  lemma FlightMul(g: Elem, h: Elem, d: seq<bv8>)
    requires InFlight(g, h, d, 16)
    ensures InFlight(Mul(g, h), h, d, 0)
  {
    hide Mul, Acc;
    FullBlock(|d|);
  }

  lemma FullBlock(n: nat)
    requires n > 0
    ensures (n - 1) % 16 + 1 == 16 <==> n % 16 == 0
    ensures (n + 16 - 1) % 16 == (n - 1) % 16
  {}

  lemma FlightBlock(g: Elem, h: Elem, d: seq<bv8>, b: seq<bv8>)
    requires InFlight(g, h, d, 16) && |b| == 16
    ensures InFlight(Xor(Mul(g, h), Flat(b)), h, d + b, 16)
  {
    hide Mul, Xor, Acc, Flat;
    FullBlock(|d|);
    AccBlock(h, d, b);
  }

  lemma FlightEnd(g: Elem, h: Elem, d: seq<bv8>, pos: nat)
    requires InFlight(g, h, d, pos) && pos > 0
    ensures g == Acc(h, d)
  {}

  /** UI8_PTR(ghv)[pos] ^= b */
  method XorInto(ghv: array<bv8>, pos: nat, b: bv8)
    requires ghv.Length == 16 && pos < 16
    modifies ghv
    ensures Flat(ghv[..]) == Xor(old(Flat(ghv[..])), ByteAt(b, pos))
  {
    ghost var s := ghv[..];
    ghv[pos] := ghv[pos] ^ b;
    FlatUpdate(s, ghv[..], pos, b);
  }

  lemma FlatUpdate(s: seq<bv8>, t: seq<bv8>, pos: nat, b: bv8)
    requires |s| == 16 && pos < 16 && t == s[pos := s[pos] ^ b]
    ensures Flat(t) == Xor(Flat(s), ByteAt(b, pos))
  {
    var z: seq<bv8> := seq(pos, i => 0);
    var z': seq<bv8> := seq(15 - pos, i => 0);
    SingleByte(s, t, pos, b, z, z');
    hide *;
    FlatXor(s, z + [b] + z');
    FlatPlaced(b, pos, z, z');
  }

  lemma SingleByte(s: seq<bv8>, t: seq<bv8>, pos: nat, b: bv8, z: seq<bv8>, z': seq<bv8>)
    requires |s| == 16 && pos < 16 && t == s[pos := s[pos] ^ b] && |z| == pos && |z'| == 15 - pos
    requires (forall i :: 0 <= i < |z| ==> z[i] == 0) && (forall i :: 0 <= i < |z'| ==> z'[i] == 0)
    ensures t == XorBytes(s, z + [b] + z')
  {}

  lemma FlatPlaced(b: bv8, pos: nat, z: seq<bv8>, z': seq<bv8>)
    requires pos < 16 && |z| == pos && |z'| == 15 - pos
    requires (forall i :: 0 <= i < |z| ==> z[i] == 0) && (forall i :: 0 <= i < |z'| ==> z'[i] == 0)
    ensures Flat(z + [b] + z') == ByteAt(b, pos)
  {
    hide Flat, Zero, Bits;
    FlatConcat(z + [b], z');
    FlatConcat(z, [b]);
    FlatZeros(z);
    FlatZeros(z');
    FlatOne(b);
  }

  /** Byte by byte, up to the end of the data or to position stop. */
  method AbsorbBytes(ghv: array<bv8>, data: array<bv8>, cnt0: nat, pos0: nat, stop: nat, ghost h: Elem, ghost d: seq<bv8>)
    returns (cnt: nat, pos: nat)
    requires ghv.Length == 16 && ghv != data && cnt0 <= data.Length && pos0 <= stop <= 16
    requires InFlight(Flat(ghv[..]), h, d + data[..cnt0], pos0)
    modifies ghv
    ensures cnt0 <= cnt <= data.Length && pos == pos0 + (cnt - cnt0) <= stop && (cnt == data.Length || pos == stop)
    ensures InFlight(Flat(ghv[..]), h, d + data[..cnt], pos)
  {
    hide Flat, InFlight;
    cnt, pos := cnt0, pos0;
    while cnt < data.Length && pos < stop
      invariant cnt0 <= cnt <= data.Length && pos == pos0 + (cnt - cnt0) <= stop
      invariant InFlight(Flat(ghv[..]), h, d + data[..cnt], pos)
    {
      FlightByte(Flat(ghv[..]), h, d + data[..cnt], pos, data[cnt]);
      assert d + data[..cnt] + [data[cnt]] == d + data[..cnt + 1];
      XorInto(ghv, pos, data[cnt]);
      cnt, pos := cnt + 1, pos + 1;
    }
  }

  /** Unit by unit while a whole unit fits the data and the block. */
  method AbsorbUnits(ghv: array<bv8>, data: array<bv8>, cnt0: nat, pos0: nat, ghost h: Elem, ghost d: seq<bv8>)
    returns (cnt: nat, pos: nat)
    requires ghv.Length == 16 && ghv != data && cnt0 <= data.Length && pos0 <= 16
    requires pos0 % UNIT == 0 || cnt0 == data.Length
    requires InFlight(Flat(ghv[..]), h, d + data[..cnt0], pos0)
    modifies ghv
    ensures cnt0 <= cnt <= data.Length && pos <= 16 && pos == pos0 + (cnt - cnt0)
    ensures pos == 16 || cnt + UNIT > data.Length
    ensures InFlight(Flat(ghv[..]), h, d + data[..cnt], pos)
  {
    hide Flat, InFlight;
    cnt, pos := cnt0, pos0;
    while cnt + UNIT <= data.Length && pos <= 16 - UNIT
      invariant cnt0 <= cnt <= data.Length && pos <= 16 && pos == pos0 + (cnt - cnt0)
      invariant pos % UNIT == 0 || cnt == data.Length
      invariant InFlight(Flat(ghv[..]), h, d + data[..cnt], pos)
    {
      ghost var before := cnt;
      for k := 0 to UNIT
        invariant cnt == before + k && cnt + (UNIT - k) <= data.Length && pos == pos0 + (cnt - cnt0) && pos + (UNIT - k) <= 16
        invariant InFlight(Flat(ghv[..]), h, d + data[..cnt], pos)
      {
        FlightByte(Flat(ghv[..]), h, d + data[..cnt], pos, data[cnt]);
        assert d + data[..cnt] + [data[cnt]] == d + data[..cnt + 1];
        XorInto(ghv, pos, data[cnt]);
        cnt, pos := cnt + 1, pos + 1;
      }
    }
  }

  /** Block by block, from a full block on. */
  method AbsorbBlocks(ghv: array<bv8>, hash: array<bv8>, data: array<bv8>, cnt0: nat, pos: nat, ghost d: seq<bv8>)
    returns (cnt: nat)
    requires ghv.Length == hash.Length == 16 && ghv !in {hash, data} && cnt0 <= data.Length
    requires pos == 16 || cnt0 + 16 > data.Length
    requires InFlight(Flat(ghv[..]), Flat(hash[..]), d + data[..cnt0], pos)
    modifies ghv
    ensures cnt0 <= cnt <= data.Length && (pos == 16 || cnt == cnt0)
    ensures InFlight(Flat(ghv[..]), Flat(hash[..]), d + data[..cnt], pos)
  {
    hide Flat, InFlight, Mul, Xor;
    cnt := cnt0;
    ghost var h := Flat(hash[..]);
    while cnt + 16 <= data.Length
      invariant cnt0 <= cnt <= data.Length && (pos == 16 || cnt == cnt0) && (pos == 16 || cnt + 16 > data.Length)
      invariant hash[..] == old(hash[..])
      invariant InFlight(Flat(ghv[..]), h, d + data[..cnt], pos)
    {
      FlightBlock(Flat(ghv[..]), h, d + data[..cnt], data[cnt..cnt + 16]);
      assert d + data[..cnt] + data[cnt..cnt + 16] == d + data[..cnt + 16];
      FieldMul(ghv, hash);
      var block := Slice(data, cnt);
      XorBlock(ghv, block);
      cnt := cnt + 16;
    }
  }

  method Slice(data: array<bv8>, from: nat) returns (block: array<bv8>)
    requires from + 16 <= data.Length
    ensures fresh(block) && block.Length == 16 && block[..] == data[from..from + 16]
  {
    block := new bv8[16];
    for k := 0 to 16
      invariant block[..k] == data[from..from + k]
    {
      block[k] := data[from + k];
    }
  }

  /** gcm_auth_header and gcm_auth_data: absorb a piece of the header or the text.  aligned tells
      whether data and accumulator have the same alignment. */
  method Absorb(ghv: array<bv8>, hash: array<bv8>, cnt0: uint32, data: array<bv8>, aligned: bool, ghost d: seq<bv8>)
    requires ghv.Length == hash.Length == 16 && ghv !in {hash, data}
    requires cnt0 == |d| && Flat(ghv[..]) == Acc(Flat(hash[..]), d)
    modifies ghv
    ensures Flat(ghv[..]) == Acc(Flat(hash[..]), d + data[..])
  {
    hide Flat, InFlight, Mul, Acc;
    ghost var h := Flat(hash[..]);
    assert d + data[..0] == d;
    var cnt: nat, pos: nat := 0, cnt0 % 16;
    if data.Length == 0 {
      assert d + data[..] == d;
      return;
    }
    FlightStart(h, d);
    if cnt0 != 0 && pos == 0 {
      FieldMul(ghv, hash);
    }
    if aligned {
      var stop := (pos + UNIT - 1) / UNIT * UNIT;
      cnt, pos := AbsorbBytes(ghv, data, cnt, pos, stop, h, d);
      cnt, pos := AbsorbUnits(ghv, data, cnt, pos, h, d);
    } else {
      cnt, pos := AbsorbBytes(ghv, data, cnt, pos, 16, h, d);
    }
    cnt := AbsorbBlocks(ghv, hash, data, cnt, pos, d);
    AbsorbTail(ghv, hash, data, cnt, pos, d);
  }

  /** What is left, byte by byte. */
  method AbsorbTail(ghv: array<bv8>, hash: array<bv8>, data: array<bv8>, cnt0: nat, pos0: nat, ghost d: seq<bv8>)
    requires ghv.Length == hash.Length == 16 && ghv !in {hash, data} && cnt0 <= data.Length && data.Length > 0
    requires pos0 <= 16 && (cnt0 > 0 ==> pos0 > 0) && InFlight(Flat(ghv[..]), Flat(hash[..]), d + data[..cnt0], pos0)
    modifies ghv
    ensures Flat(ghv[..]) == Acc(Flat(hash[..]), d + data[..])
  {
    hide Flat, InFlight, Mul, Acc;
    ghost var h := Flat(hash[..]);
    var cnt, pos := cnt0, pos0;
    while cnt < data.Length
      invariant cnt <= data.Length && pos <= 16 && (cnt > 0 ==> pos > 0) && hash[..] == old(hash[..])
      invariant InFlight(Flat(ghv[..]), h, d + data[..cnt], pos)
    {
      if pos == 16 {
        FlightMul(Flat(ghv[..]), h, d + data[..cnt]);
        FieldMul(ghv, hash);
        pos := 0;
      }
      FlightByte(Flat(ghv[..]), h, d + data[..cnt], pos, data[cnt]);
      assert d + data[..cnt] + [data[cnt]] == d + data[..cnt + 1];
      XorInto(ghv, pos, data[cnt]);
      cnt, pos := cnt + 1, pos + 1;
    }
    FlightEnd(Flat(ghv[..]), h, d + data[..cnt], pos);
    assert data[..cnt] == data[..];
  }

  // ---------------------------------------------------------------- counter mode

  /** Between blocks: the counter is that of the block before byte n. */
  ghost predicate AtBlock(ctr: seq<bv8>, j0: Block, n: nat) {
    n % 16 == 0 && ctr == Counter(j0, n / 16)
  }

  /** Inside a block, before its byte pos: the encrypted counter is at hand. */
  ghost predicate InBlock(ctr: seq<bv8>, enc: seq<bv8>, aes: Cipher, j0: Block, n: nat, pos: nat) {
    |enc| == 16 && n % 16 == pos && ctr == Counter(j0, n / 16 + 1) && enc == aes(Counter(j0, n / 16 + 1))
  }

  /** What is kept between calls: pos is the byte count modulo 16, or 16 for 0. */
  ghost predicate InStream(ctr: seq<bv8>, enc: seq<bv8>, aes: Cipher, j0: Block, n: nat, pos: nat) {
    if pos == 0 || pos == 16 then AtBlock(ctr, j0, n) else InBlock(ctr, enc, aes, j0, n, pos)
  }

  lemma Overflows(b: bv8)
    ensures Succ(b) == 0 <==> Full(b)
  {}

  /** inc_ctr */
  method IncCtr(x: array<bv8>)
    requires x.Length == 16
    modifies x
    ensures x[..] == Inc(old(x[..]))
  {
    hide ByteOf, CounterWord, Succ, Full, Inc;
    ghost var b: Block := x[..];
    IncIs(b);
    var i := 16;
    var carry := true;
    while i > 12 && carry
      invariant 12 <= i <= 16 && x[..i] == b[..i]
      invariant forall k :: i < k < 16 ==> Full(b[k])
      invariant forall k :: i <= k < 16 ==> x[k] == Succ(b[k])
      invariant i < 16 ==> (carry <==> Full(b[i]))
      invariant i == 16 ==> carry
    {
      i := i - 1;
      Overflows(b[i]);
      x[i] := Succ(x[i]);
      carry := x[i] == 0;
    }
  }

  method Encrypt(ctr: array<bv8>, enc: array<bv8>, aes: Cipher)
    requires ctr.Length == enc.Length == 16
    modifies enc
    ensures enc[..] == aes(old(ctr[..]))
  {
    var block: Block := aes(ctr[..]);
    for k := 0 to 16
      invariant enc[..k] == block[..k]
    {
      enc[k] := block[k];
    }
  }

  method NextBlock(ctr: array<bv8>, enc: array<bv8>, aes: Cipher, ghost j0: Block, ghost n: nat)
    requires ctr.Length == enc.Length == 16 && ctr != enc && AtBlock(ctr[..], j0, n)
    modifies ctr, enc
    ensures InBlock(ctr[..], enc[..], aes, j0, n, 0)
  {
    hide Inc;
    IncCtr(ctr);
    Encrypt(ctr, enc, aes);
  }

  /** The text so far: cnt bytes of d are encrypted, the rest is untouched. */
  ghost predicate Partly(data: seq<bv8>, d: seq<bv8>, aes: Cipher, j0: Block, off: nat, cnt: nat) {
    |data| == |d| && cnt <= |d| && data == Gctr(aes, j0, off, d[..cnt]) + d[cnt..]
  }

  lemma PartlyStart(d: seq<bv8>, aes: Cipher, j0: Block, off: nat)
    ensures Partly(d, d, aes, j0, off, 0)
  {
    assert Gctr(aes, j0, off, d[..0]) + d[0..] == d;
  }

  lemma PartlyStep(data: seq<bv8>, d: seq<bv8>, aes: Cipher, j0: Block, off: nat, cnt: nat, ctr: seq<bv8>, enc: seq<bv8>, pos: nat)
    requires Partly(data, d, aes, j0, off, cnt) && cnt < |d| && InBlock(ctr, enc, aes, j0, off + cnt, pos) && pos < 16
    ensures Partly(data[cnt := XorByte(data[cnt], enc[pos])], d, aes, j0, off, cnt + 1)
    ensures pos < 15 ==> InBlock(ctr, enc, aes, j0, off + cnt + 1, pos + 1)
    ensures pos == 15 ==> AtBlock(ctr, j0, off + cnt + 1)
  {
    hide Counter, XorByte;
    assert data[cnt] == d[cnt] && enc[pos] == Stream(aes, j0, off + cnt);
    hide Stream;
    assert Gctr(aes, j0, off, d[..cnt + 1]) == Gctr(aes, j0, off, d[..cnt]) + [XorByte(d[cnt], Stream(aes, j0, off + cnt))];
  }

  lemma PartlyEnd(data: seq<bv8>, d: seq<bv8>, aes: Cipher, j0: Block, off: nat)
    requires Partly(data, d, aes, j0, off, |d|)
    ensures data == Gctr(aes, j0, off, d)
  {
    assert d[..|d|] == d;
  }

  /** One byte, inside a block. */
  method CryptByte(ctr: array<bv8>, enc: array<bv8>, data: array<bv8>, cnt: nat, pos: nat,
                   aes: Cipher, ghost j0: Block, ghost d: seq<bv8>, ghost off: nat)
    requires data !in {ctr, enc} && enc.Length == 16 && cnt < data.Length && pos < 16
    requires InBlock(ctr[..], enc[..], aes, j0, off + cnt, pos) && Partly(data[..], d, aes, j0, off, cnt)
    modifies data
    ensures Partly(data[..], d, aes, j0, off, cnt + 1) && InStream(ctr[..], enc[..], aes, j0, off + cnt + 1, pos + 1)
  {
    ghost var s := data[..];
    PartlyStep(s, d, aes, j0, off, cnt, ctr[..], enc[..], pos);
    hide Partly, InBlock, AtBlock;
    data[cnt] := XorByte(data[cnt], enc[pos]);
    assert data[..] == s[cnt := XorByte(s[cnt], enc[pos])];
  }

  /** A run of bytes inside one block. */
  method CryptRun(ctr: array<bv8>, enc: array<bv8>, data: array<bv8>, cnt0: nat, pos0: nat, stop: nat,
                  aes: Cipher, ghost j0: Block, ghost d: seq<bv8>, ghost off: nat) returns (cnt: nat, pos: nat)
    requires data !in {ctr, enc} && enc.Length == 16 && cnt0 <= data.Length && 0 < pos0 <= stop <= 16
    requires InStream(ctr[..], enc[..], aes, j0, off + cnt0, pos0) && Partly(data[..], d, aes, j0, off, cnt0)
    modifies data
    ensures cnt0 <= cnt <= data.Length && pos == pos0 + (cnt - cnt0) <= stop && (cnt == data.Length || pos == stop)
    ensures InStream(ctr[..], enc[..], aes, j0, off + cnt, pos) && Partly(data[..], d, aes, j0, off, cnt)
  {
    hide Partly, InBlock, AtBlock;
    cnt, pos := cnt0, pos0;
    while cnt < data.Length && pos < stop
      invariant cnt0 <= cnt <= data.Length && pos == pos0 + (cnt - cnt0) <= stop
      invariant InStream(ctr[..], enc[..], aes, j0, off + cnt, pos) && Partly(data[..], d, aes, j0, off, cnt)
    {
      CryptByte(ctr, enc, data, cnt, pos, aes, j0, d, off);
      cnt, pos := cnt + 1, pos + 1;
    }
  }

  /** The rest of a block in units. */
  method CryptUnits(ctr: array<bv8>, enc: array<bv8>, data: array<bv8>, cnt0: nat, pos0: nat,
                    aes: Cipher, ghost j0: Block, ghost d: seq<bv8>, ghost off: nat) returns (cnt: nat, pos: nat)
    requires data !in {ctr, enc} && enc.Length == 16 && cnt0 <= data.Length && 0 < pos0 <= 16
    requires pos0 % UNIT == 0 || cnt0 == data.Length
    requires InStream(ctr[..], enc[..], aes, j0, off + cnt0, pos0) && Partly(data[..], d, aes, j0, off, cnt0)
    modifies data
    ensures cnt0 <= cnt <= data.Length && pos == pos0 + (cnt - cnt0) <= 16 && (pos == 16 || cnt + UNIT > data.Length)
    ensures InStream(ctr[..], enc[..], aes, j0, off + cnt, pos) && Partly(data[..], d, aes, j0, off, cnt)
  {
    hide Partly, InBlock, AtBlock, InStream;
    cnt, pos := cnt0, pos0;
    while cnt + UNIT <= data.Length && pos <= 16 - UNIT
      invariant cnt0 <= cnt <= data.Length && 0 < pos == pos0 + (cnt - cnt0) <= 16 && (pos % UNIT == 0 || cnt == data.Length)
      invariant InStream(ctr[..], enc[..], aes, j0, off + cnt, pos) && Partly(data[..], d, aes, j0, off, cnt)
    {
      cnt, pos := CryptUnit(ctr, enc, data, cnt, pos, aes, j0, d, off);
    }
  }

  /** One unit inside a block. */
  method CryptUnit(ctr: array<bv8>, enc: array<bv8>, data: array<bv8>, cnt0: nat, pos0: nat,
                   aes: Cipher, ghost j0: Block, ghost d: seq<bv8>, ghost off: nat) returns (cnt: nat, pos: nat)
    requires data !in {ctr, enc} && enc.Length == 16 && cnt0 + UNIT <= data.Length && 0 < pos0 <= 16 - UNIT
    requires InStream(ctr[..], enc[..], aes, j0, off + cnt0, pos0) && Partly(data[..], d, aes, j0, off, cnt0)
    modifies data
    ensures cnt == cnt0 + UNIT && pos == pos0 + UNIT
    ensures InStream(ctr[..], enc[..], aes, j0, off + cnt, pos) && Partly(data[..], d, aes, j0, off, cnt)
  {
    hide Partly, InBlock, AtBlock;
    cnt, pos := cnt0, pos0;
    for k := 0 to UNIT
      invariant cnt == cnt0 + k && pos == pos0 + k
      invariant InStream(ctr[..], enc[..], aes, j0, off + cnt, pos) && Partly(data[..], d, aes, j0, off, cnt)
    {
      CryptByte(ctr, enc, data, cnt, pos, aes, j0, d, off);
      cnt, pos := cnt + 1, pos + 1;
    }
  }

  /** Whole blocks. */
  method CryptBlocks(ctr: array<bv8>, enc: array<bv8>, data: array<bv8>, cnt0: nat, pos0: nat,
                     aes: Cipher, ghost j0: Block, ghost d: seq<bv8>, ghost off: nat) returns (cnt: nat)
    requires data !in {ctr, enc} && ctr != enc && ctr.Length == enc.Length == 16 && cnt0 <= data.Length && pos0 <= 16
    requires pos0 == 0 || pos0 == 16 || cnt0 + 16 > data.Length
    requires InStream(ctr[..], enc[..], aes, j0, off + cnt0, pos0) && Partly(data[..], d, aes, j0, off, cnt0)
    modifies data, ctr, enc
    ensures cnt0 <= cnt <= data.Length
    ensures InStream(ctr[..], enc[..], aes, j0, off + cnt, pos0) && Partly(data[..], d, aes, j0, off, cnt)
  {
    hide Partly, InBlock, AtBlock;
    cnt := cnt0;
    while cnt + 16 <= data.Length
      invariant cnt0 <= cnt <= data.Length && (pos0 == 0 || pos0 == 16 || cnt + 16 > data.Length)
      invariant InStream(ctr[..], enc[..], aes, j0, off + cnt, pos0) && Partly(data[..], d, aes, j0, off, cnt)
    {
      NextBlock(ctr, enc, aes, j0, off + cnt);
      CryptByte(ctr, enc, data, cnt, 0, aes, j0, d, off);
      ghost var pos;
      cnt, pos := CryptRun(ctr, enc, data, cnt + 1, 1, 16, aes, j0, d, off);
    }
  }

  /** gcm_crypt_data: encrypt or decrypt a piece of the text that starts at byte off, of which the
      code knows the count modulo 2^32. */
  method Crypt(ctr: array<bv8>, enc: array<bv8>, data: array<bv8>, off: uint32, aligned: bool,
               aes: Cipher, ghost j0: Block)
    requires data !in {ctr, enc} && ctr != enc && ctr.Length == enc.Length == 16
    requires InStream(ctr[..], enc[..], aes, j0, off, off % 16)
    modifies data, ctr, enc
    ensures data[..] == Gctr(aes, j0, off, old(data[..]))
    ensures forall v: nat, i :: j0[12..] == BeBits(v, 4) && 0 <= i < data.Length ==>
      data[i] == old(data[i]) ^ aes(Numbered(j0[..12], v + (off + i) / 16 + 1))[(off + i) % 16]
    ensures InStream(ctr[..], enc[..], aes, j0, off + data.Length, (off + data.Length) % 16)
  {
    hide Partly, InBlock, AtBlock, Gctr, Numbered, BeBits;
    ghost var d := data[..];
    AllSpelled(aes, j0, off, d);
    PartlyStart(d, aes, j0, off);
    var cnt: nat, pos: nat := 0, off % 16;
    if data.Length == 0 {
      PartlyEnd(data[..], d, aes, j0, off);
      return;
    }
    if pos != 0 {
      if aligned {
        var stop := (pos + UNIT - 1) / UNIT * UNIT;
        cnt, pos := CryptRun(ctr, enc, data, cnt, pos, stop, aes, j0, d, off);
        cnt, pos := CryptUnits(ctr, enc, data, cnt, pos, aes, j0, d, off);
      } else {
        cnt, pos := CryptRun(ctr, enc, data, cnt, pos, 16, aes, j0, d, off);
      }
    }
    cnt := CryptBlocks(ctr, enc, data, cnt, pos, aes, j0, d, off);
    pos := CryptTail(ctr, enc, data, cnt, pos, aes, j0, d, off);
    PartlyEnd(data[..], d, aes, j0, off);
    StreamPos(ctr[..], enc[..], aes, j0, off + data.Length, pos);
  }

  /** What is left, byte by byte. */
  method CryptTail(ctr: array<bv8>, enc: array<bv8>, data: array<bv8>, cnt0: nat, pos0: nat,
                   aes: Cipher, ghost j0: Block, ghost d: seq<bv8>, ghost off: nat) returns (pos: nat)
    requires data !in {ctr, enc} && ctr != enc && ctr.Length == enc.Length == 16 && cnt0 <= data.Length && pos0 <= 16
    requires InStream(ctr[..], enc[..], aes, j0, off + cnt0, pos0) && Partly(data[..], d, aes, j0, off, cnt0)
    modifies data, ctr, enc
    ensures pos <= 16
    ensures InStream(ctr[..], enc[..], aes, j0, off + data.Length, pos) && Partly(data[..], d, aes, j0, off, data.Length)
  {
    hide Partly, InBlock, AtBlock;
    var cnt := cnt0;
    pos := pos0;
    while cnt < data.Length
      invariant cnt <= data.Length && pos <= 16
      invariant InStream(ctr[..], enc[..], aes, j0, off + cnt, pos) && Partly(data[..], d, aes, j0, off, cnt)
    {
      if pos == 16 || pos == 0 {
        NextBlock(ctr, enc, aes, j0, off + cnt);
        pos := 0;
      }
      CryptByte(ctr, enc, data, cnt, pos, aes, j0, d, off);
      cnt, pos := cnt + 1, pos + 1;
    }
  }

  lemma StreamPos(ctr: seq<bv8>, enc: seq<bv8>, aes: Cipher, j0: Block, n: nat, pos: nat)
    requires InStream(ctr, enc, aes, j0, n, pos) && pos <= 16
    ensures InStream(ctr, enc, aes, j0, n, n % 16)
  {
    hide Counter;
  }
}
