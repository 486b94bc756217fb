/** lib/trezor-crypto/bip39.c: the seed of a phrase and a passphrase, without the cache in front. */
module Bip39Seed {
  import opened Sha2Spec
  import opened Pbkdf2

  const ROUNDS: nat := 2048
  const CALLS: nat := 16
  const MAX_PASSPHRASE: nat := 256

  /** "mnemonic" */
  const PREFIX: Bytes := [0x6d, 0x6e, 0x65, 0x6d, 0x6f, 0x6e, 0x69, 0x63]

  function Salt(passphrase: Bytes): Bytes {
    PREFIX + if |passphrase| <= MAX_PASSPHRASE then passphrase else passphrase[..MAX_PASSPHRASE]
  }

  /** The counts of the sixteen calls add up. */
  lemma {:induction false} EqualParts(k: nat, c: nat)
    requires c > 0
    ensures Sum(seq(k, i => c)) == k * c
  {
    if k > 0 {
      assert seq(k, i => c)[..k - 1] == seq(k - 1, i => c);
      EqualParts(k - 1, c);
    }
  }

  lemma SixteenCalls()
    ensures Done(seq(CALLS, i => ROUNDS / CALLS)) == ROUNDS
  {
    EqualParts(CALLS, ROUNDS / CALLS);
    DoneIs(seq(CALLS, i => ROUNDS / CALLS));
  }

  /** T_1 of section 5.2 of RFC 8018 is the whole key when one block is asked for. */
  lemma OneBlockKey(a: Algorithm, pass: Bytes, salt: Bytes, c: nat)
    requires Proper(a) && c > 0
    ensures Blocks(a, pass, salt, c, 1) == F(a, pass, First(salt, 1), c)
  {
    assert Blocks(a, pass, salt, c, 0) == [];
  }

  /** mnemonic_to_seed: PBKDF2 with 2048 iterations over the phrase, salted with the passphrase, of
      which 256 bytes count. */
  method MnemonicToSeed(alg: Algorithm, mnemonic: array<bv8>, passphrase: seq<bv8>, seed: array<bv8>)
    requires Proper(alg) && seed.Length == alg.DigestLen() && seed != mnemonic
    modifies seed
    ensures seed[..] == Blocks(alg, mnemonic[..], Salt(passphrase), ROUNDS, 1)
  {
    hide F, U, First, Midstate, PaddingWords, Sha2.WordsOf, Blocks, Done;
    ghost var m := mnemonic[..];
    var salt := MakeSalt(passphrase);
    var ctx := new Pbkdf2Context(alg);
    ctx.Init(mnemonic, salt, 1);
    UpdateAll(ctx, seq(CALLS, i => ROUNDS / CALLS));
    SixteenCalls();
    ctx.Final(seed);
    OneBlockKey(alg, m, Salt(passphrase), ROUNDS);
  }

  method MakeSalt(passphrase: seq<bv8>) returns (salt: array<bv8>)
    ensures fresh(salt) && salt[..] == Salt(passphrase)
  {
    var len := if |passphrase| <= MAX_PASSPHRASE then |passphrase| else MAX_PASSPHRASE;
    salt := new bv8[8 + len](_ => 0);
    for k := 0 to 8
      invariant salt[..k] == PREFIX[..k]
    {
      salt[k] := PREFIX[k];
    }
    for k := 0 to len
      invariant salt[..8] == PREFIX && salt[8..8 + k] == passphrase[..k]
    {
      salt[8 + k] := passphrase[k];
      assert salt[8..8 + (k + 1)] == passphrase[..k] + [passphrase[k]];
    }
    assert salt[..] == salt[..8] + salt[8..8 + len];
  }
}
