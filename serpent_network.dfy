/**
 * The Serpent substitution-permutation network of Crypto/SerpentManagedTransform.cs, with the
 * 32 unrolled rounds of Encrypt (lines 167-1251) and Decrypt (lines 1261-2341) expressed as one
 * round function applied for the round index r = 0 .. 31, and the proof that decryption undoes
 * encryption under the same expanded key. The byte-level block functions at the end are what
 * EncryptBlock and DecryptBlock (lines 2350-2369) compute on a 16-byte block.
 */
module SerpentNetwork {
  import opened Utils
  import opened SerpentSBoxes
  import opened SerpentLinear

  const Rounds := 32

  /** An expanded key: one four-word subkey per round, and one more for the end of the last round. */
  predicate IsExpandedKey(ks: seq<Quad>)
  {
    |ks| == Rounds + 1
  }

  /** a ^ b, kept as a function so that the proofs below can cancel it by name. */
  function Xor(a: bv32, b: bv32): bv32
  {
    a ^ b
  }

  /** Xoring the same word in twice restores the original. */
  lemma XorTwice(a: bv32, b: bv32)
    ensures Xor(Xor(a, b), b) == a
  {
  }

  /** Xor of a subkey into the four words of the state. */
  function KeyXor(q: Quad, k: Quad): Quad
  {
    Quad(Xor(q.x0, k.x0), Xor(q.x1, k.x1), Xor(q.x2, k.x2), Xor(q.x3, k.x3))
  }

  /** Xor of a subkey is its own inverse. */
  lemma KeyXorTwice(q: Quad, k: Quad)
    ensures KeyXor(KeyXor(q, k), k) == q
  {
    XorTwice(q.x0, k.x0);
    XorTwice(q.x1, k.x1);
    XorTwice(q.x2, k.x2);
    XorTwice(q.x3, k.x3);
  }

  /**
   * Encryption round r: xor subkey r in, apply S-box r mod 8, then the linear transformation in
   * rounds 0 .. 30; the last round xors subkey 32 in instead of the linear transformation.
   */
  function Round(ks: seq<Quad>, r: nat, q: Quad): Quad
    requires IsExpandedKey(ks) && r < Rounds
  {
    var s := SBoxFormula(r, KeyXor(q, ks[r]));
    if r < Rounds - 1 then LT(s) else KeyXor(s, ks[Rounds])
  }

  /**
   * Decryption round r: the last round first undoes the final subkey xor; rounds 30 .. 0 undo the
   * linear transformation; then the inverse S-box r mod 8 and the xor of subkey r.
   */
  function InvRound(ks: seq<Quad>, r: nat, q: Quad): Quad
    requires IsExpandedKey(ks) && r < Rounds
  {
    var s := if r < Rounds - 1 then InvLT(q) else KeyXor(q, ks[Rounds]);
    KeyXor(InvSBoxFormula(r, s), ks[r])
  }

  /** Each decryption round undoes the encryption round with the same index. */
  lemma InvRoundInverse(ks: seq<Quad>, r: nat, q: Quad)
    requires IsExpandedKey(ks) && r < Rounds
    ensures InvRound(ks, r, Round(ks, r, q)) == q
  {
    var x := KeyXor(q, ks[r]);
    var s := SBoxFormula(r, x);
    if r < Rounds - 1 {
      InvLTInverse(s);
    } else {
      KeyXorTwice(s, ks[Rounds]);
    }
    SBoxFormulaInverse(r, x);
    KeyXorTwice(q, ks[r]);
  }

  /** The state after encryption rounds 0 .. n-1. */
  function EncryptRounds(ks: seq<Quad>, q: Quad, n: nat): Quad
    requires IsExpandedKey(ks) && n <= Rounds
  {
    if n == 0 then q else Round(ks, n - 1, EncryptRounds(ks, q, n - 1))
  }

  /** The state after decryption rounds n-1 down to 0. */
  function DecryptRounds(ks: seq<Quad>, q: Quad, n: nat): Quad
    requires IsExpandedKey(ks) && n <= Rounds
    decreases n
  {
    if n == 0 then q else DecryptRounds(ks, InvRound(ks, n - 1, q), n - 1)
  }

  /** Encryption rounds 0 .. n are rounds 0 .. n-1 followed by round n. */
  lemma EncryptRoundsNext(ks: seq<Quad>, q: Quad, n: nat)
    requires IsExpandedKey(ks) && n < Rounds
    ensures EncryptRounds(ks, q, n + 1) == Round(ks, n, EncryptRounds(ks, q, n))
  {
  }

  /** Decryption rounds n .. 0 are round n followed by rounds n-1 .. 0. */
  lemma DecryptRoundsNext(ks: seq<Quad>, q: Quad, n: nat)
    requires IsExpandedKey(ks) && n < Rounds
    ensures DecryptRounds(ks, q, n + 1) == DecryptRounds(ks, InvRound(ks, n, q), n)
  {
  }

  /** The 32-round Serpent encryption of one block of four words. */
  function Encrypt(ks: seq<Quad>, q: Quad): Quad
    requires IsExpandedKey(ks)
  {
    EncryptRounds(ks, q, Rounds)
  }

  /** The 32-round Serpent decryption of one block of four words. */
  function Decrypt(ks: seq<Quad>, q: Quad): Quad
    requires IsExpandedKey(ks)
  {
    DecryptRounds(ks, q, Rounds)
  }

  /** Decryption rounds n-1 .. 0 undo encryption rounds 0 .. n-1. */
  lemma {:induction false} DecryptRoundsInverse(ks: seq<Quad>, q: Quad, n: nat)
    requires IsExpandedKey(ks) && n <= Rounds
    ensures DecryptRounds(ks, EncryptRounds(ks, q, n), n) == q
  {
    if n > 0 {
      var m := n - 1;
      EncryptRoundsNext(ks, q, m);
      DecryptRoundsNext(ks, EncryptRounds(ks, q, n), m);
      InvRoundInverse(ks, m, EncryptRounds(ks, q, m));
      DecryptRoundsInverse(ks, q, m);
    }
  }

  /** Decryption undoes encryption under the same expanded key. */
  lemma DecryptEncrypt(ks: seq<Quad>, q: Quad)
    requires IsExpandedKey(ks)
    ensures Decrypt(ks, Encrypt(ks, q)) == q
  {
    DecryptRoundsInverse(ks, q, Rounds);
  }

  // ---- blocks of bytes ----

  /** The four words of a state, in order. */
  function Words(q: Quad): (ws: seq<bv32>)
    ensures |ws| == 4
  {
    [q.x0, q.x1, q.x2, q.x3]
  }

  /** The state made of four words. */
  function ToQuad(ws: seq<bv32>): Quad
    requires |ws| == 4
  {
    Quad(ws[0], ws[1], ws[2], ws[3])
  }

  /** A 16-byte block read as four little-endian words, encrypted, and written back little-endian. */
  function EncryptBlock(ks: seq<Quad>, block: seq<bv8>): (out: seq<bv8>)
    requires IsExpandedKey(ks) && |block| == 16
    ensures |out| == 16
  {
    WordsToBytes32LE(Words(Encrypt(ks, ToQuad(BytesToWords32LE(block)))))
  }

  /** A 16-byte block read as four little-endian words, decrypted, and written back little-endian. */
  function DecryptBlock(ks: seq<Quad>, block: seq<bv8>): (out: seq<bv8>)
    requires IsExpandedKey(ks) && |block| == 16
    ensures |out| == 16
  {
    WordsToBytes32LE(Words(Decrypt(ks, ToQuad(BytesToWords32LE(block)))))
  }

  /** Reading back the bytes of a written state gives the state. */
  lemma ReadWrittenState(q: Quad)
    ensures |WordsToBytes32LE(Words(q))| == 16
    ensures ToQuad(BytesToWords32LE(WordsToBytes32LE(Words(q)))) == q
  {
    BytesToWords32LERoundTrip(Words(q));
  }

  /** Writing back the state read from a block gives the block. */
  lemma WriteReadBlock(block: seq<bv8>)
    requires |block| == 16
    ensures WordsToBytes32LE(Words(ToQuad(BytesToWords32LE(block)))) == block
  {
    assert Words(ToQuad(BytesToWords32LE(block))) == BytesToWords32LE(block);
    WordsToBytes32LERoundTrip(block);
  }

  /** Decrypting an encrypted block gives the block back. */
  lemma DecryptEncryptBlock(ks: seq<Quad>, block: seq<bv8>)
    requires IsExpandedKey(ks) && |block| == 16
    ensures DecryptBlock(ks, EncryptBlock(ks, block)) == block
  {
    var q := ToQuad(BytesToWords32LE(block));
    ReadWrittenState(Encrypt(ks, q));
    DecryptEncrypt(ks, q);
    WriteReadBlock(block);
  }
}
