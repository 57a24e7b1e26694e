/**
 * The Serpent linear transformation of Crypto/SerpentManagedTransform.cs and its inverse.
 * The forward transformation (lines 193-202, repeated after the S-box of every round but the
 * last) is five pairs of word updates; the inverse (lines 1291-1300, repeated before the
 * inverse S-box of every decryption round but the first) undoes those pairs in reverse order.
 */
module SerpentLinear {
  import opened SerpentSBoxes

  /** Rotation left by n bits, written as the source writes it: (x << n) | (x >> (32 - n)). */
  function Rotl(x: bv32, n: bv32): bv32
    requires 0 < n < 32
  {
    (x << n) | (x >> (32 - n))
  }

  /** Rotation right by n bits: (x << (32 - n)) | (x >> n). */
  function Rotr(x: bv32, n: bv32): bv32
    requires 0 < n < 32
  {
    (x << (32 - n)) | (x >> n)
  }

  /** x ^ y ^ z, kept as a function so that the proofs below can cancel it by name. */
  function Xor3(x: bv32, y: bv32, z: bv32): bv32
  {
    x ^ y ^ z
  }

  /** Shift left by n bits (the bits shifted out are lost). */
  function Shl(x: bv32, n: bv32): bv32
    requires n < 32
  {
    x << n
  }

  /** Xoring the same two words in again restores the first. */
  lemma Xor3Twice(x: bv32, y: bv32, z: bv32)
    ensures Xor3(Xor3(x, y, z), y, z) == x
  {
  }

  // Rotating right undoes rotating left, for each amount the transformation uses.

  lemma RotrRotl1(x: bv32) ensures Rotr(Rotl(x, 1), 1) == x { }
  lemma RotrRotl3(x: bv32) ensures Rotr(Rotl(x, 3), 3) == x { }
  lemma RotrRotl5(x: bv32) ensures Rotr(Rotl(x, 5), 5) == x { }
  lemma RotrRotl7(x: bv32) ensures Rotr(Rotl(x, 7), 7) == x { }
  lemma RotrRotl13(x: bv32) ensures Rotr(Rotl(x, 13), 13) == x { }
  lemma RotrRotl22(x: bv32) ensures Rotr(Rotl(x, 22), 22) == x { }

  // The five steps of the forward transformation, each one pair of statements of the source.

  function Step1(q: Quad): Quad { Quad(Rotl(q.x0, 13), q.x1, Rotl(q.x2, 3), q.x3) }
  function Step2(q: Quad): Quad { Quad(q.x0, Xor3(q.x1, q.x0, q.x2), q.x2, Xor3(q.x3, q.x2, Shl(q.x0, 3))) }
  function Step3(q: Quad): Quad { Quad(q.x0, Rotl(q.x1, 1), q.x2, Rotl(q.x3, 7)) }
  function Step4(q: Quad): Quad { Quad(Xor3(q.x0, q.x1, q.x3), q.x1, Xor3(q.x2, q.x3, Shl(q.x1, 7)), q.x3) }
  function Step5(q: Quad): Quad { Quad(Rotl(q.x0, 5), q.x1, Rotl(q.x2, 22), q.x3) }

  // The inverse steps, in the order the decryption rounds apply them (5 down to 1).

  function InvStep5(q: Quad): Quad { Quad(Rotr(q.x0, 5), q.x1, Rotr(q.x2, 22), q.x3) }
  function InvStep4(q: Quad): Quad { Quad(Xor3(q.x0, q.x1, q.x3), q.x1, Xor3(q.x2, q.x3, Shl(q.x1, 7)), q.x3) }
  function InvStep3(q: Quad): Quad { Quad(q.x0, Rotr(q.x1, 1), q.x2, Rotr(q.x3, 7)) }
  function InvStep2(q: Quad): Quad { Quad(q.x0, Xor3(q.x1, q.x0, q.x2), q.x2, Xor3(q.x3, q.x2, Shl(q.x0, 3))) }
  function InvStep1(q: Quad): Quad { Quad(Rotr(q.x0, 13), q.x1, Rotr(q.x2, 3), q.x3) }

  /** The linear transformation applied after the S-box in rounds 0 to 30. */
  function LT(q: Quad): Quad
  {
    Step5(Step4(Step3(Step2(Step1(q)))))
  }

  /** The inverse linear transformation applied before the inverse S-box in decryption rounds 30 to 0. */
  function InvLT(q: Quad): Quad
  {
    InvStep1(InvStep2(InvStep3(InvStep4(InvStep5(q)))))
  }

  lemma Step1Inverse(q: Quad) ensures InvStep1(Step1(q)) == q { RotrRotl13(q.x0); RotrRotl3(q.x2); }
  lemma Step2Inverse(q: Quad) ensures InvStep2(Step2(q)) == q { Xor3Twice(q.x1, q.x0, q.x2); Xor3Twice(q.x3, q.x2, Shl(q.x0, 3)); }
  lemma Step3Inverse(q: Quad) ensures InvStep3(Step3(q)) == q { RotrRotl1(q.x1); RotrRotl7(q.x3); }
  lemma Step4Inverse(q: Quad) ensures InvStep4(Step4(q)) == q { Xor3Twice(q.x0, q.x1, q.x3); Xor3Twice(q.x2, q.x3, Shl(q.x1, 7)); }
  lemma Step5Inverse(q: Quad) ensures InvStep5(Step5(q)) == q { RotrRotl5(q.x0); RotrRotl22(q.x2); }

  /** The inverse transformation undoes the linear transformation on every state. */
  lemma InvLTInverse(q: Quad)
    ensures InvLT(LT(q)) == q
  {
    var q1 := Step1(q);
    var q2 := Step2(q1);
    var q3 := Step3(q2);
    var q4 := Step4(q3);
    Step5Inverse(q4);
    Step4Inverse(q3);
    Step3Inverse(q2);
    Step2Inverse(q1);
    Step1Inverse(q);
  }
}
