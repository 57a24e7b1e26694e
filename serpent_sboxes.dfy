/**
 * The Serpent S-boxes of Crypto/SerpentManagedTransform.cs: the lookup table the key
 * schedule uses, and the bitsliced formulas the rounds of the network use. A Quad holds
 * the four 32-bit words of a block; bit j of x0, x1, x2, x3 (least significant first)
 * forms the 4-bit S-box input at position j.
 */
module SerpentSBoxes {

  datatype Quad = Quad(x0: bv32, x1: bv32, x2: bv32, x3: bv32)

  /** The S-box table exactly as declared: 32 rows, row k for subkey index k. */
  const SBoxTable: seq<seq<bv32>> := [
    [3, 8, 15, 1, 10, 6, 5, 11, 14, 13, 4, 2, 7, 0, 9, 12],
    [15, 12, 2, 7, 9, 0, 5, 10, 1, 11, 14, 8, 6, 13, 3, 4],
    [8, 6, 7, 9, 3, 12, 10, 15, 13, 1, 14, 4, 0, 11, 5, 2],
    [0, 15, 11, 8, 12, 9, 6, 3, 13, 1, 2, 4, 10, 7, 5, 14],
    [1, 15, 8, 3, 12, 0, 11, 6, 2, 5, 4, 10, 9, 14, 7, 13],
    [15, 5, 2, 11, 4, 10, 9, 12, 0, 3, 14, 8, 13, 6, 7, 1],
    [7, 2, 12, 5, 8, 4, 6, 11, 14, 9, 1, 15, 13, 3, 10, 0],
    [1, 13, 15, 0, 14, 8, 2, 11, 7, 4, 12, 10, 9, 3, 5, 6],
    [3, 8, 15, 1, 10, 6, 5, 11, 14, 13, 4, 2, 7, 0, 9, 12],
    [15, 12, 2, 7, 9, 0, 5, 10, 1, 11, 14, 8, 6, 13, 3, 4],
    [8, 6, 7, 9, 3, 12, 10, 15, 13, 1, 14, 4, 0, 11, 5, 2],
    [0, 15, 11, 8, 12, 9, 6, 3, 13, 1, 2, 4, 10, 7, 5, 14],
    [1, 15, 8, 3, 12, 0, 11, 6, 2, 5, 4, 10, 9, 14, 7, 13],
    [15, 5, 2, 11, 4, 10, 9, 12, 0, 3, 14, 8, 13, 6, 7, 1],
    [7, 2, 12, 5, 8, 4, 6, 11, 14, 9, 1, 15, 13, 3, 10, 0],
    [1, 13, 15, 0, 14, 8, 2, 11, 7, 4, 12, 10, 9, 3, 5, 6],
    [3, 8, 15, 1, 10, 6, 5, 11, 14, 13, 4, 2, 7, 0, 9, 12],
    [15, 12, 2, 7, 9, 0, 5, 10, 1, 11, 14, 8, 6, 13, 3, 4],
    [8, 6, 7, 9, 3, 12, 10, 15, 13, 1, 14, 4, 0, 11, 5, 2],
    [0, 15, 11, 8, 12, 9, 6, 3, 13, 1, 2, 4, 10, 7, 5, 14],
    [1, 15, 8, 3, 12, 0, 11, 6, 2, 5, 4, 10, 9, 14, 7, 13],
    [15, 5, 2, 11, 4, 10, 9, 12, 0, 3, 14, 8, 13, 6, 7, 1],
    [7, 2, 12, 5, 8, 4, 6, 11, 14, 9, 1, 15, 13, 3, 10, 0],
    [1, 13, 15, 0, 14, 8, 2, 11, 7, 4, 12, 10, 9, 3, 5, 6],
    [3, 8, 15, 1, 10, 6, 5, 11, 14, 13, 4, 2, 7, 0, 9, 12],
    [15, 12, 2, 7, 9, 0, 5, 10, 1, 11, 14, 8, 6, 13, 3, 4],
    [8, 6, 7, 9, 3, 12, 10, 15, 13, 1, 14, 4, 0, 11, 5, 2],
    [0, 15, 11, 8, 12, 9, 6, 3, 13, 1, 2, 4, 10, 7, 5, 14],
    [1, 15, 8, 3, 12, 0, 11, 6, 2, 5, 4, 10, 9, 14, 7, 13],
    [15, 5, 2, 11, 4, 10, 9, 12, 0, 3, 14, 8, 13, 6, 7, 1],
    [7, 2, 12, 5, 8, 4, 6, 11, 14, 9, 1, 15, 13, 3, 10, 0],
    [1, 13, 15, 0, 14, 8, 2, 11, 7, 4, 12, 10, 9, 3, 5, 6]
  ]

  /** Its eight distinct rows: S-boxes 0..7 of the cipher. */
  const SBoxRows: seq<seq<bv32>> := [
    [3, 8, 15, 1, 10, 6, 5, 11, 14, 13, 4, 2, 7, 0, 9, 12],
    [15, 12, 2, 7, 9, 0, 5, 10, 1, 11, 14, 8, 6, 13, 3, 4],
    [8, 6, 7, 9, 3, 12, 10, 15, 13, 1, 14, 4, 0, 11, 5, 2],
    [0, 15, 11, 8, 12, 9, 6, 3, 13, 1, 2, 4, 10, 7, 5, 14],
    [1, 15, 8, 3, 12, 0, 11, 6, 2, 5, 4, 10, 9, 14, 7, 13],
    [15, 5, 2, 11, 4, 10, 9, 12, 0, 3, 14, 8, 13, 6, 7, 1],
    [7, 2, 12, 5, 8, 4, 6, 11, 14, 9, 1, 15, 13, 3, 10, 0],
    [1, 13, 15, 0, 14, 8, 2, 11, 7, 4, 12, 10, 9, 3, 5, 6]
  ]

  /** Bit j of x, as 0 or 1. */
  function Bit(x: bv32, j: bv32): bv32
    requires j < 32
  {
    (x >> j) & 1
  }

  /** The S-box input or output at bit position j: bit j of x0 is the least significant bit. */
  function Nibble(q: Quad, j: bv32): bv32
    requires j < 32
  {
    Bit(q.x0, j) | (Bit(q.x1, j) << 1) | (Bit(q.x2, j) << 2) | (Bit(q.x3, j) << 3)
  }

  /** The Quad whose bit position 0 holds the nibble n and all other positions are 0. */
  function Spread(n: bv32): Quad
  {
    Quad(n & 1, (n >> 1) & 1, (n >> 2) & 1, (n >> 3) & 1)
  }

  /** S-box 0 as the bitsliced formula of lines 174-191 (and every eighth round after). */
  function S0(q: Quad): Quad
  {
    var Quad(x0, x1, x2, x3) := q;
    var temp01 := x1 ^ x2;
    var temp02 := x0 | x3;
    var temp03 := x0 ^ x1;
    var alt3 := temp02 ^ temp01;
    var temp05 := x2 | alt3;
    var temp06 := x0 ^ x3;
    var temp07 := x1 | x2;
    var temp08 := x3 & temp05;
    var temp09 := temp03 & temp07;
    var alt2 := temp09 ^ temp08;
    var temp11 := temp09 & alt2;
    var temp12 := x2 ^ x3;
    var temp13 := temp07 ^ temp11;
    var temp14 := x1 & temp06;
    var temp15 := temp06 ^ temp13;
    var alt0 := !temp15;
    var temp17 := alt0 ^ temp14;
    var alt1 := temp12 ^ temp17;
    Quad(alt0, alt1, alt2, alt3)
  }

  /** S-box 1 as the bitsliced formula of lines 208-225 (and every eighth round after). */
  function S1(q: Quad): Quad
  {
    var Quad(x0, x1, x2, x3) := q;
    var temp01 := x0 | x3;
    var temp02 := x2 ^ x3;
    var temp03 := !x1;
    var temp04 := x0 ^ x2;
    var temp05 := x0 | temp03;
    var temp06 := x3 & temp04;
    var temp07 := temp01 & temp02;
    var temp08 := x1 | temp06;
    var alt2 := temp02 ^ temp05;
    var temp10 := temp07 ^ temp08;
    var temp11 := temp01 ^ temp10;
    var temp12 := alt2 ^ temp11;
    var temp13 := x1 & x3;
    var alt3 := !temp10;
    var alt1 := temp13 ^ temp12;
    var temp16 := temp10 | alt1;
    var temp17 := temp05 & temp16;
    var alt0 := x2 ^ temp17;
    Quad(alt0, alt1, alt2, alt3)
  }

  /** S-box 2 as the bitsliced formula of lines 242-257 (and every eighth round after). */
  function S2(q: Quad): Quad
  {
    var Quad(x0, x1, x2, x3) := q;
    var temp01 := x0 | x2;
    var temp02 := x0 ^ x1;
    var temp03 := x3 ^ temp01;
    var alt0 := temp02 ^ temp03;
    var temp05 := x2 ^ alt0;
    var temp06 := x1 ^ temp05;
    var temp07 := x1 | temp05;
    var temp08 := temp01 & temp06;
    var temp09 := temp03 ^ temp07;
    var temp10 := temp02 | temp09;
    var alt1 := temp10 ^ temp08;
    var temp12 := x0 | x3;
    var temp13 := temp09 ^ alt1;
    var temp14 := x1 ^ temp13;
    var alt3 := !temp09;
    var alt2 := temp12 ^ temp14;
    Quad(alt0, alt1, alt2, alt3)
  }

  /** S-box 3 as the bitsliced formula of lines 274-291 (and every eighth round after). */
  function S3(q: Quad): Quad
  {
    var Quad(x0, x1, x2, x3) := q;
    var temp01 := x0 ^ x2;
    var temp02 := x0 | x3;
    var temp03 := x0 & x3;
    var temp04 := temp01 & temp02;
    var temp05 := x1 | temp03;
    var temp06 := x0 & x1;
    var temp07 := x3 ^ temp04;
    var temp08 := x2 | temp06;
    var temp09 := x1 ^ temp07;
    var temp10 := x3 & temp05;
    var temp11 := temp02 ^ temp10;
    var alt3 := temp08 ^ temp09;
    var temp13 := x3 | alt3;
    var temp14 := x0 | temp07;
    var temp15 := x1 & temp13;
    var alt2 := temp08 ^ temp11;
    var alt0 := temp14 ^ temp15;
    var alt1 := temp05 ^ temp04;
    Quad(alt0, alt1, alt2, alt3)
  }

  /** S-box 4 as the bitsliced formula of lines 308-326 (and every eighth round after). */
  function S4(q: Quad): Quad
  {
    var Quad(x0, x1, x2, x3) := q;
    var temp01 := x0 | x1;
    var temp02 := x1 | x2;
    var temp03 := x0 ^ temp02;
    var temp04 := x1 ^ x3;
    var temp05 := x3 | temp03;
    var temp06 := x3 & temp01;
    var alt3 := temp03 ^ temp06;
    var temp08 := alt3 & temp04;
    var temp09 := temp04 & temp05;
    var temp10 := x2 ^ temp06;
    var temp11 := x1 & x2;
    var temp12 := temp04 ^ temp08;
    var temp13 := temp11 | temp03;
    var temp14 := temp10 ^ temp09;
    var temp15 := x0 & temp05;
    var temp16 := temp11 | temp12;
    var alt2 := temp13 ^ temp08;
    var alt1 := temp15 ^ temp16;
    var alt0 := !temp14;
    Quad(alt0, alt1, alt2, alt3)
  }

  /** S-box 5 as the bitsliced formula of lines 343-359 (and every eighth round after). */
  function S5(q: Quad): Quad
  {
    var Quad(x0, x1, x2, x3) := q;
    var temp01 := x1 ^ x3;
    var temp02 := x1 | x3;
    var temp03 := x0 & temp01;
    var temp04 := x2 ^ temp02;
    var temp05 := temp03 ^ temp04;
    var alt0 := !temp05;
    var temp07 := x0 ^ temp01;
    var temp08 := x3 | alt0;
    var temp09 := x1 | temp05;
    var temp10 := x3 ^ temp08;
    var temp11 := x1 | temp07;
    var temp12 := temp03 | alt0;
    var temp13 := temp07 | temp10;
    var temp14 := temp01 ^ temp11;
    var alt2 := temp09 ^ temp13;
    var alt1 := temp07 ^ temp08;
    var alt3 := temp12 ^ temp14;
    Quad(alt0, alt1, alt2, alt3)
  }

  /** S-box 6 as the bitsliced formula of lines 376-394 (and every eighth round after). */
  function S6(q: Quad): Quad
  {
    var Quad(x0, x1, x2, x3) := q;
    var temp01 := x0 & x3;
    var temp02 := x1 ^ x2;
    var temp03 := x0 ^ x3;
    var temp04 := temp01 ^ temp02;
    var temp05 := x1 | x2;
    var alt1 := !temp04;
    var temp07 := temp03 & temp05;
    var temp08 := x1 & alt1;
    var temp09 := x0 | x2;
    var temp10 := temp07 ^ temp08;
    var temp11 := x1 | x3;
    var temp12 := x2 ^ temp11;
    var temp13 := temp09 ^ temp10;
    var alt2 := !temp13;
    var temp15 := alt1 & temp03;
    var alt3 := temp12 ^ temp07;
    var temp17 := x0 ^ x1;
    var temp18 := alt2 ^ temp15;
    var alt0 := temp17 ^ temp18;
    Quad(alt0, alt1, alt2, alt3)
  }

  /** S-box 7 as the bitsliced formula of lines 411-429 (and every eighth round after). */
  function S7(q: Quad): Quad
  {
    var Quad(x0, x1, x2, x3) := q;
    var temp01 := x0 & x2;
    var temp02 := !x3;
    var temp03 := x0 & temp02;
    var temp04 := x1 | temp01;
    var temp05 := x0 & x1;
    var temp06 := x2 ^ temp04;
    var alt3 := temp03 ^ temp06;
    var temp08 := x2 | alt3;
    var temp09 := x3 | temp05;
    var temp10 := x0 ^ temp08;
    var temp11 := temp04 & alt3;
    var alt1 := temp09 ^ temp10;
    var temp13 := x1 ^ alt1;
    var temp14 := temp01 ^ alt1;
    var temp15 := x2 ^ temp05;
    var temp16 := temp11 | temp13;
    var temp17 := temp02 | temp14;
    var alt0 := temp15 ^ temp17;
    var alt2 := x0 ^ temp16;
    Quad(alt0, alt1, alt2, alt3)
  }

  /** Inverse S-box 0 as the bitsliced formula of lines 2317-2335 (and every eighth round after). */
  function InvS0(q: Quad): Quad
  {
    var Quad(x0, x1, x2, x3) := q;
    var temp01 := x2 ^ x3;
    var temp02 := x0 | x1;
    var temp03 := x1 | x2;
    var temp04 := x2 & temp01;
    var temp05 := temp02 ^ temp01;
    var temp06 := x0 | temp04;
    var alt2 := !temp05;
    var temp08 := x1 ^ x3;
    var temp09 := temp03 & temp08;
    var temp10 := x3 | alt2;
    var alt1 := temp09 ^ temp06;
    var temp12 := x0 | temp05;
    var temp13 := alt1 ^ temp12;
    var temp14 := temp03 ^ temp10;
    var temp15 := x0 ^ x2;
    var alt3 := temp14 ^ temp13;
    var temp17 := temp05 & temp13;
    var temp18 := temp14 | temp17;
    var alt0 := temp15 ^ temp18;
    Quad(alt0, alt1, alt2, alt3)
  }

  /** Inverse S-box 1 as the bitsliced formula of lines 2283-2300 (and every eighth round after). */
  function InvS1(q: Quad): Quad
  {
    var Quad(x0, x1, x2, x3) := q;
    var temp01 := x0 ^ x1;
    var temp02 := x1 | x3;
    var temp03 := x0 & x2;
    var temp04 := x2 ^ temp02;
    var temp05 := x0 | temp04;
    var temp06 := temp01 & temp05;
    var temp07 := x3 | temp03;
    var temp08 := x1 ^ temp06;
    var temp09 := temp07 ^ temp06;
    var temp10 := temp04 | temp03;
    var temp11 := x3 & temp08;
    var alt2 := !temp09;
    var alt1 := temp10 ^ temp11;
    var temp14 := x0 | alt2;
    var temp15 := temp06 ^ alt1;
    var alt3 := temp01 ^ temp04;
    var temp17 := x2 ^ temp15;
    var alt0 := temp14 ^ temp17;
    Quad(alt0, alt1, alt2, alt3)
  }

  /** Inverse S-box 2 as the bitsliced formula of lines 2249-2266 (and every eighth round after). */
  function InvS2(q: Quad): Quad
  {
    var Quad(x0, x1, x2, x3) := q;
    var temp01 := x0 ^ x3;
    var temp02 := x2 ^ x3;
    var temp03 := x0 & x2;
    var temp04 := x1 | temp02;
    var alt0 := temp01 ^ temp04;
    var temp06 := x0 | x2;
    var temp07 := x3 | alt0;
    var temp08 := !x3;
    var temp09 := x1 & temp06;
    var temp10 := temp08 | temp03;
    var temp11 := x1 & temp07;
    var temp12 := temp06 & temp02;
    var alt3 := temp09 ^ temp10;
    var alt1 := temp12 ^ temp11;
    var temp15 := x2 & alt3;
    var temp16 := alt0 ^ alt1;
    var temp17 := temp10 ^ temp15;
    var alt2 := temp16 ^ temp17;
    Quad(alt0, alt1, alt2, alt3)
  }

  /** Inverse S-box 3 as the bitsliced formula of lines 2216-2232 (and every eighth round after). */
  function InvS3(q: Quad): Quad
  {
    var Quad(x0, x1, x2, x3) := q;
    var temp01 := x2 | x3;
    var temp02 := x0 | x3;
    var temp03 := x2 ^ temp02;
    var temp04 := x1 ^ temp02;
    var temp05 := x0 ^ x3;
    var temp06 := temp04 & temp03;
    var temp07 := x1 & temp01;
    var alt2 := temp05 ^ temp06;
    var temp09 := x0 ^ temp03;
    var alt0 := temp07 ^ temp03;
    var temp11 := alt0 | temp05;
    var temp12 := temp09 & temp11;
    var temp13 := x0 & alt2;
    var temp14 := temp01 ^ temp05;
    var alt1 := x1 ^ temp12;
    var temp16 := x1 | temp13;
    var alt3 := temp14 ^ temp16;
    Quad(alt0, alt1, alt2, alt3)
  }

  /** Inverse S-box 4 as the bitsliced formula of lines 2183-2199 (and every eighth round after). */
  function InvS4(q: Quad): Quad
  {
    var Quad(x0, x1, x2, x3) := q;
    var temp01 := x1 | x3;
    var temp02 := x2 | x3;
    var temp03 := x0 & temp01;
    var temp04 := x1 ^ temp02;
    var temp05 := x2 ^ x3;
    var temp06 := !temp03;
    var temp07 := x0 & temp04;
    var alt1 := temp05 ^ temp07;
    var temp09 := alt1 | temp06;
    var temp10 := x0 ^ temp07;
    var temp11 := temp01 ^ temp09;
    var temp12 := x3 ^ temp04;
    var temp13 := x2 | temp10;
    var alt3 := temp03 ^ temp12;
    var temp15 := x0 ^ temp04;
    var alt2 := temp11 ^ temp13;
    var alt0 := temp15 ^ temp09;
    Quad(alt0, alt1, alt2, alt3)
  }

  /** Inverse S-box 5 as the bitsliced formula of lines 2150-2166 (and every eighth round after). */
  function InvS5(q: Quad): Quad
  {
    var Quad(x0, x1, x2, x3) := q;
    var temp01 := x0 & x3;
    var temp02 := x2 ^ temp01;
    var temp03 := x0 ^ x3;
    var temp04 := x1 & temp02;
    var temp05 := x0 & x2;
    var alt0 := temp03 ^ temp04;
    var temp07 := x0 & alt0;
    var temp08 := temp01 ^ alt0;
    var temp09 := x1 | temp05;
    var temp10 := !x1;
    var alt1 := temp08 ^ temp09;
    var temp12 := temp10 | temp07;
    var temp13 := alt0 | alt1;
    var alt3 := temp02 ^ temp12;
    var temp15 := temp02 ^ temp13;
    var temp16 := x1 ^ x3;
    var alt2 := temp16 ^ temp15;
    Quad(alt0, alt1, alt2, alt3)
  }

  /** Inverse S-box 6 as the bitsliced formula of lines 2115-2133 (and every eighth round after). */
  function InvS6(q: Quad): Quad
  {
    var Quad(x0, x1, x2, x3) := q;
    var temp01 := x0 ^ x2;
    var temp02 := !x2;
    var temp03 := x1 & temp01;
    var temp04 := x1 | temp02;
    var temp05 := x3 | temp03;
    var temp06 := x1 ^ x3;
    var temp07 := x0 & temp04;
    var temp08 := x0 | temp02;
    var temp09 := temp07 ^ temp05;
    var alt1 := temp06 ^ temp08;
    var alt0 := !temp09;
    var temp12 := x1 & alt0;
    var temp13 := temp01 & temp05;
    var temp14 := temp01 ^ temp12;
    var temp15 := temp07 ^ temp13;
    var temp16 := x3 | temp02;
    var temp17 := x0 ^ alt1;
    var alt3 := temp17 ^ temp15;
    var alt2 := temp16 ^ temp14;
    Quad(alt0, alt1, alt2, alt3)
  }

  /** Inverse S-box 7 as the bitsliced formula of lines 2081-2098 (and every eighth round after). */
  function InvS7(q: Quad): Quad
  {
    var Quad(x0, x1, x2, x3) := q;
    var temp01 := x0 & x1;
    var temp02 := x0 | x1;
    var temp03 := x2 | temp01;
    var temp04 := x3 & temp02;
    var alt3 := temp03 ^ temp04;
    var temp06 := x1 ^ temp04;
    var temp07 := x3 ^ alt3;
    var temp08 := !temp07;
    var temp09 := temp06 | temp08;
    var temp10 := x1 ^ x3;
    var temp11 := x0 | x3;
    var alt1 := x0 ^ temp09;
    var temp13 := x2 ^ temp06;
    var temp14 := x2 & temp11;
    var temp15 := x3 | alt1;
    var temp16 := temp01 | temp10;
    var alt0 := temp13 ^ temp15;
    var alt2 := temp14 ^ temp16;
    Quad(alt0, alt1, alt2, alt3)
  }

  /** The bitsliced S-box of index k mod 8. */
  function SBoxFormula(k: nat, q: Quad): Quad
  {
    match k % 8
    case 0 => S0(q)
    case 1 => S1(q)
    case 2 => S2(q)
    case 3 => S3(q)
    case 4 => S4(q)
    case 5 => S5(q)
    case 6 => S6(q)
    case _ => S7(q)
  }

  /** The bitsliced inverse S-box of index k mod 8. */
  function InvSBoxFormula(k: nat, q: Quad): Quad
  {
    match k % 8
    case 0 => InvS0(q)
    case 1 => InvS1(q)
    case 2 => InvS2(q)
    case 3 => InvS3(q)
    case 4 => InvS4(q)
    case 5 => InvS5(q)
    case 6 => InvS6(q)
    case _ => InvS7(q)
  }

  // ---- the table ----

  /** The table is four copies of its first eight rows. */
  lemma SBoxTableRepeats()
    ensures SBoxTable == SBoxRows + SBoxRows + SBoxRows + SBoxRows
  {
  }

  lemma RepeatIndex<T>(r: seq<T>, k: nat)
    requires |r| == 8 && k < 32
    ensures |r + r + r + r| == 32 && (r + r + r + r)[k] == r[k % 8]
  {
  }

  /** Row k of the table equals row k mod 8. */
  lemma SBoxTablePeriodic(k: nat)
    requires k < 32
    ensures |SBoxTable| == 32 && SBoxTable[k] == SBoxRows[k % 8]
  {
    SBoxTableRepeats();
    RepeatIndex(SBoxRows, k);
  }

  /** A row of 16 entries that takes every value below 16, so a permutation of 0..15. */
  ghost predicate IsNibblePermutation(row: seq<bv32>)
  {
    |row| == 16 && forall v: bv32 :: v < 16 ==> v in row
  }

  lemma SBoxRow0IsPermutation()
    ensures IsNibblePermutation(SBoxRows[0])
  {
    assert SBoxRows[0] == [3, 8, 15, 1, 10, 6, 5, 11, 14, 13, 4, 2, 7, 0, 9, 12];
  }

  lemma SBoxRow1IsPermutation()
    ensures IsNibblePermutation(SBoxRows[1])
  {
    assert SBoxRows[1] == [15, 12, 2, 7, 9, 0, 5, 10, 1, 11, 14, 8, 6, 13, 3, 4];
  }

  lemma SBoxRow2IsPermutation()
    ensures IsNibblePermutation(SBoxRows[2])
  {
    assert SBoxRows[2] == [8, 6, 7, 9, 3, 12, 10, 15, 13, 1, 14, 4, 0, 11, 5, 2];
  }

  lemma SBoxRow3IsPermutation()
    ensures IsNibblePermutation(SBoxRows[3])
  {
    assert SBoxRows[3] == [0, 15, 11, 8, 12, 9, 6, 3, 13, 1, 2, 4, 10, 7, 5, 14];
  }

  lemma SBoxRow4IsPermutation()
    ensures IsNibblePermutation(SBoxRows[4])
  {
    assert SBoxRows[4] == [1, 15, 8, 3, 12, 0, 11, 6, 2, 5, 4, 10, 9, 14, 7, 13];
  }

  lemma SBoxRow5IsPermutation()
    ensures IsNibblePermutation(SBoxRows[5])
  {
    assert SBoxRows[5] == [15, 5, 2, 11, 4, 10, 9, 12, 0, 3, 14, 8, 13, 6, 7, 1];
  }

  lemma SBoxRow6IsPermutation()
    ensures IsNibblePermutation(SBoxRows[6])
  {
    assert SBoxRows[6] == [7, 2, 12, 5, 8, 4, 6, 11, 14, 9, 1, 15, 13, 3, 10, 0];
  }

  lemma SBoxRow7IsPermutation()
    ensures IsNibblePermutation(SBoxRows[7])
  {
    assert SBoxRows[7] == [1, 13, 15, 0, 14, 8, 2, 11, 7, 4, 12, 10, 9, 3, 5, 6];
  }

  /** Every row of the table is a permutation of 0..15. */
  lemma SBoxRowIsPermutation(k: nat)
    requires k < 32
    ensures IsNibblePermutation(SBoxTable[k])
  {
    SBoxTablePeriodic(k);
    match k % 8
    case 0 => SBoxRow0IsPermutation();
    case 1 => SBoxRow1IsPermutation();
    case 2 => SBoxRow2IsPermutation();
    case 3 => SBoxRow3IsPermutation();
    case 4 => SBoxRow4IsPermutation();
    case 5 => SBoxRow5IsPermutation();
    case 6 => SBoxRow6IsPermutation();
    case _ => SBoxRow7IsPermutation();
  }

  // ---- from nibbles back to words ----

  /** Word x0 of a Quad is determined by its 32 nibbles. */
  lemma QuadExtX0(a: Quad, b: Quad)
    requires Nibble(a, 0) == Nibble(b, 0)
    requires Nibble(a, 1) == Nibble(b, 1)
    requires Nibble(a, 2) == Nibble(b, 2)
    requires Nibble(a, 3) == Nibble(b, 3)
    requires Nibble(a, 4) == Nibble(b, 4)
    requires Nibble(a, 5) == Nibble(b, 5)
    requires Nibble(a, 6) == Nibble(b, 6)
    requires Nibble(a, 7) == Nibble(b, 7)
    requires Nibble(a, 8) == Nibble(b, 8)
    requires Nibble(a, 9) == Nibble(b, 9)
    requires Nibble(a, 10) == Nibble(b, 10)
    requires Nibble(a, 11) == Nibble(b, 11)
    requires Nibble(a, 12) == Nibble(b, 12)
    requires Nibble(a, 13) == Nibble(b, 13)
    requires Nibble(a, 14) == Nibble(b, 14)
    requires Nibble(a, 15) == Nibble(b, 15)
    requires Nibble(a, 16) == Nibble(b, 16)
    requires Nibble(a, 17) == Nibble(b, 17)
    requires Nibble(a, 18) == Nibble(b, 18)
    requires Nibble(a, 19) == Nibble(b, 19)
    requires Nibble(a, 20) == Nibble(b, 20)
    requires Nibble(a, 21) == Nibble(b, 21)
    requires Nibble(a, 22) == Nibble(b, 22)
    requires Nibble(a, 23) == Nibble(b, 23)
    requires Nibble(a, 24) == Nibble(b, 24)
    requires Nibble(a, 25) == Nibble(b, 25)
    requires Nibble(a, 26) == Nibble(b, 26)
    requires Nibble(a, 27) == Nibble(b, 27)
    requires Nibble(a, 28) == Nibble(b, 28)
    requires Nibble(a, 29) == Nibble(b, 29)
    requires Nibble(a, 30) == Nibble(b, 30)
    requires Nibble(a, 31) == Nibble(b, 31)
    ensures a.x0 == b.x0
  {
  }

  /** Word x1 of a Quad is determined by its 32 nibbles. */
  lemma QuadExtX1(a: Quad, b: Quad)
    requires Nibble(a, 0) == Nibble(b, 0)
    requires Nibble(a, 1) == Nibble(b, 1)
    requires Nibble(a, 2) == Nibble(b, 2)
    requires Nibble(a, 3) == Nibble(b, 3)
    requires Nibble(a, 4) == Nibble(b, 4)
    requires Nibble(a, 5) == Nibble(b, 5)
    requires Nibble(a, 6) == Nibble(b, 6)
    requires Nibble(a, 7) == Nibble(b, 7)
    requires Nibble(a, 8) == Nibble(b, 8)
    requires Nibble(a, 9) == Nibble(b, 9)
    requires Nibble(a, 10) == Nibble(b, 10)
    requires Nibble(a, 11) == Nibble(b, 11)
    requires Nibble(a, 12) == Nibble(b, 12)
    requires Nibble(a, 13) == Nibble(b, 13)
    requires Nibble(a, 14) == Nibble(b, 14)
    requires Nibble(a, 15) == Nibble(b, 15)
    requires Nibble(a, 16) == Nibble(b, 16)
    requires Nibble(a, 17) == Nibble(b, 17)
    requires Nibble(a, 18) == Nibble(b, 18)
    requires Nibble(a, 19) == Nibble(b, 19)
    requires Nibble(a, 20) == Nibble(b, 20)
    requires Nibble(a, 21) == Nibble(b, 21)
    requires Nibble(a, 22) == Nibble(b, 22)
    requires Nibble(a, 23) == Nibble(b, 23)
    requires Nibble(a, 24) == Nibble(b, 24)
    requires Nibble(a, 25) == Nibble(b, 25)
    requires Nibble(a, 26) == Nibble(b, 26)
    requires Nibble(a, 27) == Nibble(b, 27)
    requires Nibble(a, 28) == Nibble(b, 28)
    requires Nibble(a, 29) == Nibble(b, 29)
    requires Nibble(a, 30) == Nibble(b, 30)
    requires Nibble(a, 31) == Nibble(b, 31)
    ensures a.x1 == b.x1
  {
  }

  /** Word x2 of a Quad is determined by its 32 nibbles. */
  lemma QuadExtX2(a: Quad, b: Quad)
    requires Nibble(a, 0) == Nibble(b, 0)
    requires Nibble(a, 1) == Nibble(b, 1)
    requires Nibble(a, 2) == Nibble(b, 2)
    requires Nibble(a, 3) == Nibble(b, 3)
    requires Nibble(a, 4) == Nibble(b, 4)
    requires Nibble(a, 5) == Nibble(b, 5)
    requires Nibble(a, 6) == Nibble(b, 6)
    requires Nibble(a, 7) == Nibble(b, 7)
    requires Nibble(a, 8) == Nibble(b, 8)
    requires Nibble(a, 9) == Nibble(b, 9)
    requires Nibble(a, 10) == Nibble(b, 10)
    requires Nibble(a, 11) == Nibble(b, 11)
    requires Nibble(a, 12) == Nibble(b, 12)
    requires Nibble(a, 13) == Nibble(b, 13)
    requires Nibble(a, 14) == Nibble(b, 14)
    requires Nibble(a, 15) == Nibble(b, 15)
    requires Nibble(a, 16) == Nibble(b, 16)
    requires Nibble(a, 17) == Nibble(b, 17)
    requires Nibble(a, 18) == Nibble(b, 18)
    requires Nibble(a, 19) == Nibble(b, 19)
    requires Nibble(a, 20) == Nibble(b, 20)
    requires Nibble(a, 21) == Nibble(b, 21)
    requires Nibble(a, 22) == Nibble(b, 22)
    requires Nibble(a, 23) == Nibble(b, 23)
    requires Nibble(a, 24) == Nibble(b, 24)
    requires Nibble(a, 25) == Nibble(b, 25)
    requires Nibble(a, 26) == Nibble(b, 26)
    requires Nibble(a, 27) == Nibble(b, 27)
    requires Nibble(a, 28) == Nibble(b, 28)
    requires Nibble(a, 29) == Nibble(b, 29)
    requires Nibble(a, 30) == Nibble(b, 30)
    requires Nibble(a, 31) == Nibble(b, 31)
    ensures a.x2 == b.x2
  {
  }

  /** Word x3 of a Quad is determined by its 32 nibbles. */
  lemma QuadExtX3(a: Quad, b: Quad)
    requires Nibble(a, 0) == Nibble(b, 0)
    requires Nibble(a, 1) == Nibble(b, 1)
    requires Nibble(a, 2) == Nibble(b, 2)
    requires Nibble(a, 3) == Nibble(b, 3)
    requires Nibble(a, 4) == Nibble(b, 4)
    requires Nibble(a, 5) == Nibble(b, 5)
    requires Nibble(a, 6) == Nibble(b, 6)
    requires Nibble(a, 7) == Nibble(b, 7)
    requires Nibble(a, 8) == Nibble(b, 8)
    requires Nibble(a, 9) == Nibble(b, 9)
    requires Nibble(a, 10) == Nibble(b, 10)
    requires Nibble(a, 11) == Nibble(b, 11)
    requires Nibble(a, 12) == Nibble(b, 12)
    requires Nibble(a, 13) == Nibble(b, 13)
    requires Nibble(a, 14) == Nibble(b, 14)
    requires Nibble(a, 15) == Nibble(b, 15)
    requires Nibble(a, 16) == Nibble(b, 16)
    requires Nibble(a, 17) == Nibble(b, 17)
    requires Nibble(a, 18) == Nibble(b, 18)
    requires Nibble(a, 19) == Nibble(b, 19)
    requires Nibble(a, 20) == Nibble(b, 20)
    requires Nibble(a, 21) == Nibble(b, 21)
    requires Nibble(a, 22) == Nibble(b, 22)
    requires Nibble(a, 23) == Nibble(b, 23)
    requires Nibble(a, 24) == Nibble(b, 24)
    requires Nibble(a, 25) == Nibble(b, 25)
    requires Nibble(a, 26) == Nibble(b, 26)
    requires Nibble(a, 27) == Nibble(b, 27)
    requires Nibble(a, 28) == Nibble(b, 28)
    requires Nibble(a, 29) == Nibble(b, 29)
    requires Nibble(a, 30) == Nibble(b, 30)
    requires Nibble(a, 31) == Nibble(b, 31)
    ensures a.x3 == b.x3
  {
  }

  /** Two Quads that agree on the nibble at every bit position are equal. */
  lemma QuadExt(a: Quad, b: Quad)
    requires Nibble(a, 0) == Nibble(b, 0)
    requires Nibble(a, 1) == Nibble(b, 1)
    requires Nibble(a, 2) == Nibble(b, 2)
    requires Nibble(a, 3) == Nibble(b, 3)
    requires Nibble(a, 4) == Nibble(b, 4)
    requires Nibble(a, 5) == Nibble(b, 5)
    requires Nibble(a, 6) == Nibble(b, 6)
    requires Nibble(a, 7) == Nibble(b, 7)
    requires Nibble(a, 8) == Nibble(b, 8)
    requires Nibble(a, 9) == Nibble(b, 9)
    requires Nibble(a, 10) == Nibble(b, 10)
    requires Nibble(a, 11) == Nibble(b, 11)
    requires Nibble(a, 12) == Nibble(b, 12)
    requires Nibble(a, 13) == Nibble(b, 13)
    requires Nibble(a, 14) == Nibble(b, 14)
    requires Nibble(a, 15) == Nibble(b, 15)
    requires Nibble(a, 16) == Nibble(b, 16)
    requires Nibble(a, 17) == Nibble(b, 17)
    requires Nibble(a, 18) == Nibble(b, 18)
    requires Nibble(a, 19) == Nibble(b, 19)
    requires Nibble(a, 20) == Nibble(b, 20)
    requires Nibble(a, 21) == Nibble(b, 21)
    requires Nibble(a, 22) == Nibble(b, 22)
    requires Nibble(a, 23) == Nibble(b, 23)
    requires Nibble(a, 24) == Nibble(b, 24)
    requires Nibble(a, 25) == Nibble(b, 25)
    requires Nibble(a, 26) == Nibble(b, 26)
    requires Nibble(a, 27) == Nibble(b, 27)
    requires Nibble(a, 28) == Nibble(b, 28)
    requires Nibble(a, 29) == Nibble(b, 29)
    requires Nibble(a, 30) == Nibble(b, 30)
    requires Nibble(a, 31) == Nibble(b, 31)
    ensures a == b
  {
    QuadExtX0(a, b);
    QuadExtX1(a, b);
    QuadExtX2(a, b);
    QuadExtX3(a, b);
  }

  /** A nibble is a 4-bit value. */
  lemma NibbleBound(q: Quad, j: bv32)
    requires j < 32
    ensures Nibble(q, j) < 16
  {
  }

  /** Nibbles built from equal bits are equal. */
  lemma NibbleCongruence(a: Quad, j: bv32, b: Quad, k: bv32)
    requires j < 32 && k < 32
    requires Bit(a.x0, j) == Bit(b.x0, k) && Bit(a.x1, j) == Bit(b.x1, k)
    requires Bit(a.x2, j) == Bit(b.x2, k) && Bit(a.x3, j) == Bit(b.x3, k)
    ensures Nibble(a, j) == Nibble(b, k)
  {
  }

  // ---- S-box 0 ----

  lemma S0Bit0(q: Quad, j: bv32)
    requires j < 32
    ensures Bit(S0(q).x0, j) == Bit(S0(Spread(Nibble(q, j))).x0, 0)
  {
  }

  lemma S0Bit1(q: Quad, j: bv32)
    requires j < 32
    ensures Bit(S0(q).x1, j) == Bit(S0(Spread(Nibble(q, j))).x1, 0)
  {
  }

  lemma S0Bit2(q: Quad, j: bv32)
    requires j < 32
    ensures Bit(S0(q).x2, j) == Bit(S0(Spread(Nibble(q, j))).x2, 0)
  {
  }

  lemma S0Bit3(q: Quad, j: bv32)
    requires j < 32
    ensures Bit(S0(q).x3, j) == Bit(S0(Spread(Nibble(q, j))).x3, 0)
  {
  }

  /** S0 works position by position: output nibble j depends only on input nibble j. */
  lemma S0Local(q: Quad, j: bv32)
    requires j < 32
    ensures Nibble(S0(q), j) == Nibble(S0(Spread(Nibble(q, j))), 0)
  {
    S0Bit0(q, j);
    S0Bit1(q, j);
    S0Bit2(q, j);
    S0Bit3(q, j);
    NibbleCongruence(S0(q), j, S0(Spread(Nibble(q, j))), 0);
  }

  lemma InvS0Bit0(q: Quad, j: bv32)
    requires j < 32
    ensures Bit(InvS0(q).x0, j) == Bit(InvS0(Spread(Nibble(q, j))).x0, 0)
  {
  }

  lemma InvS0Bit1(q: Quad, j: bv32)
    requires j < 32
    ensures Bit(InvS0(q).x1, j) == Bit(InvS0(Spread(Nibble(q, j))).x1, 0)
  {
  }

  lemma InvS0Bit2(q: Quad, j: bv32)
    requires j < 32
    ensures Bit(InvS0(q).x2, j) == Bit(InvS0(Spread(Nibble(q, j))).x2, 0)
  {
  }

  lemma InvS0Bit3(q: Quad, j: bv32)
    requires j < 32
    ensures Bit(InvS0(q).x3, j) == Bit(InvS0(Spread(Nibble(q, j))).x3, 0)
  {
  }

  /** InvS0 works position by position: output nibble j depends only on input nibble j. */
  lemma InvS0Local(q: Quad, j: bv32)
    requires j < 32
    ensures Nibble(InvS0(q), j) == Nibble(InvS0(Spread(Nibble(q, j))), 0)
  {
    InvS0Bit0(q, j);
    InvS0Bit1(q, j);
    InvS0Bit2(q, j);
    InvS0Bit3(q, j);
    NibbleCongruence(InvS0(q), j, InvS0(Spread(Nibble(q, j))), 0);
  }

  lemma S0Table(n: bv32)
    requires n < 16
    ensures Nibble(S0(Spread(n)), 0) == SBoxRows[0][n as int]
  {
  }

  lemma InvS0Table(n: bv32)
    requires n < 16
    ensures Nibble(InvS0(Spread(SBoxRows[0][n as int])), 0) == n
  {
  }

  /** At every bit position the formula for S-box 0 computes table row 0. */
  lemma S0MatchesTable(q: Quad, j: bv32)
    requires j < 32
    ensures Nibble(q, j) < 16 && Nibble(S0(q), j) == SBoxRows[0][Nibble(q, j) as int]
  {
    NibbleBound(q, j);
    S0Local(q, j);
    S0Table(Nibble(q, j));
  }

  /** At every bit position the inverse formula restores the nibble S-box 0 consumed. */
  lemma InvS0NibbleInverse(q: Quad, j: bv32)
    requires j < 32
    ensures Nibble(InvS0(S0(q)), j) == Nibble(q, j)
  {
    S0MatchesTable(q, j);
    InvS0Local(S0(q), j);
    InvS0Table(Nibble(q, j));
  }

  /** The inverse formula undoes the formula for S-box 0. */
  lemma InvS0Inverse(q: Quad)
    ensures InvS0(S0(q)) == q
  {
    InvS0NibbleInverse(q, 0);
    InvS0NibbleInverse(q, 1);
    InvS0NibbleInverse(q, 2);
    InvS0NibbleInverse(q, 3);
    InvS0NibbleInverse(q, 4);
    InvS0NibbleInverse(q, 5);
    InvS0NibbleInverse(q, 6);
    InvS0NibbleInverse(q, 7);
    InvS0NibbleInverse(q, 8);
    InvS0NibbleInverse(q, 9);
    InvS0NibbleInverse(q, 10);
    InvS0NibbleInverse(q, 11);
    InvS0NibbleInverse(q, 12);
    InvS0NibbleInverse(q, 13);
    InvS0NibbleInverse(q, 14);
    InvS0NibbleInverse(q, 15);
    InvS0NibbleInverse(q, 16);
    InvS0NibbleInverse(q, 17);
    InvS0NibbleInverse(q, 18);
    InvS0NibbleInverse(q, 19);
    InvS0NibbleInverse(q, 20);
    InvS0NibbleInverse(q, 21);
    InvS0NibbleInverse(q, 22);
    InvS0NibbleInverse(q, 23);
    InvS0NibbleInverse(q, 24);
    InvS0NibbleInverse(q, 25);
    InvS0NibbleInverse(q, 26);
    InvS0NibbleInverse(q, 27);
    InvS0NibbleInverse(q, 28);
    InvS0NibbleInverse(q, 29);
    InvS0NibbleInverse(q, 30);
    InvS0NibbleInverse(q, 31);
    QuadExt(InvS0(S0(q)), q);
  }

  // ---- S-box 1 ----

  lemma S1Bit0(q: Quad, j: bv32)
    requires j < 32
    ensures Bit(S1(q).x0, j) == Bit(S1(Spread(Nibble(q, j))).x0, 0)
  {
  }

  lemma S1Bit1(q: Quad, j: bv32)
    requires j < 32
    ensures Bit(S1(q).x1, j) == Bit(S1(Spread(Nibble(q, j))).x1, 0)
  {
  }

  lemma S1Bit2(q: Quad, j: bv32)
    requires j < 32
    ensures Bit(S1(q).x2, j) == Bit(S1(Spread(Nibble(q, j))).x2, 0)
  {
  }

  lemma S1Bit3(q: Quad, j: bv32)
    requires j < 32
    ensures Bit(S1(q).x3, j) == Bit(S1(Spread(Nibble(q, j))).x3, 0)
  {
  }

  /** S1 works position by position: output nibble j depends only on input nibble j. */
  lemma S1Local(q: Quad, j: bv32)
    requires j < 32
    ensures Nibble(S1(q), j) == Nibble(S1(Spread(Nibble(q, j))), 0)
  {
    S1Bit0(q, j);
    S1Bit1(q, j);
    S1Bit2(q, j);
    S1Bit3(q, j);
    NibbleCongruence(S1(q), j, S1(Spread(Nibble(q, j))), 0);
  }

  lemma InvS1Bit0(q: Quad, j: bv32)
    requires j < 32
    ensures Bit(InvS1(q).x0, j) == Bit(InvS1(Spread(Nibble(q, j))).x0, 0)
  {
  }

  lemma InvS1Bit1(q: Quad, j: bv32)
    requires j < 32
    ensures Bit(InvS1(q).x1, j) == Bit(InvS1(Spread(Nibble(q, j))).x1, 0)
  {
  }

  lemma InvS1Bit2(q: Quad, j: bv32)
    requires j < 32
    ensures Bit(InvS1(q).x2, j) == Bit(InvS1(Spread(Nibble(q, j))).x2, 0)
  {
  }

  lemma InvS1Bit3(q: Quad, j: bv32)
    requires j < 32
    ensures Bit(InvS1(q).x3, j) == Bit(InvS1(Spread(Nibble(q, j))).x3, 0)
  {
  }

  /** InvS1 works position by position: output nibble j depends only on input nibble j. */
  lemma InvS1Local(q: Quad, j: bv32)
    requires j < 32
    ensures Nibble(InvS1(q), j) == Nibble(InvS1(Spread(Nibble(q, j))), 0)
  {
    InvS1Bit0(q, j);
    InvS1Bit1(q, j);
    InvS1Bit2(q, j);
    InvS1Bit3(q, j);
    NibbleCongruence(InvS1(q), j, InvS1(Spread(Nibble(q, j))), 0);
  }

  lemma S1Table(n: bv32)
    requires n < 16
    ensures Nibble(S1(Spread(n)), 0) == SBoxRows[1][n as int]
  {
  }

  lemma InvS1Table(n: bv32)
    requires n < 16
    ensures Nibble(InvS1(Spread(SBoxRows[1][n as int])), 0) == n
  {
  }

  /** At every bit position the formula for S-box 1 computes table row 1. */
  lemma S1MatchesTable(q: Quad, j: bv32)
    requires j < 32
    ensures Nibble(q, j) < 16 && Nibble(S1(q), j) == SBoxRows[1][Nibble(q, j) as int]
  {
    NibbleBound(q, j);
    S1Local(q, j);
    S1Table(Nibble(q, j));
  }

  /** At every bit position the inverse formula restores the nibble S-box 1 consumed. */
  lemma InvS1NibbleInverse(q: Quad, j: bv32)
    requires j < 32
    ensures Nibble(InvS1(S1(q)), j) == Nibble(q, j)
  {
    S1MatchesTable(q, j);
    InvS1Local(S1(q), j);
    InvS1Table(Nibble(q, j));
  }

  /** The inverse formula undoes the formula for S-box 1. */
  lemma InvS1Inverse(q: Quad)
    ensures InvS1(S1(q)) == q
  {
    InvS1NibbleInverse(q, 0);
    InvS1NibbleInverse(q, 1);
    InvS1NibbleInverse(q, 2);
    InvS1NibbleInverse(q, 3);
    InvS1NibbleInverse(q, 4);
    InvS1NibbleInverse(q, 5);
    InvS1NibbleInverse(q, 6);
    InvS1NibbleInverse(q, 7);
    InvS1NibbleInverse(q, 8);
    InvS1NibbleInverse(q, 9);
    InvS1NibbleInverse(q, 10);
    InvS1NibbleInverse(q, 11);
    InvS1NibbleInverse(q, 12);
    InvS1NibbleInverse(q, 13);
    InvS1NibbleInverse(q, 14);
    InvS1NibbleInverse(q, 15);
    InvS1NibbleInverse(q, 16);
    InvS1NibbleInverse(q, 17);
    InvS1NibbleInverse(q, 18);
    InvS1NibbleInverse(q, 19);
    InvS1NibbleInverse(q, 20);
    InvS1NibbleInverse(q, 21);
    InvS1NibbleInverse(q, 22);
    InvS1NibbleInverse(q, 23);
    InvS1NibbleInverse(q, 24);
    InvS1NibbleInverse(q, 25);
    InvS1NibbleInverse(q, 26);
    InvS1NibbleInverse(q, 27);
    InvS1NibbleInverse(q, 28);
    InvS1NibbleInverse(q, 29);
    InvS1NibbleInverse(q, 30);
    InvS1NibbleInverse(q, 31);
    QuadExt(InvS1(S1(q)), q);
  }

  // ---- S-box 2 ----

  lemma S2Bit0(q: Quad, j: bv32)
    requires j < 32
    ensures Bit(S2(q).x0, j) == Bit(S2(Spread(Nibble(q, j))).x0, 0)
  {
  }

  lemma S2Bit1(q: Quad, j: bv32)
    requires j < 32
    ensures Bit(S2(q).x1, j) == Bit(S2(Spread(Nibble(q, j))).x1, 0)
  {
  }

  lemma S2Bit2(q: Quad, j: bv32)
    requires j < 32
    ensures Bit(S2(q).x2, j) == Bit(S2(Spread(Nibble(q, j))).x2, 0)
  {
  }

  lemma S2Bit3(q: Quad, j: bv32)
    requires j < 32
    ensures Bit(S2(q).x3, j) == Bit(S2(Spread(Nibble(q, j))).x3, 0)
  {
  }

  /** S2 works position by position: output nibble j depends only on input nibble j. */
  lemma S2Local(q: Quad, j: bv32)
    requires j < 32
    ensures Nibble(S2(q), j) == Nibble(S2(Spread(Nibble(q, j))), 0)
  {
    S2Bit0(q, j);
    S2Bit1(q, j);
    S2Bit2(q, j);
    S2Bit3(q, j);
    NibbleCongruence(S2(q), j, S2(Spread(Nibble(q, j))), 0);
  }

  lemma InvS2Bit0(q: Quad, j: bv32)
    requires j < 32
    ensures Bit(InvS2(q).x0, j) == Bit(InvS2(Spread(Nibble(q, j))).x0, 0)
  {
  }

  lemma InvS2Bit1(q: Quad, j: bv32)
    requires j < 32
    ensures Bit(InvS2(q).x1, j) == Bit(InvS2(Spread(Nibble(q, j))).x1, 0)
  {
  }

  lemma InvS2Bit2(q: Quad, j: bv32)
    requires j < 32
    ensures Bit(InvS2(q).x2, j) == Bit(InvS2(Spread(Nibble(q, j))).x2, 0)
  {
  }

  lemma InvS2Bit3(q: Quad, j: bv32)
    requires j < 32
    ensures Bit(InvS2(q).x3, j) == Bit(InvS2(Spread(Nibble(q, j))).x3, 0)
  {
  }

  /** InvS2 works position by position: output nibble j depends only on input nibble j. */
  lemma InvS2Local(q: Quad, j: bv32)
    requires j < 32
    ensures Nibble(InvS2(q), j) == Nibble(InvS2(Spread(Nibble(q, j))), 0)
  {
    InvS2Bit0(q, j);
    InvS2Bit1(q, j);
    InvS2Bit2(q, j);
    InvS2Bit3(q, j);
    NibbleCongruence(InvS2(q), j, InvS2(Spread(Nibble(q, j))), 0);
  }

  lemma S2Table(n: bv32)
    requires n < 16
    ensures Nibble(S2(Spread(n)), 0) == SBoxRows[2][n as int]
  {
  }

  lemma InvS2Table(n: bv32)
    requires n < 16
    ensures Nibble(InvS2(Spread(SBoxRows[2][n as int])), 0) == n
  {
  }

  /** At every bit position the formula for S-box 2 computes table row 2. */
  lemma S2MatchesTable(q: Quad, j: bv32)
    requires j < 32
    ensures Nibble(q, j) < 16 && Nibble(S2(q), j) == SBoxRows[2][Nibble(q, j) as int]
  {
    NibbleBound(q, j);
    S2Local(q, j);
    S2Table(Nibble(q, j));
  }

  /** At every bit position the inverse formula restores the nibble S-box 2 consumed. */
  lemma InvS2NibbleInverse(q: Quad, j: bv32)
    requires j < 32
    ensures Nibble(InvS2(S2(q)), j) == Nibble(q, j)
  {
    S2MatchesTable(q, j);
    InvS2Local(S2(q), j);
    InvS2Table(Nibble(q, j));
  }

  /** The inverse formula undoes the formula for S-box 2. */
  lemma InvS2Inverse(q: Quad)
    ensures InvS2(S2(q)) == q
  {
    InvS2NibbleInverse(q, 0);
    InvS2NibbleInverse(q, 1);
    InvS2NibbleInverse(q, 2);
    InvS2NibbleInverse(q, 3);
    InvS2NibbleInverse(q, 4);
    InvS2NibbleInverse(q, 5);
    InvS2NibbleInverse(q, 6);
    InvS2NibbleInverse(q, 7);
    InvS2NibbleInverse(q, 8);
    InvS2NibbleInverse(q, 9);
    InvS2NibbleInverse(q, 10);
    InvS2NibbleInverse(q, 11);
    InvS2NibbleInverse(q, 12);
    InvS2NibbleInverse(q, 13);
    InvS2NibbleInverse(q, 14);
    InvS2NibbleInverse(q, 15);
    InvS2NibbleInverse(q, 16);
    InvS2NibbleInverse(q, 17);
    InvS2NibbleInverse(q, 18);
    InvS2NibbleInverse(q, 19);
    InvS2NibbleInverse(q, 20);
    InvS2NibbleInverse(q, 21);
    InvS2NibbleInverse(q, 22);
    InvS2NibbleInverse(q, 23);
    InvS2NibbleInverse(q, 24);
    InvS2NibbleInverse(q, 25);
    InvS2NibbleInverse(q, 26);
    InvS2NibbleInverse(q, 27);
    InvS2NibbleInverse(q, 28);
    InvS2NibbleInverse(q, 29);
    InvS2NibbleInverse(q, 30);
    InvS2NibbleInverse(q, 31);
    QuadExt(InvS2(S2(q)), q);
  }

  // ---- S-box 3 ----

  lemma S3Bit0(q: Quad, j: bv32)
    requires j < 32
    ensures Bit(S3(q).x0, j) == Bit(S3(Spread(Nibble(q, j))).x0, 0)
  {
  }

  lemma S3Bit1(q: Quad, j: bv32)
    requires j < 32
    ensures Bit(S3(q).x1, j) == Bit(S3(Spread(Nibble(q, j))).x1, 0)
  {
  }

  lemma S3Bit2(q: Quad, j: bv32)
    requires j < 32
    ensures Bit(S3(q).x2, j) == Bit(S3(Spread(Nibble(q, j))).x2, 0)
  {
  }

  lemma S3Bit3(q: Quad, j: bv32)
    requires j < 32
    ensures Bit(S3(q).x3, j) == Bit(S3(Spread(Nibble(q, j))).x3, 0)
  {
  }

  /** S3 works position by position: output nibble j depends only on input nibble j. */
  lemma S3Local(q: Quad, j: bv32)
    requires j < 32
    ensures Nibble(S3(q), j) == Nibble(S3(Spread(Nibble(q, j))), 0)
  {
    S3Bit0(q, j);
    S3Bit1(q, j);
    S3Bit2(q, j);
    S3Bit3(q, j);
    NibbleCongruence(S3(q), j, S3(Spread(Nibble(q, j))), 0);
  }

  lemma InvS3Bit0(q: Quad, j: bv32)
    requires j < 32
    ensures Bit(InvS3(q).x0, j) == Bit(InvS3(Spread(Nibble(q, j))).x0, 0)
  {
  }

  lemma InvS3Bit1(q: Quad, j: bv32)
    requires j < 32
    ensures Bit(InvS3(q).x1, j) == Bit(InvS3(Spread(Nibble(q, j))).x1, 0)
  {
  }

  lemma InvS3Bit2(q: Quad, j: bv32)
    requires j < 32
    ensures Bit(InvS3(q).x2, j) == Bit(InvS3(Spread(Nibble(q, j))).x2, 0)
  {
  }

  lemma InvS3Bit3(q: Quad, j: bv32)
    requires j < 32
    ensures Bit(InvS3(q).x3, j) == Bit(InvS3(Spread(Nibble(q, j))).x3, 0)
  {
  }

  /** InvS3 works position by position: output nibble j depends only on input nibble j. */
  lemma InvS3Local(q: Quad, j: bv32)
    requires j < 32
    ensures Nibble(InvS3(q), j) == Nibble(InvS3(Spread(Nibble(q, j))), 0)
  {
    InvS3Bit0(q, j);
    InvS3Bit1(q, j);
    InvS3Bit2(q, j);
    InvS3Bit3(q, j);
    NibbleCongruence(InvS3(q), j, InvS3(Spread(Nibble(q, j))), 0);
  }

  lemma S3Table(n: bv32)
    requires n < 16
    ensures Nibble(S3(Spread(n)), 0) == SBoxRows[3][n as int]
  {
  }

  lemma InvS3Table(n: bv32)
    requires n < 16
    ensures Nibble(InvS3(Spread(SBoxRows[3][n as int])), 0) == n
  {
  }

  /** At every bit position the formula for S-box 3 computes table row 3. */
  lemma S3MatchesTable(q: Quad, j: bv32)
    requires j < 32
    ensures Nibble(q, j) < 16 && Nibble(S3(q), j) == SBoxRows[3][Nibble(q, j) as int]
  {
    NibbleBound(q, j);
    S3Local(q, j);
    S3Table(Nibble(q, j));
  }

  /** At every bit position the inverse formula restores the nibble S-box 3 consumed. */
  lemma InvS3NibbleInverse(q: Quad, j: bv32)
    requires j < 32
    ensures Nibble(InvS3(S3(q)), j) == Nibble(q, j)
  {
    S3MatchesTable(q, j);
    InvS3Local(S3(q), j);
    InvS3Table(Nibble(q, j));
  }

  /** The inverse formula undoes the formula for S-box 3. */
  lemma InvS3Inverse(q: Quad)
    ensures InvS3(S3(q)) == q
  {
    InvS3NibbleInverse(q, 0);
    InvS3NibbleInverse(q, 1);
    InvS3NibbleInverse(q, 2);
    InvS3NibbleInverse(q, 3);
    InvS3NibbleInverse(q, 4);
    InvS3NibbleInverse(q, 5);
    InvS3NibbleInverse(q, 6);
    InvS3NibbleInverse(q, 7);
    InvS3NibbleInverse(q, 8);
    InvS3NibbleInverse(q, 9);
    InvS3NibbleInverse(q, 10);
    InvS3NibbleInverse(q, 11);
    InvS3NibbleInverse(q, 12);
    InvS3NibbleInverse(q, 13);
    InvS3NibbleInverse(q, 14);
    InvS3NibbleInverse(q, 15);
    InvS3NibbleInverse(q, 16);
    InvS3NibbleInverse(q, 17);
    InvS3NibbleInverse(q, 18);
    InvS3NibbleInverse(q, 19);
    InvS3NibbleInverse(q, 20);
    InvS3NibbleInverse(q, 21);
    InvS3NibbleInverse(q, 22);
    InvS3NibbleInverse(q, 23);
    InvS3NibbleInverse(q, 24);
    InvS3NibbleInverse(q, 25);
    InvS3NibbleInverse(q, 26);
    InvS3NibbleInverse(q, 27);
    InvS3NibbleInverse(q, 28);
    InvS3NibbleInverse(q, 29);
    InvS3NibbleInverse(q, 30);
    InvS3NibbleInverse(q, 31);
    QuadExt(InvS3(S3(q)), q);
  }

  // ---- S-box 4 ----

  lemma S4Bit0(q: Quad, j: bv32)
    requires j < 32
    ensures Bit(S4(q).x0, j) == Bit(S4(Spread(Nibble(q, j))).x0, 0)
  {
  }

  lemma S4Bit1(q: Quad, j: bv32)
    requires j < 32
    ensures Bit(S4(q).x1, j) == Bit(S4(Spread(Nibble(q, j))).x1, 0)
  {
  }

  lemma S4Bit2(q: Quad, j: bv32)
    requires j < 32
    ensures Bit(S4(q).x2, j) == Bit(S4(Spread(Nibble(q, j))).x2, 0)
  {
  }

  lemma S4Bit3(q: Quad, j: bv32)
    requires j < 32
    ensures Bit(S4(q).x3, j) == Bit(S4(Spread(Nibble(q, j))).x3, 0)
  {
  }

  /** S4 works position by position: output nibble j depends only on input nibble j. */
  lemma S4Local(q: Quad, j: bv32)
    requires j < 32
    ensures Nibble(S4(q), j) == Nibble(S4(Spread(Nibble(q, j))), 0)
  {
    S4Bit0(q, j);
    S4Bit1(q, j);
    S4Bit2(q, j);
    S4Bit3(q, j);
    NibbleCongruence(S4(q), j, S4(Spread(Nibble(q, j))), 0);
  }

  lemma InvS4Bit0(q: Quad, j: bv32)
    requires j < 32
    ensures Bit(InvS4(q).x0, j) == Bit(InvS4(Spread(Nibble(q, j))).x0, 0)
  {
  }

  lemma InvS4Bit1(q: Quad, j: bv32)
    requires j < 32
    ensures Bit(InvS4(q).x1, j) == Bit(InvS4(Spread(Nibble(q, j))).x1, 0)
  {
  }

  lemma InvS4Bit2(q: Quad, j: bv32)
    requires j < 32
    ensures Bit(InvS4(q).x2, j) == Bit(InvS4(Spread(Nibble(q, j))).x2, 0)
  {
  }

  lemma InvS4Bit3(q: Quad, j: bv32)
    requires j < 32
    ensures Bit(InvS4(q).x3, j) == Bit(InvS4(Spread(Nibble(q, j))).x3, 0)
  {
  }

  /** InvS4 works position by position: output nibble j depends only on input nibble j. */
  lemma InvS4Local(q: Quad, j: bv32)
    requires j < 32
    ensures Nibble(InvS4(q), j) == Nibble(InvS4(Spread(Nibble(q, j))), 0)
  {
    InvS4Bit0(q, j);
    InvS4Bit1(q, j);
    InvS4Bit2(q, j);
    InvS4Bit3(q, j);
    NibbleCongruence(InvS4(q), j, InvS4(Spread(Nibble(q, j))), 0);
  }

  lemma S4Table(n: bv32)
    requires n < 16
    ensures Nibble(S4(Spread(n)), 0) == SBoxRows[4][n as int]
  {
  }

  lemma InvS4Table(n: bv32)
    requires n < 16
    ensures Nibble(InvS4(Spread(SBoxRows[4][n as int])), 0) == n
  {
  }

  /** At every bit position the formula for S-box 4 computes table row 4. */
  lemma S4MatchesTable(q: Quad, j: bv32)
    requires j < 32
    ensures Nibble(q, j) < 16 && Nibble(S4(q), j) == SBoxRows[4][Nibble(q, j) as int]
  {
    NibbleBound(q, j);
    S4Local(q, j);
    S4Table(Nibble(q, j));
  }

  /** At every bit position the inverse formula restores the nibble S-box 4 consumed. */
  lemma InvS4NibbleInverse(q: Quad, j: bv32)
    requires j < 32
    ensures Nibble(InvS4(S4(q)), j) == Nibble(q, j)
  {
    S4MatchesTable(q, j);
    InvS4Local(S4(q), j);
    InvS4Table(Nibble(q, j));
  }

  /** The inverse formula undoes the formula for S-box 4. */
  lemma InvS4Inverse(q: Quad)
    ensures InvS4(S4(q)) == q
  {
    InvS4NibbleInverse(q, 0);
    InvS4NibbleInverse(q, 1);
    InvS4NibbleInverse(q, 2);
    InvS4NibbleInverse(q, 3);
    InvS4NibbleInverse(q, 4);
    InvS4NibbleInverse(q, 5);
    InvS4NibbleInverse(q, 6);
    InvS4NibbleInverse(q, 7);
    InvS4NibbleInverse(q, 8);
    InvS4NibbleInverse(q, 9);
    InvS4NibbleInverse(q, 10);
    InvS4NibbleInverse(q, 11);
    InvS4NibbleInverse(q, 12);
    InvS4NibbleInverse(q, 13);
    InvS4NibbleInverse(q, 14);
    InvS4NibbleInverse(q, 15);
    InvS4NibbleInverse(q, 16);
    InvS4NibbleInverse(q, 17);
    InvS4NibbleInverse(q, 18);
    InvS4NibbleInverse(q, 19);
    InvS4NibbleInverse(q, 20);
    InvS4NibbleInverse(q, 21);
    InvS4NibbleInverse(q, 22);
    InvS4NibbleInverse(q, 23);
    InvS4NibbleInverse(q, 24);
    InvS4NibbleInverse(q, 25);
    InvS4NibbleInverse(q, 26);
    InvS4NibbleInverse(q, 27);
    InvS4NibbleInverse(q, 28);
    InvS4NibbleInverse(q, 29);
    InvS4NibbleInverse(q, 30);
    InvS4NibbleInverse(q, 31);
    QuadExt(InvS4(S4(q)), q);
  }

  // ---- S-box 5 ----

  lemma S5Bit0(q: Quad, j: bv32)
    requires j < 32
    ensures Bit(S5(q).x0, j) == Bit(S5(Spread(Nibble(q, j))).x0, 0)
  {
  }

  lemma S5Bit1(q: Quad, j: bv32)
    requires j < 32
    ensures Bit(S5(q).x1, j) == Bit(S5(Spread(Nibble(q, j))).x1, 0)
  {
  }

  lemma S5Bit2(q: Quad, j: bv32)
    requires j < 32
    ensures Bit(S5(q).x2, j) == Bit(S5(Spread(Nibble(q, j))).x2, 0)
  {
  }

  lemma S5Bit3(q: Quad, j: bv32)
    requires j < 32
    ensures Bit(S5(q).x3, j) == Bit(S5(Spread(Nibble(q, j))).x3, 0)
  {
  }

  /** S5 works position by position: output nibble j depends only on input nibble j. */
  lemma S5Local(q: Quad, j: bv32)
    requires j < 32
    ensures Nibble(S5(q), j) == Nibble(S5(Spread(Nibble(q, j))), 0)
  {
    S5Bit0(q, j);
    S5Bit1(q, j);
    S5Bit2(q, j);
    S5Bit3(q, j);
    NibbleCongruence(S5(q), j, S5(Spread(Nibble(q, j))), 0);
  }

  lemma InvS5Bit0(q: Quad, j: bv32)
    requires j < 32
    ensures Bit(InvS5(q).x0, j) == Bit(InvS5(Spread(Nibble(q, j))).x0, 0)
  {
  }

  lemma InvS5Bit1(q: Quad, j: bv32)
    requires j < 32
    ensures Bit(InvS5(q).x1, j) == Bit(InvS5(Spread(Nibble(q, j))).x1, 0)
  {
  }

  lemma InvS5Bit2(q: Quad, j: bv32)
    requires j < 32
    ensures Bit(InvS5(q).x2, j) == Bit(InvS5(Spread(Nibble(q, j))).x2, 0)
  {
  }

  lemma InvS5Bit3(q: Quad, j: bv32)
    requires j < 32
    ensures Bit(InvS5(q).x3, j) == Bit(InvS5(Spread(Nibble(q, j))).x3, 0)
  {
  }

  /** InvS5 works position by position: output nibble j depends only on input nibble j. */
  lemma InvS5Local(q: Quad, j: bv32)
    requires j < 32
    ensures Nibble(InvS5(q), j) == Nibble(InvS5(Spread(Nibble(q, j))), 0)
  {
    InvS5Bit0(q, j);
    InvS5Bit1(q, j);
    InvS5Bit2(q, j);
    InvS5Bit3(q, j);
    NibbleCongruence(InvS5(q), j, InvS5(Spread(Nibble(q, j))), 0);
  }

  lemma S5Table(n: bv32)
    requires n < 16
    ensures Nibble(S5(Spread(n)), 0) == SBoxRows[5][n as int]
  {
  }

  lemma InvS5Table(n: bv32)
    requires n < 16
    ensures Nibble(InvS5(Spread(SBoxRows[5][n as int])), 0) == n
  {
  }

  /** At every bit position the formula for S-box 5 computes table row 5. */
  lemma S5MatchesTable(q: Quad, j: bv32)
    requires j < 32
    ensures Nibble(q, j) < 16 && Nibble(S5(q), j) == SBoxRows[5][Nibble(q, j) as int]
  {
    NibbleBound(q, j);
    S5Local(q, j);
    S5Table(Nibble(q, j));
  }

  /** At every bit position the inverse formula restores the nibble S-box 5 consumed. */
  lemma InvS5NibbleInverse(q: Quad, j: bv32)
    requires j < 32
    ensures Nibble(InvS5(S5(q)), j) == Nibble(q, j)
  {
    S5MatchesTable(q, j);
    InvS5Local(S5(q), j);
    InvS5Table(Nibble(q, j));
  }

  /** The inverse formula undoes the formula for S-box 5. */
  lemma InvS5Inverse(q: Quad)
    ensures InvS5(S5(q)) == q
  {
    InvS5NibbleInverse(q, 0);
    InvS5NibbleInverse(q, 1);
    InvS5NibbleInverse(q, 2);
    InvS5NibbleInverse(q, 3);
    InvS5NibbleInverse(q, 4);
    InvS5NibbleInverse(q, 5);
    InvS5NibbleInverse(q, 6);
    InvS5NibbleInverse(q, 7);
    InvS5NibbleInverse(q, 8);
    InvS5NibbleInverse(q, 9);
    InvS5NibbleInverse(q, 10);
    InvS5NibbleInverse(q, 11);
    InvS5NibbleInverse(q, 12);
    InvS5NibbleInverse(q, 13);
    InvS5NibbleInverse(q, 14);
    InvS5NibbleInverse(q, 15);
    InvS5NibbleInverse(q, 16);
    InvS5NibbleInverse(q, 17);
    InvS5NibbleInverse(q, 18);
    InvS5NibbleInverse(q, 19);
    InvS5NibbleInverse(q, 20);
    InvS5NibbleInverse(q, 21);
    InvS5NibbleInverse(q, 22);
    InvS5NibbleInverse(q, 23);
    InvS5NibbleInverse(q, 24);
    InvS5NibbleInverse(q, 25);
    InvS5NibbleInverse(q, 26);
    InvS5NibbleInverse(q, 27);
    InvS5NibbleInverse(q, 28);
    InvS5NibbleInverse(q, 29);
    InvS5NibbleInverse(q, 30);
    InvS5NibbleInverse(q, 31);
    QuadExt(InvS5(S5(q)), q);
  }

  // ---- S-box 6 ----

  lemma S6Bit0(q: Quad, j: bv32)
    requires j < 32
    ensures Bit(S6(q).x0, j) == Bit(S6(Spread(Nibble(q, j))).x0, 0)
  {
  }

  lemma S6Bit1(q: Quad, j: bv32)
    requires j < 32
    ensures Bit(S6(q).x1, j) == Bit(S6(Spread(Nibble(q, j))).x1, 0)
  {
  }

  lemma S6Bit2(q: Quad, j: bv32)
    requires j < 32
    ensures Bit(S6(q).x2, j) == Bit(S6(Spread(Nibble(q, j))).x2, 0)
  {
  }

  lemma S6Bit3(q: Quad, j: bv32)
    requires j < 32
    ensures Bit(S6(q).x3, j) == Bit(S6(Spread(Nibble(q, j))).x3, 0)
  {
  }

  /** S6 works position by position: output nibble j depends only on input nibble j. */
  lemma S6Local(q: Quad, j: bv32)
    requires j < 32
    ensures Nibble(S6(q), j) == Nibble(S6(Spread(Nibble(q, j))), 0)
  {
    S6Bit0(q, j);
    S6Bit1(q, j);
    S6Bit2(q, j);
    S6Bit3(q, j);
    NibbleCongruence(S6(q), j, S6(Spread(Nibble(q, j))), 0);
  }

  lemma InvS6Bit0(q: Quad, j: bv32)
    requires j < 32
    ensures Bit(InvS6(q).x0, j) == Bit(InvS6(Spread(Nibble(q, j))).x0, 0)
  {
  }

  lemma InvS6Bit1(q: Quad, j: bv32)
    requires j < 32
    ensures Bit(InvS6(q).x1, j) == Bit(InvS6(Spread(Nibble(q, j))).x1, 0)
  {
  }

  lemma InvS6Bit2(q: Quad, j: bv32)
    requires j < 32
    ensures Bit(InvS6(q).x2, j) == Bit(InvS6(Spread(Nibble(q, j))).x2, 0)
  {
  }

  lemma InvS6Bit3(q: Quad, j: bv32)
    requires j < 32
    ensures Bit(InvS6(q).x3, j) == Bit(InvS6(Spread(Nibble(q, j))).x3, 0)
  {
  }

  /** InvS6 works position by position: output nibble j depends only on input nibble j. */
  lemma InvS6Local(q: Quad, j: bv32)
    requires j < 32
    ensures Nibble(InvS6(q), j) == Nibble(InvS6(Spread(Nibble(q, j))), 0)
  {
    InvS6Bit0(q, j);
    InvS6Bit1(q, j);
    InvS6Bit2(q, j);
    InvS6Bit3(q, j);
    NibbleCongruence(InvS6(q), j, InvS6(Spread(Nibble(q, j))), 0);
  }

  lemma S6Table(n: bv32)
    requires n < 16
    ensures Nibble(S6(Spread(n)), 0) == SBoxRows[6][n as int]
  {
  }

  lemma InvS6Table(n: bv32)
    requires n < 16
    ensures Nibble(InvS6(Spread(SBoxRows[6][n as int])), 0) == n
  {
  }

  /** At every bit position the formula for S-box 6 computes table row 6. */
  lemma S6MatchesTable(q: Quad, j: bv32)
    requires j < 32
    ensures Nibble(q, j) < 16 && Nibble(S6(q), j) == SBoxRows[6][Nibble(q, j) as int]
  {
    NibbleBound(q, j);
    S6Local(q, j);
    S6Table(Nibble(q, j));
  }

  /** At every bit position the inverse formula restores the nibble S-box 6 consumed. */
  lemma InvS6NibbleInverse(q: Quad, j: bv32)
    requires j < 32
    ensures Nibble(InvS6(S6(q)), j) == Nibble(q, j)
  {
    S6MatchesTable(q, j);
    InvS6Local(S6(q), j);
    InvS6Table(Nibble(q, j));
  }

  /** The inverse formula undoes the formula for S-box 6. */
  lemma InvS6Inverse(q: Quad)
    ensures InvS6(S6(q)) == q
  {
    InvS6NibbleInverse(q, 0);
    InvS6NibbleInverse(q, 1);
    InvS6NibbleInverse(q, 2);
    InvS6NibbleInverse(q, 3);
    InvS6NibbleInverse(q, 4);
    InvS6NibbleInverse(q, 5);
    InvS6NibbleInverse(q, 6);
    InvS6NibbleInverse(q, 7);
    InvS6NibbleInverse(q, 8);
    InvS6NibbleInverse(q, 9);
    InvS6NibbleInverse(q, 10);
    InvS6NibbleInverse(q, 11);
    InvS6NibbleInverse(q, 12);
    InvS6NibbleInverse(q, 13);
    InvS6NibbleInverse(q, 14);
    InvS6NibbleInverse(q, 15);
    InvS6NibbleInverse(q, 16);
    InvS6NibbleInverse(q, 17);
    InvS6NibbleInverse(q, 18);
    InvS6NibbleInverse(q, 19);
    InvS6NibbleInverse(q, 20);
    InvS6NibbleInverse(q, 21);
    InvS6NibbleInverse(q, 22);
    InvS6NibbleInverse(q, 23);
    InvS6NibbleInverse(q, 24);
    InvS6NibbleInverse(q, 25);
    InvS6NibbleInverse(q, 26);
    InvS6NibbleInverse(q, 27);
    InvS6NibbleInverse(q, 28);
    InvS6NibbleInverse(q, 29);
    InvS6NibbleInverse(q, 30);
    InvS6NibbleInverse(q, 31);
    QuadExt(InvS6(S6(q)), q);
  }

  // ---- S-box 7 ----

  lemma S7Bit0(q: Quad, j: bv32)
    requires j < 32
    ensures Bit(S7(q).x0, j) == Bit(S7(Spread(Nibble(q, j))).x0, 0)
  {
  }

  lemma S7Bit1(q: Quad, j: bv32)
    requires j < 32
    ensures Bit(S7(q).x1, j) == Bit(S7(Spread(Nibble(q, j))).x1, 0)
  {
  }

  lemma S7Bit2(q: Quad, j: bv32)
    requires j < 32
    ensures Bit(S7(q).x2, j) == Bit(S7(Spread(Nibble(q, j))).x2, 0)
  {
  }

  lemma S7Bit3(q: Quad, j: bv32)
    requires j < 32
    ensures Bit(S7(q).x3, j) == Bit(S7(Spread(Nibble(q, j))).x3, 0)
  {
  }

  /** S7 works position by position: output nibble j depends only on input nibble j. */
  lemma S7Local(q: Quad, j: bv32)
    requires j < 32
    ensures Nibble(S7(q), j) == Nibble(S7(Spread(Nibble(q, j))), 0)
  {
    S7Bit0(q, j);
    S7Bit1(q, j);
    S7Bit2(q, j);
    S7Bit3(q, j);
    NibbleCongruence(S7(q), j, S7(Spread(Nibble(q, j))), 0);
  }

  lemma InvS7Bit0(q: Quad, j: bv32)
    requires j < 32
    ensures Bit(InvS7(q).x0, j) == Bit(InvS7(Spread(Nibble(q, j))).x0, 0)
  {
  }

  lemma InvS7Bit1(q: Quad, j: bv32)
    requires j < 32
    ensures Bit(InvS7(q).x1, j) == Bit(InvS7(Spread(Nibble(q, j))).x1, 0)
  {
  }

  lemma InvS7Bit2(q: Quad, j: bv32)
    requires j < 32
    ensures Bit(InvS7(q).x2, j) == Bit(InvS7(Spread(Nibble(q, j))).x2, 0)
  {
  }

  lemma InvS7Bit3(q: Quad, j: bv32)
    requires j < 32
    ensures Bit(InvS7(q).x3, j) == Bit(InvS7(Spread(Nibble(q, j))).x3, 0)
  {
  }

  /** InvS7 works position by position: output nibble j depends only on input nibble j. */
  lemma InvS7Local(q: Quad, j: bv32)
    requires j < 32
    ensures Nibble(InvS7(q), j) == Nibble(InvS7(Spread(Nibble(q, j))), 0)
  {
    InvS7Bit0(q, j);
    InvS7Bit1(q, j);
    InvS7Bit2(q, j);
    InvS7Bit3(q, j);
    NibbleCongruence(InvS7(q), j, InvS7(Spread(Nibble(q, j))), 0);
  }

  lemma S7Table(n: bv32)
    requires n < 16
    ensures Nibble(S7(Spread(n)), 0) == SBoxRows[7][n as int]
  {
  }

  lemma InvS7Table(n: bv32)
    requires n < 16
    ensures Nibble(InvS7(Spread(SBoxRows[7][n as int])), 0) == n
  {
  }

  /** At every bit position the formula for S-box 7 computes table row 7. */
  lemma S7MatchesTable(q: Quad, j: bv32)
    requires j < 32
    ensures Nibble(q, j) < 16 && Nibble(S7(q), j) == SBoxRows[7][Nibble(q, j) as int]
  {
    NibbleBound(q, j);
    S7Local(q, j);
    S7Table(Nibble(q, j));
  }

  /** At every bit position the inverse formula restores the nibble S-box 7 consumed. */
  lemma InvS7NibbleInverse(q: Quad, j: bv32)
    requires j < 32
    ensures Nibble(InvS7(S7(q)), j) == Nibble(q, j)
  {
    S7MatchesTable(q, j);
    InvS7Local(S7(q), j);
    InvS7Table(Nibble(q, j));
  }

  /** The inverse formula undoes the formula for S-box 7. */
  lemma InvS7Inverse(q: Quad)
    ensures InvS7(S7(q)) == q
  {
    InvS7NibbleInverse(q, 0);
    InvS7NibbleInverse(q, 1);
    InvS7NibbleInverse(q, 2);
    InvS7NibbleInverse(q, 3);
    InvS7NibbleInverse(q, 4);
    InvS7NibbleInverse(q, 5);
    InvS7NibbleInverse(q, 6);
    InvS7NibbleInverse(q, 7);
    InvS7NibbleInverse(q, 8);
    InvS7NibbleInverse(q, 9);
    InvS7NibbleInverse(q, 10);
    InvS7NibbleInverse(q, 11);
    InvS7NibbleInverse(q, 12);
    InvS7NibbleInverse(q, 13);
    InvS7NibbleInverse(q, 14);
    InvS7NibbleInverse(q, 15);
    InvS7NibbleInverse(q, 16);
    InvS7NibbleInverse(q, 17);
    InvS7NibbleInverse(q, 18);
    InvS7NibbleInverse(q, 19);
    InvS7NibbleInverse(q, 20);
    InvS7NibbleInverse(q, 21);
    InvS7NibbleInverse(q, 22);
    InvS7NibbleInverse(q, 23);
    InvS7NibbleInverse(q, 24);
    InvS7NibbleInverse(q, 25);
    InvS7NibbleInverse(q, 26);
    InvS7NibbleInverse(q, 27);
    InvS7NibbleInverse(q, 28);
    InvS7NibbleInverse(q, 29);
    InvS7NibbleInverse(q, 30);
    InvS7NibbleInverse(q, 31);
    QuadExt(InvS7(S7(q)), q);
  }

  /** At every bit position the bitsliced S-box k computes table row k (for any k < 32). */
  lemma SBoxFormulaMatchesTable(k: nat, q: Quad, j: bv32)
    requires k < 32 && j < 32
    ensures Nibble(q, j) < 16 && Nibble(SBoxFormula(k, q), j) == SBoxTable[k][Nibble(q, j) as int]
  {
    SBoxTablePeriodic(k);
    match k % 8
    case 0 => S0MatchesTable(q, j);
    case 1 => S1MatchesTable(q, j);
    case 2 => S2MatchesTable(q, j);
    case 3 => S3MatchesTable(q, j);
    case 4 => S4MatchesTable(q, j);
    case 5 => S5MatchesTable(q, j);
    case 6 => S6MatchesTable(q, j);
    case _ => S7MatchesTable(q, j);
  }

  /** The inverse formula of index k undoes the formula of index k. */
  lemma SBoxFormulaInverse(k: nat, q: Quad)
    ensures InvSBoxFormula(k, SBoxFormula(k, q)) == q
  {
    match k % 8
    case 0 => InvS0Inverse(q);
    case 1 => InvS1Inverse(q);
    case 2 => InvS2Inverse(q);
    case 3 => InvS3Inverse(q);
    case 4 => InvS4Inverse(q);
    case 5 => InvS5Inverse(q);
    case 6 => InvS6Inverse(q);
    case _ => InvS7Inverse(q);
  }
}
