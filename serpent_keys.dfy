/**
 * The Serpent key schedule of Crypto/SerpentManagedTransform.cs as pure functions: the user key
 * padded to eight words (lines 130-151), the 132 prekeys of the recurrence with PHI and a rotation
 * by 11 (lines 90-110), the bit extraction GetBit (lines 153-157) and the 33 round subkeys
 * produced bit position by bit position through the S-box table (lines 111-127).
 * The imperative ComputeKeySchedule in serpent_transform.dfy is proved to compute these.
 */
module SerpentKeys {
  import opened Outcomes
  import opened Utils
  import opened SerpentSBoxes
  import opened SerpentLinear

  /** The fractional part of the golden ratio, mixed into every prekey. */
  const PHI: bv32 := 0x9e3779b9

  /** Number of prekeys and of round subkeys. */
  const PrekeyCount := 132
  const SubkeyCount := 33

  /** Word k of a little-endian byte string is its bytes 4k .. 4k+3, least significant first. */
  lemma {:induction false} WordOfBytes(s: seq<bv8>, k: nat)
    requires 4 * k + 4 <= |s|
    ensures |BytesToWords32LE(s)| > k
    ensures BytesToWords32LE(s)[k] == Word32LE(s[4 * k], s[4 * k + 1], s[4 * k + 2], s[4 * k + 3])
    decreases k
  {
    if k > 0 {
      WordOfBytes(s[4..], k - 1);
    }
  }

  /**
   * The user key padded to the full 256 bits: words read little-endian from the key, then a single
   * 1 word after a 128- or 192-bit key, then zeros. A key shorter than 16 bytes, or longer than 16
   * but not 24 bytes and shorter than 32, makes the source read past the key's end. Bytes beyond
   * the 32nd are ignored.
   */
  function FullLengthKey(key: seq<bv8>): (r: Result<seq<bv32>>)
    ensures r.Success? <==> |key| == 16 || |key| == 24 || |key| >= 32
    ensures r.Failure? ==> r.error == IndexOutOfRange
    ensures r.Success? ==> |r.value| == 8
  {
    if |key| < 16 then Failure(IndexOutOfRange)
    else
      var low := BytesToWords32LE(key[..16]);
      if |key| > 16 then
        if |key| < 24 then Failure(IndexOutOfRange)
        else
          var middle := BytesToWords32LE(key[16..24]);
          if |key| > 24 then
            if |key| < 32 then Failure(IndexOutOfRange)
            else Success(low + middle + BytesToWords32LE(key[24..32]))
          else Success(low + middle + [1, 0])
      else Success(low + [1, 0, 0, 0])
  }

  /**
   * The padded key laid out from the words read from the key's bytes 0 .. 15, 16 .. 23 and
   * 24 .. 31, as far as the key reaches.
   */
  lemma FullLengthKeyLayout(key: seq<bv8>, low: seq<bv32>, middle: seq<bv32>, high: seq<bv32>)
    requires |key| == 16 || |key| == 24 || |key| == 32
    requires low == BytesToWords32LE(key[..16])
    requires |key| > 16 ==> middle == BytesToWords32LE(key[16..24])
    requires |key| > 24 ==> high == BytesToWords32LE(key[24..32])
    ensures FullLengthKey(key) == Success(if |key| == 16 then low + [1, 0, 0, 0]
                                          else if |key| == 24 then low + middle + [1, 0]
                                          else low + middle + high)
  {
  }

  /** Word k of a key, read little-endian from its bytes 4k .. 4k+3. */
  function KeyWord(key: seq<bv8>, k: nat): bv32
    requires 4 * k + 4 <= |key|
  {
    Word32LE(key[4 * k], key[4 * k + 1], key[4 * k + 2], key[4 * k + 3])
  }

  /** A 128-bit key fills words 0 .. 3; word 4 is 1 and words 5 .. 7 are 0. */
  lemma FullLengthKey16(key: seq<bv8>)
    requires |key| == 16
    ensures FullLengthKey(key).Success?
    ensures forall k :: 0 <= k < 4 ==> FullLengthKey(key).value[k] == KeyWord(key, k)
    ensures FullLengthKey(key).value[4..] == [1, 0, 0, 0]
  {
    WordsOfKeyPart(key, 0, 4);
  }

  /** A 192-bit key fills words 0 .. 5; word 6 is 1 and word 7 is 0. */
  lemma FullLengthKey24(key: seq<bv8>)
    requires |key| == 24
    ensures FullLengthKey(key).Success?
    ensures forall k :: 0 <= k < 6 ==> FullLengthKey(key).value[k] == KeyWord(key, k)
    ensures FullLengthKey(key).value[6..] == [1, 0]
  {
    WordsOfKeyPart(key, 0, 4);
    WordsOfKeyPart(key, 16, 2);
  }

  /** A 256-bit key (or a longer one, of which only the first 32 bytes count) fills all eight words. */
  lemma FullLengthKey32(key: seq<bv8>)
    requires |key| >= 32
    ensures FullLengthKey(key).Success?
    ensures forall k :: 0 <= k < 8 ==> FullLengthKey(key).value[k] == KeyWord(key, k)
  {
    var low, middle, high := BytesToWords32LE(key[..16]), BytesToWords32LE(key[16..24]), BytesToWords32LE(key[24..32]);
    var v := FullLengthKey(key).value;
    assert v == low + middle + high;
    forall k | 0 <= k < 8
      ensures v[k] == KeyWord(key, k)
    {
      if k < 4 {
        WordOfBytes(key[..16], k);
        assert v[k] == low[k];
      } else if k < 6 {
        WordOfBytes(key[16..24], k - 4);
        assert v[k] == middle[k - 4];
      } else {
        WordOfBytes(key[24..32], k - 6);
        assert v[k] == high[k - 6];
      }
    }
  }

  /** The words read from key[start .. start + 4n] are the key's words start/4 .. start/4 + n. */
  lemma WordsOfKeyPart(key: seq<bv8>, start: nat, n: nat)
    requires start % 4 == 0 && start + 4 * n <= |key|
    ensures |BytesToWords32LE(key[start..start + 4 * n])| == n
    ensures forall k {:trigger BytesToWords32LE(key[start..start + 4 * n])[k]} :: 0 <= k < n ==>
      BytesToWords32LE(key[start..start + 4 * n])[k] == KeyWord(key, start / 4 + k)
  {
    var part := key[start..start + 4 * n];
    forall k | 0 <= k < n
      ensures BytesToWords32LE(part)[k] == KeyWord(key, start / 4 + k)
    {
      WordOfBytes(part, k);
    }
  }

  /** working = a ^ b ^ c ^ d ^ PHI ^ i, then working << 11 | working >> 21: one prekey statement. */
  function PrekeyMix(a: bv32, b: bv32, c: bv32, d: bv32, i: bv32): bv32
  {
    var working := a ^ b ^ c ^ d ^ PHI ^ i;
    (working << 11) | (working >> 21)
  }

  /**
   * Prekey i: the mix of the words 8, 5, 3 and 1 places back in the register made of the padded
   * key followed by the prekeys, and of the index i itself.
   */
  function Prekey(fullKey: seq<bv32>, i: nat): bv32
    requires |fullKey| == 8 && i < PrekeyCount
    decreases i
  {
    PrekeyMix(if i >= 8 then Prekey(fullKey, i - 8) else fullKey[i],
              if i >= 5 then Prekey(fullKey, i - 5) else fullKey[i + 3],
              if i >= 3 then Prekey(fullKey, i - 3) else fullKey[i + 5],
              if i >= 1 then Prekey(fullKey, i - 1) else fullKey[i + 7],
              i as bv32)
  }

  /** The first n prekeys. */
  function Prekeys(fullKey: seq<bv32>, n: nat): (wk: seq<bv32>)
    requires |fullKey| == 8 && n <= PrekeyCount
    ensures |wk| == n
  {
    seq(n, i requires 0 <= i < n => Prekey(fullKey, i))
  }

  /**
   * Storing the mix of prekey i's register words at index i of a buffer whose first i words are
   * the first i prekeys makes its first i + 1 words the first i + 1 prekeys, and changes nothing
   * after index i.
   */
  lemma StoredPrekey(fullKey: seq<bv32>, before: seq<bv32>, after: seq<bv32>, i: nat, a: bv32, b: bv32, c: bv32, d: bv32)
    requires |fullKey| == 8 && i < |before| == PrekeyCount
    requires before[..i] == Prekeys(fullKey, i)
    requires a == if i >= 8 then before[i - 8] else fullKey[i]
    requires b == if i >= 5 then before[i - 5] else fullKey[i + 3]
    requires c == if i >= 3 then before[i - 3] else fullKey[i + 5]
    requires d == if i >= 1 then before[i - 1] else fullKey[i + 7]
    requires after == before[i := PrekeyMix(a, b, c, d, i as bv32)]
    ensures after[..i + 1] == Prekeys(fullKey, i + 1)
    ensures after[i + 1..] == before[i + 1..]
  {
    NextPrekey(fullKey, before[..i], i, a, b, c, d);
    assert after[..i + 1] == before[..i] + [after[i]];
  }

  /** The first n + 1 prekeys are the first n followed by prekey n. */
  lemma PrekeysSnoc(fullKey: seq<bv32>, n: nat)
    requires |fullKey| == 8 && n < PrekeyCount
    ensures Prekeys(fullKey, n + 1) == Prekeys(fullKey, n) + [Prekey(fullKey, n)]
  {
  }

  /** Mixing the four words the definition of prekey i names gives prekey i. */
  lemma PrekeyUnfold(fullKey: seq<bv32>, i: nat, a: bv32, b: bv32, c: bv32, d: bv32)
    requires |fullKey| == 8 && i < PrekeyCount
    requires a == if i >= 8 then Prekey(fullKey, i - 8) else fullKey[i]
    requires b == if i >= 5 then Prekey(fullKey, i - 5) else fullKey[i + 3]
    requires c == if i >= 3 then Prekey(fullKey, i - 3) else fullKey[i + 5]
    requires d == if i >= 1 then Prekey(fullKey, i - 1) else fullKey[i + 7]
    ensures PrekeyMix(a, b, c, d, i as bv32) == Prekey(fullKey, i)
  {
  }

  /**
   * One step of the recurrence: mixing the words 8, 5, 3 and 1 places back, taken from the first
   * i prekeys where they reach that far and from the padded key before that, extends the first i
   * prekeys by prekey i.
   */
  lemma NextPrekey(fullKey: seq<bv32>, wk: seq<bv32>, i: nat, a: bv32, b: bv32, c: bv32, d: bv32)
    requires |fullKey| == 8 && i < PrekeyCount
    requires wk == Prekeys(fullKey, i)
    requires a == if i >= 8 then wk[i - 8] else fullKey[i]
    requires b == if i >= 5 then wk[i - 5] else fullKey[i + 3]
    requires c == if i >= 3 then wk[i - 3] else fullKey[i + 5]
    requires d == if i >= 1 then wk[i - 1] else fullKey[i + 7]
    ensures Prekeys(fullKey, i + 1) == wk + [PrekeyMix(a, b, c, d, i as bv32)]
  {
    if i >= 8 { assert wk[i - 8] == Prekey(fullKey, i - 8); }
    if i >= 5 { assert wk[i - 5] == Prekey(fullKey, i - 5); }
    if i >= 3 { assert wk[i - 3] == Prekey(fullKey, i - 3); }
    if i >= 1 { assert wk[i - 1] == Prekey(fullKey, i - 1); }
    PrekeyUnfold(fullKey, i, a, b, c, d);
    PrekeysSnoc(fullKey, i);
  }

  /**
   * Bit p of the bit string formed by the words x[offset], x[offset + 1], ...: the source masks
   * word offset + (p >> 5) with 1 << (p & 31) and shifts the result down.
   */
  function GetBit(x: seq<bv32>, p: bv32, offset: int): (b: bv32)
    requires 0 <= offset + (p >> 5) as int < |x|
    ensures b == Bit(x[offset + (p >> 5) as int], p & 31)
  {
    var rotation := p & 31;
    (x[offset + (p >> 5) as int] & (1 << rotation)) >> rotation
  }

  /** The four prekeys that subkey i is made from. */
  function PrekeyQuad(wk: seq<bv32>, i: nat): Quad
    requires 4 * i + 3 < |wk|
  {
    Quad(wk[4 * i], wk[4 * i + 1], wk[4 * i + 2], wk[4 * i + 3])
  }

  /** The S-box table row that subkey i is made with: (32 + 3 - i) & 31. */
  function SubkeyBox(i: nat): (box: nat)
    requires i < SubkeyCount
    ensures box < 32 && box % 8 == (35 - i) % 8
  {
    (35 - i) % 32
  }

  /**
   * Word b of the subkey after the inner loop has run for bit positions 0 .. n-1: bit j of it is
   * bit b of the table entry that row gives for nibble j of w.
   */
  function SliceWord(row: seq<bv32>, w: Quad, b: bv32, n: bv32): bv32
    requires |row| == 16 && n <= 32 && b < 4
    decreases n as int
  {
    if n == 0 then 0
    else
      NibbleBound(w, n - 1);
      SliceWord(row, w, b, n - 1) | (Bit(row[Nibble(w, n - 1) as int], b) << (n - 1))
  }

  /** The four words of the subkey after the inner loop has run for bit positions 0 .. n-1. */
  function TableSlice(row: seq<bv32>, w: Quad, n: bv32): Quad
    requires |row| == 16 && n <= 32
  {
    Quad(SliceWord(row, w, 0, n), SliceWord(row, w, 1, n), SliceWord(row, w, 2, n), SliceWord(row, w, 3, n))
  }

  /** One more pass of the inner loop extends word b of the slice by bit position n. */
  lemma SliceWordStep(row: seq<bv32>, w: Quad, b: bv32, n: bv32)
    requires |row| == 16 && n < 32 && b < 4
    ensures Nibble(w, n) < 16
    ensures SliceWord(row, w, b, n + 1) == SliceWord(row, w, b, n) | (Bit(row[Nibble(w, n) as int], b) << n)
  {
    NibbleBound(w, n);
  }

  /** Or-ing bit b of the table entry for nibble n in at position n extends word b of the slice by that position. */
  lemma SliceWordNext(row: seq<bv32>, w: Quad, b: bv32, n: bv32, k: bv32, out: bv32)
    requires |row| == 16 && n < 32 && b < 4
    requires k == SliceWord(row, w, b, n)
    requires Nibble(w, n) < 16 && out == row[Nibble(w, n) as int]
    ensures SliceWord(row, w, b, n + 1) == k | (((out >> b) & 1) << n)
  {
    SliceWordStep(row, w, b, n);
  }

  /** Bit j of x | c << m is bit j of x, for every j other than m ... */
  lemma SetBitOther(x: bv32, c: bv32, m: bv32, j: bv32)
    requires c <= 1 && m < 32 && j < 32 && j != m
    ensures ((x | (c << m)) >> j) & 1 == (x >> j) & 1
  {
  }

  /** ... and bit m of it is bit m of x ORed with c. */
  lemma SetBitSame(x: bv32, c: bv32, m: bv32)
    requires c <= 1 && m < 32
    ensures ((x | (c << m)) >> m) & 1 == ((x >> m) & 1) | c
  {
  }

  lemma BitBound(x: bv32, j: bv32)
    requires j < 32
    ensures Bit(x, j) <= 1
  {
  }

  /** The pass for bit position n-1 sets that bit of the word, provided it was still clear ... */
  lemma SliceWordBitSame(row: seq<bv32>, w: Quad, b: bv32, n: bv32)
    requires |row| == 16 && 0 < n <= 32 && b < 4
    requires Bit(SliceWord(row, w, b, n - 1), n - 1) == 0
    ensures Nibble(w, n - 1) < 16
    ensures Bit(SliceWord(row, w, b, n), n - 1) == Bit(row[Nibble(w, n - 1) as int], b)
  {
    NibbleBound(w, n - 1);
    BitBound(row[Nibble(w, n - 1) as int], b);
    SetBitSame(SliceWord(row, w, b, n - 1), Bit(row[Nibble(w, n - 1) as int], b), n - 1);
  }

  /** ... and leaves the bits at all other positions alone. */
  lemma SliceWordBitOther(row: seq<bv32>, w: Quad, b: bv32, n: bv32, j: bv32)
    requires |row| == 16 && 0 < n <= 32 && b < 4 && j < 32 && j != n - 1
    ensures Bit(SliceWord(row, w, b, n), j) == Bit(SliceWord(row, w, b, n - 1), j)
  {
    NibbleBound(w, n - 1);
    BitBound(row[Nibble(w, n - 1) as int], b);
    SetBitOther(SliceWord(row, w, b, n - 1), Bit(row[Nibble(w, n - 1) as int], b), n - 1, j);
  }

  /**
   * After n passes, bit j of word b of the subkey is bit b of the table entry for nibble j of w
   * when j < n, and 0 otherwise.
   */
  lemma {:induction false} SliceWordBit(row: seq<bv32>, w: Quad, b: bv32, n: bv32, j: bv32)
    requires |row| == 16 && n <= 32 && b < 4 && j < 32
    ensures Nibble(w, j) < 16
    ensures Bit(SliceWord(row, w, b, n), j) == if j < n then Bit(row[Nibble(w, j) as int], b) else 0
    decreases n as int
  {
    NibbleBound(w, j);
    if n > 0 {
      SliceWordBit(row, w, b, n - 1, j);
      if j == n - 1 {
        SliceWordBitSame(row, w, b, n);
      } else {
        SliceWordBitOther(row, w, b, n, j);
      }
    }
  }

  /** A nibble is the four bits it is made of. */
  lemma NibbleOfBits(v: bv32)
    requires v < 16
    ensures Bit(v, 0) | (Bit(v, 1) << 1) | (Bit(v, 2) << 2) | (Bit(v, 3) << 3) == v
  {
  }

  /** Nibble j of the finished slice is the table entry for nibble j of w. */
  lemma TableSliceNibble(row: seq<bv32>, w: Quad, j: bv32)
    requires |row| == 16 && j < 32
    requires Nibble(w, j) < 16 && row[Nibble(w, j) as int] < 16
    ensures Nibble(TableSlice(row, w, 32), j) == row[Nibble(w, j) as int]
  {
    SliceWordBit(row, w, 0, 32, j);
    SliceWordBit(row, w, 1, 32, j);
    SliceWordBit(row, w, 2, 32, j);
    SliceWordBit(row, w, 3, 32, j);
    NibbleOfBits(row[Nibble(w, j) as int]);
  }

  /** Every row of the table has 16 entries. */
  lemma SBoxTableRowLength(k: nat)
    requires k < 32
    ensures |SBoxTable| == 32 && |SBoxTable[k]| == 16
  {
    SBoxRowIsPermutation(k);
  }

  /** Subkey i computed from the 132 prekeys: the slice of table row (35 - i) & 31 over prekeys 4i .. 4i+3. */
  function Subkey(wk: seq<bv32>, i: nat): Quad
    requires |wk| == PrekeyCount && i < SubkeyCount
  {
    SBoxTableRowLength(SubkeyBox(i));
    TableSlice(SBoxTable[SubkeyBox(i)], PrekeyQuad(wk, i), 32)
  }

  /** The 33 round subkeys. */
  function Subkeys(wk: seq<bv32>): (ks: seq<Quad>)
    requires |wk| == PrekeyCount
    ensures |ks| == SubkeyCount
    ensures forall i :: 0 <= i < SubkeyCount ==> ks[i] == Subkey(wk, i)
  {
    seq(SubkeyCount, i requires 0 <= i < SubkeyCount => Subkey(wk, i))
  }

  /**
   * The expanded key of a user key: the subkeys of the prekeys of the padded key, or the padding's
   * failure.
   */
  function ExpandKey(key: seq<bv8>): (r: Result<seq<Quad>>)
    ensures r.Success? <==> FullLengthKey(key).Success?
    ensures r.Success? ==> |r.value| == SubkeyCount
    ensures r.Failure? ==> r.error == IndexOutOfRange
  {
    match FullLengthKey(key)
    case Failure(e) => Failure(e)
    case Success(fullKey) => Success(Subkeys(Prekeys(fullKey, PrekeyCount)))
  }

  /**
   * Bit j of word b of subkey i is bit b of the table entry, in row (35 - i) & 31, for the nibble
   * made of bit j of prekeys 4i, 4i+1, 4i+2 and 4i+3.
   */
  lemma SubkeyBit(wk: seq<bv32>, i: nat, b: bv32, j: bv32)
    requires |wk| == PrekeyCount && i < SubkeyCount && b < 4 && j < 32
    ensures Nibble(PrekeyQuad(wk, i), j) < 16 && |SBoxTable[SubkeyBox(i)]| == 16
    ensures var out := SBoxTable[SubkeyBox(i)][Nibble(PrekeyQuad(wk, i), j) as int];
      var key := Subkey(wk, i);
      Bit(if b == 0 then key.x0 else if b == 1 then key.x1 else if b == 2 then key.x2 else key.x3, j) == Bit(out, b)
  {
    SBoxTableRowLength(SubkeyBox(i));
    SliceWordBit(SBoxTable[SubkeyBox(i)], PrekeyQuad(wk, i), b, 32, j);
  }

  /** Nibble j of a table slice of row k is nibble j of the bitsliced S-box formula for k. */
  lemma SubkeyNibble(k: nat, w: Quad, j: bv32)
    requires k < 32 && j < 32
    ensures |SBoxTable[k]| == 16
    ensures Nibble(TableSlice(SBoxTable[k], w, 32), j) == Nibble(SBoxFormula(k, w), j)
  {
    SBoxTableRowLength(k);
    SBoxFormulaMatchesTable(k, w, j);
    NibbleBound(SBoxFormula(k, w), j);
    TableSliceNibble(SBoxTable[k], w, j);
  }

  /** A table slice of row k over all 32 bit positions is S-box k applied bitsliced to the four words. */
  lemma TableSliceIsSBox(k: nat, w: Quad)
    requires k < 32
    ensures |SBoxTable[k]| == 16
    ensures TableSlice(SBoxTable[k], w, 32) == SBoxFormula(k, w)
  {
    SubkeyNibble(k, w, 0);
    SubkeyNibble(k, w, 1);
    SubkeyNibble(k, w, 2);
    SubkeyNibble(k, w, 3);
    SubkeyNibble(k, w, 4);
    SubkeyNibble(k, w, 5);
    SubkeyNibble(k, w, 6);
    SubkeyNibble(k, w, 7);
    SubkeyNibble(k, w, 8);
    SubkeyNibble(k, w, 9);
    SubkeyNibble(k, w, 10);
    SubkeyNibble(k, w, 11);
    SubkeyNibble(k, w, 12);
    SubkeyNibble(k, w, 13);
    SubkeyNibble(k, w, 14);
    SubkeyNibble(k, w, 15);
    SubkeyNibble(k, w, 16);
    SubkeyNibble(k, w, 17);
    SubkeyNibble(k, w, 18);
    SubkeyNibble(k, w, 19);
    SubkeyNibble(k, w, 20);
    SubkeyNibble(k, w, 21);
    SubkeyNibble(k, w, 22);
    SubkeyNibble(k, w, 23);
    SubkeyNibble(k, w, 24);
    SubkeyNibble(k, w, 25);
    SubkeyNibble(k, w, 26);
    SubkeyNibble(k, w, 27);
    SubkeyNibble(k, w, 28);
    SubkeyNibble(k, w, 29);
    SubkeyNibble(k, w, 30);
    SubkeyNibble(k, w, 31);
    QuadExt(TableSlice(SBoxTable[k], w, 32), SBoxFormula(k, w));
  }

  /**
   * Subkey i is S-box (3 - i) mod 8 applied bitsliced to prekeys 4i .. 4i+3: the table lookups of
   * the key schedule agree with the formulas of the rounds.
   */
  lemma SubkeyIsSBox(wk: seq<bv32>, i: nat)
    requires |wk| == PrekeyCount && i < SubkeyCount
    ensures Subkey(wk, i) == SBoxFormula(SubkeyBox(i), PrekeyQuad(wk, i))
    ensures SubkeyBox(i) % 8 == (35 - i) % 8
  {
    TableSliceIsSBox(SubkeyBox(i), PrekeyQuad(wk, i));
  }
}
